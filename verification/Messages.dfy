/** Reply messages as ranges of one list of fragments (lmserver/lmserver.c, struct conn). */
module Messages {
  type byte = x: int | 0 <= x < 256

  const UDP_MAX_PAYLOAD_SIZE: nat := 1400
  const UDP_HEADER_SIZE: nat := 8
  const IOV_MAX: nat := 1024

  /** One iovec: room for a UDP header, or bytes. */
  datatype Fragment = Header | Data(bytes: seq<byte>)

  /** One msghdr: a pointer into a list of fragments, and how many belong to the message. */
  datatype Msg = Msg(list: array<Fragment>, first: nat, count: nat)

  function Length(x: Fragment): nat {
    if x.Header? then UDP_HEADER_SIZE else |x.bytes|
  }

  function Size(frags: seq<Fragment>): nat {
    if frags == [] then 0 else Size(frags[..|frags| - 1]) + Length(frags[|frags| - 1])
  }

  /** The bytes of the reply, without headers. */
  function Bytes(frags: seq<Fragment>): seq<byte> {
    if frags == [] then [] else Bytes(frags[..|frags| - 1]) + if frags[|frags| - 1].Header? then [] else frags[|frags| - 1].bytes
  }

  lemma OneMore(frags: seq<Fragment>, x: Fragment)
    ensures Size(frags + [x]) == Size(frags) + Length(x)
    ensures Bytes(frags + [x]) == Bytes(frags) + if x.Header? then [] else x.bytes
  {
    assert (frags + [x])[..|frags|] == frags;
  }

  lemma NoBytes()
    ensures Bytes([]) == [] && Size([]) == 0
  {}

  lemma {:induction false} BytesAppend(f: seq<Fragment>, g: seq<Fragment>)
    ensures Bytes(f + g) == Bytes(f) + Bytes(g) && Size(f + g) == Size(f) + Size(g)
  {
    hide Bytes, Size, Length;
    if g == [] {
      assert f + g == f;
      NoBytes();
    } else {
      var n := |g| - 1;
      BytesAppend(f, g[..n]);
      assert f + g == (f + g[..n]) + [g[n]] && g == g[..n] + [g[n]];
      OneMore(f + g[..n], g[n]);
      OneMore(g[..n], g[n]);
    }
  }

  // ---------------------------------------------------------------- messages that tile the list

  ghost predicate Tiled(msgs: seq<Msg>, used: nat) {
    && NextFirst(msgs, used, 0) == 0
    && (forall i :: 0 <= i < |msgs| ==> msgs[i].first + msgs[i].count <= used)
    && (forall i :: 0 <= i < |msgs| ==> msgs[i].first + msgs[i].count == NextFirst(msgs, used, i + 1))
    && (forall i, j :: 0 <= i < j < |msgs| ==> msgs[i].first + msgs[i].count <= msgs[j].first)
  }

  /** Where message i begins; behind the last one, where the next will. */
  function NextFirst(msgs: seq<Msg>, used: nat, i: nat): nat
    requires i <= |msgs|
  {
    if i < |msgs| then msgs[i].first else used
  }

  ghost predicate Within(m: Msg, frags: seq<Fragment>) {
    m.first + m.count <= |frags|
  }

  function Part(m: Msg, frags: seq<Fragment>): seq<Fragment>
    requires Within(m, frags)
  {
    frags[m.first..m.first + m.count]
  }

  /** Datagrams, and the first message of a TCP reply, are limited in size. */
  predicate Limited(udp: bool, i: nat) {
    udp || i == 0
  }

  ghost predicate Fits(udp: bool, i: nat, m: Msg, frags: seq<Fragment>) {
    && Within(m, frags) && m.count <= IOV_MAX
    && (Limited(udp, i) ==> Size(Part(m, frags)) <= UDP_MAX_PAYLOAD_SIZE)
    && forall j :: m.first <= j < m.first + m.count ==> (frags[j].Header? <==> udp && j == m.first)
  }

  /** The message takes no more: it has as many fragments, or as many bytes, as it may have. */
  ghost predicate Full(udp: bool, i: nat, m: Msg, frags: seq<Fragment>) {
    Within(m, frags) && (m.count == IOV_MAX || (Limited(udp, i) && Size(Part(m, frags)) == UDP_MAX_PAYLOAD_SIZE))
  }

  /** All messages but the last are full. */
  ghost predicate Queue(udp: bool, msgs: seq<Msg>, frags: seq<Fragment>) {
    && Tiled(msgs, |frags|)
    && (forall i :: 0 <= i < |msgs| ==> Fits(udp, i, msgs[i], frags))
    && (forall i :: 0 <= i < |msgs| - 1 ==> Full(udp, i, msgs[i], frags))
  }

  /** A new message begins where the fragments end. */
  lemma MessageAdded(udp: bool, msgs: seq<Msg>, frags: seq<Fragment>, list: array<Fragment>)
    requires Queue(udp, msgs, frags) && (msgs != [] ==> Full(udp, |msgs| - 1, msgs[|msgs| - 1], frags))
    ensures Queue(udp, msgs + [Msg(list, |frags|, 0)], frags)
  {
    var m := Msg(list, |frags|, 0);
    var msgs' := msgs + [m];
    TiledMore(msgs, m, |frags|);
    EmptyFits(udp, |msgs|, m, frags);
    hide Fits, Full, Tiled;
    forall i | 0 <= i < |msgs'| ensures Fits(udp, i, msgs'[i], frags) { assert i < |msgs| ==> msgs'[i] == msgs[i]; }
    forall i | 0 <= i < |msgs'| - 1 ensures Full(udp, i, msgs'[i], frags) { assert msgs'[i] == msgs[i]; }
  }

  lemma TiledMore(msgs: seq<Msg>, m: Msg, used: nat)
    requires Tiled(msgs, used) && m.first == used && m.count == 0
    ensures Tiled(msgs + [m], used)
  {
    var msgs' := msgs + [m];
    forall i | 0 <= i < |msgs'| ensures msgs'[i].first + msgs'[i].count == NextFirst(msgs', used, i + 1) {
      assert i < |msgs| ==> msgs[i].first + msgs[i].count == NextFirst(msgs, used, i + 1);
    }
    assert msgs != [] ==> msgs[0].first == NextFirst(msgs, used, 0);
  }

  lemma EmptyFits(udp: bool, i: nat, m: Msg, frags: seq<Fragment>)
    requires m.first == |frags| && m.count == 0
    ensures Fits(udp, i, m, frags)
  {}

  /** The last message takes one more fragment. */
  function Longer(msgs: seq<Msg>): (r: seq<Msg>)
    requires msgs != []
    ensures |r| == |msgs|
  {
    var n := |msgs| - 1;
    msgs[n := msgs[n].(count := msgs[n].count + 1)]
  }

  lemma TiledLonger(msgs: seq<Msg>, used: nat)
    requires msgs != [] && Tiled(msgs, used)
    ensures Tiled(Longer(msgs), used + 1)
  {
    var msgs' := Longer(msgs);
    forall i | 0 <= i < |msgs'| ensures msgs'[i].first + msgs'[i].count == NextFirst(msgs', used + 1, i + 1) {
      assert msgs[i].first + msgs[i].count == NextFirst(msgs, used, i + 1);
    }
  }

  lemma FitsLonger(udp: bool, i: nat, m: Msg, frags: seq<Fragment>, x: Fragment)
    requires Fits(udp, i, m, frags)
    ensures Fits(udp, i, m, frags + [x])
  {
    assert Part(m, frags + [x]) == Part(m, frags);
  }

  lemma FullLonger(udp: bool, i: nat, m: Msg, frags: seq<Fragment>, x: Fragment)
    requires Full(udp, i, m, frags)
    ensures Full(udp, i, m, frags + [x])
  {
    hide Size;
    assert Part(m, frags + [x]) == Part(m, frags);
  }

  lemma LastFitsLonger(udp: bool, i: nat, m: Msg, m': Msg, frags: seq<Fragment>, x: Fragment)
    requires Fits(udp, i, m, frags) && m.first + m.count == |frags|
    requires m.count < IOV_MAX && (x.Header? <==> udp && m.count == 0) && m' == m.(count := m.count + 1)
    requires Limited(udp, i) ==> Size(Part(m, frags)) + Length(x) <= UDP_MAX_PAYLOAD_SIZE
    ensures Fits(udp, i, m', frags + [x]) && Within(m', frags + [x])
    ensures Size(Part(m', frags + [x])) == Size(Part(m, frags)) + Length(x)
  {
    hide Size;
    assert Part(m', frags + [x]) == Part(m, frags) + [x];
    OneMore(Part(m, frags), x);
  }

  lemma FragmentAdded(udp: bool, msgs: seq<Msg>, frags: seq<Fragment>, x: Fragment)
    requires msgs != [] && Queue(udp, msgs, frags)
    requires var m := msgs[|msgs| - 1];
             && Within(m, frags) && m.count < IOV_MAX && (x.Header? <==> udp && m.count == 0)
             && (Limited(udp, |msgs| - 1) ==> Size(Part(m, frags)) + Length(x) <= UDP_MAX_PAYLOAD_SIZE)
    ensures Queue(udp, Longer(msgs), frags + [x])
    ensures Within(Longer(msgs)[|msgs| - 1], frags + [x])
    ensures Size(Part(Longer(msgs)[|msgs| - 1], frags + [x])) == Size(Part(msgs[|msgs| - 1], frags)) + Length(x)
  {
    hide Size, Fits, Part, Length, Limited, Tiled;
    var n := |msgs| - 1;
    TiledLonger(msgs, |frags|);
    LastIsLast(msgs, |frags|);
    LastFitsLonger(udp, n, msgs[n], Longer(msgs)[n], frags, x);
    hide Full;
    forall i | 0 <= i < n ensures Fits(udp, i, msgs[i], frags + [x]) && Full(udp, i, msgs[i], frags + [x]) {
      FitsLonger(udp, i, msgs[i], frags, x);
      FullLonger(udp, i, msgs[i], frags, x);
    }
  }

  lemma LastIsLast(msgs: seq<Msg>, used: nat)
    requires msgs != [] && Tiled(msgs, used)
    ensures msgs[|msgs| - 1].first + msgs[|msgs| - 1].count == used
  {
    assert NextFirst(msgs, used, |msgs|) == used;
  }
}
