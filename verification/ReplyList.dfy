/** The scatter/gather list of a reply while it is put together (lmserver/lmserver.c, add_msghdr,
    ensure_iov_space, add_iov and build_udp_headers). */
module ReplyList {
  import opened Messages

  const IOV_LIST_INITIAL: nat := 400
  const MSG_LIST_INITIAL: nat := 10

  lemma QueueIgnoresList(udp: bool, msgs: seq<Msg>, msgs': seq<Msg>, frags: seq<Fragment>)
    requires Queue(udp, msgs, frags) && |msgs'| == |msgs|
    requires forall i :: 0 <= i < |msgs| ==> msgs'[i].first == msgs[i].first && msgs'[i].count == msgs[i].count
    ensures Queue(udp, msgs', frags)
  {
    hide Tiled, Fits;
    TiledIgnoresList(msgs, msgs', |frags|);
    forall i | 0 <= i < |msgs'| ensures Fits(udp, i, msgs'[i], frags) {
      FitsIgnoresList(udp, i, msgs[i], msgs'[i], frags);
    }
    hide Full;
    forall i | 0 <= i < |msgs'| - 1 ensures Full(udp, i, msgs'[i], frags) {
      FullIgnoresList(udp, i, msgs[i], msgs'[i], frags);
    }
  }

  lemma FullIgnoresList(udp: bool, i: nat, m: Msg, m': Msg, frags: seq<Fragment>)
    requires Full(udp, i, m, frags) && m'.first == m.first && m'.count == m.count
    ensures Full(udp, i, m', frags)
  {
    hide Size;
    PartIgnoresList(m, m', frags);
  }

  lemma FitsIgnoresList(udp: bool, i: nat, m: Msg, m': Msg, frags: seq<Fragment>)
    requires Fits(udp, i, m, frags) && m'.first == m.first && m'.count == m.count
    ensures Fits(udp, i, m', frags)
  {
    hide Size;
    PartIgnoresList(m, m', frags);
  }

  lemma TiledIgnoresList(msgs: seq<Msg>, msgs': seq<Msg>, used: nat)
    requires Tiled(msgs, used) && |msgs'| == |msgs|
    requires forall i :: 0 <= i < |msgs| ==> msgs'[i].first == msgs[i].first && msgs'[i].count == msgs[i].count
    ensures Tiled(msgs', used)
  {
    assert msgs != [] ==> msgs[0].first == NextFirst(msgs, used, 0);
    forall i | 0 <= i < |msgs'| ensures msgs'[i].first + msgs'[i].count == NextFirst(msgs', used, i + 1) {
      assert msgs[i].first + msgs[i].count == NextFirst(msgs, used, i + 1);
    }
  }

  lemma Ends(msgs: seq<Msg>, used: nat)
    requires Tiled(msgs, used)
    ensures NextFirst(msgs, used, 0) == 0
    ensures forall i :: 0 <= i < |msgs| ==> NextFirst(msgs, used, i + 1) == msgs[i].first + msgs[i].count
  {}

  lemma TiledOf(msgs: seq<Msg>, frags: seq<Fragment>, udp: bool)
    requires Queue(udp, msgs, frags)
    ensures Tiled(msgs, |frags|)
  {}

  /** Request id, number of the datagram and number of datagrams, high byte first, and two bytes of 0; bytes do not
      hold more than 8 bits. */
  function HeaderBytes(requestId: nat, i: nat, n: nat): (h: seq<byte>)
    requires requestId < 0x1_0000
    ensures |h| == UDP_HEADER_SIZE
  {
    [requestId / 256, requestId % 256, i / 256 % 256, i % 256, n / 256 % 256, n % 256, 0, 0]
  }

  /** Each pair of bytes, high byte first, gives back the request id, the number of the datagram and the number of
      datagrams, these two modulo 65536. */
  lemma HeaderReads(requestId: nat, i: nat, n: nat)
    requires requestId < 0x1_0000
    ensures var h := HeaderBytes(requestId, i, n);
            && h[0] as int * 256 + h[1] == requestId
            && h[2] as int * 256 + h[3] == i % 0x1_0000 && h[4] as int * 256 + h[5] == n % 0x1_0000
            && h[6] == 0 && h[7] == 0
  {
    LowBytes(i);
    LowBytes(n);
  }

  lemma LowBytes(i: nat)
    ensures (i / 256 % 256) * 256 + i % 256 == i % 0x1_0000
  {
    var q, r := i / 256, i % 256;
    assert i == q * 256 + r && q == (q / 256) * 256 + q % 256;
    assert i == (q / 256) * 0x1_0000 + ((q % 256) * 256 + r);
    RemainderIs(q / 256, (q % 256) * 256 + r);
  }

  lemma RemainderIs(k: nat, r: nat)
    requires r < 0x1_0000
    ensures (k * 0x1_0000 + r) % 0x1_0000 == r
  {}

  /** The headers tell the datagrams of a reply apart exactly if there are at most 65536 of them. */
  lemma HeadersDiffer(requestId: nat, n: nat)
    requires requestId < 0x1_0000
    ensures (forall i, j :: 0 <= i < j < n ==> HeaderBytes(requestId, i, n) != HeaderBytes(requestId, j, n)) <==> n <= 0x1_0000
  {
    forall i, j | 0 <= i < j < n && n <= 0x1_0000 ensures HeaderBytes(requestId, i, n) != HeaderBytes(requestId, j, n) {
      var h, g := HeaderBytes(requestId, i, n), HeaderBytes(requestId, j, n);
      assert h[2] as int * 256 + h[3] == i && g[2] as int * 256 + g[3] == j;
    }
    if n > 0x1_0000 {
      assert HeaderBytes(requestId, 0, n) == HeaderBytes(requestId, 0x1_0000, n);
    }
  }

  /** Nothing is left to fill in, and the messages tile the fragments. */
  ghost predicate Ready(msgs: seq<Msg>, frags: seq<Fragment>) {
    Tiled(msgs, |frags|) && forall j :: 0 <= j < |frags| ==> frags[j].Data?
  }

  /** The datagram is its header and the bytes it had, and no longer than a datagram may be. */
  ghost predicate Built(m: Msg, frags: seq<Fragment>, frags': seq<Fragment>, header: seq<byte>) {
    && Within(m, frags) && Within(m, frags')
    && Bytes(Part(m, frags')) == header + Bytes(Part(m, frags))
    && |Bytes(Part(m, frags'))| <= UDP_MAX_PAYLOAD_SIZE
  }

  /** What transmit reports. */
  datatype Outcome = Complete | Incomplete | SoftError | HardError

  class Conn {
    var iov: array<Fragment>
    var iovused: nat
    var msglist: array<Msg>
    var msgused: nat
    /** Bytes in the current message. */
    var msgbytes: nat
    /** The message being sent. */
    var msgcurr: nat
    const udp: bool
    /** All bytes of the reply as it is sent, and those sent so far. */
    ghost var queued: seq<byte>
    ghost var sent: seq<byte>

    ghost function Frags(): (f: seq<Fragment>)
      reads this`iov, this`iovused, iov
      requires iovused <= iov.Length
      ensures |f| == iovused
    {
      iov[..iovused]
    }

    ghost function Msgs(): (m: seq<Msg>)
      reads this`msglist, this`msgused, msglist
      requires msgused <= msglist.Length
      ensures |m| == msgused
    {
      msglist[..msgused]
    }

    /** The reply so far, without headers. */
    ghost function Payload(): seq<byte>
      reads this`iov, this`iovused, iov
      requires iovused <= iov.Length
    {
      Bytes(Frags())
    }

    /** Everything fits its array, and every message points into the current list. */
    ghost predicate InLists()
      reads this`iov, this`iovused, this`msglist, this`msgused, msglist
    {
      && 0 < iov.Length && iovused <= iov.Length
      && 0 < msglist.Length && msgused <= msglist.Length
      && forall i :: 0 <= i < msgused ==> msglist[i].list == iov
    }

    ghost predicate Valid()
      reads this`iov, this`iovused, this`msglist, this`msgused, this`msgbytes, iov, msglist
      ensures Valid() ==> InLists()
    {
      && InLists()
      && Queue(udp, Msgs(), Frags())
      && (msgused > 0 ==> Within(msglist[msgused - 1], Frags()) && msgbytes == Size(Part(msglist[msgused - 1], Frags())))
    }

    /** The first n datagrams have room for their headers. */
    ghost predicate HaveHeaders(n: nat)
      reads this`msglist, msglist
      requires n <= msglist.Length
    {
      udp ==> forall i :: 0 <= i < n ==> msglist[i].count > 0
    }

    constructor (udp: bool)
      ensures Valid() && HaveHeaders(0) && fresh(iov) && fresh(msglist) && this.udp == udp
      ensures msgused == 0 && msgcurr == 0 && msgbytes == 0
    {
      this.udp, msgcurr := udp, 0;
      iov, iovused := new Fragment[IOV_LIST_INITIAL](_ => Header), 0;
      new;
      var list := iov;
      msglist, msgused, msgbytes := new Msg[MSG_LIST_INITIAL](_ => Msg(list, 0, 0)), 0, 0;
    }

    lemma NewIsInLists()
      requires Valid()
      ensures InLists()
    {}

    lemma ValidIsInLists()
      requires Valid() && udp
      ensures InLists() && Queue(true, Msgs(), Frags()) && Payload() == Bytes(Frags())
    {}

    /** Points all messages at the list that is current now. */
    method PointAtNewList()
      requires 0 < iov.Length && iovused <= iov.Length && 0 < msglist.Length && msgused <= msglist.Length
      requires Tiled(Msgs(), iovused)
      modifies msglist
      ensures InLists()
      ensures forall i :: 0 <= i < msgused ==> msglist[i].first == old(msglist[i].first) && msglist[i].count == old(msglist[i].count)
    {
      hide Tiled;
      ghost var msgs := Msgs();
      Ends(msgs, iovused);
      var i, iovnum := 0, 0;
      while i < msgused
        invariant 0 <= i <= msgused && iovnum == NextFirst(msgs, iovused, i)
        invariant forall j :: 0 <= j < i ==> msglist[j] == msgs[j].(list := iov)
        invariant forall j :: i <= j < msgused ==> msglist[j] == msgs[j]
      {
        msglist[i] := Msg(iov, iovnum, msglist[i].count);
        iovnum := iovnum + msglist[i].count;
        i := i + 1;
      }
    }

    method GrowIov()
      requires 0 < iov.Length && iovused <= iov.Length
      modifies this`iov
      ensures fresh(iov) && iov.Length > old(iov.Length) && iovused <= iov.Length && Frags() == old(Frags())
    {
      ghost var frags := Frags();
      var newIov := new Fragment[iov.Length * 2](_ => Header);
      var k := 0;
      while k < iovused
        invariant 0 <= k <= iovused && newIov[..k] == frags[..k]
        modifies newIov
      {
        newIov[k] := iov[k];
        k := k + 1;
      }
      iov := newIov;
    }

    /** Room for another fragment. */
    method EnsureIovSpace()
      requires Valid()
      modifies this`iov, msglist
      ensures Valid() && iovused < iov.Length && (iov == old(iov) || fresh(iov)) && Payload() == old(Payload())
      ensures forall i :: 0 <= i < msgused ==> msglist[i].first == old(msglist[i].first) && msglist[i].count == old(msglist[i].count)
    {
      hide Queue, Size, Tiled, NextFirst, Frags, Within, Part, Bytes;
      if iovused >= iov.Length {
        ghost var msgs := Msgs();
        TiledOf(msgs, Frags(), udp);
        GrowIov();
        PointAtNewList();
        QueueIgnoresList(udp, msgs, Msgs(), Frags());
        if msgused > 0 { PartIgnoresList(msgs[msgused - 1], msglist[msgused - 1], Frags()); }
      }
    }

    method GrowMsglist()
      requires 0 < msglist.Length && msgused <= msglist.Length
      modifies this`msglist
      ensures fresh(msglist) && msglist.Length > old(msglist.Length) && msgused <= msglist.Length && Msgs() == old(Msgs())
    {
      ghost var msgs := Msgs();
      var none := Msg(iov, 0, 0);
      var newList := new Msg[msglist.Length * 2](_ => none);
      var k := 0;
      while k < msgused
        invariant 0 <= k <= msgused && newList[..k] == msgs[..k]
        modifies newList
      {
        newList[k] := msglist[k];
        k := k + 1;
      }
      msglist := newList;
    }

    /** Stores a fragment at the end of the current message. */
    method Put(x: Fragment)
      requires Valid() && msgused > 0 && iovused < iov.Length && HaveHeaders(msgused - 1)
      requires msglist[msgused - 1].count < IOV_MAX && (x.Header? <==> udp && msglist[msgused - 1].count == 0)
      requires Limited(udp, msgused - 1) ==> msgbytes + Length(x) <= UDP_MAX_PAYLOAD_SIZE
      modifies this`iovused, this`msgbytes, iov, msglist
      ensures Valid() && HaveHeaders(msgused) && Payload() == old(Payload()) + (if x.Header? then [] else x.bytes)
      ensures msglist[msgused - 1].count == old(msglist[msgused - 1].count) + 1 && msgbytes == old(msgbytes) + Length(x)
    {
      hide Queue, Size, Length, Tiled, Bytes, Limited;
      ghost var msgs, frags := Msgs(), Frags();
      LastIsEnd(udp, msgs, frags);
      FragmentAdded(udp, msgs, frags, x);
      OneMore(frags, x);
      var m := msglist[msgused - 1];
      m.list[m.first + m.count] := x;
      msgbytes := msgbytes + Length(x);
      iovused := iovused + 1;
      msglist[msgused - 1] := m.(count := m.count + 1);
      assert Frags() == frags + [x];
      assert Msgs() == Longer(msgs);
    }

    /** The current message takes no more. */
    ghost predicate LastIsFull()
      reads this`iov, this`iovused, this`msglist, this`msgused, iov, msglist
      requires iovused <= iov.Length && msgused <= msglist.Length
    {
      msgused > 0 ==> Full(udp, msgused - 1, msglist[msgused - 1], Frags())
    }

    method BeginMessage()
      requires Valid() && LastIsFull()
      modifies this`msglist, this`msgused, this`msgbytes, msglist
      ensures Valid() && (msglist == old(msglist) || fresh(msglist))
      ensures msgused == old(msgused) + 1 && msgbytes == 0 && msglist[msgused - 1].count == 0
      ensures forall i :: 0 <= i < old(msgused) ==> msglist[i].count == old(msglist[i].count)
    {
      hide Queue, Size, Tiled, Within, Fits, Part, Full;
      ghost var msgs, frags := Msgs(), Frags();
      if msglist.Length == msgused {
        GrowMsglist();
      }
      MessageAdded(udp, msgs, frags, iov);
      assert forall i :: 0 <= i < msgused ==> msglist[i] == msgs[i];
      msglist[msgused] := Msg(iov, iovused, 0);
      msgbytes := 0;
      msgused := msgused + 1;
      assert Msgs() == msgs + [Msg(iov, iovused, 0)];
      EmptyPart(msglist[msgused - 1], frags);
    }

    /** Begins a message; a datagram begins with room for its header. */
    method AddMsghdr()
      requires Valid() && HaveHeaders(msgused) && LastIsFull()
      modifies this`iov, this`iovused, this`msglist, this`msgused, this`msgbytes, iov, msglist
      ensures Valid() && HaveHeaders(msgused) && (iov == old(iov) || fresh(iov)) && (msglist == old(msglist) || fresh(msglist))
      ensures msgused == old(msgused) + 1 && Payload() == old(Payload())
      ensures msglist[msgused - 1].count == (if udp then 1 else 0) && msgbytes == (if udp then UDP_HEADER_SIZE else 0)
    {
      hide Valid, Payload;
      BeginMessage();
      if udp {
        EnsureIovSpace();
        Put(Header);
      }
    }

    /** Forgets the last reply and begins one. */
    method BeginReply()
      requires InLists()
      modifies this`iov, this`iovused, this`msglist, this`msgused, this`msgbytes, this`msgcurr, iov, msglist
      ensures Valid() && HaveHeaders(msgused) && (iov == old(iov) || fresh(iov)) && (msglist == old(msglist) || fresh(msglist))
      ensures msgused == 1 && msgcurr == 0 && Payload() == []
    {
      msgcurr, msgused, iovused := 0, 0, 0;
      assert LastIsFull();
      AddMsghdr();
    }

    /** Queues the bytes, in as many fragments and messages as it takes. */
    method AddIov(buf: seq<byte>)
      requires Valid() && HaveHeaders(msgused) && msgused > 0
      modifies this`iov, this`iovused, this`msglist, this`msgused, this`msgbytes, iov, msglist
      ensures Valid() && HaveHeaders(msgused) && (iov == old(iov) || fresh(iov)) && (msglist == old(msglist) || fresh(msglist))
      ensures Payload() == old(Payload()) + buf && msgused >= old(msgused)
    {
      hide Valid, Payload, HaveHeaders;
      var rest, leftover := buf, true;
      ghost var all := Payload() + buf;
      while leftover
        invariant Valid() && msgused > 0 && msgused >= old(msgused) && HaveHeaders(msgused)
        invariant (iov == old(iov) || fresh(iov)) && (msglist == old(msglist) || fresh(msglist))
        invariant Payload() + rest == all && (leftover || rest == [])
        decreases leftover, |rest|
      {
        leftover, rest := AddPiece(rest);
      }
    }

    /** One turn of the loop of add_iov. */
    method AddPiece(buf: seq<byte>) returns (leftover: bool, rest: seq<byte>)
      requires Valid() && HaveHeaders(msgused) && msgused > 0
      modifies this`iov, this`iovused, this`msglist, this`msgused, this`msgbytes, iov, msglist
      ensures Valid() && HaveHeaders(msgused) && (iov == old(iov) || fresh(iov)) && (msglist == old(msglist) || fresh(msglist))
      ensures Payload() + rest == old(Payload()) + buf && msgused >= old(msgused)
      ensures leftover <==> rest != []
      ensures leftover ==> |rest| < |buf|
      ensures msgused == old(msgused) + if old(LastIsFull()) then 1 else 0
      ensures leftover ==> msgbytes == UDP_MAX_PAYLOAD_SIZE
    {
      hide Valid, Payload, LastIsFull;
      var limitToMtu := udp || msgused == 1;
      LastCount();
      WhenFull();
      if msglist[msgused - 1].count == IOV_MAX || (limitToMtu && msgbytes >= UDP_MAX_PAYLOAD_SIZE) {
        AddMsghdr();
      }
      EnsureIovSpace();
      var len := |buf|;
      if limitToMtu && |buf| + msgbytes > UDP_MAX_PAYLOAD_SIZE {
        len := UDP_MAX_PAYLOAD_SIZE - msgbytes;
      }
      Regroup(Payload(), buf, len);
      Put(Data(buf[..len]));
      rest := buf[len..];
      leftover := rest != [];
    }

    lemma WhenFull()
      requires Valid() && msgused > 0
      ensures LastIsFull() <==>
                msglist[msgused - 1].count == IOV_MAX || ((udp || msgused == 1) && msgbytes >= UDP_MAX_PAYLOAD_SIZE)
    {
      SizeInRange(udp, Msgs(), Frags());
    }

    lemma LastCount()
      requires Valid() && HaveHeaders(msgused) && msgused > 0
      ensures msglist[msgused - 1].count <= IOV_MAX && (udp ==> msglist[msgused - 1].count > 0)
    {
      CountInRange(udp, Msgs(), Frags());
    }

    /** Fills in the headers of all datagrams. */
    method BuildUdpHeaders(requestId: nat)
      requires Valid() && HaveHeaders(msgused) && udp && requestId < 0x1_0000
      modifies iov
      ensures InLists() && Ready(Msgs(), Frags())
      ensures forall i :: 0 <= i < msgused ==> Built(Msgs()[i], old(Frags()), Frags(), HeaderBytes(requestId, i, msgused))
    {
      hide Queue, Filled, Ready, Built, HeaderBytes, Within, Part;
      ghost var msgs, frags := Msgs(), Frags();
      HeadersAre(msgs, frags);
      var i := 0;
      assert Filled(requestId, msgs, frags, Frags(), 0) by { FillNone(requestId, msgs, frags); }
      while i < msgused
        invariant 0 <= i <= msgused && Filled(requestId, msgs, frags, Frags(), i)
      {
        var m := msglist[i];
        assert m == msgs[i];
        ghost var now := Frags();
        m.list[m.first] := Data(HeaderBytes(requestId, i, msgused));
        assert Frags() == now[m.first := Data(HeaderBytes(requestId, i, msgused))];
        FillOne(requestId, msgs, frags, now, i);
        i := i + 1;
      }
      AllBuilt(requestId, msgs, frags, Frags());
    }

    // -------------------------------------------------------------- sending

    lemma TcpIsReady()
      requires Valid() && !udp
      ensures Ready(Msgs(), Frags())
    {
      forall j | 0 <= j < iovused ensures Frags()[j].Data? {
        var i := MessageOf(Msgs(), iovused, j, msgused);
        assert Fits(udp, i, Msgs()[i], Frags());
      }
    }

    /** The bytes that are still to be sent. */
    ghost function Unsent(): seq<byte>
      reads this`iov, this`iovused, this`msglist, this`msgused, this`msgcurr, iov, msglist
      requires iovused <= iov.Length && msgused <= msglist.Length && msgcurr <= msgused
    {
      Rest(Msgs(), Frags(), msgcurr)
    }

    ghost predicate Sending()
      reads this`iov, this`iovused, this`msglist, this`msgused, this`msgcurr, this`queued, this`sent, iov, msglist
      ensures Sending() ==> InLists() && msgcurr <= msgused
    {
      && InLists() && msgcurr <= msgused
      && Sendable(Msgs(), Frags(), msgcurr)
      && queued == sent + Unsent()
    }

    /** A reply that is complete can be sent; what is sent is what its fragments hold. */
    ghost method StartSending()
      requires InLists() && Ready(Msgs(), Frags()) && msgcurr == 0
      modifies this`queued, this`sent
      ensures Sending() && sent == [] && queued == Bytes(Frags())
    {
      hide Bytes, Tiled, Rest, Sendable, NextFirst, Frags, Msgs;
      sent, queued := [], Bytes(Frags());
      ReadyIsSendable(Msgs(), Frags());
      AllIsRest(Msgs(), Frags(), 0);
      Ends(Msgs(), iovused);
      assert Frags()[0..] == Frags();
      assert [] + Unsent() == Unsent();
    }

    /** Hands the fragments of a message that have gone out completely over, and cuts the one that has in part. */
    method DropSent(m: Msg, res: nat) returns (m': Msg)
      requires InLists() && m.list == iov && IsData(m, Frags())
      requires res <= |Bytes(Part(m, Frags()))|
      modifies iov
      ensures m'.list == iov && m'.first + m'.count == m.first + m.count && m.first <= m'.first
      ensures forall j :: 0 <= j < iov.Length && !(m.first <= j < m.first + m.count) ==> iov[j] == old(iov[j])
      ensures IsData(m', Frags())
      ensures old(Bytes(Part(m, Frags())))[res..] == Bytes(Part(m', Frags()))
      ensures m'.count > 0 ==> m'.first < iov.Length && iov[m'.first].Data? && iov[m'.first].bytes != []
    {
      hide Bytes;
      m' := m;
      var left := res;
      ghost var all, gone: seq<byte> := Bytes(Part(m, Frags())), [];
      assert gone + all == all;
      while m'.count > 0 && left >= Length(iov[m'.first])
        invariant m'.list == iov && m'.first + m'.count == m.first + m.count && m.first <= m'.first
        invariant left >= 0 && Within(m', Frags()) && all == gone + Bytes(Part(m', Frags())) && |gone| + left == res
        modifies {}
      {
        FirstFragment(m', Frags(), iov[m'.first].bytes);
        gone := gone + iov[m'.first].bytes;
        left := left - Length(iov[m'.first]);
        m' := Msg(m'.list, m'.first + 1, m'.count - 1);
      }
      DropBoth(gone, Bytes(Part(m', Frags())), left);
      if left > 0 {
        EmptyHasNoBytes(m', Frags());
        ghost var was := Frags();
        FirstFragment(m', was, iov[m'.first].bytes);
        iov[m'.first] := Data(iov[m'.first].bytes[left..]);
        assert Frags() == was[m'.first := iov[m'.first]];
        FirstCut(m', was, Frags(), left);
      }
    }

    /** No fragment of the message that is out completely is left in it: a message that is out has none. */
    ghost predicate Stripped(m: Msg)
      reads this`iov, iov
    {
      m.count > 0 ==> m.first < iov.Length && iov[m.first].Data? && iov[m.first].bytes != []
    }

    /** One call of transmit: res is what sendmsg returns, a number of bytes of the current message or an error,
        and again tells whether the error is that it would block. */
    method Transmit(res: int, again: bool) returns (outcome: Outcome)
      requires Sending()
      requires var cur := if msgcurr < msgused && msglist[msgcurr].count == 0 then msgcurr + 1 else msgcurr;
               cur < msgused ==> Within(msglist[cur], Frags()) && res <= |Bytes(Part(msglist[cur], Frags()))|
      modifies this`msgcurr, this`sent, iov, msglist
      ensures Sending() && msgused == old(msgused)
      ensures msgcurr == old(if msgcurr < msgused && msglist[msgcurr].count == 0 then msgcurr + 1 else msgcurr)
      ensures outcome == Complete <==> msgcurr >= msgused
      ensures outcome == Incomplete <==> msgcurr < msgused && res > 0
      ensures outcome == SoftError <==> msgcurr < msgused && res == -1 && again
      ensures outcome == HardError <==> msgcurr < msgused && res <= 0 && !(res == -1 && again)
      ensures outcome == Complete ==> sent == queued
      ensures outcome == Incomplete ==> |sent| == |old(sent)| + res && old(sent) <= sent
      ensures outcome != Incomplete ==> sent == old(sent)
      ensures outcome == Incomplete ==> Stripped(msglist[msgcurr])
    {
      hide Bytes, Rest, Sendable;
      if msgcurr < msgused && msglist[msgcurr].count == 0 {
        NextMessage(Msgs(), Frags(), msgcurr);
        msgcurr := msgcurr + 1;
      }
      if msgcurr >= msgused {
        NothingLeft(Msgs(), Frags(), msgcurr);
        return Complete;
      }
      if res <= 0 {
        return if res == -1 && again then SoftError else HardError;
      }
      SendPart(res);
      return Incomplete;
    }

    /** Bytes of the current message go out. */
    method SendPart(res: nat)
      requires Sending() && msgcurr < msgused
      requires Within(msglist[msgcurr], Frags()) && res <= |Bytes(Part(msglist[msgcurr], Frags()))|
      modifies this`sent, iov, msglist
      ensures Sending() && |sent| == |old(sent)| + res && old(sent) <= sent
      ensures Stripped(msglist[msgcurr])
    {
      hide Bytes, Rest, Sendable, Within, Part;
      ghost var msgs, frags := Msgs(), Frags();
      CurrentIsData(msgs, frags, msgcurr);
      var m := DropSent(msglist[msgcurr], res);
      msglist[msgcurr] := m;
      assert Msgs() == msgs[msgcurr := m];
      PartSent(msgs, frags, Frags(), msgcurr, m, res);
      sent := sent + Bytes(Part(msgs[msgcurr], frags))[..res];
    }
  }

  lemma NextMessage(msgs: seq<Msg>, frags: seq<Fragment>, cur: nat)
    requires Sendable(msgs, frags, cur) && cur < |msgs| && msgs[cur].count == 0
    ensures Sendable(msgs, frags, cur + 1) && Rest(msgs, frags, cur + 1) == Rest(msgs, frags, cur)
  {
    assert IsData(msgs[cur], frags);
    assert Part(msgs[cur], frags) == [];
  }

  lemma NothingLeft(msgs: seq<Msg>, frags: seq<Fragment>, cur: nat)
    requires cur >= |msgs|
    ensures Rest(msgs, frags, cur) == []
  {}

  lemma CurrentIsData(msgs: seq<Msg>, frags: seq<Fragment>, cur: nat)
    requires Sendable(msgs, frags, cur) && cur < |msgs|
    ensures IsData(msgs[cur], frags)
  {}

  lemma {:induction false} RestUnchanged(msgs: seq<Msg>, msgs': seq<Msg>, frags: seq<Fragment>, frags': seq<Fragment>, i: nat)
    requires |msgs'| == |msgs| && |frags'| == |frags| && (forall k :: i <= k < |msgs| ==> msgs'[k] == msgs[k] && IsData(msgs[k], frags))
    requires forall k, j :: i <= k < |msgs| && msgs[k].first <= j < msgs[k].first + msgs[k].count && j < |frags| ==> frags'[j] == frags[j]
    ensures Rest(msgs', frags', i) == Rest(msgs, frags, i)
    decreases |msgs| - i
  {
    hide Bytes;
    if i < |msgs| {
      RestUnchanged(msgs, msgs', frags, frags', i + 1);
      assert Part(msgs[i], frags') == Part(msgs[i], frags);
    }
  }

  /** What is sent and what remains of the current message make up what there was. */
  lemma PartSent(msgs: seq<Msg>, frags: seq<Fragment>, frags': seq<Fragment>, cur: nat, m: Msg, res: nat)
    requires Sendable(msgs, frags, cur) && cur < |msgs| && |frags'| == |frags|
    requires m.first + m.count == msgs[cur].first + msgs[cur].count && msgs[cur].first <= m.first && IsData(m, frags')
    requires forall j :: 0 <= j < |frags| && !(msgs[cur].first <= j < msgs[cur].first + msgs[cur].count) ==> frags'[j] == frags[j]
    requires Within(msgs[cur], frags) && res <= |Bytes(Part(msgs[cur], frags))|
    requires Bytes(Part(m, frags')) == Bytes(Part(msgs[cur], frags))[res..]
    ensures Sendable(msgs[cur := m], frags', cur)
    ensures Rest(msgs, frags, cur) == Bytes(Part(msgs[cur], frags))[..res] + Rest(msgs[cur := m], frags', cur)
    ensures forall s: seq<byte> {:trigger s + Rest(msgs, frags, cur)} ::
              s + Rest(msgs, frags, cur) == (s + Bytes(Part(msgs[cur], frags))[..res]) + Rest(msgs[cur := m], frags', cur)
  {
    hide Bytes, Part;
    forall i | cur < i < |msgs| ensures IsData(msgs[i], frags') {
      assert IsData(msgs[i], frags);
    }
    RestUnchanged(msgs, msgs[cur := m], frags, frags', cur + 1);
    var all, more := Bytes(Part(msgs[cur], frags)), Rest(msgs, frags, cur + 1);
    assert all + more == all[..res] + (all[res..] + more);
  }

  lemma DropBoth(gone: seq<byte>, more: seq<byte>, left: nat)
    requires left <= |more|
    ensures (gone + more)[|gone| + left..] == more[left..]
  {}

  /** The bytes of message i and those behind it. */
  ghost function Rest(msgs: seq<Msg>, frags: seq<Fragment>, i: nat): seq<byte>
    decreases |msgs| - i
  {
    if i >= |msgs| then []
    else (if Within(msgs[i], frags) then Bytes(Part(msgs[i], frags)) else []) + Rest(msgs, frags, i + 1)
  }

  /** The messages from cur on are bytes, in ranges apart. */
  ghost predicate Sendable(msgs: seq<Msg>, frags: seq<Fragment>, cur: nat) {
    && (forall i :: cur <= i < |msgs| ==> IsData(msgs[i], frags))
    && (forall i, j :: cur <= i < j < |msgs| ==> msgs[i].first + msgs[i].count <= msgs[j].first)
  }

  ghost predicate IsData(m: Msg, frags: seq<Fragment>) {
    Within(m, frags) && forall j :: m.first <= j < m.first + m.count ==> frags[j].Data?
  }

  lemma FirstFragment(m: Msg, frags: seq<Fragment>, bytes: seq<byte>)
    requires Within(m, frags) && m.count > 0 && frags[m.first] == Data(bytes)
    ensures var m' := Msg(m.list, m.first + 1, m.count - 1);
            Within(m', frags) && Bytes(Part(m, frags)) == bytes + Bytes(Part(m', frags))
  {
    hide Bytes;
    var m' := Msg(m.list, m.first + 1, m.count - 1);
    assert Part(m, frags) == [frags[m.first]] + Part(m', frags);
    BytesAppend([frags[m.first]], Part(m', frags));
    Single(frags[m.first]);
  }

  lemma FirstCut(m: Msg, frags: seq<Fragment>, frags': seq<Fragment>, left: nat)
    requires Within(m, frags) && m.count > 0 && frags[m.first].Data? && left <= |frags[m.first].bytes|
    requires frags' == frags[m.first := Data(frags[m.first].bytes[left..])]
    ensures Within(m, frags') && left <= |Bytes(Part(m, frags))| && Bytes(Part(m, frags')) == Bytes(Part(m, frags))[left..]
  {
    hide Bytes;
    var m' := Msg(m.list, m.first + 1, m.count - 1);
    FirstFragment(m, frags, frags[m.first].bytes);
    FirstFragment(m, frags', frags'[m.first].bytes);
    assert Part(m', frags') == Part(m', frags);
  }

  lemma EmptyHasNoBytes(m: Msg, frags: seq<Fragment>)
    requires Within(m, frags) && |Bytes(Part(m, frags))| > 0
    ensures m.count > 0
  {}

  lemma ReadyIsSendable(msgs: seq<Msg>, frags: seq<Fragment>)
    requires Ready(msgs, frags)
    ensures Sendable(msgs, frags, 0)
  {}

  lemma PartThenRest(msgs: seq<Msg>, frags: seq<Fragment>, i: nat)
    requires Tiled(msgs, |frags|) && i < |msgs|
    ensures NextFirst(msgs, |frags|, i) <= NextFirst(msgs, |frags|, i + 1) <= |frags| && Within(msgs[i], frags)
    ensures frags[NextFirst(msgs, |frags|, i)..] == Part(msgs[i], frags) + frags[NextFirst(msgs, |frags|, i + 1)..]
  {
    Ends(msgs, |frags|);
    assert msgs[i].first + msgs[i].count <= |frags|;
    hide Tiled, NextFirst;
    SplitAt(frags, msgs[i].first, msgs[i].first + msgs[i].count);
  }

  lemma SplitAt(frags: seq<Fragment>, a: nat, b: nat)
    requires a <= b <= |frags|
    ensures frags[a..] == frags[a..b] + frags[b..]
  {}

  lemma {:induction false} AllIsRest(msgs: seq<Msg>, frags: seq<Fragment>, i: nat)
    requires Tiled(msgs, |frags|) && i <= |msgs|
    ensures NextFirst(msgs, |frags|, i) <= |frags|
    ensures Rest(msgs, frags, i) == Bytes(frags[NextFirst(msgs, |frags|, i)..])
    decreases |msgs| - i
  {
    hide Bytes, Tiled, Part, Within, NextFirst;
    if i < |msgs| {
      AllIsRest(msgs, frags, i + 1);
      PartThenRest(msgs, frags, i);
      BytesAppend(Part(msgs[i], frags), frags[NextFirst(msgs, |frags|, i + 1)..]);
    } else {
      NothingBehind(msgs, frags);
      NoBytes();
    }
  }

  lemma NothingBehind(msgs: seq<Msg>, frags: seq<Fragment>)
    ensures NextFirst(msgs, |frags|, |msgs|) == |frags| && frags[|frags|..] == []
  {}

  // ---------------------------------------------------------------- whole replies

  /** Pieces one behind the other. */
  function Flat(pieces: seq<seq<byte>>): seq<byte> {
    if pieces == [] then [] else Flat(pieces[..|pieces| - 1]) + pieces[|pieces| - 1]
  }

  /** The parts from i on, one behind the other. */
  function FlatFrom(parts: seq<seq<byte>>, i: nat): seq<byte>
    decreases |parts| - i
  {
    if i >= |parts| then [] else parts[i] + FlatFrom(parts, i + 1)
  }

  /** The parts from i on, each in a datagram with its header. */
  function Datagrams(requestId: nat, parts: seq<seq<byte>>, i: nat): seq<byte>
    requires requestId < 0x1_0000
    decreases |parts| - i
  {
    if i >= |parts| then [] else (HeaderBytes(requestId, i, |parts|) + parts[i]) + Datagrams(requestId, parts, i + 1)
  }

  /** The reply in datagrams: cut into parts that fit, in order. */
  ghost predicate InDatagrams(requestId: nat, reply: seq<byte>, parts: seq<seq<byte>>, queued: seq<byte>)
    requires requestId < 0x1_0000
  {
    && FlatFrom(parts, 0) == reply && queued == Datagrams(requestId, parts, 0)
    && forall i :: 0 <= i < |parts| ==> UDP_HEADER_SIZE + |parts[i]| <= UDP_MAX_PAYLOAD_SIZE
  }

  lemma FlatMore(pieces: seq<seq<byte>>, i: nat)
    requires i < |pieces|
    ensures Flat(pieces[..i + 1]) == Flat(pieces[..i]) + pieces[i]
  {
    assert pieces[..i + 1][..i] == pieces[..i];
  }

  /** The pieces of a reply are queued. */
  method QueueReply(udp: bool, pieces: seq<seq<byte>>) returns (c: Conn)
    ensures fresh(c) && fresh(c.iov) && fresh(c.msglist) && c.Valid() && c.HaveHeaders(c.msgused) && c.udp == udp
    ensures c.msgused > 0 && c.msgcurr == 0 && c.Payload() == Flat(pieces)
  {
    hide Conn.Valid, Conn.HaveHeaders, Conn.Payload;
    c := new Conn(udp);
    c.NewIsInLists();
    c.BeginReply();
    for i := 0 to |pieces|
      invariant fresh(c) && fresh(c.iov) && fresh(c.msglist) && c.Valid() && c.HaveHeaders(c.msgused) && c.udp == udp
      invariant c.msgused > 0 && c.msgcurr == 0 && c.Payload() == Flat(pieces[..i])
    {
      c.AddIov(pieces[i]);
      FlatMore(pieces, i);
    }
    assert pieces[..|pieces|] == pieces;
  }

  /** A reply over TCP is ready to be sent as it was given. */
  method ReplyByTcp(pieces: seq<seq<byte>>) returns (c: Conn)
    ensures fresh(c) && c.Sending() && c.sent == [] && c.queued == Flat(pieces)
  {
    c := QueueReply(false, pieces);
    c.TcpIsReady();
    c.StartSending();
  }

  /** A reply over UDP is ready to be sent in datagrams. */
  method ReplyByUdp(requestId: nat, pieces: seq<seq<byte>>) returns (c: Conn)
    requires requestId < 0x1_0000
    ensures fresh(c) && c.Sending() && c.sent == []
    ensures exists parts :: |parts| == c.msgused && InDatagrams(requestId, Flat(pieces), parts, c.queued) && Packed(c.Msgs(), parts)
  {
    hide *;
    c := QueueReply(true, pieces);
    c.ValidIsInLists();
    ghost var msgs, frags := c.Msgs(), c.Frags();
    TiledOf(msgs, frags, true);
    ReplyIsPacked(c, msgs, frags);
    c.BuildUdpHeaders(requestId);
    ghost var parts := PartsOf(msgs, frags);
    ReplyIsDatagrams(requestId, msgs, frags, c.Frags());
    c.StartSending();
    assert InDatagrams(requestId, Flat(pieces), parts, c.queued);
  }

  /** All datagrams but the last are full: by their bytes, or by their fragments. */
  ghost predicate Packed(msgs: seq<Msg>, parts: seq<seq<byte>>) {
    forall i :: 0 <= i < |parts| - 1 ==>
      UDP_HEADER_SIZE + |parts[i]| == UDP_MAX_PAYLOAD_SIZE || (i < |msgs| && msgs[i].count == IOV_MAX)
  }

  lemma ReplyIsPacked(c: Conn, msgs: seq<Msg>, frags: seq<Fragment>)
    requires c.Valid() && c.udp && c.HaveHeaders(c.msgused) && msgs == c.Msgs() && frags == c.Frags()
    ensures Packed(msgs, PartsOf(msgs, frags))
  {
    hide Size, Bytes;
    forall i | 0 <= i < |msgs| - 1 ensures UDP_HEADER_SIZE + |PartsOf(msgs, frags)[i]| == UDP_MAX_PAYLOAD_SIZE || msgs[i].count == IOV_MAX {
      assert Fits(true, i, msgs[i], frags) && Full(true, i, msgs[i], frags);
      SizeOfDatagram(i, msgs[i], frags);
    }
  }

  /** A datagram is as big as its header and its bytes. */
  lemma SizeOfDatagram(i: nat, m: Msg, frags: seq<Fragment>)
    requires Fits(true, i, m, frags) && m.count > 0
    ensures Size(Part(m, frags)) == UDP_HEADER_SIZE + |Bytes(Part(m, frags))|
  {
    hide Size, Bytes;
    var rest := frags[m.first + 1..m.first + m.count];
    assert Part(m, frags) == [Header] + rest;
    Single(Header);
    BytesAppend([Header], rest);
    SizeOfData(rest);
  }

  /** What each message holds. */
  ghost function PartsOf(msgs: seq<Msg>, frags: seq<Fragment>): (parts: seq<seq<byte>>)
    ensures |parts| == |msgs|
  {
    seq(|msgs|, i requires 0 <= i < |msgs| => if Within(msgs[i], frags) then Bytes(Part(msgs[i], frags)) else [])
  }

  lemma {:induction false} RestIsFlat(msgs: seq<Msg>, frags: seq<Fragment>, i: nat)
    ensures Rest(msgs, frags, i) == FlatFrom(PartsOf(msgs, frags), i)
    decreases |msgs| - i
  {
    if i < |msgs| { RestIsFlat(msgs, frags, i + 1); }
  }

  lemma {:induction false} RestIsDatagrams(requestId: nat, msgs: seq<Msg>, frags: seq<Fragment>, frags': seq<Fragment>, i: nat)
    requires requestId < 0x1_0000
    requires forall k :: 0 <= k < |msgs| ==> Built(msgs[k], frags, frags', HeaderBytes(requestId, k, |msgs|))
    ensures Rest(msgs, frags', i) == Datagrams(requestId, PartsOf(msgs, frags), i)
    decreases |msgs| - i
  {
    hide HeaderBytes, Bytes;
    if i < |msgs| {
      RestIsDatagrams(requestId, msgs, frags, frags', i + 1);
      assert Built(msgs[i], frags, frags', HeaderBytes(requestId, i, |msgs|));
    }
  }

  lemma ReplyIsDatagrams(requestId: nat, msgs: seq<Msg>, frags: seq<Fragment>, frags': seq<Fragment>)
    requires requestId < 0x1_0000 && Tiled(msgs, |frags|) && Ready(msgs, frags')
    requires forall k :: 0 <= k < |msgs| ==> Built(msgs[k], frags, frags', HeaderBytes(requestId, k, |msgs|))
    ensures InDatagrams(requestId, Bytes(frags), PartsOf(msgs, frags), Bytes(frags'))
  {
    hide HeaderBytes, Bytes, Rest, FlatFrom, Datagrams;
    AllBytes(msgs, frags);
    AllBytes(msgs, frags');
    RestIsFlat(msgs, frags, 0);
    RestIsDatagrams(requestId, msgs, frags, frags', 0);
    forall i | 0 <= i < |msgs| ensures UDP_HEADER_SIZE + |PartsOf(msgs, frags)[i]| <= UDP_MAX_PAYLOAD_SIZE {
      assert Built(msgs[i], frags, frags', HeaderBytes(requestId, i, |msgs|));
    }
  }

  lemma AllBytes(msgs: seq<Msg>, frags: seq<Fragment>)
    requires Tiled(msgs, |frags|)
    ensures Rest(msgs, frags, 0) == Bytes(frags)
  {
    hide Bytes, Rest;
    Ends(msgs, |frags|);
    AllIsRest(msgs, frags, 0);
    assert frags[0..] == frags;
  }

  /** The headers of the first k datagrams are filled in. */
  ghost predicate Filled(requestId: nat, msgs: seq<Msg>, frags: seq<Fragment>, now: seq<Fragment>, k: nat)
    requires requestId < 0x1_0000
  {
    && |now| == |frags| && k <= |msgs|
    && (forall j :: 0 <= j < |frags| && !frags[j].Header? ==> now[j] == frags[j])
    && forall i :: 0 <= i < k ==> msgs[i].first < |frags| && now[msgs[i].first] == Data(HeaderBytes(requestId, i, |msgs|))
  }

  lemma FillNone(requestId: nat, msgs: seq<Msg>, frags: seq<Fragment>)
    requires requestId < 0x1_0000
    ensures Filled(requestId, msgs, frags, frags, 0)
  {}

  lemma FillOne(requestId: nat, msgs: seq<Msg>, frags: seq<Fragment>, now: seq<Fragment>, k: nat)
    requires requestId < 0x1_0000 && Filled(requestId, msgs, frags, now, k) && k < |msgs|
    requires msgs[k].first < |frags| && frags[msgs[k].first].Header?
    requires forall i :: 0 <= i < k ==> msgs[i].first < msgs[k].first
    ensures Filled(requestId, msgs, frags, now[msgs[k].first := Data(HeaderBytes(requestId, k, |msgs|))], k + 1)
  {
    hide HeaderBytes;
  }

  lemma AllBuilt(requestId: nat, msgs: seq<Msg>, frags: seq<Fragment>, now: seq<Fragment>)
    requires requestId < 0x1_0000 && Filled(requestId, msgs, frags, now, |msgs|) && Queue(true, msgs, frags)
    requires forall i :: 0 <= i < |msgs| ==> msgs[i].count > 0
    ensures Ready(msgs, now)
    ensures forall i :: 0 <= i < |msgs| ==> Built(msgs[i], frags, now, HeaderBytes(requestId, i, |msgs|))
  {
    hide Size, HeaderBytes, Built, Tiled;
    HeadersAre(msgs, frags);
    forall i | 0 <= i < |msgs| ensures Built(msgs[i], frags, now, HeaderBytes(requestId, i, |msgs|)) {
      assert Fits(true, i, msgs[i], frags);
      HeaderBuilt(i, msgs[i], frags, now, HeaderBytes(requestId, i, |msgs|));
    }
  }

  lemma Regroup(before: seq<byte>, rest: seq<byte>, len: nat)
    requires len <= |rest|
    ensures before + rest == (before + rest[..len]) + rest[len..]
  {}

  lemma EmptyPart(m: Msg, frags: seq<Fragment>)
    requires m.count == 0 && m.first <= |frags|
    ensures Within(m, frags) && Size(Part(m, frags)) == 0
  {}

  lemma LastIsEnd(udp: bool, msgs: seq<Msg>, frags: seq<Fragment>)
    requires Queue(udp, msgs, frags) && msgs != []
    ensures msgs[|msgs| - 1].first + msgs[|msgs| - 1].count == |frags|
  {
    LastIsLast(msgs, |frags|);
  }

  lemma CountInRange(udp: bool, msgs: seq<Msg>, frags: seq<Fragment>)
    requires Queue(udp, msgs, frags) && msgs != []
    ensures msgs[|msgs| - 1].count <= IOV_MAX
  {
    assert Fits(udp, |msgs| - 1, msgs[|msgs| - 1], frags);
  }

  lemma SizeInRange(udp: bool, msgs: seq<Msg>, frags: seq<Fragment>)
    requires Queue(udp, msgs, frags) && msgs != []
    ensures Within(msgs[|msgs| - 1], frags)
    ensures Limited(udp, |msgs| - 1) ==> Size(Part(msgs[|msgs| - 1], frags)) <= UDP_MAX_PAYLOAD_SIZE
  {
    assert Fits(udp, |msgs| - 1, msgs[|msgs| - 1], frags);
  }

  lemma PartIgnoresList(m: Msg, m': Msg, frags: seq<Fragment>)
    requires Within(m, frags) && m'.first == m.first && m'.count == m.count
    ensures Within(m', frags) && Part(m', frags) == Part(m, frags)
  {}

  /** In a queue of datagrams, room for a header is just where a datagram begins, and every one begins elsewhere. */
  lemma HeadersAre(msgs: seq<Msg>, frags: seq<Fragment>)
    requires Queue(true, msgs, frags) && forall i :: 0 <= i < |msgs| ==> msgs[i].count > 0
    ensures forall i :: 0 <= i < |msgs| ==> msgs[i].first < |frags| && frags[msgs[i].first].Header?
    ensures forall i, k :: 0 <= i < k < |msgs| ==> msgs[i].first < msgs[k].first
    ensures forall j :: 0 <= j < |frags| && frags[j].Header? ==> exists i :: 0 <= i < |msgs| && msgs[i].first == j
  {
    hide Size;
    forall i | 0 <= i < |msgs| ensures msgs[i].first < |frags| && frags[msgs[i].first].Header? {
      assert Fits(true, i, msgs[i], frags);
    }
    forall j | 0 <= j < |frags| && frags[j].Header? ensures exists i :: 0 <= i < |msgs| && msgs[i].first == j {
      var i := MessageOf(msgs, |frags|, j, |msgs|);
      assert Fits(true, i, msgs[i], frags);
    }
  }

  lemma {:induction false} MessageOf(msgs: seq<Msg>, used: nat, j: nat, n: nat) returns (i: nat)
    requires Tiled(msgs, used) && n <= |msgs| && j < NextFirst(msgs, used, n)
    ensures i < n && msgs[i].first <= j < msgs[i].first + msgs[i].count
  {
    assert n > 0 ==> msgs[n - 1].first + msgs[n - 1].count == NextFirst(msgs, used, n);
    i := n - 1;
    if j < msgs[i].first { i := MessageOf(msgs, used, j, n - 1); }
  }

  lemma {:induction false} SizeOfData(frags: seq<Fragment>)
    requires forall j :: 0 <= j < |frags| ==> frags[j].Data?
    ensures |Bytes(frags)| == Size(frags)
  {
    if frags != [] { SizeOfData(frags[..|frags| - 1]); }
  }

  lemma HeaderBuilt(i: nat, m: Msg, frags: seq<Fragment>, frags': seq<Fragment>, header: seq<byte>)
    requires Fits(true, i, m, frags) && |frags'| == |frags| && m.count > 0 && |header| == UDP_HEADER_SIZE
    requires frags'[m.first] == Data(header)
    requires forall j :: m.first < j < m.first + m.count ==> frags'[j] == frags[j]
    ensures Built(m, frags, frags', header)
  {
    hide Size, Bytes;
    var rest := frags[m.first + 1..m.first + m.count];
    assert Part(m, frags) == [Header] + rest;
    assert Part(m, frags') == [Data(header)] + rest;
    Single(Header);
    Single(Data(header));
    BytesAppend([Header], rest);
    BytesAppend([Data(header)], rest);
    assert [] + Bytes(rest) == Bytes(rest);
    SizeOfData([Data(header)] + rest);
  }

  lemma Single(x: Fragment)
    ensures Size([x]) == Length(x) && Bytes([x]) == if x.Header? then [] else x.bytes
  {
    OneMore([], x);
    assert [] + [x] == [x];
  }
}
