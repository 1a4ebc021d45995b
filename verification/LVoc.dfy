/** The vocabulary of a binary phrase table and its text form (moses/src/LVoc.h). */
module LVoc {
  const INVALID_LABEL: nat := 0xFFFF_FFFF

  /** The two containers of a vocabulary. */
  datatype Voc = Voc(m: map<string, nat>, data: seq<string>) {
    ghost predicate Valid() {
      && (forall k :: k in m ==> m[k] < |data| && data[m[k]] == k)
      && (forall i :: 0 <= i < |data| ==> data[i] in m && m[data[i]] == i)
    }

    function Index(k: string): nat {
      if k in m then m[k] else INVALID_LABEL
    }

    function Add(k: string): (v: Voc)
      requires Valid()
      ensures v.Valid() && k in v.m && (k in m ==> v == this) && data <= v.data
      ensures forall w :: w in m ==> w in v.m && v.m[w] == m[w]
      ensures forall w :: w in v.m ==> w in m || w == k
    {
      if k in m then this else Voc(m[k := |data|], data + [k])
    }
  }

  // ---------------------------------------------------------------- the text form

  predicate Space(c: char) {
    9 <= c as int <= 13 || c == ' '
  }

  /** White space: tabulator, new line, vertical tabulator, new page, carriage return and blank. */
  lemma SpaceIs(c: char)
    ensures Space(c) <==> c == '\t' || c == '\n' || c as int == 11 || c as int == 12 || c == '\r' || c == ' '
  {}

  predicate Digit(c: char) {
    '0' <= c <= '9'
  }

  /** Words that the text form can hold. */
  ghost predicate Token(k: string) {
    k != "" && forall i :: 0 <= i < |k| ==> !Space(k[i])
  }

  function Decimal(n: nat): (s: string)
    ensures s != "" && forall i :: 0 <= i < |s| ==> Digit(s[i])
  {
    (if n < 10 then "" else Decimal(n / 10)) + [('0' as int + n % 10) as char]
  }

  function SkipSpace(s: string): string {
    if s != "" && Space(s[0]) then SkipSpace(s[1..]) else s
  }

  /** The digits at the start of s, read onto n, and what follows them. */
  function ReadNat(s: string, n: nat): (nat, string) {
    if s != "" && Digit(s[0]) then ReadNat(s[1..], 10 * n + (s[0] as int - '0' as int)) else (n, s)
  }

  function ReadToken(s: string): (k: string)
    ensures k != "" ==> Token(k)
  {
    if s != "" && !Space(s[0]) then [s[0]] + ReadToken(s[1..]) else ""
  }

  datatype Item = Nothing | Item(i: nat, k: string)

  /** is >> i >> k */
  function ReadLine(line: string): (e: Item)
    ensures e.Item? ==> Token(e.k)
  {
    var s := SkipSpace(line);
    if s == "" || !Digit(s[0]) then Nothing
    else
      var (n, rest) := ReadNat(s, 0);
      var k := ReadToken(SkipSpace(rest));
      if k == "" then Nothing else Item(n, k)
  }

  function WriteLine(i: nat, k: string): string {
    Decimal(i) + " " + k
  }

  /** An entry, written out. */
  lemma WrittenEntry()
    ensures WriteLine(407, "Haus") == "407 Haus"
  {
    assert Decimal(4) == "4";
    assert Decimal(40) == "40";
    assert Decimal(407) == "407";
  }

  lemma {:induction false} DecimalReads(n: nat, rest: string)
    ensures ReadNat(Decimal(n) + rest, 0) == ReadNat(rest, n)
  {
    var d := [('0' as int + n % 10) as char] + rest;
    assert d[1..] == rest;
    if n < 10 {
      assert Decimal(n) + rest == d;
    } else {
      DecimalReads(n / 10, d);
      assert Decimal(n) + rest == Decimal(n / 10) + d;
    }
  }

  lemma {:induction false} TokenReads(k: string)
    requires forall i :: 0 <= i < |k| ==> !Space(k[i])
    ensures ReadToken(k) == k
  {
    if k != "" { TokenReads(k[1..]); }
  }

  /** A written line reads as its entry exactly when the word is a token. */
  lemma LineReads(i: nat, k: string)
    requires Token(k)
    ensures ReadLine(WriteLine(i, k)) == Item(i, k)
  {
    var rest := " " + k;
    var line := Decimal(i) + rest;
    assert WriteLine(i, k) == line;
    assert line[0] == Decimal(i)[0] && SkipSpace(line) == line;
    DecimalReads(i, rest);
    assert ReadNat(line, 0) == (i, rest);
    assert rest[1..] == k && SkipSpace(rest) == SkipSpace(k) == k;
    TokenReads(k);
  }

  // ---------------------------------------------------------------- whole files

  /** The lines of Write, from the last entry down. */
  function WrittenLines(data: seq<string>, n: nat): seq<string>
    requires n <= |data|
  {
    if n == 0 then [] else [WriteLine(n - 1, data[n - 1])] + WrittenLines(data, n - 1)
  }

  function Resize(data: seq<string>, n: nat): (r: seq<string>)
    ensures |r| == (if n <= |data| then |data| else n) && data <= r
    ensures forall i :: |data| <= i < |r| ==> r[i] == ""
  {
    if n <= |data| then data else data + seq(n - |data|, _ => "")
  }

  /** One turn of the loop of Read. */
  function Take(v: Voc, line: string): Voc {
    match ReadLine(line)
    case Nothing => v
    case Item(i, k) => Voc(v.m[k := i], Resize(v.data, i + 1)[i := k])
  }

  function ReadLines(v: Voc, lines: seq<string>): Voc
    decreases |lines|
  {
    if lines == [] then v else ReadLines(Take(v, lines[0]), lines[1..])
  }

  ghost function EntriesFrom(v: Voc, n: nat): map<string, nat> {
    map k | k in v.m && v.m[k] >= n :: v.m[k]
  }

  ghost function WordsFrom(v: Voc, n: nat): seq<string>
    requires n <= |v.data|
  {
    if n == |v.data| then [] else seq(|v.data|, i requires 0 <= i < |v.data| => if i < n then "" else v.data[i])
  }

  /** The entries from n on, and blanks below: what has been read when n lines are left. */
  ghost function Partial(v: Voc, n: nat): Voc
    requires n <= |v.data|
  {
    Voc(EntriesFrom(v, n), WordsFrom(v, n))
  }

  lemma WordsStep(v: Voc, n: nat)
    requires 0 < n <= |v.data|
    ensures Resize(WordsFrom(v, n), n)[n - 1 := v.data[n - 1]] == WordsFrom(v, n - 1)
  {
  }

  lemma EntriesStep(v: Voc, n: nat)
    requires v.Valid() && 0 < n <= |v.data|
    ensures EntriesFrom(v, n)[v.data[n - 1] := n - 1] == EntriesFrom(v, n - 1)
  {
  }

  lemma PartialStep(v: Voc, n: nat)
    requires v.Valid() && 0 < n <= |v.data| && Token(v.data[n - 1])
    ensures Take(Partial(v, n), WriteLine(n - 1, v.data[n - 1])) == Partial(v, n - 1)
  {
    var k := v.data[n - 1];
    LineReads(n - 1, k);
    WordsStep(v, n);
    EntriesStep(v, n);
  }

  lemma {:induction false} LinesRead(v: Voc, n: nat)
    requires v.Valid() && n <= |v.data| && forall i :: 0 <= i < n ==> Token(v.data[i])
    ensures ReadLines(Partial(v, n), WrittenLines(v.data, n)) == Partial(v, 0)
    decreases n
  {
    if n > 0 {
      PartialStep(v, n);
      assert WrittenLines(v.data, n)[1..] == WrittenLines(v.data, n - 1);
      LinesRead(v, n - 1);
    }
  }

  lemma {:induction false} KeysAreTokens(v: Voc, lines: seq<string>)
    requires forall k :: k in v.m ==> Token(k)
    ensures forall k :: k in ReadLines(v, lines).m ==> Token(k)
    decreases |lines|
  {
    if lines != [] { KeysAreTokens(Take(v, lines[0]), lines[1..]); }
  }

  /** Reading a written vocabulary gives it back exactly when every word is a token. */
  lemma RoundTrip(v: Voc)
    requires v.Valid()
    ensures ReadLines(Voc(map[], []), WrittenLines(v.data, |v.data|)) == v <==> forall k :: k in v.data ==> Token(k)
  {
    var r := ReadLines(Voc(map[], []), WrittenLines(v.data, |v.data|));
    if forall k :: k in v.data ==> Token(k) {
      assert Partial(v, |v.data|) == Voc(map[], []);
      LinesRead(v, |v.data|);
      assert Partial(v, 0).data == v.data && Partial(v, 0).m == v.m;
    }
    KeysAreTokens(Voc(map[], []), WrittenLines(v.data, |v.data|));
  }

  // ---------------------------------------------------------------- the class

  class LVoc {
    var m: map<string, nat>
    var data: seq<string>

    ghost function Value(): Voc
      reads this
    {
      Voc(m, data)
    }

    constructor ()
      ensures Value() == Voc(map[], [])
    {
      m, data := map[], [];
    }

    method Add(k: string) returns (i: nat)
      requires Value().Valid()
      modifies this
      ensures Value() == old(Value()).Add(k) && i == m[k] < |data| && data[i] == k
    {
      if k !in m {
        m := m[k := |data|];
        data := data + [k];
      }
      i := m[k];
    }

    /** Write, one element of lines for each line of the file. */
    method Write() returns (lines: seq<string>)
      ensures lines == WrittenLines(data, |data|)
    {
      lines := [];
      var i := |data| - 1;
      while i >= 0
        invariant -1 <= i < |data|
        invariant lines + WrittenLines(data, i + 1) == WrittenLines(data, |data|)
      {
        assert (lines + [WriteLine(i, data[i])]) + WrittenLines(data, i) == lines + ([WriteLine(i, data[i])] + WrittenLines(data, i));
        hide WriteLine;
        lines := lines + [WriteLine(i, data[i])];
        i := i - 1;
      }
    }

    method Read(lines: seq<string>)
      modifies this
      ensures Value() == ReadLines(old(Value()), lines)
    {
      for j := 0 to |lines|
        invariant ReadLines(Value(), lines[j..]) == ReadLines(old(Value()), lines)
      {
        assert lines[j..][1..] == lines[j + 1..];
        var e := ReadLine(lines[j]);
        if e.Item? {
          if e.i >= |data| { data := Resize(data, e.i + 1); }
          data := data[e.i := e.k];
          m := m[e.k := e.i];
        }
      }
    }
  }
}
