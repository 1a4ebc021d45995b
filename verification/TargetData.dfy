/** The target side of a binary phrase table: lists of candidates in a file
    (moses/src/PhraseDictionaryTree.cpp, TgtCand and TgtCands; moses/src/File.h). */
module TargetData {
  import opened Files

  /** One scalar of the file. */
  datatype Cell = Num(n: nat) | Label(id: nat) | Score(x: real) | Chr(c: char)

  datatype TgtCand = TgtCand(e: seq<nat>, sc: seq<real>, sourceAlignment: seq<string>, targetAlignment: seq<string>)

  // ---------------------------------------------------------------- the format

  function LabelCells(v: seq<nat>): (r: seq<Cell>)
    ensures |r| == |v|
  {
    seq(|v|, i requires 0 <= i < |v| => Label(v[i]))
  }

  function ScoreCells(v: seq<real>): (r: seq<Cell>)
    ensures |r| == |v|
  {
    seq(|v|, i requires 0 <= i < |v| => Score(v[i]))
  }

  function CharCells(s: string): (r: seq<Cell>)
    ensures |r| == |s|
  {
    seq(|s|, i requires 0 <= i < |s| => Chr(s[i]))
  }

  /** The first n strings of v, each with its length. */
  function StringCells(v: seq<string>, n: nat): seq<Cell>
    requires n <= |v|
  {
    if n == 0 then [] else StringCells(v, n - 1) + ([Num(|v[n - 1]|)] + CharCells(v[n - 1]))
  }

  function Strings(v: seq<string>): seq<Cell> {
    [Num(|v|)] + StringCells(v, |v|)
  }

  function CandCells(t: TgtCand, align: bool): seq<Cell> {
    ([Num(|t.e|)] + LabelCells(t.e)) + ([Num(|t.sc|)] + ScoreCells(t.sc))
    + if align then Strings(t.sourceAlignment) + Strings(t.targetAlignment) else []
  }

  function ListCells(ts: seq<TgtCand>, n: nat, align: bool): seq<Cell>
    requires n <= |ts|
  {
    if n == 0 then [] else ListCells(ts, n - 1, align) + CandCells(ts[n - 1], align)
  }

  /** writeBin and writeBinWithAlignment. */
  function Encode(ts: seq<TgtCand>, align: bool): (r: seq<Cell>)
    ensures r != []
  {
    [Num(|ts|)] + ListCells(ts, |ts|, align)
  }

  lemma NoCands(ts: seq<TgtCand>, align: bool)
    ensures ListCells(ts, 0, align) == []
  {}

  lemma ListStep(ts: seq<TgtCand>, i: nat, align: bool)
    requires i < |ts|
    ensures ListCells(ts, i + 1, align) == ListCells(ts, i, align) + CandCells(ts[i], align)
  {}

  lemma Regroup(a: seq<Cell>, b: seq<Cell>, c: seq<Cell>, d: seq<Cell>)
    ensures (a + (b + c)) + d == a + (b + (c + d))
  {}

  /** The format, written out for a list of one candidate without alignments. */
  lemma OneCandidate(t: TgtCand)
    ensures Encode([t], false) ==
              [Num(1), Num(|t.e|)] + seq(|t.e|, i requires 0 <= i < |t.e| => Label(t.e[i]))
              + [Num(|t.sc|)] + seq(|t.sc|, i requires 0 <= i < |t.sc| => Score(t.sc[i]))
  {
    ListStep([t], 0, false);
    NoCands([t], false);
  }

  /** The cells of e stand at pos. */
  ghost predicate At(c: seq<Cell>, pos: nat, e: seq<Cell>) {
    pos + |e| <= |c| && forall k :: 0 <= k < |e| ==> c[pos + k] == e[k]
  }

  lemma AtSplit(c: seq<Cell>, pos: nat, a: seq<Cell>, b: seq<Cell>)
    requires At(c, pos, a + b)
    ensures At(c, pos, a) && At(c, pos + |a|, b) && (a != [] ==> c[pos] == a[0])
  {
    assert a != [] ==> c[pos + 0] == (a + b)[0];
    forall k | 0 <= k < |a| ensures c[pos + k] == a[k] { assert c[pos + k] == (a + b)[k]; }
    forall k | 0 <= k < |b| ensures c[pos + |a| + k] == b[k] { assert c[pos + (|a| + k)] == (a + b)[|a| + k]; }
  }

  // ---------------------------------------------------------------- what comes back

  /** A string read through a character pointer ends at its first NUL. */
  function CString(s: string): (r: string)
    ensures |r| <= |s| && r == s[..|r|] && '\0' !in r && (|r| < |s| ==> s[|r|] == '\0')
  {
    if s == "" || s[0] == '\0' then "" else [s[0]] + CString(s[1..])
  }

  function CStrings(v: seq<string>): seq<string> {
    seq(|v|, i requires 0 <= i < |v| => CString(v[i]))
  }

  /** What reading returns for a written candidate. */
  function Reread(t: TgtCand, align: bool): TgtCand {
    TgtCand(t.e, t.sc, if align then CStrings(t.sourceAlignment) else [], if align then CStrings(t.targetAlignment) else [])
  }

  function RereadAll(ts: seq<TgtCand>, align: bool): seq<TgtCand> {
    seq(|ts|, i requires 0 <= i < |ts| => Reread(ts[i], align))
  }

  // ---------------------------------------------------------------- writing

  method WriteStrings(f: File<Cell>, v: seq<string>)
    requires f.pos == |f.cells|
    modifies f
    ensures f.cells == old(f.cells) + Strings(v) && f.pos == |f.cells|
  {
    f.Write(Num(|v|));
    for i := 0 to |v|
      invariant f.cells == old(f.cells) + ([Num(|v|)] + StringCells(v, i)) && f.pos == |f.cells|
    {
      f.Write(Num(|v[i]|));
      f.WriteAll(CharCells(v[i]));
    }
  }

  method WriteCand(f: File<Cell>, t: TgtCand, align: bool)
    requires f.pos == |f.cells|
    modifies f
    ensures f.cells == old(f.cells) + CandCells(t, align) && f.pos == |f.cells|
  {
    f.Write(Num(|t.e|));
    f.WriteAll(LabelCells(t.e));
    f.Write(Num(|t.sc|));
    f.WriteAll(ScoreCells(t.sc));
    if align {
      WriteStrings(f, t.sourceAlignment);
      WriteStrings(f, t.targetAlignment);
    }
  }

  method WriteCands(f: File<Cell>, ts: seq<TgtCand>, align: bool)
    requires f.pos == |f.cells|
    modifies f
    ensures f.cells == old(f.cells) + Encode(ts, align) && f.pos == |f.cells|
  {
    hide CandCells, ListCells;
    NoCands(ts, align);
    f.Write(Num(|ts|));
    for i := 0 to |ts|
      invariant f.cells == old(f.cells) + ([Num(|ts|)] + ListCells(ts, i, align)) && f.pos == |f.cells|
    {
      ListStep(ts, i, align);
      Regroup(old(f.cells), [Num(|ts|)], ListCells(ts, i, align), CandCells(ts[i], align));
      WriteCand(f, ts[i], align);
    }
  }

  // ---------------------------------------------------------------- reading

  method ReadLabels(f: File<Cell>, ghost v: seq<nat>) returns (r: seq<nat>)
    requires At(f.cells, f.pos, [Num(|v|)] + LabelCells(v))
    modifies f`pos
    ensures r == v && f.pos == old(f.pos) + 1 + |v|
  {
    AtSplit(f.cells, f.pos, [Num(|v|)], LabelCells(v));
    var n := f.Read();
    r := [];
    for i := 0 to n.n
      invariant r == v[..i] && f.pos == old(f.pos) + 1 + i
    {
      assert f.cells[old(f.pos) + 1 + i] == LabelCells(v)[i];
      var x := f.Read();
      r := r + [x.id];
    }
  }

  method ReadScores(f: File<Cell>, ghost v: seq<real>) returns (r: seq<real>)
    requires At(f.cells, f.pos, [Num(|v|)] + ScoreCells(v))
    modifies f`pos
    ensures r == v && f.pos == old(f.pos) + 1 + |v|
  {
    AtSplit(f.cells, f.pos, [Num(|v|)], ScoreCells(v));
    var n := f.Read();
    r := [];
    for i := 0 to n.n
      invariant r == v[..i] && f.pos == old(f.pos) + 1 + i
    {
      assert f.cells[old(f.pos) + 1 + i] == ScoreCells(v)[i];
      var x := f.Read();
      r := r + [x.x];
    }
  }

  /** fReadString: the characters are read, then assigned as a C string. */
  method ReadString(f: File<Cell>, ghost s: string) returns (r: string)
    requires At(f.cells, f.pos, [Num(|s|)] + CharCells(s))
    modifies f`pos
    ensures r == CString(s) && f.pos == old(f.pos) + 1 + |s|
  {
    AtSplit(f.cells, f.pos, [Num(|s|)], CharCells(s));
    var n := f.Read();
    var a := "";
    for i := 0 to n.n
      invariant a == s[..i] && f.pos == old(f.pos) + 1 + i
    {
      assert f.cells[old(f.pos) + 1 + i] == CharCells(s)[i];
      var x := f.Read();
      a := a + [x.c];
    }
    assert a == s;
    r := CString(a);
  }

  lemma {:induction false} StringsAt(c: seq<Cell>, pos: nat, v: seq<string>, n: nat, i: nat)
    requires i < n <= |v| && At(c, pos, StringCells(v, n))
    ensures At(c, pos + |StringCells(v, i)|, [Num(|v[i]|)] + CharCells(v[i]))
  {
    AtSplit(c, pos, StringCells(v, n - 1), [Num(|v[n - 1]|)] + CharCells(v[n - 1]));
    if i < n - 1 { StringsAt(c, pos, v, n - 1, i); }
  }

  method ReadStrings(f: File<Cell>, ghost v: seq<string>) returns (r: seq<string>)
    requires At(f.cells, f.pos, Strings(v))
    modifies f`pos
    ensures r == CStrings(v) && f.pos == old(f.pos) + |Strings(v)|
  {
    AtSplit(f.cells, f.pos, [Num(|v|)], StringCells(v, |v|));
    var n := f.Read();
    r := [];
    for i := 0 to n.n
      invariant r == CStrings(v)[..i] && f.pos == old(f.pos) + 1 + |StringCells(v, i)|
    {
      StringsAt(f.cells, old(f.pos) + 1, v, |v|, i);
      var s := ReadString(f, v[i]);
      r := r + [s];
    }
  }

  method ReadCand(f: File<Cell>, align: bool, ghost t: TgtCand) returns (r: TgtCand)
    requires At(f.cells, f.pos, CandCells(t, align))
    modifies f`pos
    ensures r == Reread(t, align) && f.pos == old(f.pos) + |CandCells(t, align)|
  {
    hide At, LabelCells, ScoreCells, Strings, CStrings;
    ghost var first, second := [Num(|t.e|)] + LabelCells(t.e), [Num(|t.sc|)] + ScoreCells(t.sc);
    ghost var third := if align then Strings(t.sourceAlignment) + Strings(t.targetAlignment) else [];
    AtSplit(f.cells, f.pos, first + second, third);
    AtSplit(f.cells, f.pos, first, second);
    var e := ReadLabels(f, t.e);
    var sc := ReadScores(f, t.sc);
    r := TgtCand(e, sc, [], []);
    if align {
      AtSplit(f.cells, f.pos, Strings(t.sourceAlignment), Strings(t.targetAlignment));
      var source := ReadStrings(f, t.sourceAlignment);
      var target := ReadStrings(f, t.targetAlignment);
      r := r.(sourceAlignment := source, targetAlignment := target);
    }
  }

  lemma {:induction false} ListAt(c: seq<Cell>, pos: nat, ts: seq<TgtCand>, align: bool, n: nat, i: nat)
    requires i < n <= |ts| && At(c, pos, ListCells(ts, n, align))
    ensures At(c, pos + |ListCells(ts, i, align)|, CandCells(ts[i], align))
  {
    AtSplit(c, pos, ListCells(ts, n - 1, align), CandCells(ts[n - 1], align));
    if i < n - 1 { ListAt(c, pos, ts, align, n - 1, i); }
  }

  /** readBin and readBinWithAlignment: the round trip of a list of candidates. */
  method ReadCands(f: File<Cell>, align: bool, ghost ts: seq<TgtCand>) returns (r: seq<TgtCand>)
    requires At(f.cells, f.pos, Encode(ts, align))
    modifies f`pos
    ensures r == RereadAll(ts, align) && f.pos == old(f.pos) + |Encode(ts, align)|
  {
    AtSplit(f.cells, f.pos, [Num(|ts|)], ListCells(ts, |ts|, align));
    hide At, CandCells, ListCells, Reread;
    NoCands(ts, align);
    var n := f.Read();
    r := [];
    for i := 0 to n.n
      invariant r == RereadAll(ts, align)[..i] && f.pos == old(f.pos) + 1 + |ListCells(ts, i, align)|
    {
      ListAt(f.cells, old(f.pos) + 1, ts, align, |ts|, i);
      ListStep(ts, i, align);
      var t := ReadCand(f, align, ts[i]);
      r := r + [t];
    }
  }
}
