/** The commands in a stream of bytes, as try_read_command of lmserver/lmserver.c cuts them out. */
module Lines {
  type byte = x: int | 0 <= x < 256

  const NEWLINE: byte := 10
  const CR: byte := 13

  predicate HasNewline(s: seq<byte>) {
    NEWLINE in s
  }

  /** Where the first line ends: at its newline, or at the end of the bytes. */
  function LineEnd(s: seq<byte>): (e: nat)
    ensures e <= |s| && !HasNewline(s[..e])
    ensures e < |s| ==> s[e] == NEWLINE
    ensures e == |s| <==> !HasNewline(s)
  {
    if s == [] || s[0] == NEWLINE then 0
    else
      var e := 1 + LineEnd(s[1..]);
      assert s[..e] == [s[0]] + s[1..][..e - 1];
      assert s == [s[0]] + s[1..];
      e
  }

  /** The bytes of a C string: those before the first 0. */
  function CString(s: seq<byte>): (c: seq<byte>)
    ensures |c| <= |s| && c == s[..|c|] && 0 !in c && (|c| < |s| ==> s[|c|] == 0)
  {
    if s == [] || s[0] == 0 then [] else [s[0]] + CString(s[1..])
  }

  /** A carriage return before the newline goes, unless the line is nothing else. */
  function WithoutCr(line: seq<byte>): seq<byte> {
    if |line| > 1 && line[|line| - 1] == CR then line[..|line| - 1] else line
  }

  function Command(line: seq<byte>): seq<byte> {
    CString(WithoutCr(line))
  }

  /** A command without NULs is its line, without the carriage return at its end if there is something before it. */
  lemma CommandIs(line: seq<byte>)
    requires 0 !in line
    ensures |line| >= 2 && line[|line| - 1] == 13 ==> Command(line) == line[..|line| - 1]
    ensures |line| < 2 || line[|line| - 1] != 13 ==> Command(line) == line
  {
    assert 0 !in WithoutCr(line);
  }

  /** The lines of s that are complete, without their newlines, and what follows them. */
  function LinesOf(s: seq<byte>): seq<seq<byte>>
    decreases |s|
  {
    var e := LineEnd(s);
    if e == |s| then [] else [s[..e]] + LinesOf(s[e + 1..])
  }

  function Rest(s: seq<byte>): (r: seq<byte>)
    ensures |r| <= |s|
    decreases |s|
  {
    var e := LineEnd(s);
    if e == |s| then s else Rest(s[e + 1..])
  }

  function Commands(lines: seq<seq<byte>>): (c: seq<seq<byte>>)
    ensures |c| == |lines| && forall i :: 0 <= i < |c| ==> c[i] == Command(lines[i])
  {
    seq(|lines|, i requires 0 <= i < |lines| => Command(lines[i]))
  }

  function Joined(lines: seq<seq<byte>>): seq<byte> {
    if lines == [] then [] else lines[0] + [NEWLINE] + Joined(lines[1..])
  }

  lemma {:induction false} LineEndIs(s: seq<byte>, e: nat)
    requires e < |s| && s[e] == NEWLINE && !HasNewline(s[..e])
    ensures LineEnd(s) == e
  {
    if e > 0 {
      assert s[..e][0] == s[0];
      assert s[1..][..e - 1] == s[..e][1..];
      LineEndIs(s[1..], e - 1);
    }
  }

  lemma FirstLine(line: seq<byte>, rest: seq<byte>)
    requires !HasNewline(line)
    ensures LinesOf(line + [NEWLINE] + rest) == [line] + LinesOf(rest) && Rest(line + [NEWLINE] + rest) == Rest(rest)
  {
    hide HasNewline;
    var s, e := line + [NEWLINE] + rest, |line|;
    assert s[..e] == line && s[e] == NEWLINE && s[e + 1..] == rest;
    LineEndIs(s, e);
  }

  lemma NoLine(s: seq<byte>)
    ensures !HasNewline(s) <==> LinesOf(s) == []
    ensures !HasNewline(s) ==> Rest(s) == s
  {}

  /** The bytes are their first line and the rest of them, or hold no newline. */
  lemma Cut(s: seq<byte>) returns (line: seq<byte>, rest: seq<byte>)
    requires HasNewline(s)
    ensures s == line + [NEWLINE] + rest && !HasNewline(line) && |rest| < |s|
  {
    hide HasNewline;
    var e := LineEnd(s);
    line, rest := s[..e], s[e + 1..];
  }

  /** Cutting into lines is the inverse of joining lines that hold no newline. */
  lemma {:induction false} LinesJoin(s: seq<byte>)
    ensures s == Joined(LinesOf(s)) + Rest(s) && !HasNewline(Rest(s))
    ensures forall i :: 0 <= i < |LinesOf(s)| ==> !HasNewline(LinesOf(s)[i])
    decreases |s|
  {
    hide HasNewline, LinesOf, Rest;
    if HasNewline(s) {
      var line, rest := Cut(s);
      FirstLine(line, rest);
      LinesJoin(rest);
      assert ([line] + LinesOf(rest))[1..] == LinesOf(rest);
      assert s == Joined(LinesOf(s)) + Rest(s);
    } else {
      NoLine(s);
    }
  }

  lemma {:induction false} JoinedLines(lines: seq<seq<byte>>, rest: seq<byte>)
    requires (forall i :: 0 <= i < |lines| ==> !HasNewline(lines[i])) && !HasNewline(rest)
    ensures LinesOf(Joined(lines) + rest) == lines && Rest(Joined(lines) + rest) == rest
  {
    hide HasNewline, LinesOf, Rest;
    if lines == [] {
      NoLine(rest);
      assert Joined(lines) + rest == rest;
    } else {
      var more := Joined(lines[1..]) + rest;
      JoinedLines(lines[1..], rest);
      FirstLine(lines[0], more);
      assert Joined(lines) + rest == lines[0] + [NEWLINE] + more;
      assert [lines[0]] + lines[1..] == lines;
    }
  }

  /** Complete lines stay what they are when more bytes follow. */
  lemma {:induction false} LinesAppend(s: seq<byte>, t: seq<byte>)
    requires Rest(s) == []
    ensures LinesOf(s + t) == LinesOf(s) + LinesOf(t) && Rest(s + t) == Rest(t)
    decreases |s|
  {
    hide HasNewline, LinesOf, Rest;
    if HasNewline(s) {
      var line, rest := Cut(s);
      FirstLine(line, rest);
      LinesAppend(rest, t);
      FirstLine(line, rest + t);
      assert s + t == line + [NEWLINE] + (rest + t);
    } else {
      NoLine(s);
      assert s + t == t;
    }
  }

  lemma NextLine(s: seq<byte>, line: seq<byte>)
    requires Rest(s) == [] && !HasNewline(line)
    ensures LinesOf(s + line + [NEWLINE]) == LinesOf(s) + [line] && Rest(s + line + [NEWLINE]) == []
  {
    hide HasNewline;
    FirstLine(line, []);
    assert line + [NEWLINE] + [] == line + [NEWLINE];
    LinesAppend(s, line + [NEWLINE]);
    assert s + line + [NEWLINE] == s + (line + [NEWLINE]);
  }
}
