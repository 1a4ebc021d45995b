/** Reordering walls and zones (moses/src/ReorderingConstraint.cpp), over the coverage bitmaps of
    moses/src/WordsBitmap.h. */
module Reordering {
  const NOT_FOUND: nat := 0xFFFF_FFFF_FFFF_FFFF
  const MAX_SIZE: int := 0x1_0000_0000

  /** Words start to end, both included, that are finished once they are begun. */
  datatype Zone = Zone(start: nat, end: nat)

  /** Wall p stands between words p and p + 1; a local wall matters inside the zones around it only. */
  datatype Constraint = Constraint(wall: seq<bool>, localWall: seq<bool>, zones: seq<Zone>, maxDistortion: int)

  /** A source span, both ends included. */
  datatype Span = Span(start: nat, end: nat)

  type Bitmap = seq<bool>

  // ---------------------------------------------------------------- coverage bitmaps

  ghost predicate AllSet(b: Bitmap, lo: nat, hi: nat)
    requires hi <= |b|
  {
    forall w :: lo <= w < hi ==> b[w]
  }

  ghost predicate NoneSet(b: Bitmap, lo: nat, hi: nat)
    requires hi <= |b|
  {
    forall w :: lo <= w < hi ==> !b[w]
  }

  ghost predicate IsFirstGap(b: Bitmap, g: nat) {
    if g < |b| then !b[g] && AllSet(b, 0, g) else g == NOT_FOUND && AllSet(b, 0, |b|)
  }

  ghost predicate IsLastPos(b: Bitmap, l: nat) {
    if l < |b| then b[l] && NoneSet(b, l + 1, |b|) else l == NOT_FOUND && NoneSet(b, 0, |b|)
  }

  /** Inside the sentence and not translated yet. */
  ghost predicate Free(b: Bitmap, s: Span) {
    s.start <= s.end < |b| && NoneSet(b, s.start, s.end + 1)
  }

  function Applied(b: Bitmap, s: Span): (a: Bitmap)
    ensures |a| == |b| && forall w :: 0 <= w < |b| ==> (a[w] <==> b[w] || s.start <= w <= s.end)
  {
    seq(|b|, w requires 0 <= w < |b| => b[w] || s.start <= w <= s.end)
  }

  method GetFirstGapPos(b: Bitmap) returns (g: nat)
    requires |b| <= MAX_SIZE
    ensures IsFirstGap(b, g)
  {
    g := 0;
    while g < |b|
      invariant g <= |b| && AllSet(b, 0, g)
    {
      if !b[g] {
        return;
      }
      g := g + 1;
    }
    g := NOT_FOUND;
  }

  method GetLastPos(b: Bitmap) returns (l: nat)
    requires |b| <= MAX_SIZE
    ensures IsLastPos(b, l)
  {
    var pos := |b| - 1;
    while pos >= 0
      invariant -1 <= pos < |b| && NoneSet(b, pos + 1, |b|)
    {
      if b[pos] {
        return pos;
      }
      pos := pos - 1;
    }
    l := NOT_FOUND;
  }

  lemma GapOfFree(b: Bitmap, s: Span, g: nat)
    requires Free(b, s) && IsFirstGap(b, g)
    ensures g <= s.start && !b[g] && AllSet(b, 0, g) && (g == s.start <==> AllSet(b, 0, s.start))
  {
    assert !b[s.start];
  }

  /** Translated words among those from lo on, before hi. */
  ghost function NumSet(b: Bitmap, lo: nat, hi: nat): (n: nat)
    requires lo <= hi <= |b|
    ensures n <= hi - lo
    ensures n == hi - lo <==> AllSet(b, lo, hi)
    ensures n == 0 <==> NoneSet(b, lo, hi)
  {
    if lo == hi then 0 else NumSet(b, lo, hi - 1) + if b[hi - 1] then 1 else 0
  }

  lemma {:induction false} NumSetSplits(b: Bitmap, lo: nat, mid: nat, hi: nat)
    requires lo <= mid <= hi <= |b|
    ensures NumSet(b, lo, hi) == NumSet(b, lo, mid) + NumSet(b, mid, hi)
  {
    if mid < hi { NumSetSplits(b, lo, mid, hi - 1); }
  }

  // ---------------------------------------------------------------- what the check lets pass

  ghost predicate WellFormed(c: Constraint, n: nat) {
    && n <= MAX_SIZE
    && |c.wall| == |c.localWall| == n
    && -MAX_SIZE < c.maxDistortion < MAX_SIZE
    && forall z :: z in c.zones ==> z.start <= z.end < n
  }

  ghost predicate Complete(b: Bitmap, z: Zone)
    requires z.end < |b|
  {
    AllSet(b, z.start, z.end + 1)
  }

  ghost predicate Untouched(b: Bitmap, z: Zone)
    requires z.end < |b|
  {
    NoneSet(b, z.start, z.end + 1)
  }

  predicate Outside(s: Span, z: Zone) {
    s.end < z.start || s.start > z.end
  }

  /** The phrase begins at the first gap, or it leaves a gap behind that is still within the distortion limit of
      the end of the zone; a negative limit is none. */
  ghost predicate InReach(c: Constraint, b: Bitmap, s: Span, z: Zone)
    requires s.start <= |b| && z.end < |b|
  {
    || AllSet(b, 0, s.start)
    || c.maxDistortion < 0
    || forall w: nat :: w <= z.end && !b[w] ==> z.end - w < c.maxDistortion
  }

  /** Every local wall of the zone before word e has all words of the zone up to it translated, but for those
      from word s on. */
  ghost predicate LocalWallsPassed(c: Constraint, b: Bitmap, s: Span, z: Zone)
    requires WellFormed(c, |b|) && z.end < |b|
  {
    forall p: nat, w: nat :: w <= p < s.end && p < z.end && c.localWall[p] && z.start <= w < s.start ==> b[w]
  }

  ghost predicate ZonePermits(c: Constraint, b: Bitmap, s: Span, z: Zone)
    requires WellFormed(c, |b|) && Free(b, s) && z.end < |b|
  {
    || Complete(b, z)
    || (Outside(s, z) && Untouched(b, z))
    || (&& !Outside(s, z)
        && InReach(c, b, s, z)
        && (|| s.start <= z.start
            || (if s.end > z.end then AllSet(b, z.start, s.start) else LocalWallsPassed(c, b, s, z))))
  }

  ghost predicate WallsPermit(c: Constraint, b: Bitmap, s: Span)
    requires WellFormed(c, |b|) && Free(b, s)
  {
    AllSet(b, 0, s.start) || forall p: nat, w: nat :: w <= p < s.end && c.wall[p] ==> b[w]
  }

  ghost predicate Permitted(c: Constraint, b: Bitmap, s: Span)
    requires WellFormed(c, |b|) && Free(b, s)
  {
    WallsPermit(c, b, s) && forall z :: z in c.zones ==> ZonePermits(c, b, s, z)
  }

  // ---------------------------------------------------------------- one run

  ghost predicate WallKept(c: Constraint, b: Bitmap)
    requires WellFormed(c, |b|)
  {
    forall p: nat, q: nat, w: nat :: w <= p < q < |b| && c.wall[p] && b[q] ==> b[w]
  }

  ghost predicate LocalWallKept(c: Constraint, b: Bitmap, z: Zone)
    requires WellFormed(c, |b|) && z.end < |b|
  {
    forall p: nat, q: nat, w: nat :: z.start <= w <= p < q <= z.end && c.localWall[p] && b[q] ==> b[w]
  }

  /** A zone that is not finished, with a gap somewhere before one of its translated words, ends within the
      distortion limit of every gap. */
  ghost predicate ReachKept(c: Constraint, b: Bitmap, z: Zone)
    requires z.end < |b|
  {
    || Complete(b, z)
    || c.maxDistortion < 0
    || forall w: nat, u: nat, q: nat ::
         u < q && z.start <= q <= z.end && !b[u] && b[q] && w <= z.end && !b[w] ==> z.end - w < c.maxDistortion
  }

  ghost predicate Safe(c: Constraint, b: Bitmap)
    requires WellFormed(c, |b|)
  {
    && WallKept(c, b)
    && (forall z :: z in c.zones ==> LocalWallKept(c, b, z))
    && (forall z :: z in c.zones ==> ReachKept(c, b, z))
  }

  /** What an accepted phrase means for the coverage it leads to. */
  ghost predicate ZoneRespected(c: Constraint, b: Bitmap, s: Span, z: Zone)
    requires WellFormed(c, |b|) && Free(b, s) && z.end < |b|
  {
    var a := Applied(b, s);
    || Complete(b, z)
    || (Outside(s, z) && Untouched(b, z))
    || (!Outside(s, z) && InReach(c, b, s, z) && LocalWallKept(c, a, z) && (s.end > z.end ==> Complete(a, z)))
  }

  lemma WallsPermitted(c: Constraint, b: Bitmap, s: Span)
    requires WellFormed(c, |b|) && Free(b, s) && WallKept(c, b)
    ensures WallsPermit(c, b, s) <==> WallKept(c, Applied(b, s))
  {
    var a := Applied(b, s);
    if WallsPermit(c, b, s) {
      forall p: nat, q: nat, w: nat | w <= p < q < |b| && c.wall[p] && a[q] ensures a[w] {
        if b[q] { assert b[w]; }
      }
    }
    if WallKept(c, a) && !AllSet(b, 0, s.start) {
      var u: nat :| u < s.start && !b[u];
      forall p: nat, w: nat | w <= p < s.end && c.wall[p] ensures b[w] {
        assert !a[u] && a[s.end] && a[w];
        assert p < u;
      }
    }
  }

  lemma ZonePermitted(c: Constraint, b: Bitmap, s: Span, z: Zone)
    requires WellFormed(c, |b|) && Free(b, s) && z.start <= z.end < |b| && LocalWallKept(c, b, z)
    ensures ZonePermits(c, b, s, z) <==> ZoneRespected(c, b, s, z)
  {
    var a := Applied(b, s);
    if !Outside(s, z) {
      assert s.end > z.end && s.start > z.start ==> (Complete(a, z) <==> AllSet(b, z.start, s.start)) by {
        if s.end > z.end && s.start > z.start {
          if Complete(a, z) {
            forall w | z.start <= w < s.start ensures b[w] { assert a[w]; }
          }
        }
      }
      assert s.end <= z.end ==> (LocalWallKept(c, a, z) <==> LocalWallsPassed(c, b, s, z)) by {
        if LocalWallKept(c, a, z) {
          forall p: nat, w: nat | w <= p < s.end && p < z.end && c.localWall[p] && z.start <= w < s.start ensures s.end <= z.end ==> b[w] {
            assert a[s.end];
          }
        }
      }
    }
  }

  lemma ReachStep(c: Constraint, b: Bitmap, s: Span, z: Zone)
    requires WellFormed(c, |b|) && Free(b, s) && z.start <= z.end < |b| && ReachKept(c, b, z) && ZonePermits(c, b, s, z)
    ensures ReachKept(c, Applied(b, s), z)
  {
    var a := Applied(b, s);
    if !Complete(a, z) && c.maxDistortion >= 0 {
      forall w: nat, u: nat, q: nat |
        u < q && z.start <= q <= z.end && !a[u] && a[q] && w <= z.end && !a[w] ensures z.end - w < c.maxDistortion {
        assert !b[w] && !b[u];
        if !b[q] { assert u < s.start; }
      }
    }
  }

  /** Every accepted phrase keeps all walls, all local walls and the reach of all zones. */
  lemma SafeStep(c: Constraint, b: Bitmap, s: Span)
    requires WellFormed(c, |b|) && Free(b, s) && Safe(c, b) && Permitted(c, b, s)
    ensures Safe(c, Applied(b, s))
  {
    WallsPermitted(c, b, s);
    forall z | z in c.zones ensures LocalWallKept(c, Applied(b, s), z) && ReachKept(c, Applied(b, s), z) {
      ZonePermitted(c, b, s, z);
      ReachStep(c, b, s, z);
      assert LocalWallKept(c, b, z);
    }
  }

  /** Exactly the phrases are accepted that keep every wall and respect every zone. */
  lemma PermittedMeans(c: Constraint, b: Bitmap, s: Span)
    requires WellFormed(c, |b|) && Free(b, s) && Safe(c, b)
    ensures Permitted(c, b, s) <==>
            WallKept(c, Applied(b, s)) && forall z :: z in c.zones ==> ZoneRespected(c, b, s, z)
  {
    WallsPermitted(c, b, s);
    forall z | z in c.zones ensures ZonePermits(c, b, s, z) <==> ZoneRespected(c, b, s, z) {
      assert LocalWallKept(c, b, z);
      ZonePermitted(c, b, s, z);
    }
  }

  /** Coverage after the phrases. */
  function Coverage(n: nat, phrases: seq<Span>): (b: Bitmap)
    ensures |b| == n
  {
    if phrases == [] then seq(n, _ => false) else Applied(Coverage(n, phrases[..|phrases| - 1]), phrases[|phrases| - 1])
  }

  /** A derivation: every phrase is free and accepted where it is applied. */
  ghost predicate Derivation(c: Constraint, n: nat, phrases: seq<Span>)
    requires WellFormed(c, n)
  {
    forall k :: 0 <= k < |phrases| ==> Accepted(c, n, phrases, k)
  }

  ghost predicate Accepted(c: Constraint, n: nat, phrases: seq<Span>, k: nat)
    requires WellFormed(c, n) && k < |phrases|
  {
    Free(Coverage(n, phrases[..k]), phrases[k]) && Permitted(c, Coverage(n, phrases[..k]), phrases[k])
  }

  lemma CoverageStep(n: nat, phrases: seq<Span>, k: nat)
    requires k < |phrases|
    ensures Coverage(n, phrases[..k + 1]) == Applied(Coverage(n, phrases[..k]), phrases[k])
  {
    assert phrases[..k + 1][..k] == phrases[..k];
  }

  lemma {:induction false} RunIsSafe(c: Constraint, n: nat, phrases: seq<Span>, k: nat)
    requires WellFormed(c, n) && Derivation(c, n, phrases) && k <= |phrases|
    ensures Safe(c, Coverage(n, phrases[..k]))
  {
    if k == 0 {
      assert NoneSet(Coverage(n, phrases[..0]), 0, n);
    } else {
      RunIsSafe(c, n, phrases, k - 1);
      assert Accepted(c, n, phrases, k - 1);
      SafeStep(c, Coverage(n, phrases[..k - 1]), phrases[k - 1]);
      CoverageStep(n, phrases, k - 1);
    }
  }

  /** The words of a phrase are open until it is applied and translated from then on. */
  lemma {:induction false} WordsOf(c: Constraint, n: nat, phrases: seq<Span>, i: nat, k: nat, w: nat)
    requires WellFormed(c, n) && Derivation(c, n, phrases) && i < |phrases| && k <= |phrases|
    requires phrases[i].start <= w <= phrases[i].end
    ensures w < n && (Coverage(n, phrases[..k])[w] <==> i < k)
    decreases if i < k then k - i else i - k
  {
    assert Accepted(c, n, phrases, i);
    if i + 1 < k {
      WordsOf(c, n, phrases, i, k - 1, w);
      CoverageStep(n, phrases, k - 1);
    } else if i + 1 == k {
      CoverageStep(n, phrases, i);
    } else if k < i {
      WordsOf(c, n, phrases, i, k + 1, w);
      CoverageStep(n, phrases, k);
    }
  }

  /** No word after a wall before a word up to it. */
  lemma WallOrder(c: Constraint, n: nat, phrases: seq<Span>, p: nat, i: nat, j: nat)
    requires WellFormed(c, n) && Derivation(c, n, phrases) && p < n && c.wall[p]
    requires i < j < |phrases| && phrases[j].start <= p
    ensures phrases[i].end <= p
  {
    assert Accepted(c, n, phrases, i) && Accepted(c, n, phrases, j);
    RunIsSafe(c, n, phrases, j);
    WordsOf(c, n, phrases, i, j, phrases[i].end);
    WordsOf(c, n, phrases, j, j, phrases[j].start);
  }

  /** The same inside a zone, for its local walls. */
  lemma LocalWallOrder(c: Constraint, n: nat, phrases: seq<Span>, z: Zone, p: nat, i: nat, j: nat, q: nat, w: nat)
    requires WellFormed(c, n) && Derivation(c, n, phrases) && z in c.zones && z.start <= p < z.end && c.localWall[p]
    requires i < |phrases| && phrases[i].start <= q <= phrases[i].end && p < q <= z.end
    requires j < |phrases| && phrases[j].start <= w <= phrases[j].end && z.start <= w <= p
    ensures j <= i
  {
    if i < j {
      RunIsSafe(c, n, phrases, j);
      assert LocalWallKept(c, Coverage(n, phrases[..j]), z);
      WordsOf(c, n, phrases, i, j, q);
      WordsOf(c, n, phrases, j, j, w);
    }
  }

  /** While a zone is partly translated, every phrase overlaps it. */
  lemma ZoneNotLeft(c: Constraint, n: nat, phrases: seq<Span>, z: Zone, k: nat)
    requires WellFormed(c, n) && Derivation(c, n, phrases) && z in c.zones && k < |phrases|
    requires !Untouched(Coverage(n, phrases[..k]), z) && !Complete(Coverage(n, phrases[..k]), z)
    ensures !Outside(phrases[k], z)
  {
    assert Accepted(c, n, phrases, k);
    assert ZonePermits(c, Coverage(n, phrases[..k]), phrases[k], z);
  }

  /** The phrases that overlap a zone are consecutive. */
  lemma ZoneInOneRun(c: Constraint, n: nat, phrases: seq<Span>, z: Zone, i: nat, k: nat, j: nat)
    requires WellFormed(c, n) && Derivation(c, n, phrases) && z in c.zones && i < k < j < |phrases|
    requires !Outside(phrases[i], z) && !Outside(phrases[j], z)
    ensures !Outside(phrases[k], z)
  {
    assert Accepted(c, n, phrases, i) && Accepted(c, n, phrases, j);
    var q := if phrases[i].start >= z.start then phrases[i].start else z.start;
    var w := if phrases[j].start >= z.start then phrases[j].start else z.start;
    WordsOf(c, n, phrases, i, k, q);
    WordsOf(c, n, phrases, j, k, w);
    ZoneNotLeft(c, n, phrases, z, k);
  }

  // ---------------------------------------------------------------- the class

  /** Word p lies in a zone and is not its last. */
  ghost predicate Inside(zones: seq<Zone>, p: nat) {
    exists k :: 0 <= k < |zones| && zones[k].start <= p < zones[k].end
  }

  class ReorderingConstraint {
    var wall: array<bool>
    var localWall: array<bool>
    var zones: seq<Zone>
    var active: bool

    ghost predicate Valid()
      reads this, wall, localWall
    {
      && wall != localWall && wall.Length == localWall.Length <= MAX_SIZE
      && (!active ==> zones == [] && NoneSet(wall[..], 0, wall.Length) && NoneSet(localWall[..], 0, localWall.Length))
    }

    ghost function View(maxDistortion: int): Constraint
      reads this, wall, localWall
    {
      Constraint(wall[..], localWall[..], zones, maxDistortion)
    }

    constructor ()
      ensures Valid() && fresh(wall) && fresh(localWall) && zones == [] && !active && wall.Length == 0
    {
      wall, localWall, zones, active := new bool[0], new bool[0], [], false;
    }

    method InitializeWalls(size: nat)
      requires Valid() && size <= MAX_SIZE
      modifies this`wall, this`localWall
      ensures Valid() && fresh(wall) && fresh(localWall)
      ensures wall.Length == size && NoneSet(wall[..], 0, size) && NoneSet(localWall[..], 0, size)
    {
      wall := new bool[size](_ => false);
      localWall := new bool[size](_ => false);
    }

    method SetWall(pos: nat, value: bool)
      requires Valid() && pos < wall.Length
      modifies wall, this`active
      ensures Valid() && active && wall[..] == old(wall[..])[pos := value]
    {
      wall[pos] := value;
      active := true;
    }

    method SetZone(startPos: nat, endPos: nat)
      requires Valid() && startPos <= endPos
      modifies this`zones, this`active
      ensures Valid() && active && zones == old(zones) + [Zone(startPos, endPos)]
    {
      zones := zones + [Zone(startPos, endPos)];
      active := true;
    }

    /** Walls inside a zone become local. */
    method FinalizeWalls()
      requires Valid() && forall z :: z in zones ==> z.start <= z.end < wall.Length
      modifies wall, localWall
      ensures Valid()
      ensures forall p :: 0 <= p < wall.Length ==> (wall[p] <==> old(wall[p]) && !Inside(zones, p))
      ensures forall p :: 0 <= p < wall.Length ==> (localWall[p] <==> old(localWall[p]) || (old(wall[p]) && Inside(zones, p)))
    {
      var z := 0;
      while z < |zones|
        invariant 0 <= z <= |zones|
        invariant forall p :: 0 <= p < wall.Length ==> (wall[p] <==> old(wall[p]) && !Inside(zones[..z], p))
        invariant forall p :: 0 <= p < wall.Length ==>
                    (localWall[p] <==> old(localWall[p]) || (old(wall[p]) && Inside(zones[..z], p)))
      {
        FinalizeZone(zones[z]);
        InsideStep(zones, z);
        z := z + 1;
      }
      assert zones[..z] == zones;
    }

    method FinalizeZone(zone: Zone)
      requires wall != localWall && wall.Length == localWall.Length && zone.start <= zone.end < wall.Length
      modifies wall, localWall
      ensures forall p :: 0 <= p < wall.Length ==> (wall[p] <==> old(wall[p]) && !(zone.start <= p < zone.end))
      ensures forall p :: 0 <= p < wall.Length ==>
                (localWall[p] <==> old(localWall[p]) || (old(wall[p]) && zone.start <= p < zone.end))
    {
      var pos := zone.start;
      while pos < zone.end
        invariant zone.start <= pos <= zone.end
        invariant forall p :: 0 <= p < wall.Length ==> (wall[p] <==> old(wall[p]) && !(zone.start <= p < pos))
        invariant forall p :: 0 <= p < wall.Length ==>
                    (localWall[p] <==> old(localWall[p]) || (old(wall[p]) && zone.start <= p < pos))
      {
        if wall[pos] {
          localWall[pos] := true;
          wall[pos] := false;
        }
        pos := pos + 1;
      }
    }

    /** Accepts exactly the permitted phrases. */
    method Check(b: Bitmap, s: Span, maxDistortion: int) returns (ok: bool)
      requires Valid() && WellFormed(View(maxDistortion), |b|) && Free(b, s)
      ensures ok <==> Permitted(View(maxDistortion), b, s)
    {
      ghost var c := View(maxDistortion);
      if !active {
        return true;
      }
      var firstGapPos := GetFirstGapPos(b);
      GapOfFree(b, s, firstGapPos);
      if firstGapPos != s.start {
        var pos := firstGapPos;
        while pos < s.end
          invariant firstGapPos <= pos && forall p :: firstGapPos <= p < pos && p < s.end ==> !c.wall[p]
        {
          if wall[pos] {
            assert c.wall[pos];
            return false;
          }
          pos := pos + 1;
        }
      }
      assert WallsPermit(c, b, s);
      var lastPos := GetLastPos(b);
      if (lastPos == NOT_FOUND && s.start == 0) || (firstGapPos > lastPos && firstGapPos == s.start) {
        MonotoneIsPermitted(c, b, s);
        return true;
      }
      var z := 0;
      while z < |zones|
        invariant 0 <= z <= |zones| && forall k :: 0 <= k < z ==> ZonePermits(c, b, s, zones[k])
      {
        ok := CheckZone(b, s, maxDistortion, zones[z], firstGapPos, lastPos);
        if !ok {
          return;
        }
        z := z + 1;
      }
      return true;
    }

    method CheckZone(b: Bitmap, s: Span, maxDistortion: int, zone: Zone, firstGapPos: nat, lastPos: nat) returns (ok: bool)
      requires Valid() && WellFormed(View(maxDistortion), |b|) && Free(b, s) && zone in zones
      requires IsFirstGap(b, firstGapPos) && IsLastPos(b, lastPos)
      ensures ok <==> ZonePermits(View(maxDistortion), b, s, zone)
    {
      ghost var c := View(maxDistortion);
      GapOfFree(b, s, firstGapPos);
      if lastPos < zone.start && Outside(s, zone) {
        return true;
      }
      if firstGapPos > zone.end {
        return true;
      }
      var translated := 0;
      if lastPos >= zone.start {
        translated := CountTranslated(b, zone);
      }
      assert translated == NumSet(b, zone.start, zone.end + 1);
      if translated == zone.end - zone.start + 1 {
        return true;
      }
      if Outside(s, zone) {
        return translated == 0;
      }
      if s.start != firstGapPos && zone.end - firstGapPos >= ToSize(maxDistortion) {
        return false;
      }
      if s.start <= zone.start {
        return true;
      }
      if s.end > zone.end {
        NumSetSplits(b, zone.start, s.start, zone.end + 1);
        return zone.end - s.start + 1 >= zone.end - zone.start + 1 - translated;
      }
      ok := CheckLocalWalls(b, s, maxDistortion, zone);
    }

    method CheckLocalWalls(b: Bitmap, s: Span, ghost maxDistortion: int, zone: Zone) returns (ok: bool)
      requires Valid() && WellFormed(View(maxDistortion), |b|) && Free(b, s) && zone in zones
      ensures ok <==> LocalWallsPassed(View(maxDistortion), b, s, zone)
    {
      var seenUntranslated := false;
      var pos := zone.start;
      while pos < zone.end && pos < s.end
        invariant zone.start <= pos
        invariant seenUntranslated <==> exists w :: zone.start <= w < pos && w < s.start && !b[w]
        invariant forall p: nat, w: nat ::
                    w <= p < pos && p < s.end && p < zone.end && localWall[p] && zone.start <= w < s.start ==> b[w]
      {
        if !b[pos] && pos < s.start {
          seenUntranslated := true;
        }
        if seenUntranslated && localWall[pos] {
          return false;
        }
        pos := pos + 1;
      }
      return true;
    }
  }

  method CountTranslated(b: Bitmap, zone: Zone) returns (count: nat)
    requires zone.start <= zone.end < |b|
    ensures count == NumSet(b, zone.start, zone.end + 1)
  {
    count := 0;
    var pos := zone.start;
    while pos <= zone.end
      invariant zone.start <= pos <= zone.end + 1 && count == NumSet(b, zone.start, pos)
    {
      if b[pos] {
        count := count + 1;
      }
      pos := pos + 1;
    }
  }

  /** The int limit, as it is compared with a size_t. */
  function ToSize(maxDistortion: int): nat
    requires -MAX_SIZE < maxDistortion < MAX_SIZE
  {
    if maxDistortion < 0 then maxDistortion + 0x1_0000_0000_0000_0000 else maxDistortion
  }

  lemma InsideStep(zones: seq<Zone>, z: nat)
    requires z < |zones|
    ensures forall p: nat :: Inside(zones[..z + 1], p) <==> Inside(zones[..z], p) || zones[z].start <= p < zones[z].end
  {
    forall p: nat ensures Inside(zones[..z + 1], p) <==> Inside(zones[..z], p) || zones[z].start <= p < zones[z].end {
      if Inside(zones[..z], p) {
        var k :| 0 <= k < z && zones[..z][k].start <= p < zones[..z][k].end;
        assert zones[..z + 1][k] == zones[..z][k];
      }
      assert zones[..z + 1][z] == zones[z];
    }
  }

  /** A phrase at the first gap with nothing translated behind it is never refused. */
  lemma MonotoneIsPermitted(c: Constraint, b: Bitmap, s: Span)
    requires WellFormed(c, |b|) && Free(b, s) && AllSet(b, 0, s.start) && NoneSet(b, s.start, |b|)
    ensures Permitted(c, b, s)
  {}
}
