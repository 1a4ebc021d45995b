/** Whether the reordering constraints of moses/src/ReorderingConstraint.cpp can bring a derivation to a dead end. */
module ReorderingProgress {
  import opened Reordering

  ghost predicate Open(b: Bitmap, z: Zone)
    requires z.end < |b|
  {
    !Complete(b, z) && !Untouched(b, z)
  }

  /** The zones overlap and neither holds the other. */
  ghost predicate Crossing(y: Zone, z: Zone) {
    y.start < z.start <= y.end < z.end
  }

  ghost predicate NonCrossing(zones: seq<Zone>) {
    forall y, z :: y in zones && z in zones ==> !Crossing(y, z)
  }

  /** All walls inside zones have been made local. */
  ghost predicate Finalized(c: Constraint) {
    forall z, p: nat :: z in c.zones && p < |c.wall| && z.start <= p < z.end ==> !c.wall[p]
  }

  /** No two zones are open that have nothing in common. */
  ghost predicate OpenMeet(c: Constraint, b: Bitmap)
    requires WellFormed(c, |b|)
  {
    forall y, z :: y in c.zones && z in c.zones && Open(b, y) && Open(b, z) ==> z.start <= y.end
  }

  /** Zone y lies in zone z behind word k and holds the local wall p. Word k can be left open when y is begun: no
      local wall stands between k and y, no zone that is begun before k ends before y, and all zones that a phrase
      from the beginning of y to the wall overlaps end within the distortion limit of k. */
  ghost predicate Trap(c: Constraint, z: Zone, y: Zone, p: nat, k: nat) {
    && z in c.zones && y in c.zones
    && z.start <= k < y.start <= p < y.end <= z.end < |c.localWall| && c.localWall[p]
    && (forall q: nat :: k <= q < y.start ==> !c.localWall[q])
    && (forall v :: v in c.zones && v.start < k <= v.end ==> y.start <= v.end)
    && (c.maxDistortion < 0 || forall v :: v in c.zones && v.start <= p && y.start <= v.end ==> v.end - k < c.maxDistortion)
  }

  ghost predicate HasTrap(c: Constraint) {
    exists z, y, p, k :: Trap(c, z, y, p, k)
  }

  /** Of two zones with nothing in common, a phrase finishes the first if it overlaps both. */
  lemma FirstIsFinished(c: Constraint, b: Bitmap, s: Span, y: Zone, z: Zone)
    requires WellFormed(c, |b|) && Free(b, s) && y in c.zones && z in c.zones && y.end < z.start
    requires ZonePermits(c, b, s, y) && ZonePermits(c, b, s, z)
    ensures !Open(Applied(b, s), y) || !Open(Applied(b, s), z)
  {
    var a := Applied(b, s);
    assert forall w :: 0 <= w < |b| && b[w] ==> a[w];
    if Outside(s, y) && Untouched(b, y) { assert Untouched(a, y); }
    if Outside(s, z) && Untouched(b, z) { assert Untouched(a, z); }
    if Complete(b, y) { assert Complete(a, y); }
    if Complete(b, z) { assert Complete(a, z); }
    if !Outside(s, y) && !Outside(s, z) && !Complete(b, y) {
      assert s.end > y.end;
      assert Complete(a, y);
    }
  }

  /** After every accepted phrase the zones that are open have a word in common, pair by pair. */
  lemma OpenMeetStep(c: Constraint, b: Bitmap, s: Span)
    requires WellFormed(c, |b|) && Free(b, s) && Permitted(c, b, s)
    ensures OpenMeet(c, Applied(b, s))
  {
    forall y, z | y in c.zones && z in c.zones && y.end < z.start ensures !Open(Applied(b, s), y) || !Open(Applied(b, s), z) {
      FirstIsFinished(c, b, s, y, z);
    }
  }

  lemma {:induction false} FirstUnset(b: Bitmap, lo: nat, hi: nat) returns (u: nat)
    requires lo <= hi <= |b| && !AllSet(b, lo, hi)
    ensures lo <= u < hi && AllSet(b, lo, u) && !b[u]
    decreases hi - lo
  {
    u := lo;
    if b[lo] { u := FirstUnset(b, lo + 1, hi); }
  }

  /** An open zone with no other open zone in it. */
  ghost predicate Innermost(c: Constraint, b: Bitmap, z: Zone)
    requires WellFormed(c, |b|)
  {
    z in c.zones && Open(b, z) && forall y :: y in c.zones && z.start <= y.start && y.end <= z.end && Open(b, y) ==> y == z
  }

  lemma {:induction false} FindInnermost(c: Constraint, b: Bitmap, z: Zone) returns (y: Zone)
    requires WellFormed(c, |b|) && z in c.zones && Open(b, z)
    ensures Innermost(c, b, y)
    decreases z.end - z.start
  {
    y := z;
    if v :| v in c.zones && z.start <= v.start && v.end <= z.end && Open(b, v) && v != z {
      y := FindInnermost(c, b, v);
    }
  }

  /** Where a local wall p of zone z refuses the next word u of the innermost open zone y, there is a trap. */
  lemma WallMeansTrap(c: Constraint, b: Bitmap, y: Zone, u: nat, q: nat, z: Zone, p: nat, w: nat) returns (k: nat)
    requires WellFormed(c, |b|) && Safe(c, b) && NonCrossing(c.zones) && OpenMeet(c, b)
    requires y in c.zones && y.start <= u <= y.end && !b[u] && AllSet(b, y.start, u) && y.start <= q <= y.end && b[q]
    requires z in c.zones && z.start < y.start <= y.end <= z.end
    requires z.start <= w <= p < u && c.localWall[p] && !b[w]
    ensures Trap(c, z, y, p, k)
  {
    assert LocalWallKept(c, b, z) && ReachKept(c, b, z) && ReachKept(c, b, y);
    assert w < y.start <= p;
    k := FirstUnset(b, z.start, y.start);
    forall v | v in c.zones && v.start < k <= v.end ensures y.start <= v.end {
      assert !Crossing(v, z);
      assert z.start <= v.start ==> b[v.start];
    }
    if c.maxDistortion >= 0 {
      forall v | v in c.zones && v.start <= p && y.start <= v.end ensures v.end - k < c.maxDistortion {
        assert !Crossing(v, y) && !Crossing(y, v);
        if v.end > y.end { assert v.start <= y.start && ReachKept(c, b, v); }
      }
    }
  }

  lemma OuterZonePermits(c: Constraint, b: Bitmap, y: Zone, u: nat, q: nat, z: Zone)
    requires WellFormed(c, |b|) && Safe(c, b) && NonCrossing(c.zones) && OpenMeet(c, b) && !HasTrap(c)
    requires y in c.zones && y.start <= u <= y.end && !b[u] && AllSet(b, y.start, u) && y.start <= q <= y.end && b[q]
    requires z in c.zones && z.start < y.start <= y.end <= z.end
    ensures Free(b, Span(u, u)) && ZonePermits(c, b, Span(u, u), z)
  {
    var s := Span(u, u);
    assert ReachKept(c, b, z);
    assert InReach(c, b, s, z);
    forall p: nat, w: nat | w <= p < s.end && p < z.end && c.localWall[p] && z.start <= w < s.start ensures b[w] {
      if !b[w] {
        var k := WallMeansTrap(c, b, y, u, q, z, p, w);
        assert false;
      }
    }
    assert LocalWallsPassed(c, b, s, z);
  }

  /** The first word u of an innermost open zone that is still open can be translated, unless there is a trap. */
  lemma OpenZoneGoesOn(c: Constraint, b: Bitmap, y: Zone, u: nat)
    requires WellFormed(c, |b|) && Safe(c, b) && NonCrossing(c.zones) && Finalized(c) && OpenMeet(c, b)
    requires Innermost(c, b, y) && y.start <= u <= y.end && !b[u] && AllSet(b, y.start, u)
    ensures Free(b, Span(u, u)) && (Permitted(c, b, Span(u, u)) || HasTrap(c))
  {
    var s := Span(u, u);
    var q :| y.start <= q <= y.end && b[q];
    forall p: nat, w: nat | w <= p < s.end && c.wall[p] ensures b[w] {
      assert p < y.start;
    }
    if !HasTrap(c) {
      forall v | v in c.zones ensures ZonePermits(c, b, s, v) {
        assert ReachKept(c, b, y) && ReachKept(c, b, v);
        if !Outside(s, v) {
          assert !Crossing(v, y) && !Crossing(y, v);
          if v.start < y.start {
            OuterZonePermits(c, b, y, u, q, v);
          } else if v != y && v.end <= y.end {
            assert !Open(b, v);
            assert v.start < u ==> b[v.start];
          }
        } else {
          assert !Crossing(v, y) && !Crossing(y, v);
          assert !Open(b, v);
        }
      }
    }
  }

  /** With no zone open, the first gap can be translated next. */
  lemma FirstGapIsPermitted(c: Constraint, b: Bitmap, u: nat)
    requires WellFormed(c, |b|) && (forall z :: z in c.zones ==> !Open(b, z))
    requires u < |b| && !b[u] && AllSet(b, 0, u)
    ensures Free(b, Span(u, u)) && Permitted(c, b, Span(u, u))
  {}

  /** Without crossing zones and without traps no derivation gets stuck: some open word can always be translated. */
  lemma NeverStuck(c: Constraint, n: nat, phrases: seq<Span>) returns (u: nat)
    requires WellFormed(c, n) && NonCrossing(c.zones) && !HasTrap(c) && Finalized(c) && Derivation(c, n, phrases)
    requires !AllSet(Coverage(n, phrases), 0, n)
    ensures Free(Coverage(n, phrases), Span(u, u)) && Permitted(c, Coverage(n, phrases), Span(u, u))
  {
    var b, k := Coverage(n, phrases), |phrases|;
    assert phrases[..k] == phrases;
    RunIsSafe(c, n, phrases, k);
    if k > 0 {
      assert Accepted(c, n, phrases, k - 1);
      OpenMeetStep(c, Coverage(n, phrases[..k - 1]), phrases[k - 1]);
    }
    if z :| z in c.zones && Open(b, z) {
      var y := FindInnermost(c, b, z);
      u := FirstUnset(b, y.start, y.end + 1);
      OpenZoneGoesOn(c, b, y, u);
    } else {
      u := FirstUnset(b, 0, n);
      FirstGapIsPermitted(c, b, u);
    }
  }

  ghost predicate DeadEnd(c: Constraint, n: nat, phrases: seq<Span>)
    requires WellFormed(c, n)
  {
    && Derivation(c, n, phrases) && !AllSet(Coverage(n, phrases), 0, n)
    && forall s :: Free(Coverage(n, phrases), s) ==> !Permitted(c, Coverage(n, phrases), s)
  }

  // ---------------------------------------------------------------- how to get stuck

  /** Coverage of the first k words and of the words from lo to hi. */
  ghost predicate IsPrefixAnd(b: Bitmap, k: nat, s: Span) {
    forall w :: 0 <= w < |b| ==> (b[w] <==> w < k || s.start <= w <= s.end)
  }

  /** The first k words as one phrase, if there are any, and then s. */
  function TwoPhrases(k: nat, s: Span): seq<Span> {
    if k == 0 then [s] else [Span(0, k - 1), s]
  }

  /** The second of the two phrases must be accepted behind a prefix; the first always is. */
  lemma TwoPhrasesDerive(c: Constraint, n: nat, k: nat, s: Span)
    requires WellFormed(c, n) && k <= s.start <= s.end < n
    requires forall b: Bitmap :: |b| == n && AllSet(b, 0, k) && NoneSet(b, k, n) ==> Permitted(c, b, s)
    ensures Derivation(c, n, TwoPhrases(k, s)) && IsPrefixAnd(Coverage(n, TwoPhrases(k, s)), k, s)
  {
    hide Permitted;
    var ps := TwoPhrases(k, s);
    assert ps[..|ps|] == ps;
    assert ps[..0] == [];
    CoverageStep(n, ps, 0);
    if k > 0 {
      CoverageStep(n, ps, 1);
      MonotoneIsPermitted(c, Coverage(n, ps[..0]), ps[0]);
      assert Accepted(c, n, ps, 0) && Accepted(c, n, ps, 1);
    } else {
      assert Accepted(c, n, ps, 0);
    }
  }

  /** Translating the words before a trap, and then its inner zone up to the first wall, leads to a dead end. */
  lemma TrapIsDeadEnd(c: Constraint, n: nat, z: Zone, y: Zone, p: nat, k: nat) returns (ps: seq<Span>)
    requires WellFormed(c, n) && Finalized(c) && NonCrossing(c.zones) && Trap(c, z, y, p, k)
    ensures DeadEnd(c, n, ps)
  {
    hide Permitted;
    var first := y.start;
    while !c.localWall[first]
      invariant y.start <= first <= p && forall q: nat :: k <= q < first ==> !c.localWall[q]
      decreases p - first
    {
      first := first + 1;
    }
    assert Trap(c, z, y, first, k);
    var s := Span(y.start, first);
    ps := TwoPhrases(k, s);
    forall b: Bitmap | |b| == n && AllSet(b, 0, k) && NoneSet(b, k, n) ensures Permitted(c, b, s) {
      IntoTheTrap(c, b, z, y, first, k);
    }
    TwoPhrasesDerive(c, n, k, s);
    var b := Coverage(n, ps);
    assert !b[k] && b[y.start] && !b[y.end];
    forall t | Free(b, t) ensures !Permitted(c, b, t) {
      InTheTrap(c, b, z, y, first, k, t);
    }
  }

  /** p being the first wall of the trap, a phrase up to it is accepted. */
  lemma IntoTheTrap(c: Constraint, b: Bitmap, z: Zone, y: Zone, p: nat, k: nat)
    requires WellFormed(c, |b|) && Finalized(c) && NonCrossing(c.zones) && Trap(c, z, y, p, k)
    requires forall q: nat :: k <= q < p ==> !c.localWall[q]
    requires AllSet(b, 0, k) && NoneSet(b, k, |b|)
    ensures Permitted(c, b, Span(y.start, p))
  {
    var s := Span(y.start, p);
    forall v | v in c.zones ensures ZonePermits(c, b, s, v) {
      assert !Crossing(v, y);
      if Outside(s, v) {
        assert Complete(b, v) || Untouched(b, v);
      } else {
        assert InReach(c, b, s, v);
        assert v.start < s.start ==> s.end <= v.end && LocalWallsPassed(c, b, s, v);
      }
    }
  }

  lemma FreeOfRun(b: Bitmap, t: Span, lo: nat, hi: nat)
    requires Free(b, t) && lo <= hi < |b| && AllSet(b, lo, hi + 1)
    ensures t.end < lo || hi < t.start
  {
    var w := if lo <= t.start then t.start else lo;
    assert w < |b| && (lo <= w <= hi ==> b[w]);
  }

  lemma InTheTrap(c: Constraint, b: Bitmap, z: Zone, y: Zone, p: nat, k: nat, t: Span)
    requires WellFormed(c, |b|) && Trap(c, z, y, p, k) && IsPrefixAnd(b, k, Span(y.start, p)) && Free(b, t)
    ensures !Permitted(c, b, t)
  {
    assert b[y.start] && !b[k] && !b[y.end] && b[p];
    if Outside(t, y) {
      assert !ZonePermits(c, b, t, y);
    } else {
      FreeOfRun(b, t, y.start, p);
      assert !LocalWallsPassed(c, b, t, z);
      assert !ZonePermits(c, b, t, z);
    }
  }

  /** Without crossing zones, a derivation can get stuck if and only if there is a trap, whatever the distortion
      limit. */
  lemma StuckIffTrap(c: Constraint, n: nat)
    requires WellFormed(c, n) && Finalized(c) && NonCrossing(c.zones)
    ensures (exists ps :: DeadEnd(c, n, ps)) <==> HasTrap(c)
  {
    hide Permitted;
    if HasTrap(c) {
      var z, y, p, k :| Trap(c, z, y, p, k);
      var ps := TrapIsDeadEnd(c, n, z, y, p, k);
    } else if ps :| DeadEnd(c, n, ps) {
      var u := NeverStuck(c, n, ps);
    }
  }

  // ---------------------------------------------------------------- crossing zones

  /** A crossing pair with as few words in common as any. */
  ghost predicate Narrowest(c: Constraint, y: Zone, z: Zone) {
    && y in c.zones && z in c.zones && Crossing(y, z)
    && forall v, w :: v in c.zones && w in c.zones && Crossing(v, w) ==> y.end - z.start <= v.end - w.start
  }

  lemma {:induction false} FindNarrowest(c: Constraint, y: Zone, z: Zone) returns (y': Zone, z': Zone)
    requires y in c.zones && z in c.zones && Crossing(y, z)
    ensures Narrowest(c, y', z')
    decreases y.end - z.start
  {
    y', z' := y, z;
    if v, w :| v in c.zones && w in c.zones && Crossing(v, w) && v.end - w.start < y.end - z.start {
      y', z' := FindNarrowest(c, v, w);
    }
  }

  /** Where the words begin that no wall separates from word y. */
  lemma {:induction false} BehindWalls(c: Constraint, y: nat) returns (k: nat)
    requires y <= |c.wall|
    ensures k <= y && (k > 0 ==> c.wall[k - 1]) && forall p :: k <= p < y ==> !c.wall[p]
  {
    k := y;
    if y > 0 && !c.wall[y - 1] { k := BehindWalls(c, y - 1); }
  }

  ghost predicate NoLocalWalls(c: Constraint) {
    forall p :: 0 <= p < |c.localWall| ==> !c.localWall[p]
  }

  /** The words that a narrowest crossing pair has in common can be translated before all others behind the last
      wall. */
  lemma IntoTheCrossing(c: Constraint, b: Bitmap, y: Zone, z: Zone, k: nat)
    requires WellFormed(c, |b|) && Finalized(c) && NoLocalWalls(c) && c.maxDistortion < 0 && Narrowest(c, y, z)
    requires k <= y.start && (k > 0 ==> c.wall[k - 1]) && forall p :: k <= p < y.start ==> !c.wall[p]
    requires AllSet(b, 0, k) && NoneSet(b, k, |b|)
    ensures Permitted(c, b, Span(z.start, y.end))
  {
    var s := Span(z.start, y.end);
    forall p: nat, w: nat | w <= p < s.end && c.wall[p] ensures b[w] {
      assert p < k;
    }
    forall v | v in c.zones ensures ZonePermits(c, b, s, v) {
      assert !(v.start < k <= v.end);
      assert Complete(b, v) || Untouched(b, v);
      if !Outside(s, v) {
        assert !(Crossing(v, z) && v.end < y.end);
        assert LocalWallsPassed(c, b, s, v);
      }
    }
  }

  lemma CrossingIsDeadEnd(c: Constraint, n: nat, y: Zone, z: Zone) returns (ps: seq<Span>)
    requires WellFormed(c, n) && Finalized(c) && NoLocalWalls(c) && c.maxDistortion < 0 && Narrowest(c, y, z)
    ensures DeadEnd(c, n, ps)
  {
    hide Permitted;
    var k := BehindWalls(c, y.start);
    var s := Span(z.start, y.end);
    ps := TwoPhrases(k, s);
    forall b: Bitmap | |b| == n && AllSet(b, 0, k) && NoneSet(b, k, n) ensures Permitted(c, b, s) {
      IntoTheCrossing(c, b, y, z, k);
    }
    TwoPhrasesDerive(c, n, k, s);
    var b := Coverage(n, ps);
    assert !b[y.start] && b[z.start] && b[y.end] && !b[z.end];
    forall t | Free(b, t) ensures !Permitted(c, b, t) {
      if Outside(t, y) { OutsideIsRefused(c, b, t, y); } else {
        FreeOfRun(b, t, z.start, y.end);
        OutsideIsRefused(c, b, t, z);
      }
    }
  }

  lemma OutsideIsRefused(c: Constraint, b: Bitmap, s: Span, z: Zone)
    requires WellFormed(c, |b|) && Free(b, s) && z in c.zones && Open(b, z) && Outside(s, z)
    ensures !Permitted(c, b, s)
  {
    assert !ZonePermits(c, b, s, z);
  }

  /** Without local walls and without a distortion limit, a derivation can get stuck if and only if two zones cross. */
  lemma StuckIffCrossing(c: Constraint, n: nat)
    requires WellFormed(c, n) && Finalized(c) && NoLocalWalls(c) && c.maxDistortion < 0
    ensures (exists ps :: DeadEnd(c, n, ps)) <==> exists y, z :: y in c.zones && z in c.zones && Crossing(y, z)
  {
    hide Permitted;
    if y, z :| y in c.zones && z in c.zones && Crossing(y, z) {
      var v, w := FindNarrowest(c, y, z);
      var ps := CrossingIsDeadEnd(c, n, v, w);
    } else {
      StuckIffTrap(c, n);
    }
  }

  /** Two zones that overlap block each other. */
  lemma CrossingZonesGetStuck(c: Constraint)
    requires c == Constraint([false, false, false, false], [false, false, false, false], [Zone(0, 2), Zone(1, 3)], -1)
    ensures WellFormed(c, 4) && Finalized(c) && exists ps :: DeadEnd(c, 4, ps)
  {
    assert c.zones[0] == Zone(0, 2) && c.zones[1] == Zone(1, 3);
    StuckIffCrossing(c, 4);
    assert Crossing(c.zones[0], c.zones[1]);
  }

  /** So do a zone and a zone within it that holds a wall. */
  lemma NestedZonesGetStuck(c: Constraint)
    requires c == Constraint([false, false, false], [false, true, false], [Zone(0, 2), Zone(1, 2)], -1)
    ensures WellFormed(c, 3) && Finalized(c) && exists ps :: DeadEnd(c, 3, ps)
  {
    assert c.zones[0] == Zone(0, 2) && c.zones[1] == Zone(1, 2);
    assert Trap(c, c.zones[0], c.zones[1], 1, 0);
    StuckIffTrap(c, 3);
  }
}
