/** The upper envelope of the candidate lines of one sentence (mert/Optimizer.cpp, LineOptimize).

    Along a search line every candidate scores b + x * m.  The loops below only compare slopes,
    intercepts and intersection points, so they are proved against a relation `above`: above(i, j, x)
    says that candidate i scores at least as much as candidate j at x.  `Exact` ties the relation to
    the actual values; its trigger keeps the products out of the loop proofs. */
module Envelope {

  const MAX_FLOAT: real := 340282346638528859811704183484516925440.0
  const MIN_FLOAT: real := -340282346638528859811704183484516925440.0
  /** Successive thresholds of a sentence closer than this are merged by the source. */
  const MIN_INT: real := 0.0001

  datatype Line = Line(m: real, b: real)

  type Above = (nat, nat, real) -> bool

  function Value(lines: seq<Line>, i: nat, x: real): real
    requires i < |lines|
  {
    lines[i].b + x * lines[i].m
  }

  ghost predicate Exact(lines: seq<Line>, above: Above) {
    forall i: nat, j: nat, x: real {:trigger Value(lines, i, x), Value(lines, j, x)} ::
      i < |lines| && j < |lines| ==> (above(i, j, x) <==> Value(lines, i, x) >= Value(lines, j, x))
  }

  /** Comparing candidates at one point. */
  ghost predicate Preorder(n: nat, above: Above) {
    && (forall i: nat, j: nat, x: real :: i < n && j < n ==> above(i, j, x) || above(j, i, x))
    && (forall i: nat, j: nat, k: nat, x: real :: i < n && j < n && k < n && above(i, j, x) && above(j, k, x) ==> above(i, k, x))
  }

  /** A steeper line stays above to the right, a flatter one to the left. */
  ghost predicate Steepness(lines: seq<Line>, above: Above) {
    && (forall i: nat, j: nat, x: real, y: real :: i < |lines| && j < |lines| && lines[i].m <= lines[j].m && y <= x ==>
          above(i, j, x) ==> above(i, j, y))
    && (forall i: nat, j: nat, x: real, y: real :: i < |lines| && j < |lines| && lines[j].m <= lines[i].m && x <= y ==>
          above(i, j, x) ==> above(i, j, y))
    && (forall i: nat, j: nat, x: real :: i < |lines| && j < |lines| && lines[j].m == lines[i].m && lines[j].b <= lines[i].b ==>
          above(i, j, x))
  }

  /** i and the steeper j meet at x. */
  ghost predicate Crosses(above: Above, i: nat, j: nat, x: real) {
    && (forall y: real :: above(j, i, y) <==> x <= y)
    && (forall y: real :: above(i, j, y) <==> y <= x)
  }

  lemma ExactIsPreorder(lines: seq<Line>, above: Above)
    requires Exact(lines, above)
    ensures Preorder(|lines|, above)
  {
    forall i: nat, j: nat, x: real | i < |lines| && j < |lines| ensures above(i, j, x) || above(j, i, x) {
      assert Value(lines, i, x) >= Value(lines, j, x) || Value(lines, j, x) >= Value(lines, i, x);
    }
    forall i: nat, j: nat, k: nat, x: real | i < |lines| && j < |lines| && k < |lines| && above(i, j, x) && above(j, k, x)
      ensures above(i, k, x)
    {
      assert Value(lines, i, x) >= Value(lines, j, x) && Value(lines, j, x) >= Value(lines, k, x);
    }
  }

  lemma ExactIsSteep(lines: seq<Line>, above: Above)
    requires Exact(lines, above)
    ensures Steepness(lines, above)
  {
    forall i: nat, j: nat, x: real, y: real | i < |lines| && j < |lines| && lines[j].m <= lines[i].m && x <= y && above(i, j, x)
      ensures above(i, j, y)
    {
      assert Value(lines, i, x) >= Value(lines, j, x);
      SteeperStays(lines[i], lines[j], x, y);
      assert Value(lines, i, y) >= Value(lines, j, y);
    }
    forall i: nat, j: nat, x: real, y: real | i < |lines| && j < |lines| && lines[i].m <= lines[j].m && y <= x && above(i, j, x)
      ensures above(i, j, y)
    {
      assert Value(lines, i, x) >= Value(lines, j, x);
      FlatterStays(lines[i], lines[j], x, y);
      assert Value(lines, i, y) >= Value(lines, j, y);
    }
    forall i: nat, j: nat, x: real | i < |lines| && j < |lines| && lines[j].m == lines[i].m && lines[j].b <= lines[i].b
      ensures above(i, j, x)
    {
      assert x * lines[i].m == x * lines[j].m;
      assert Value(lines, i, x) >= Value(lines, j, x);
    }
  }

  lemma NotNegative(u: real, d: real)
    requires u >= 0.0 && d >= 0.0
    ensures u * d >= 0.0
  {}

  lemma SteeperStays(p: Line, q: Line, x: real, y: real)
    requires q.m <= p.m && x <= y && p.b + x * p.m >= q.b + x * q.m
    ensures p.b + y * p.m >= q.b + y * q.m
  {
    NotNegative(y - x, p.m - q.m);
    assert (y - x) * (p.m - q.m) == y * p.m - y * q.m - x * p.m + x * q.m;
  }

  lemma FlatterStays(p: Line, q: Line, x: real, y: real)
    requires p.m <= q.m && y <= x && p.b + x * p.m >= q.b + x * q.m
    ensures p.b + y * p.m >= q.b + y * q.m
  {
    NotNegative(x - y, q.m - p.m);
    assert (x - y) * (q.m - p.m) == x * q.m - x * p.m - y * q.m + y * p.m;
  }

  /** intersect: where line i meets line j; parallel lines never do. */
  method Intersect(lines: seq<Line>, i: nat, j: nat, ghost above: Above) returns (x: real)
    requires i < |lines| && j < |lines| && Exact(lines, above)
    ensures lines[i].m == lines[j].m ==> x == MAX_FLOAT
    ensures lines[i].m < lines[j].m ==> Crosses(above, i, j, x)
  {
    if lines[i].m == lines[j].m { return MAX_FLOAT; }
    x := (lines[j].b - lines[i].b) / (lines[i].m - lines[j].m);
    if lines[i].m < lines[j].m {
      forall y: real ensures (above(j, i, y) <==> x <= y) && (above(i, j, y) <==> y <= x) {
        CrossingPoint(lines[i], lines[j], x, y);
        assert Value(lines, j, y) == lines[j].b + y * lines[j].m && Value(lines, i, y) == lines[i].b + y * lines[i].m;
      }
    }
  }

  lemma CrossingPoint(p: Line, q: Line, x: real, y: real)
    requires p.m < q.m && x == (q.b - p.b) / (p.m - q.m)
    ensures q.b + y * q.m >= p.b + y * p.m <==> x <= y
    ensures p.b + y * p.m >= q.b + y * q.m <==> y <= x
  {
    var d := q.m - p.m;
    assert x * (p.m - q.m) == q.b - p.b;
    assert (y - x) * d == y * q.m - y * p.m + x * (p.m - q.m);
    if y > x { SignOfProduct(y - x, d); }
    if y < x { SignOfProduct(x - y, d); assert (x - y) * d == -((y - x) * d); }
  }

  lemma SignOfProduct(u: real, d: real)
    requires u > 0.0 && d > 0.0
    ensures u * d > 0.0
  {
  }

  // ---------------------------------------------------------------- the gradient multimap

  /** Candidates ordered by slope, every candidate present. */
  ghost predicate Gradient(lines: seq<Line>, order: seq<nat>) {
    && (forall p :: 0 <= p < |order| ==> order[p] < |lines|)
    && (forall p, q :: 0 <= p < q < |order| ==> lines[order[p]].m <= lines[order[q]].m)
    && (forall j :: 0 <= j < |lines| ==> j in order)
  }

  /** First position whose slope exceeds m: where a multimap inserts an equal key. */
  method UpperBound(lines: seq<Line>, order: seq<nat>, m: real) returns (p: nat)
    requires forall q :: 0 <= q < |order| ==> order[q] < |lines|
    ensures p <= |order|
    ensures forall q :: 0 <= q < p ==> lines[order[q]].m <= m
    ensures p < |order| ==> m < lines[order[p]].m
  {
    p := 0;
    while p < |order| && lines[order[p]].m <= m
      invariant p <= |order| && forall q :: 0 <= q < p ==> lines[order[q]].m <= m
    {
      p := p + 1;
    }
  }

  method BuildGradient(lines: seq<Line>) returns (order: seq<nat>)
    ensures Gradient(lines, order) && |order| == |lines|
  {
    order := [];
    for j := 0 to |lines|
      invariant |order| == j
      invariant forall p :: 0 <= p < |order| ==> order[p] < |lines|
      invariant forall p, q :: 0 <= p < q < |order| ==> lines[order[p]].m <= lines[order[q]].m
      invariant forall i :: 0 <= i < j ==> i in order
    {
      var p := UpperBound(lines, order, lines[j].m);
      ghost var before := order;
      order := order[..p] + [j] + order[p..];
      assert order[p] == j;
      forall i | 0 <= i < j ensures i in order {
        assert i in before;
        var q :| 0 <= q < |before| && before[q] == i;
        assert order[if q < p then q else q + 1] == i;
      }
    }
  }

  /** The best candidate far to the left: least slope, and highest intercept among those. */
  method LeftmostBest(lines: seq<Line>, order: seq<nat>) returns (g: nat)
    requires Gradient(lines, order) && order != []
    ensures g < |order|
    ensures forall j :: 0 <= j < |lines| ==>
              lines[order[g]].m < lines[j].m || (lines[order[g]].m == lines[j].m && lines[j].b <= lines[order[g]].b)
    ensures forall q :: 0 <= q < g ==> lines[order[q]].b < lines[order[g]].b
  {
    var smallest := lines[order[0]].m;
    g := 0;
    var p := 1;
    while p < |order| && lines[order[p]].m == smallest
      invariant 0 <= g < p <= |order| && lines[order[g]].m == smallest
      invariant forall q :: 0 <= q < p ==> lines[order[q]].m == smallest && lines[order[q]].b <= lines[order[g]].b
      invariant forall q :: 0 <= q < g ==> lines[order[q]].b < lines[order[g]].b
    {
      if lines[order[p]].b > lines[order[g]].b { g := p; }
      p := p + 1;
    }
    forall j | 0 <= j < |lines|
      ensures lines[order[g]].m < lines[j].m || (lines[order[g]].m == lines[j].m && lines[j].b <= lines[order[g]].b)
    {
      assert j in order;
      var q :| 0 <= q < |order| && order[q] == j;
      if q >= p { assert lines[order[p]].m <= lines[order[q]].m; }
    }
  }

  // ---------------------------------------------------------------- the next change of the best candidate

  /** All intersections of distinct slopes lie well inside the range of a float. */
  ghost predicate InRange(lines: seq<Line>, above: Above) {
    forall i: nat, j: nat {:trigger lines[i], lines[j]} :: i < |lines| && j < |lines| && lines[i].m < lines[j].m ==>
      !above(i, j, MAX_FLOAT) && !above(j, i, MIN_FLOAT + MIN_INT)
  }

  /** The scan for the leftmost intersection of the current line with a steeper one; among equal
      intersections the last, hence steepest, candidate wins. */
  method NextChange(lines: seq<Line>, order: seq<nat>, g: nat, ghost above: Above)
    returns (leftmost: nat, leftmostx: real)
    requires Gradient(lines, order) && g < |order|
    requires Exact(lines, above) && Steepness(lines, above) && InRange(lines, above)
    ensures g <= leftmost < |order|
    ensures leftmost == g ==> forall p :: g < p < |order| ==> lines[order[p]].m == lines[order[g]].m
    ensures leftmost > g ==> (
      && lines[order[g]].m < lines[order[leftmost]].m
      && Crosses(above, order[g], order[leftmost], leftmostx) && MIN_FLOAT + MIN_INT < leftmostx < MAX_FLOAT)
    ensures leftmost > g ==> forall p :: g < p < |order| && lines[order[g]].m < lines[order[p]].m ==>
              above(order[g], order[p], leftmostx) && (leftmost < p ==> !above(order[p], order[g], leftmostx))
  {
    leftmost, leftmostx := g, MAX_FLOAT;
    var cur := order[g];
    for p := g + 1 to |order|
      invariant g <= leftmost < p
      invariant leftmost == g ==> leftmostx == MAX_FLOAT && forall q :: g < q < p ==> lines[order[q]].m == lines[cur].m
      invariant leftmost > g ==> lines[cur].m < lines[order[leftmost]].m && Crosses(above, cur, order[leftmost], leftmostx)
      invariant leftmost > g ==> forall q :: g < q < p && lines[cur].m < lines[order[q]].m ==>
                  above(cur, order[q], leftmostx) && (leftmost < q ==> !above(order[q], cur, leftmostx))
    {
      var next := order[p];
      assert lines[cur].m <= lines[next].m;
      if lines[cur].m != lines[next].m {
        var curintersect := Intersect(lines, cur, next, above);
        assert !above(cur, next, MAX_FLOAT);
        if curintersect <= leftmostx {
          leftmostx, leftmost := curintersect, p;
        }
      }
    }
  }

  // ---------------------------------------------------------------- thresholds of one sentence

  datatype Change = Change(x: real, best: nat)

  /** Best candidate of interval t: the first one before any threshold, then the one of each change. */
  function BestIn(first: nat, changes: seq<Change>, t: nat): nat
    requires t <= |changes|
  {
    if t == 0 then first else changes[t - 1].best
  }

  /** y lies in the closed interval t between the changes; the outer intervals are unbounded. */
  ghost predicate InInterval(changes: seq<Change>, t: nat, y: real)
    requires t <= |changes|
  {
    (t > 0 ==> changes[t - 1].x <= y) && (t < |changes| ==> y <= changes[t].x)
  }

  /** cand is at least as good as every candidate at y. */
  ghost predicate BestAt(n: nat, above: Above, cand: nat, y: real) {
    cand < n && forall j: nat :: j < n ==> above(cand, j, y)
  }

  /** The candidate of interval t is best on the whole interval. */
  ghost predicate Settled(n: nat, above: Above, first: nat, changes: seq<Change>, t: nat)
    requires t <= |changes|
  {
    forall y: real :: InInterval(changes, t, y) ==> BestAt(n, above, BestIn(first, changes, t), y)
  }

  ghost predicate Increasing(changes: seq<Change>) {
    && (forall t :: 0 <= t < |changes| ==> MIN_FLOAT < changes[t].x < MAX_FLOAT)
    && (forall s, t :: 0 <= s < t < |changes| ==> changes[s].x < changes[t].x)
  }

  /** The changes of one sentence describe its upper envelope. */
  ghost predicate IsEnvelope(n: nat, above: Above, first: nat, changes: seq<Change>) {
    && first < n && Increasing(changes)
    && (forall t :: 0 <= t <= |changes| ==> Settled(n, above, first, changes, t))
  }

  /** What the walk knows about its current candidate: from the last change on it beats every
      candidate that is not steeper, and at the last change it strictly beats every steeper one. */
  ghost predicate Current(lines: seq<Line>, above: Above, changes: seq<Change>, cur: nat) {
    && cur < |lines|
    && (forall j: nat, y: real :: j < |lines| && lines[j].m <= lines[cur].m && (changes != [] ==> changes[|changes| - 1].x <= y) ==>
          above(cur, j, y))
    && (changes != [] ==> forall j: nat :: j < |lines| && lines[cur].m < lines[j].m ==> !above(j, cur, changes[|changes| - 1].x))
  }

  /** The facts NextChange establishes about its answer, in terms of candidates. */
  ghost predicate NextFacts(lines: seq<Line>, above: Above, cur: nat, next: nat, x: real) {
    && cur < |lines| && next < |lines| && lines[cur].m < lines[next].m && Crosses(above, cur, next, x)
    && (forall j: nat :: j < |lines| && lines[cur].m < lines[j].m ==> above(cur, j, x))
    && (forall j: nat :: j < |lines| && lines[next].m < lines[j].m ==> !above(j, cur, x))
  }

  /** One turn of the walk settles an interval and makes the next candidate current. */
  lemma WalkStep(lines: seq<Line>, above: Above, first: nat, changes: seq<Change>, cur: nat, next: nat, x: real)
    requires Preorder(|lines|, above) && Steepness(lines, above)
    requires Current(lines, above, changes, cur) && cur == BestIn(first, changes, |changes|)
    requires NextFacts(lines, above, cur, next, x)
    ensures changes != [] ==> changes[|changes| - 1].x < x
    ensures Settled(|lines|, above, first, changes + [Change(x, next)], |changes|)
    ensures Current(lines, above, changes + [Change(x, next)], next)
  {
    var more := changes + [Change(x, next)];
    if changes != [] {
      assert !above(next, cur, changes[|changes| - 1].x);
    }
    forall y: real | InInterval(more, |changes|, y) ensures BestAt(|lines|, above, cur, y) {
      forall j: nat | j < |lines| ensures above(cur, j, y) {
        if lines[cur].m < lines[j].m { assert above(cur, j, x); }
      }
    }
    forall j: nat, y: real | j < |lines| && lines[j].m <= lines[next].m && x <= y ensures above(next, j, y) {
      assert above(next, cur, x);
      assert above(cur, j, x);
      assert above(next, j, x);
    }
    forall j: nat | j < |lines| && lines[next].m < lines[j].m ensures !above(j, next, x) {
      assert above(next, cur, x);
    }
  }

  /** Settled intervals stay settled when a later change is appended. */
  lemma SettledStays(n: nat, above: Above, first: nat, changes: seq<Change>, last: Change)
    requires forall t :: 0 <= t < |changes| ==> Settled(n, above, first, changes, t)
    ensures forall t :: 0 <= t < |changes| ==> Settled(n, above, first, changes + [last], t)
  {
    forall t | 0 <= t < |changes| ensures Settled(n, above, first, changes + [last], t) {
      assert Settled(n, above, first, changes, t);
      forall y: real | InInterval(changes + [last], t, y)
        ensures BestAt(n, above, BestIn(first, changes + [last], t), y)
      {
        assert InInterval(changes, t, y);
      }
    }
  }

  lemma SteeperIsLater(lines: seq<Line>, order: seq<nat>, p: nat, q: nat)
    requires Gradient(lines, order) && p < |order| && q < |order|
    ensures lines[order[p]].m < lines[order[q]].m ==> p < q
  {
    if q < p { assert lines[order[q]].m <= lines[order[p]].m; }
  }

  lemma NextChangeFacts(lines: seq<Line>, order: seq<nat>, g: nat, leftmost: nat, x: real, above: Above)
    requires Gradient(lines, order) && g < leftmost < |order|
    requires lines[order[g]].m < lines[order[leftmost]].m && Crosses(above, order[g], order[leftmost], x)
    requires forall p :: g < p < |order| && lines[order[g]].m < lines[order[p]].m ==>
               above(order[g], order[p], x) && (leftmost < p ==> !above(order[p], order[g], x))
    ensures NextFacts(lines, above, order[g], order[leftmost], x)
  {
    forall j: nat | j < |lines| && lines[order[g]].m < lines[j].m
      ensures above(order[g], j, x) && (lines[order[leftmost]].m < lines[j].m ==> !above(j, order[g], x))
    {
      assert j in order;
      var p :| 0 <= p < |order| && order[p] == j;
      SteeperIsLater(lines, order, g, p);
      SteeperIsLater(lines, order, leftmost, p);
    }
  }
}
