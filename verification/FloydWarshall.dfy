/** All-pairs shortest paths (moses/src/FloydWarshall.cpp).

    The source relaxes one matrix in place and starts the diagonal at "infinity" rather than at
    zero, so an entry dist[i][i] ends up as the length of a shortest cycle through i.  `Dist` is the
    textbook recurrence with one matrix per phase; the in-place method is proved equal to it, and
    `Dist` is proved to be the length of a shortest path. */
module FloydWarshall {

  newtype int32 = x: int | -0x8000_0000 <= x < 0x8000_0000

  const INT_MAX: int := 0x7FFF_FFFF
  /** Stands for "no path"; two of them still fit an int. */
  const MAX_DIST: int := INT_MAX / 2

  ghost predicate Square(edges: seq<seq<bool>>) {
    forall i :: 0 <= i < |edges| ==> |edges[i]| == |edges|
  }

  /** One usable edge: self-loops are never taken. */
  ghost predicate Step(edges: seq<seq<bool>>, u: nat, v: nat)
    requires Square(edges)
  {
    u < |edges| && v < |edges| && u != v && edges[u][v]
  }

  /** p is a path of at least one edge from i to j; its length is |p| - 1. */
  ghost predicate Path(edges: seq<seq<bool>>, i: nat, j: nat, p: seq<nat>)
    requires Square(edges)
  {
    && 2 <= |p| && p[0] == i && p[|p| - 1] == j
    && forall t :: 0 <= t < |p| - 1 ==> Step(edges, p[t], p[t + 1])
  }

  /** All inner vertices of p are below k. */
  ghost predicate Via(k: nat, p: seq<nat>) {
    forall t :: 0 < t < |p| - 1 ==> p[t] < k
  }

  /** The recurrence: the best length using only inner vertices below k. */
  function Dist(edges: seq<seq<bool>>, k: nat, i: nat, j: nat): int
    requires Square(edges) && k <= |edges| && i < |edges| && j < |edges|
    decreases k
  {
    if k == 0 then
      if i != j && edges[i][j] then 1 else MAX_DIST
    else
      var direct := Dist(edges, k - 1, i, j);
      var detour := Dist(edges, k - 1, i, k - 1) + Dist(edges, k - 1, k - 1, j);
      if direct > detour then detour else direct
  }

  lemma {:induction false} DistBounds(edges: seq<seq<bool>>, k: nat, i: nat, j: nat)
    requires Square(edges) && k <= |edges| && i < |edges| && j < |edges|
    ensures 1 <= Dist(edges, k, i, j) <= MAX_DIST
    decreases k
  {
    if k > 0 {
      DistBounds(edges, k - 1, i, j);
      DistBounds(edges, k - 1, i, k - 1);
      DistBounds(edges, k - 1, k - 1, j);
    }
  }

  /** Phase k leaves row k and column k alone: this is what makes the in-place update sound. */
  lemma PivotStable(edges: seq<seq<bool>>, k: nat, i: nat)
    requires Square(edges) && k < |edges| && i < |edges|
    ensures Dist(edges, k + 1, i, k) == Dist(edges, k, i, k)
    ensures Dist(edges, k + 1, k, i) == Dist(edges, k, k, i)
  {
    DistBounds(edges, k, k, k);
  }

  /** Entries lo to hi of row i hold the phase-k distances. */
  ghost predicate Row(edges: seq<seq<bool>>, dist: array2<int32>, k: nat, i: nat, lo: nat, hi: nat)
    requires Square(edges) && k <= |edges| && i < |edges| && hi <= |edges|
    requires dist.Length0 == dist.Length1 == |edges|
    reads dist
  {
    forall b :: lo <= b < hi ==> dist[i, b] as int == Dist(edges, k, i, b)
  }

  /** Rows lo to hi hold the phase-k distances. */
  ghost predicate Rows(edges: seq<seq<bool>>, dist: array2<int32>, k: nat, lo: nat, hi: nat)
    requires Square(edges) && k <= |edges| && hi <= |edges|
    requires dist.Length0 == dist.Length1 == |edges|
    reads dist
  {
    forall a, b :: lo <= a < hi && 0 <= b < |edges| ==> dist[a, b] as int == Dist(edges, k, a, b)
  }

  /** The in-place triple loop.  `int32` entries make every sum a proved absence of overflow. */
  method AllPairs(edges: seq<seq<bool>>) returns (dist: array2<int32>)
    requires 0 < |edges| && Square(edges)
    ensures fresh(dist) && dist.Length0 == dist.Length1 == |edges|
    ensures forall i, j :: 0 <= i < |edges| && 0 <= j < |edges| ==> dist[i, j] as int == Dist(edges, |edges|, i, j)
  {
    var n := |edges|;
    var far := MAX_DIST as int32;
    dist := new int32[n, n];
    for i := 0 to n
      invariant Rows(edges, dist, 0, 0, i)
    {
      for j := 0 to n
        invariant Rows(edges, dist, 0, 0, i) && Row(edges, dist, 0, i, 0, j)
      {
        if edges[i][j] { dist[i, j] := 1; } else { dist[i, j] := far; }
        if i == j { dist[i, j] := far; }
      }
    }
    for k := 0 to n
      invariant Rows(edges, dist, k, 0, n)
    {
      for i := 0 to n
        invariant Rows(edges, dist, k + 1, 0, i) && Rows(edges, dist, k, i, n)
      {
        RelaxRow(edges, dist, k, i);
      }
    }
  }

  /** The innermost loop: row i moves from phase k to phase k + 1 in place. */
  method RelaxRow(edges: seq<seq<bool>>, dist: array2<int32>, k: nat, i: nat)
    requires Square(edges) && k < |edges| && i < |edges|
    requires dist.Length0 == dist.Length1 == |edges|
    requires Rows(edges, dist, k + 1, 0, i) && Rows(edges, dist, k, i, |edges|)
    modifies dist
    ensures Rows(edges, dist, k + 1, 0, i + 1) && Rows(edges, dist, k, i + 1, |edges|)
  {
    var n := |edges|;
    for j := 0 to n
      invariant Rows(edges, dist, k + 1, 0, i) && Rows(edges, dist, k, i + 1, n)
      invariant Row(edges, dist, k + 1, i, 0, j) && Row(edges, dist, k, i, j, n)
    {
      PivotStable(edges, k, i);
      PivotStable(edges, k, j);
      assert dist[i, k] as int == Dist(edges, k, i, k);
      assert dist[k, j] as int == Dist(edges, k, k, j);
      DistBounds(edges, k, i, k);
      DistBounds(edges, k, k, j);
      if dist[i, j] > dist[i, k] + dist[k, j] {
        dist[i, j] := dist[i, k] + dist[k, j];
      }
      assert dist[i, j] as int == Dist(edges, k + 1, i, j);
    }
  }

  // ---------------------------------------------------------------- Dist is the shortest length

  /** No path beats the recurrence. */
  lemma {:induction false} DistIsLowerBound(edges: seq<seq<bool>>, k: nat, i: nat, j: nat, p: seq<nat>)
    requires Square(edges) && k <= |edges| && i < |edges| && j < |edges|
    requires Path(edges, i, j, p) && Via(k, p)
    ensures Dist(edges, k, i, j) <= |p| - 1
    decreases k
  {
    if k == 0 {
      assert Step(edges, p[0], p[1]);
    } else if Via(k - 1, p) {
      DistIsLowerBound(edges, k - 1, i, j, p);
    } else {
      var pivot := k - 1;
      var f, l := FirstAndLast(pivot, p);
      var head, tail := p[..f + 1], p[l..];
      assert Path(edges, i, pivot, head) && Via(pivot, head);
      assert Path(edges, pivot, j, tail) && Via(pivot, tail) by {
        forall t | 0 <= t < |tail| - 1 ensures Step(edges, tail[t], tail[t + 1]) {
          assert Step(edges, p[l + t], p[l + t + 1]);
        }
      }
      DistIsLowerBound(edges, pivot, i, pivot, head);
      DistIsLowerBound(edges, pivot, pivot, j, tail);
    }
  }

  /** The first and the last inner occurrence of the largest allowed vertex. */
  lemma FirstAndLast(pivot: nat, p: seq<nat>) returns (f: nat, l: nat)
    requires Via(pivot + 1, p) && !Via(pivot, p)
    ensures 0 < f <= l < |p| - 1 && p[f] == p[l] == pivot
    ensures forall t :: 0 < t < f || l < t < |p| - 1 ==> p[t] < pivot
  {
    f :| 0 < f < |p| - 1 && p[f] >= pivot;
    l := f;
    while exists t :: 0 < t < f && p[t] >= pivot
      invariant 0 < f <= l < |p| - 1 && p[f] == p[l] == pivot
      decreases f
    {
      var t :| 0 < t < f && p[t] >= pivot;
      f := t;
    }
    while exists t :: l < t < |p| - 1 && p[t] >= pivot
      invariant 0 < f <= l < |p| - 1 && p[l] == pivot
      decreases |p| - l
    {
      var t :| l < t < |p| - 1 && p[t] >= pivot;
      l := t;
    }
  }

  /** Every finite entry is the length of a path that exists. */
  lemma {:induction false} DistIsAttained(edges: seq<seq<bool>>, k: nat, i: nat, j: nat) returns (p: seq<nat>)
    requires Square(edges) && k <= |edges| && i < |edges| && j < |edges|
    requires Dist(edges, k, i, j) < MAX_DIST
    ensures Path(edges, i, j, p) && Via(k, p) && |p| - 1 == Dist(edges, k, i, j)
    decreases k
  {
    if k == 0 {
      p := [i, j];
    } else if Dist(edges, k, i, j) == Dist(edges, k - 1, i, j) {
      p := DistIsAttained(edges, k - 1, i, j);
    } else {
      DistBounds(edges, k - 1, i, k - 1);
      DistBounds(edges, k - 1, k - 1, j);
      var head := DistIsAttained(edges, k - 1, i, k - 1);
      var tail := DistIsAttained(edges, k - 1, k - 1, j);
      p := head + tail[1..];
      forall t | 0 <= t < |p| - 1 ensures Step(edges, p[t], p[t + 1]) {
        if t < |head| - 1 {
          assert Step(edges, head[t], head[t + 1]);
        } else {
          assert Step(edges, tail[t - |head| + 1], tail[t - |head| + 2]);
        }
      }
    }
  }

  /** More than n values below n cannot all differ. */
  lemma {:induction false} Repeats(n: nat, s: seq<nat>) returns (a: nat, b: nat)
    requires n < |s| && forall t :: 0 <= t < |s| ==> s[t] < n
    ensures a < b < |s| && s[a] == s[b]
    decreases n
  {
    var last := |s| - 1;
    if t :| 0 <= t < last && s[t] == s[last] {
      return t, last;
    }
    // drop the last element and rename n - 1 to its value
    var rest := seq(last, t requires 0 <= t < last => if s[t] == n - 1 then s[last] else s[t]);
    a, b := Repeats(n - 1, rest);
  }

  /** Cutting out a repeated vertex shortens a path, so some path has at most n edges. */
  lemma {:induction false} ShortPathExists(edges: seq<seq<bool>>, i: nat, j: nat, p: seq<nat>) returns (q: seq<nat>)
    requires Square(edges) && Path(edges, i, j, p)
    ensures Path(edges, i, j, q) && |q| - 1 <= |edges|
    decreases |p|
  {
    if |p| - 1 <= |edges| {
      return p;
    }
    var front := p[..|p| - 1];
    forall t | 0 <= t < |front| ensures front[t] < |edges| {
      assert Step(edges, p[t], p[t + 1]);
    }
    var a, b := Repeats(|edges|, front);
    var cut := p[..a] + p[b..];
    forall t | 0 <= t < |cut| - 1 ensures Step(edges, cut[t], cut[t + 1]) {
      if t < a {
        assert Step(edges, p[t], p[t + 1]);
      } else {
        assert Step(edges, p[t - a + b], p[t - a + b + 1]);
      }
    }
    q := ShortPathExists(edges, i, j, cut);
  }

  lemma PathStaysInside(edges: seq<seq<bool>>, i: nat, j: nat, p: seq<nat>)
    requires Square(edges) && Path(edges, i, j, p)
    ensures i < |edges| && j < |edges| && Via(|edges|, p)
  {
    assert Step(edges, p[0], p[1]) && Step(edges, p[|p| - 2], p[|p| - 1]);
    forall t | 0 < t < |p| - 1 ensures p[t] < |edges| {
      assert Step(edges, p[t], p[t + 1]);
    }
  }

  /** Main result: after the last phase an entry is exactly the shortest path length, the shortest
      cycle length on the diagonal, and MAX_DIST exactly when there is no path at all. */
  lemma ShortestPaths(edges: seq<seq<bool>>, i: nat, j: nat)
    requires Square(edges) && |edges| < MAX_DIST && i < |edges| && j < |edges|
    ensures forall p :: Path(edges, i, j, p) ==> Dist(edges, |edges|, i, j) <= |p| - 1
    ensures Dist(edges, |edges|, i, j) == MAX_DIST <==> !exists p :: Path(edges, i, j, p)
    ensures Dist(edges, |edges|, i, j) < MAX_DIST ==>
              exists p :: Path(edges, i, j, p) && |p| - 1 == Dist(edges, |edges|, i, j)
  {
    var n := |edges|;
    DistBounds(edges, n, i, j);
    forall p | Path(edges, i, j, p)
      ensures Dist(edges, n, i, j) <= |p| - 1 && Dist(edges, n, i, j) < MAX_DIST
    {
      PathStaysInside(edges, i, j, p);
      DistIsLowerBound(edges, n, i, j, p);
      var q := ShortPathExists(edges, i, j, p);
      PathStaysInside(edges, i, j, q);
      DistIsLowerBound(edges, n, i, j, q);
    }
    if Dist(edges, n, i, j) < MAX_DIST {
      var p := DistIsAttained(edges, n, i, j);
    }
  }
}
