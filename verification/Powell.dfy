/** The optimiser around the line search (mert/Optimizer.cpp, SimpleOptimizer::TrueRun): it moves to the best point
    on all lines through the current one along the axes, until that gains nearly nothing. */
module Powell {
  const MIN_FLOAT: real := -340282346638528859811704183484516925440.0
  const EPS: real := 0.0001

  /** A line search: the score and the point it finds on the line through p along axis d. */
  type Search<!P> = (P, nat) -> (real, P)

  datatype Best<P> = Best(score: real, point: P)

  /** One round from p: b is the best of what was known and of the searches along the first n axes. */
  ghost predicate Round<P(!new)>(line: Search<P>, p: P, n: nat, known: Best<P>, b: Best<P>) {
    && known.score <= b.score && (forall d: nat :: d < n ==> line(p, d).0 <= b.score)
    && (b == known || (known.score < b.score && exists d: nat :: FirstBest(line, p, n, b, d)))
  }

  /** Axis d is the first with the score of b, and gives its point. */
  ghost predicate FirstBest<P(!new)>(line: Search<P>, p: P, n: nat, b: Best<P>, d: nat) {
    d < n && line(p, d) == (b.score, b.point) && forall c: nat :: c < d ==> line(p, c).0 < b.score
  }

  method OneRound<P(!new)>(line: Search<P>, p: P, dim: nat, known: Best<P>) returns (b: Best<P>)
    ensures Round(line, p, dim, known, b)
  {
    b := known;
    for d := 0 to dim
      invariant Round(line, p, d, known, b)
    {
      var (curscore, linebest) := line(p, d);
      if curscore > b.score {
        b := Best(curscore, linebest);
        assert FirstBest(line, p, d + 1, b, d);
      } else if b != known {
        ghost var c: nat :| FirstBest(line, p, d, b, c);
        assert FirstBest(line, p, d + 1, b, c);
      }
    }
  }

  /** bests[k] is known after k rounds; every round starts from the best point so far, the first one from p. */
  ghost predicate Rounds<P(!new)>(line: Search<P>, p: P, dim: nat, bests: seq<Best<P>>) {
    && (forall k :: 0 < k < |bests| ==> Round(line, From(p, bests, k - 1), dim, bests[k - 1], bests[k]))
    && (forall k :: 0 < k < |bests| - 1 ==> bests[k].score - bests[k - 1].score > EPS)
  }

  ghost function From<P>(p: P, bests: seq<Best<P>>, k: nat): P
    requires k < |bests|
  {
    if k == 0 then p else bests[k].point
  }

  lemma RoundWithin<P(!new)>(line: Search<P>, p: P, dim: nat, known: Best<P>, b: Best<P>, bound: real)
    requires Round(line, p, dim, known, b) && known.score <= bound && forall p: P, d: nat :: line(p, d).0 <= bound
    ensures b.score <= bound
  {}

  lemma RoundsMore<P(!new)>(line: Search<P>, p: P, dim: nat, bests: seq<Best<P>>, b: Best<P>)
    requires bests != [] && Rounds(line, p, dim, bests) && Round(line, From(p, bests, |bests| - 1), dim, bests[|bests| - 1], b)
    requires |bests| > 1 ==> bests[|bests| - 1].score - bests[|bests| - 2].score > EPS
    ensures Rounds(line, p, dim, bests + [b])
  {
    hide Round;
    var more := bests + [b];
    forall k | 0 < k < |more| ensures Round(line, From(p, more, k - 1), dim, more[k - 1], more[k]) {
      assert more[k - 1] == bests[k - 1];
    }
  }

  /** b is the result of a whole run: what is known at the start, then rounds up to the first that gains at most
      EPS. */
  ghost predicate Run<P(!new)>(line: Search<P>, start: P, first: Best<P>, dim: nat, bests: seq<Best<P>>, b: Best<P>) {
    && |bests| >= 2 && bests[0] == first && Rounds(line, start, dim, bests)
    && b == bests[|bests| - 1] && b.score - bests[|bests| - 2].score <= EPS
  }

  function Known<P>(start: P, startScore: real, unset: P): Best<P> {
    if startScore > MIN_FLOAT then Best(startScore, start) else Best(MIN_FLOAT, unset)
  }

  /** The rounds go on exactly while they gain more than EPS; since scores are bounded, they end. */
  method TrueRun<P(!new)>(line: Search<P>, start: P, startScore: real, unset: P, dim: nat, ghost top: real)
    returns (b: Best<P>)
    requires forall p: P, d: nat :: line(p, d).0 <= top
    ensures exists bests :: Run(line, start, Known(start, startScore, unset), dim, bests, b)
  {
    hide Round, FirstBest;
    b := Best(MIN_FLOAT, unset);
    if startScore > MIN_FLOAT {
      b := Best(startScore, start);
    }
    ghost var bound := if top < b.score then b.score else top;
    var p := start;
    ghost var bests := [b];
    var prevscore := b.score;
    var again := true;
    while again
      invariant |bests| >= 1 && Rounds(line, start, dim, bests) && b == bests[|bests| - 1] && b.score <= bound
      invariant p == From(start, bests, |bests| - 1)
      invariant bests[0] == Known(start, startScore, unset)
      invariant |bests| == 1 ==> again
      invariant |bests| > 1 ==> (again <==> b.score - bests[|bests| - 2].score > EPS)
      decreases again, (bound - b.score) * 10000.0 + if |bests| == 1 then 2.0 else 0.0
    {
      prevscore := b.score;
      ghost var known := b;
      b := OneRound(line, p, dim, b);
      RoundWithin(line, p, dim, known, b, bound);
      RoundsMore(line, start, dim, bests, b);
      p := b.point;
      bests := bests + [b];
      again := b.score - prevscore > EPS;
    }
    assert Run(line, start, Known(start, startScore, unset), dim, bests, b);
  }

  /** The best score never falls. */
  lemma {:induction false} ScoresRise<P(!new)>(line: Search<P>, p: P, dim: nat, bests: seq<Best<P>>, i: nat, k: nat)
    requires Rounds(line, p, dim, bests) && i <= k < |bests|
    ensures bests[i].score <= bests[k].score
    decreases k
  {
    if i < k { ScoresRise(line, p, dim, bests, i, k - 1); }
  }

  /** Every round but the last gains more than EPS, which bounds their number. */
  lemma {:induction false} RoundsAreFew<P(!new)>(line: Search<P>, p: P, dim: nat, bests: seq<Best<P>>, k: nat)
    requires Rounds(line, p, dim, bests) && k < |bests| - 1
    ensures bests[k].score - bests[0].score >= k as real * EPS
  {
    if k > 0 {
      RoundsAreFew(line, p, dim, bests, k - 1);
      assert bests[k].score - bests[k - 1].score > EPS;
      assert k as real * EPS == (k - 1) as real * EPS + EPS;
    }
  }

  /** The searches from p are exact: what they find has the value they say, and nothing on the line has a greater one. */
  ghost predicate ExactSearch<P(!new)>(line: Search<P>, p: P, dim: nat, value: P -> real, on: (P, nat, P) -> bool) {
    forall d: nat :: d < dim ==>
      value(line(p, d).1) == line(p, d).0 && forall q: P :: on(p, d, q) ==> value(q) <= line(p, d).0
  }

  /** So are all searches of a run. */
  ghost predicate AllExact<P(!new)>(line: Search<P>, start: P, dim: nat, bests: seq<Best<P>>, value: P -> real, on: (P, nat, P) -> bool) {
    forall k :: 0 <= k < |bests| - 1 ==> ExactSearch(line, From(start, bests, k), dim, value, on)
  }

  /** No point on any axis through q has a greater value than score. */
  ghost predicate NoneBetter<P(!new)>(dim: nat, value: P -> real, on: (P, nat, P) -> bool, q: P, score: real) {
    forall r: P, d: nat :: d < dim && on(q, d, r) ==> value(r) <= score
  }

  /** With exact searches from a point whose score is right, the result has its score, which is at least the first,
      and at most EPS above the point q before the last round, and nothing on any axis through q is better than it. */
  lemma EndsAtLocalOptimum<P(!new)>(line: Search<P>, start: P, dim: nat, bests: seq<Best<P>>, b: Best<P>,
                                      value: P -> real, on: (P, nat, P) -> bool)
    requires AllExact(line, start, dim, bests, value, on) && Run(line, start, Best(value(start), start), dim, bests, b)
    ensures value(b.point) == b.score >= value(start)
            && var q := From(start, bests, |bests| - 2);
               b.score - EPS <= value(q) <= b.score && NoneBetter(dim, value, on, q, b.score)
  {
    var n := |bests| - 1;
    ScoresRise(line, start, dim, bests, 0, n);
    ScoresRise(line, start, dim, bests, n - 1, n);
    ScoresAreValues(line, start, dim, bests, value, on, n);
    ScoresAreValues(line, start, dim, bests, value, on, n - 1);
    var q := From(start, bests, n - 1);
    assert ExactSearch(line, q, dim, value, on);
    assert Round(line, q, dim, bests[n - 1], bests[n]);
    forall r: P, d: nat | d < dim && on(q, d, r) ensures value(r) <= bests[n].score {
      assert value(r) <= line(q, d).0;
    }
    assert NoneBetter(dim, value, on, q, bests[n].score);
  }

  lemma {:induction false} ScoresAreValues<P(!new)>(line: Search<P>, start: P, dim: nat, bests: seq<Best<P>>,
                                                    value: P -> real, on: (P, nat, P) -> bool, k: nat)
    requires AllExact(line, start, dim, bests, value, on) && Rounds(line, start, dim, bests) && k < |bests|
    requires bests[0] == Best(value(start), start)
    ensures value(bests[k].point) == bests[k].score
  {
    if k > 0 {
      ScoresAreValues(line, start, dim, bests, value, on, k - 1);
      assert ExactSearch(line, From(start, bests, k - 1), dim, value, on);
      assert Round(line, From(start, bests, k - 1), dim, bests[k - 1], bests[k]);
    }
  }
}
