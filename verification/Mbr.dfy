/** Minimum Bayes risk selection from an n-best list (moses-cmd/src/mbr.cpp).
    Real arithmetic is a parameter: only signs, bounds and monotonicity of the operations matter. */
module Mbr {

  type Word = nat
  type Sentence = seq<Word>
  type Counts = map<Sentence, nat>

  const SMOOTH: nat := 1

  /** Arithmetic and settings of the source: logarithm, exponential, product, quotient and the n-gram
      order (4 by default).  Rounding is not the point, so only signs, bounds, monotonicity and the laws of
      fractions are used; `ExactArithmetic` shows that the exact operations qualify. */
  datatype Metric = Metric(
    ln: real -> real, exp: real -> real, times: (real, real) -> real, quotient: (real, real) -> real, order: nat)

  ghost predicate Increasing(ln: real -> real) {
    forall x, y :: 0.0 < x <= y ==> ln(x) <= ln(y)
  }

  ghost predicate Exponential(exp: real -> real) {
    forall x :: 0.0 < exp(x) && (x <= 0.0 ==> exp(x) <= 1.0)
  }

  ghost predicate Product(times: (real, real) -> real) {
    forall x, y :: 0.0 <= x <= 1.0 && 0.0 <= y ==> 0.0 <= times(x, y) <= y
  }

  ghost predicate Quotient(quotient: (real, real) -> real) {
    && (forall x, y :: x <= 0.0 < y ==> quotient(x, y) <= 0.0)
    && (forall y :: 0.0 < y ==> quotient(0.0, y) == 0.0)
    && (forall y :: 0.0 < y ==> quotient(y, y) == 1.0)
  }

  /** Quotients of non-negative numbers are not negative, and they add up over one denominator. */
  ghost predicate Additive(quotient: (real, real) -> real) {
    && (forall x, y :: 0.0 <= x && 0.0 < y ==> 0.0 <= quotient(x, y))
    && (forall x, z, y :: 0.0 < y ==> quotient(x + z, y) == quotient(x, y) + quotient(z, y))
  }

  /** Fractions are reduced, and the exponential of a difference is a fraction. */
  ghost predicate Reduces(exp: real -> real, quotient: (real, real) -> real) {
    && (forall x, y, z :: 0.0 < y && 0.0 < z && 0.0 < quotient(y, z) ==> quotient(quotient(x, z), quotient(y, z)) == quotient(x, y))
    && (forall x, y :: exp(x - y) == quotient(exp(x), exp(y)))
  }

  ghost predicate Sound(metric: Metric) {
    && Increasing(metric.ln) && Exponential(metric.exp)
    && Product(metric.times) && Quotient(metric.quotient)
    && metric.order > 0
  }

  ghost predicate Fractions(metric: Metric) {
    Additive(metric.quotient) && Reduces(metric.exp, metric.quotient)
  }

  function Times(x: real, y: real): real {
    x * y
  }

  function Divide(x: real, y: real): real {
    if y == 0.0 then 0.0 else x / y
  }

  lemma ExactArithmetic(ln: real -> real, exp: real -> real, order: nat)
    requires Increasing(ln) && Exponential(exp) && order > 0
    ensures Sound(Metric(ln, exp, Times, Divide, order))
    ensures (forall x, y :: exp(x - y) == Divide(exp(x), exp(y))) ==> Fractions(Metric(ln, exp, Times, Divide, order))
    ensures (forall x, y :: x < y ==> exp(x) < exp(y)) ==> Comparing(Metric(ln, exp, Times, Divide, order))
  {
    hide Times, Divide;
    forall x: real, y: real | 0.0 <= x <= 1.0 && 0.0 <= y ensures 0.0 <= Times(x, y) <= y {
      ProductBounds(x, y);
    }
    forall y: real | 0.0 < y ensures Divide(0.0, y) == 0.0 && Divide(y, y) == 1.0 {
      QuotientBounds(y, y);
      QuotientBounds(0.0, y);
    }
    forall x: real, y: real | 0.0 < y ensures (x <= 0.0 ==> Divide(x, y) <= 0.0) && (0.0 <= x ==> 0.0 <= Divide(x, y)) {
      QuotientBounds(x, y);
    }
    forall x: real, y: real | 0.0 < y ensures 1.0 < Divide(x, y) <==> y < x { QuotientCompares(x, y); }
    forall x: real, z: real, y: real | 0.0 < y ensures Divide(x + z, y) == Divide(x, y) + Divide(z, y) {
      QuotientAdds(x, z, y);
    }
    forall x: real, y: real, z: real | 0.0 < y && 0.0 < z ensures Divide(Divide(x, z), Divide(y, z)) == Divide(x, y) {
      QuotientReduces(x, y, z);
    }
  }

  lemma ProductBounds(x: real, y: real)
    requires 0.0 <= x <= 1.0 && 0.0 <= y
    ensures 0.0 <= Times(x, y) <= y
  {
    NotNegative(x, y);
    NotNegative(1.0 - x, y);
  }

  lemma NotNegative(x: real, y: real)
    requires 0.0 <= x && 0.0 <= y
    ensures 0.0 <= x * y
  {}

  lemma QuotientBounds(x: real, y: real)
    requires 0.0 < y
    ensures x <= 0.0 ==> Divide(x, y) <= 0.0
    ensures 0.0 <= x ==> 0.0 <= Divide(x, y)
    ensures x == 0.0 ==> Divide(x, y) == 0.0
    ensures x == y ==> Divide(x, y) == 1.0
  {
    assert (x <= 0.0 ==> x / y <= 0.0) && (0.0 <= x ==> 0.0 <= x / y);
    assert x == y ==> x / y == 1.0;
  }

  lemma QuotientCompares(x: real, y: real)
    requires 0.0 < y
    ensures 1.0 < Divide(x, y) <==> y < x
  {
    var q := x / y;
    assert q * y == x && (q - 1.0) * y == x - y;
    if q <= 1.0 { NotNegative(1.0 - q, y); }
    if y >= x && q > 1.0 { NotNegative(q - 1.0, y); }
  }

  lemma QuotientAdds(x: real, z: real, y: real)
    requires 0.0 < y
    ensures Divide(x + z, y) == Divide(x, y) + Divide(z, y)
  {}

  lemma QuotientReduces(x: real, y: real, z: real)
    requires 0.0 < y && 0.0 < z
    ensures Divide(Divide(x, z), Divide(y, z)) == Divide(x, y)
  {
    var p, q := x / z, y / z;
    assert x == p * z && y == q * z;
    assert 0.0 < q;
    assert (p / q) * y == p * z;
  }

  // ---------------------------------------------------------------- counting n-grams

  /** Occurrences of g among the windows of s that start before position hi. */
  ghost function OccursBefore(s: Sentence, g: Sentence, hi: nat): nat
    requires hi == 0 || hi + |g| <= |s| + 1
  {
    if hi == 0 then 0 else OccursBefore(s, g, hi - 1) + if s[hi - 1..hi - 1 + |g|] == g then 1 else 0
  }

  ghost function Occurs(s: Sentence, g: Sentence): nat {
    if |g| <= |s| then OccursBefore(s, g, |s| - |g| + 1) else 0
  }

  /** Number of windows of length k + 1. */
  function Windows(s: Sentence, k: nat): nat {
    if |s| >= k then |s| - k else 0
  }

  /** The window of length k + 1 at position p. */
  function Window(s: Sentence, p: nat, k: nat): Sentence
    requires p < Windows(s, k)
  {
    s[p..p + k + 1]
  }

  /** Windows of order at most k are all counted, those of order k + 1 only up to start hi. */
  ghost function Counted(s: Sentence, g: Sentence, k: nat, hi: nat): nat
    requires hi <= Windows(s, k)
  {
    if g == [] || |g| > k + 1 then 0
    else if |g| <= k then Occurs(s, g)
    else OccursBefore(s, g, hi)
  }

  function At(m: Counts, g: Sentence): nat { if g in m then m[g] else 0 }

  ghost predicate Tally(s: Sentence, m: Counts, k: nat, hi: nat)
    requires hi <= Windows(s, k)
  {
    && (forall g <- m :: m[g] > 0)
    && (forall g :: At(m, g) == Counted(s, g, k, hi))
  }

  /** extract_ngrams: every n-gram up to the given order with its number of occurrences. */
  method ExtractNgrams(order: nat, sentence: Sentence) returns (allngrams: Counts)
    ensures CountsOf(order, sentence, allngrams)
  {
    allngrams := map[];
    for k := 0 to order
      invariant Tally(sentence, allngrams, k, 0)
    {
      for i := 0 to Windows(sentence, k)
        invariant Tally(sentence, allngrams, k, i)
      {
        var ngram := Window(sentence, i, k);
        ghost var before := allngrams;
        allngrams := allngrams[ngram := At(allngrams, ngram) + 1];
        forall g ensures At(allngrams, g) == Counted(sentence, g, k, i + 1) {
          assert At(before, g) == Counted(sentence, g, k, i);
          assert At(allngrams, g) == At(before, g) + if g == ngram then 1 else 0;
        }
      }
      forall g ensures At(allngrams, g) == Counted(sentence, g, k + 1, 0) {
        assert At(allngrams, g) == Counted(sentence, g, k, Windows(sentence, k));
      }
    }
  }

  // ---------------------------------------------------------------- sums over a set of n-grams

  ghost function SumOver(keys: set<Sentence>, f: Sentence -> nat): nat {
    if keys == {} then 0 else var g :| g in keys; f(g) + SumOver(keys - {g}, f)
  }

  lemma {:induction false} SumRemove(keys: set<Sentence>, f: Sentence -> nat, g: Sentence)
    requires g in keys
    ensures SumOver(keys, f) == f(g) + SumOver(keys - {g}, f)
  {
    var h :| h in keys && SumOver(keys, f) == f(h) + SumOver(keys - {h}, f);
    if h != g {
      SumRemove(keys - {h}, f, g);
      SumRemove(keys - {g}, f, h);
      assert keys - {h} - {g} == keys - {g} - {h};
    }
  }

  lemma {:induction false} SumMonotone(keys: set<Sentence>, more: set<Sentence>, f: Sentence -> nat, f': Sentence -> nat)
    requires keys <= more && forall g <- keys :: f(g) <= f'(g)
    ensures SumOver(keys, f) <= SumOver(more, f')
    decreases more
  {
    if more != {} {
      var g :| g in more;
      SumRemove(more, f', g);
      if g in keys {
        SumRemove(keys, f, g);
        SumMonotone(keys - {g}, more - {g}, f, f');
      } else {
        SumMonotone(keys, more - {g}, f, f');
      }
    }
  }

  // ---------------------------------------------------------------- clipped matches

  /** Keys of order i + 1. */
  ghost function OfOrder(m: Counts, i: nat): set<Sentence> {
    set g <- m | |g| == i + 1
  }

  ghost function Clipped(hyp: Counts, refs: Counts): Sentence -> nat {
    (g: Sentence) => if At(refs, g) <= At(hyp, g) then At(refs, g) else At(hyp, g)
  }

  /** Clipped matches of one order: each hypothesis n-gram counts at most as often as in the reference. */
  ghost function Matches(hyp: Counts, refs: Counts, i: nat): nat {
    SumOver(OfOrder(hyp, i), Clipped(hyp, refs))
  }

  ghost predicate CountsOf(order: nat, s: Sentence, m: Counts) {
    && (forall g <- m :: m[g] > 0)
    && (forall g :: At(m, g) == if 1 <= |g| <= order then Occurs(s, g) else 0)
  }

  /** The n-grams of a sentence up to the order. */
  ghost function Grams(order: nat, s: Sentence): set<Sentence> {
    set i: nat, p: nat | i < order && p < Windows(s, i) :: Window(s, p, i)
  }

  /** Every n-gram with its number of occurrences. */
  ghost function Table(order: nat, s: Sentence): Counts {
    map g | g in Grams(order, s) :: Occurs(s, g)
  }

  lemma {:induction false} OccurrenceIsWindow(s: Sentence, g: Sentence, hi: nat) returns (p: nat)
    requires (hi == 0 || hi + |g| <= |s| + 1) && OccursBefore(s, g, hi) > 0
    ensures p < hi && s[p..p + |g|] == g
  {
    if s[hi - 1..hi - 1 + |g|] == g { p := hi - 1; } else { p := OccurrenceIsWindow(s, g, hi - 1); }
  }

  lemma GramsOccur(order: nat, s: Sentence, g: Sentence)
    ensures g in Grams(order, s) <==> 1 <= |g| <= order && Occurs(s, g) > 0
  {
    hide OccursBefore;
    if g in Grams(order, s) {
      var i: nat, p: nat :| i < order && p < Windows(s, i) && Window(s, p, i) == g;
      WindowOccurs(s, g, p, Windows(s, i));
    }
    if 1 <= |g| <= order && Occurs(s, g) > 0 {
      var p := OccurrenceIsWindow(s, g, |s| - |g| + 1);
      assert Window(s, p, |g| - 1) == g && p < Windows(s, |g| - 1);
    }
  }

  /** There is one table of counts. */
  lemma TableIsCounts(order: nat, s: Sentence, m: Counts)
    ensures CountsOf(order, s, m) <==> m == Table(order, s)
  {
    var t := Table(order, s);
    forall g ensures At(t, g) == if 1 <= |g| <= order then Occurs(s, g) else 0 { GramsOccur(order, s, g); }
    if CountsOf(order, s, m) {
      forall g ensures g in m <==> g in t {
        GramsOccur(order, s, g);
        assert g in m <==> At(m, g) > 0;
      }
      forall g | g in m ensures m[g] == t[g] { assert At(m, g) == At(t, g); }
    }
    forall g | g in t ensures t[g] > 0 { GramsOccur(order, s, g); }
  }

  /** The windows of order i + 1 that start before hi, as a counting function. */
  ghost function Before(s: Sentence, i: nat, hi: nat): Sentence -> nat
    requires hi <= Windows(s, i)
  {
    (g: Sentence) => if |g| == i + 1 then OccursBefore(s, g, hi) else 0
  }

  lemma {:induction false} SumZero(keys: set<Sentence>, f: Sentence -> nat)
    requires forall g <- keys :: f(g) == 0
    ensures SumOver(keys, f) == 0
  {
    if keys != {} {
      var g :| g in keys;
      SumRemove(keys, f, g);
      SumZero(keys - {g}, f);
    }
  }

  lemma {:induction false} SumSame(keys: set<Sentence>, f: Sentence -> nat, f': Sentence -> nat)
    requires forall g <- keys :: f(g) == f'(g)
    ensures SumOver(keys, f) == SumOver(keys, f')
  {
    SumMonotone(keys, keys, f, f');
    SumMonotone(keys, keys, f', f);
  }

  /** Every window is counted once: the counts of one order sum to the number of windows. */
  lemma {:induction false} WindowsCounted(s: Sentence, keys: set<Sentence>, i: nat, hi: nat)
    requires hi <= Windows(s, i)
    requires forall p :: 0 <= p < hi ==> Window(s, p, i) in keys
    requires forall g <- keys :: |g| == i + 1
    ensures SumOver(keys, Before(s, i, hi)) == hi
  {
    if hi == 0 {
      SumZero(keys, Before(s, i, 0));
    } else {
      WindowsCounted(s, keys, i, hi - 1);
      var last := Window(s, hi - 1, i);
      forall g <- keys ensures Before(s, i, hi)(g) == Before(s, i, hi - 1)(g) + if g == last then 1 else 0 {}
      SumBump(keys, Before(s, i, hi - 1), Before(s, i, hi), last);
    }
  }

  lemma SumBump(keys: set<Sentence>, f: Sentence -> nat, f': Sentence -> nat, last: Sentence)
    requires last in keys && forall g <- keys :: f'(g) == f(g) + if g == last then 1 else 0
    ensures SumOver(keys, f') == SumOver(keys, f) + 1
  {
    SumRemove(keys, f, last);
    SumRemove(keys, f', last);
    SumSame(keys - {last}, f, f');
  }

  lemma {:induction false} WindowOccurs(s: Sentence, g: Sentence, p: nat, hi: nat)
    requires p < hi && hi + |g| <= |s| + 1 && s[p..p + |g|] == g
    ensures OccursBefore(s, g, hi) > 0
  {
    if p < hi - 1 { WindowOccurs(s, g, p, hi - 1); }
  }

  lemma WindowIsKey(order: nat, s: Sentence, m: Counts, i: nat, p: nat)
    requires CountsOf(order, s, m) && i < order && p < Windows(s, i)
    ensures Window(s, p, i) in OfOrder(m, i)
  {
    hide *;
    var g := Window(s, p, i);
    WindowCounts(s, i, p);
    KeyOf(order, s, m, g);
    KeyOfOrder(m, i, g);
  }

  lemma WindowCounts(s: Sentence, i: nat, p: nat)
    requires p < Windows(s, i)
    ensures |Window(s, p, i)| == i + 1 && Occurs(s, Window(s, p, i)) > 0
  {
    WindowOccurs(s, Window(s, p, i), p, Windows(s, i));
  }

  lemma KeyOf(order: nat, s: Sentence, m: Counts, g: Sentence)
    requires CountsOf(order, s, m) && 1 <= |g| <= order && Occurs(s, g) > 0
    ensures g in m
  {
    hide Occurs;
    assert At(m, g) == Occurs(s, g);
  }

  lemma KeyOfOrder(m: Counts, i: nat, g: Sentence)
    requires g in m && |g| == i + 1
    ensures g in OfOrder(m, i)
  {}

  lemma TableEntry(order: nat, s: Sentence, m: Counts, g: Sentence)
    requires CountsOf(order, s, m) && 1 <= |g| <= order
    ensures At(m, g) == OccursBefore(s, g, Windows(s, |g| - 1))
  {
  }

  /** The counts of one order of a real n-gram table sum to the number of windows of that order. */
  lemma OrderTotal(order: nat, s: Sentence, m: Counts, i: nat)
    requires CountsOf(order, s, m) && i < order
    ensures SumOver(OfOrder(m, i), (g: Sentence) => At(m, g)) == Windows(s, i)
  {
    var keys, hi := OfOrder(m, i), Windows(s, i);
    forall p | 0 <= p < hi ensures Window(s, p, i) in keys {
      WindowIsKey(order, s, m, i, p);
    }
    WindowsCounted(s, keys, i, hi);
    forall g <- keys ensures At(m, g) == Before(s, i, hi)(g) {
      TableEntry(order, s, m, g);
    }
    SumSame(keys, (g: Sentence) => At(m, g), Before(s, i, hi));
  }

  /** Main result on the counts: clipped matches never exceed the number of hypothesis n-grams. */
  lemma MatchesBounded(order: nat, s: Sentence, hyp: Counts, refs: Counts, i: nat)
    requires CountsOf(order, s, hyp) && i < order
    ensures Matches(hyp, refs, i) <= Windows(s, i)
  {
    OrderTotal(order, s, hyp, i);
    SumMonotone(OfOrder(hyp, i), OfOrder(hyp, i), Clipped(hyp, refs), (g: Sentence) => At(hyp, g));
  }

  lemma {:induction false} SumDropsZeros(keys: set<Sentence>, more: set<Sentence>, f: Sentence -> nat)
    requires keys <= more && forall g <- more :: g !in keys ==> f(g) == 0
    ensures SumOver(more, f) == SumOver(keys, f)
    decreases more
  {
    if g :| g in more && g !in keys {
      SumRemove(more, f, g);
      SumDropsZeros(keys, more - {g}, f);
    } else {
      assert keys == more;
    }
  }

  /** Nor the number of n-grams of the reference. */
  lemma MatchesBoundedByReference(order: nat, s: Sentence, hyp: Counts, refs: Counts, i: nat)
    requires CountsOf(order, s, refs) && i < order
    ensures Matches(hyp, refs, i) <= Windows(s, i)
  {
    var count := (g: Sentence) => At(refs, g);
    OrderTotal(order, s, refs, i);
    SumMonotone(OfOrder(hyp, i), OfOrder(hyp, i) + OfOrder(refs, i), Clipped(hyp, refs), count);
    SumDropsZeros(OfOrder(refs, i), OfOrder(hyp, i) + OfOrder(refs, i), count);
  }

  /** Every n-gram counts as often as it occurs in both, that is as often as in the one that has it less often. */
  lemma ClippedIsLess(hyp: Counts, refs: Counts, g: Sentence)
    ensures Clipped(hyp, refs)(g) <= At(hyp, g) && Clipped(hyp, refs)(g) <= At(refs, g)
    ensures Clipped(hyp, refs)(g) == At(hyp, g) || Clipped(hyp, refs)(g) == At(refs, g)
  {}

  /** A sentence matches itself completely. */
  lemma MatchesSelf(order: nat, s: Sentence, m: Counts, i: nat)
    requires CountsOf(order, s, m) && i < order
    ensures Matches(m, m, i) == Windows(s, i)
  {
    OrderTotal(order, s, m, i);
    SumSame(OfOrder(m, i), Clipped(m, m), (g: Sentence) => At(m, g));
  }

  /** All orders at once: the even slots of the source's comps vector. */
  ghost function AllMatches(order: nat, hyp: Counts, refs: Counts): seq<nat> {
    seq(order, i requires 0 <= i < order => Matches(hyp, refs, i))
  }

  /** The loop over the hypothesis table, adding min(reference, hypothesis) to the slot of its order. */
  method CountMatches(order: nat, hyp: Counts, refs: Counts) returns (matches: seq<nat>)
    requires forall g <- hyp :: 1 <= |g| <= order
    ensures matches == AllMatches(order, hyp, refs)
  {
    matches := seq(order, _ => 0);
    var todo := hyp.Keys;
    ghost var f := Clipped(hyp, refs);
    forall i | 0 <= i < order ensures todo * OfOrder(hyp, i) == OfOrder(hyp, i) {}
    while todo != {}
      invariant todo <= hyp.Keys && |matches| == order
      invariant forall i :: 0 <= i < order ==>
                  matches[i] + SumOver(todo * OfOrder(hyp, i), f) == Matches(hyp, refs, i)
      decreases todo
    {
      var g :| g in todo;
      var slot := |g| - 1;
      if g in refs {
        matches := matches[slot := matches[slot] + if refs[g] <= hyp[g] then refs[g] else hyp[g]];
      }
      forall i | 0 <= i < order
        ensures matches[i] + SumOver((todo - {g}) * OfOrder(hyp, i), f) == Matches(hyp, refs, i)
      {
        var rest := (todo - {g}) * OfOrder(hyp, i);
        if i == slot {
          SumRemove(todo * OfOrder(hyp, i), f, g);
          assert todo * OfOrder(hyp, i) - {g} == rest;
        } else {
          assert todo * OfOrder(hyp, i) == rest;
        }
      }
      todo := todo - {g};
    }
    forall i | 0 <= i < order ensures matches[i] == Matches(hyp, refs, i) {
      assert todo * OfOrder(hyp, i) == {};
    }
  }

  // ---------------------------------------------------------------- the smoothed sentence BLEU

  /** n-grams of order i + 1 in a sentence of the given length: the odd slots of comps. */
  function NGrams(length: nat, i: nat): nat {
    if length >= i then length - i else 0
  }

  /** What the counting loop guarantees: no order has more matches than hypothesis n-grams. */
  ghost predicate Bounded(length: nat, matches: seq<nat>) {
    forall i :: 0 <= i < |matches| ==> matches[i] <= NGrams(length, i)
  }

  lemma MatchesAreBounded(order: nat, s: Sentence, hyp: Counts, refs: Counts)
    requires CountsOf(order, s, hyp)
    ensures Bounded(|s|, AllMatches(order, hyp, refs))
  {
    forall i | 0 <= i < order ensures Matches(hyp, refs, i) <= NGrams(|s|, i) {
      MatchesBounded(order, s, hyp, refs, i);
    }
  }

  /** One factor of the geometric mean; the unigram ratio is not smoothed. */
  function LogRatio(ln: real -> real, i: nat, matched: nat, total: nat): real {
    if i > 0 then ln((matched + SMOOTH) as real) - ln((total + SMOOTH) as real)
    else ln(matched as real) - ln(total as real)
  }

  function LogRatios(ln: real -> real, length: nat, matches: seq<nat>, i: nat): real
    requires i <= |matches|
  {
    if i == 0 then 0.0
    else LogRatios(ln, length, matches, i - 1) + LogRatio(ln, i - 1, matches[i - 1], NGrams(length, i - 1))
  }

  /** Geometric mean of the ratios, with the brevity penalty added when the hypothesis is shorter. */
  function Penalised(metric: Metric, logRatios: real, refLength: nat, length: nat): real {
    var logbleu := metric.quotient(logRatios, metric.order as real);
    var brevity := 1.0 - metric.quotient(refLength as real, length as real);
    if brevity < 0.0 then logbleu + brevity else logbleu
  }

  function Bleu(metric: Metric, length: nat, refLength: nat, matches: seq<nat>): real
    requires 0 < metric.order == |matches|
  {
    if matches[0] == 0 then 0.0
    else metric.exp(Penalised(metric, LogRatios(metric.ln, length, matches, metric.order), refLength, length))
  }

  /** calculate_score. */
  method CalculateScore(metric: Metric, length: nat, hyp: Counts, refLength: nat, refs: Counts) returns (score: real)
    requires metric.order > 0 && forall g <- hyp :: 1 <= |g| <= metric.order
    ensures score == Bleu(metric, length, refLength, AllMatches(metric.order, hyp, refs))
  {
    var matches := CountMatches(metric.order, hyp, refs);
    if matches[0] == 0 {
      return 0.0;
    }
    var logbleu := 0.0;
    for i := 0 to metric.order
      invariant logbleu == LogRatios(metric.ln, length, matches, i)
    {
      logbleu := logbleu + LogRatio(metric.ln, i, matches[i], NGrams(length, i));
    }
    logbleu := metric.quotient(logbleu, metric.order as real);
    var brevity := 1.0 - metric.quotient(refLength as real, length as real);
    if brevity < 0.0 {
      logbleu := logbleu + brevity;
    }
    score := metric.exp(logbleu);
  }

  /** Greater numbers make greater exponentials, and a fraction is above 1 exactly if its numerator is above its
      denominator. */
  ghost predicate Comparing(metric: Metric) {
    && (forall x, y :: x < y ==> metric.exp(x) < metric.exp(y))
    && (forall x, y :: 0.0 < y ==> (1.0 < metric.quotient(x, y) <==> y < x))
  }

  /** What brevity costs: nothing for a hypothesis that is as long as the reference, or longer; a shorter one gets a
      worse score than against a reference of its own length. */
  lemma BrevityPenalty(metric: Metric, length: nat, refLength: nat, matches: seq<nat>)
    requires Comparing(metric) && 0 < metric.order == |matches| && 0 < length && matches[0] > 0
    ensures var mean := metric.quotient(LogRatios(metric.ln, length, matches, metric.order), metric.order as real);
            && (refLength <= length ==> Bleu(metric, length, refLength, matches) == metric.exp(mean))
            && (length < refLength ==>
                  Bleu(metric, length, refLength, matches) == metric.exp(mean + (1.0 - metric.quotient(refLength as real, length as real)))
                    < Bleu(metric, length, length, matches))
  {
    assert length < refLength <==> length as real < refLength as real;
    assert 1.0 < metric.quotient(refLength as real, length as real) <==> length < refLength;
  }

  /** The score for four orders, written out: the mean of the logarithms of the ratios, of which all but the first have
      one more match and one more n-gram. */
  lemma BleuOfFour(metric: Metric, length: nat, refLength: nat, m: seq<nat>)
    requires Comparing(metric) && metric.order == |m| == 4 && length >= 4 && refLength <= length && m[0] > 0
    ensures Bleu(metric, length, refLength, m) == metric.exp(metric.quotient(
              metric.ln(m[0] as real) - metric.ln(length as real)
              + (metric.ln((m[1] + 1) as real) - metric.ln(length as real))
              + (metric.ln((m[2] + 1) as real) - metric.ln((length - 1) as real))
              + (metric.ln((m[3] + 1) as real) - metric.ln((length - 2) as real)), 4.0))
  {
    var ln := metric.ln;
    BrevityPenalty(metric, length, refLength, m);
    assert LogRatios(ln, length, m, 0) == 0.0;
    assert LogRatios(ln, length, m, 1) == ln(m[0] as real) - ln(length as real);
    assert LogRatios(ln, length, m, 2) == LogRatios(ln, length, m, 1) + (ln((m[1] + 1) as real) - ln(length as real));
    assert LogRatios(ln, length, m, 3) == LogRatios(ln, length, m, 2) + (ln((m[2] + 1) as real) - ln((length - 1) as real));
    assert LogRatios(ln, length, m, 4) == LogRatios(ln, length, m, 3) + (ln((m[3] + 1) as real) - ln((length - 2) as real));
  }

  lemma {:induction false} LogRatiosNotPositive(ln: real -> real, length: nat, matches: seq<nat>, i: nat)
    requires Increasing(ln) && Bounded(length, matches) && i <= |matches| && matches != [] && matches[0] > 0
    ensures LogRatios(ln, length, matches, i) <= 0.0
  {
    if i > 0 {
      LogRatiosNotPositive(ln, length, matches, i - 1);
      assert matches[i - 1] <= NGrams(length, i - 1);
    }
  }

  /** The score is a proper fraction, so every loss term of the risk is non-negative. */
  lemma BleuIsFraction(metric: Metric, length: nat, refLength: nat, matches: seq<nat>)
    requires Sound(metric) && |matches| == metric.order && Bounded(length, matches)
    ensures 0.0 <= Bleu(metric, length, refLength, matches) <= 1.0
  {
    if matches[0] > 0 {
      LogRatiosNotPositive(metric.ln, length, matches, metric.order);
    }
  }

  lemma {:induction false} LogRatiosSelf(ln: real -> real, length: nat, matches: seq<nat>, i: nat)
    requires i <= |matches| && forall k :: 0 <= k < |matches| ==> matches[k] == NGrams(length, k)
    ensures LogRatios(ln, length, matches, i) == 0.0
  {
    if i > 0 {
      LogRatiosSelf(ln, length, matches, i - 1);
      assert matches[i - 1] == NGrams(length, i - 1);
    }
  }

  /** A non-empty sentence scored against itself gets exp(0); an empty one gets zero. */
  lemma BleuOfSelf(metric: Metric, s: Sentence, m: Counts)
    requires Sound(metric) && CountsOf(metric.order, s, m)
    ensures Bleu(metric, |s|, |s|, AllMatches(metric.order, m, m)) == if s == [] then 0.0 else metric.exp(0.0)
  {
    var matches := AllMatches(metric.order, m, m);
    forall k | 0 <= k < |matches| ensures matches[k] == NGrams(|s|, k) {
      MatchesSelf(metric.order, s, m, k);
    }
    LogRatiosSelf(metric.ln, |s|, matches, metric.order);
  }

  // ---------------------------------------------------------------- the risk and its minimiser

  /** Sum of the first n entries. */
  ghost function Total(p: seq<real>, n: nat): real
    requires n <= |p|
  {
    if n == 0 then 0.0 else Total(p, n - 1) + p[n - 1]
  }

  lemma {:induction false} TotalPrefix(p: seq<real>, q: seq<real>, n: nat)
    requires n <= |p| <= |q| && p == q[..|p|]
    ensures Total(p, n) == Total(q, n)
  {
    if n > 0 { TotalPrefix(p, q, n - 1); }
  }

  /** Expected loss of candidate i over the first n candidates; gain(i, j) is the score of i against j. */
  ghost function Risk(times: (real, real) -> real, gain: (nat, nat) -> real, share: seq<real>, i: nat, n: nat): real
    requires n <= |share|
  {
    if n == 0 then 0.0
    else
      var loss := if i == n - 1 then 0.0 else times(1.0 - gain(i, n - 1), share[n - 1]);
      Risk(times, gain, share, i, n - 1) + loss
  }

  lemma RiskStep(times: (real, real) -> real, gain: (nat, nat) -> real, share: seq<real>, i: nat)
    ensures Risk(times, gain, share, i, 0) == 0.0
    ensures forall n :: 0 <= n < |share| ==>
              Risk(times, gain, share, i, n + 1) == Risk(times, gain, share, i, n) + (if i == n then 0.0 else times(1.0 - gain(i, n), share[n]))
  {}

  /** With two candidates, each risks what it loses against the other, times the share of the other. */
  lemma RiskOfTwo(times: (real, real) -> real, gain: (nat, nat) -> real, share: seq<real>)
    requires |share| == 2
    ensures Risk(times, gain, share, 0, 2) == times(1.0 - gain(0, 1), share[1])
    ensures Risk(times, gain, share, 1, 2) == times(1.0 - gain(1, 0), share[0])
  {
    RiskStep(times, gain, share, 0);
    RiskStep(times, gain, share, 1);
  }

  /** Probability mass over the candidates, and scores that are fractions. */
  ghost predicate Mass(times: (real, real) -> real, gain: (nat, nat) -> real, share: seq<real>) {
    && Product(times)
    && (forall i, j :: 0.0 <= gain(i, j) <= 1.0)
    && (forall i :: 0 <= i < |share| ==> 0.0 <= share[i])
    && Total(share, |share|) <= 1.0
  }

  lemma {:induction false} RiskGrows(times: (real, real) -> real, gain: (nat, nat) -> real, share: seq<real>, i: nat, m: nat, n: nat)
    requires Mass(times, gain, share) && m <= n <= |share|
    ensures Risk(times, gain, share, i, m) <= Risk(times, gain, share, i, n)
    decreases n
  {
    if m < n {
      RiskGrows(times, gain, share, i, m, n - 1);
    }
  }

  lemma {:induction false} RiskBounded(times: (real, real) -> real, gain: (nat, nat) -> real, share: seq<real>, i: nat, n: nat)
    requires Mass(times, gain, share) && n <= |share|
    ensures Risk(times, gain, share, i, n) <= Total(share, n)
  {
    if n > 0 {
      RiskBounded(times, gain, share, i, n - 1);
    }
  }

  lemma RiskAtMostOne(times: (real, real) -> real, gain: (nat, nat) -> real, share: seq<real>, i: nat)
    requires Mass(times, gain, share)
    ensures Risk(times, gain, share, i, |share|) <= 1.0
  {
    RiskBounded(times, gain, share, i, |share|);
  }

  // ---------------------------------------------------------------- shares of the probability mass

  ghost function Shares(quotient: (real, real) -> real, joint: seq<real>, marginal: real): (share: seq<real>)
    ensures |share| == |joint|
  {
    seq(|joint|, j requires 0 <= j < |joint| => quotient(joint[j], marginal))
  }

  lemma {:induction false} TotalShare(quotient: (real, real) -> real, joint: seq<real>, marginal: real, n: nat)
    requires Quotient(quotient) && Additive(quotient) && 0.0 < marginal && n <= |joint|
    ensures Total(Shares(quotient, joint, marginal), n) == quotient(Total(joint, n), marginal)
  {
    hide Quotient, Additive;
    if n > 0 {
      TotalShare(quotient, joint, marginal, n - 1);
      SumOfQuotients(quotient, Total(joint, n - 1), joint[n - 1], marginal);
    } else {
      QuotientOfNothing(quotient, marginal);
    }
  }

  lemma SumOfQuotients(quotient: (real, real) -> real, x: real, z: real, y: real)
    requires Additive(quotient) && 0.0 < y
    ensures quotient(x + z, y) == quotient(x, y) + quotient(z, y)
  {}

  lemma QuotientOfNothing(quotient: (real, real) -> real, y: real)
    requires Quotient(quotient) && 0.0 < y
    ensures quotient(0.0, y) == 0.0 && quotient(y, y) == 1.0
  {}

  lemma Reduced(exp: real -> real, quotient: (real, real) -> real, x: real, y: real, z: real)
    requires Reduces(exp, quotient) && 0.0 < y && 0.0 < z && 0.0 < quotient(y, z)
    ensures quotient(quotient(x, z), quotient(y, z)) == quotient(x, y)
  {}

  lemma JointIsFraction(exp: real -> real, quotient: (real, real) -> real, scores: seq<real>, shift: real)
    requires Reduces(exp, quotient)
    ensures Joint(exp, scores, shift) == Shares(quotient, Joint(exp, scores, 0.0), exp(shift))
  {
    forall i | 0 <= i < |scores| ensures exp(scores[i] - shift) == quotient(exp(scores[i] - 0.0), exp(shift)) {
      assert scores[i] - 0.0 == scores[i];
    }
  }

  lemma JointIsPositive(exp: real -> real, scores: seq<real>, shift: real)
    requires Exponential(exp)
    ensures 0.0 < exp(shift) && forall i :: 0 <= i < |scores| ==> 0.0 < Joint(exp, scores, shift)[i]
  {}

  lemma {:induction false} TotalPositive(p: seq<real>, n: nat)
    requires n <= |p| && forall i :: 0 <= i < |p| ==> 0.0 < p[i]
    ensures 0.0 <= Total(p, n) && (n > 0 ==> 0.0 < Total(p, n))
  {
    if n > 0 { TotalPositive(p, n - 1); }
  }

  /** Not negative, and 1 in all. */
  ghost predicate Distribution(share: seq<real>) {
    (forall i :: 0 <= i < |share| ==> 0.0 <= share[i]) && Total(share, |share|) == 1.0
  }

  /** The shares of positive joint probabilities in their sum are a distribution. */
  lemma SharesSumToOne(quotient: (real, real) -> real, joint: seq<real>)
    requires Quotient(quotient) && Additive(quotient) && joint != [] && forall i :: 0 <= i < |joint| ==> 0.0 < joint[i]
    ensures Distribution(Shares(quotient, joint, Total(joint, |joint|)))
  {
    hide Quotient, Additive;
    TotalPositive(joint, |joint|);
    TotalShare(quotient, joint, Total(joint, |joint|), |joint|);
    QuotientOfNothing(quotient, Total(joint, |joint|));
    forall i | 0 <= i < |joint| ensures 0.0 <= Shares(quotient, joint, Total(joint, |joint|))[i] {
      NoNegativeQuotient(quotient, joint[i], Total(joint, |joint|));
    }
  }

  lemma NoNegativeQuotient(quotient: (real, real) -> real, x: real, y: real)
    requires Additive(quotient) && 0.0 <= x && 0.0 < y
    ensures 0.0 <= quotient(x, y)
  {
  }

  /** The joint probabilities: exponentials of the scores relative to shift. */
  ghost function Joint(exp: real -> real, scores: seq<real>, shift: real): (joint: seq<real>)
    ensures |joint| == |scores|
  {
    seq(|scores|, i requires 0 <= i < |scores| => exp(scores[i] - shift))
  }

  ghost function SharesAt(metric: Metric, scores: seq<real>, shift: real): (share: seq<real>)
    ensures |share| == |scores|
  {
    var joint := Joint(metric.exp, scores, shift);
    Shares(metric.quotient, joint, Total(joint, |joint|))
  }

  /** The probability of every candidate: the exponential of its score over the sum of all. */
  ghost function Probabilities(metric: Metric, scores: seq<real>): seq<real> {
    SharesAt(metric, scores, 0.0)
  }

  lemma ShareAt(quotient: (real, real) -> real, joint: seq<real>, marginal: real, j: nat)
    requires j < |joint|
    ensures Shares(quotient, joint, marginal)[j] == quotient(joint[j], marginal)
  {}

  lemma SharesEqual(quotient: (real, real) -> real, a: seq<real>, m: real, b: seq<real>, n: real)
    requires |a| == |b| && forall i :: 0 <= i < |a| ==> quotient(a[i], m) == quotient(b[i], n)
    ensures Shares(quotient, a, m) == Shares(quotient, b, n)
  {}

  /** Subtracting the greatest score, or any other number, from all scores does not change the shares. */
  lemma ShiftIsHarmless(metric: Metric, scores: seq<real>, shift: real)
    requires Sound(metric) && Fractions(metric) && scores != []
    ensures SharesAt(metric, scores, shift) == Probabilities(metric, scores)
  {
    var joint, all := Joint(metric.exp, scores, shift), Joint(metric.exp, scores, 0.0);
    var n, unit, sum := |scores|, metric.exp(shift), Total(Joint(metric.exp, scores, 0.0), |scores|);
    hide Quotient, Additive, Reduces, Exponential, Product, Increasing, Joint;
    JointIsFraction(metric.exp, metric.quotient, scores, shift);
    JointIsPositive(metric.exp, scores, shift);
    JointIsPositive(metric.exp, scores, 0.0);
    TotalShare(metric.quotient, all, unit, n);
    TotalPositive(all, n);
    TotalPositive(joint, n);
    hide Shares, Total;
    forall i | 0 <= i < n ensures metric.quotient(joint[i], Total(joint, n)) == metric.quotient(all[i], sum) {
      ShareAt(metric.quotient, all, unit, i);
      Reduced(metric.exp, metric.quotient, all[i], sum, unit);
    }
    SharesEqual(metric.quotient, joint, Total(joint, n), all, sum);
  }

  // ---------------------------------------------------------------- the choice

  /** An n-best list after the first two loops of doMBR: sentences, their n-gram tables, their joint probabilities
      and the total of these. */
  datatype NBest = NBest(sentences: seq<Sentence>, tables: seq<Counts>, joint: seq<real>, marginal: real)

  ghost predicate Valid(order: nat, nbest: NBest) {
    && |nbest.tables| == |nbest.sentences| == |nbest.joint|
    && (forall i :: 0 <= i < |nbest.sentences| ==> nbest.tables[i] == Table(order, nbest.sentences[i]))
    && (forall i :: 0 <= i < |nbest.joint| ==> 0.0 < nbest.joint[i])
    && nbest.marginal == Total(nbest.joint, |nbest.joint|)
  }

  /** The score that calculate_score gives candidate i when candidate j is the reference. */
  ghost function Gain(metric: Metric, sentences: seq<Sentence>): (nat, nat) -> real
    requires metric.order > 0
  {
    (i: nat, j: nat) =>
      if i < |sentences| && j < |sentences| then
        Bleu(metric, |sentences[i]|, |sentences[j]|,
             AllMatches(metric.order, Table(metric.order, sentences[i]), Table(metric.order, sentences[j])))
      else 0.0
  }

  /** Candidate i is scored as the hypothesis and candidate j as its reference: the matches are those of the n-grams of
      i, and the brevity penalty falls on i exactly if it is shorter than j. */
  lemma GainIsOfFirst(metric: Metric, sentences: seq<Sentence>, i: nat, j: nat)
    requires Comparing(metric) && metric.order > 0 && i < |sentences| && j < |sentences| && sentences[i] != []
    ensures var matches := AllMatches(metric.order, Table(metric.order, sentences[i]), Table(metric.order, sentences[j]));
            var mean := metric.quotient(LogRatios(metric.ln, |sentences[i]|, matches, metric.order), metric.order as real);
            && (matches[0] == 0 ==> Gain(metric, sentences)(i, j) == 0.0)
            && (matches[0] > 0 && |sentences[j]| <= |sentences[i]| ==> Gain(metric, sentences)(i, j) == metric.exp(mean))
            && (matches[0] > 0 && |sentences[i]| < |sentences[j]| ==> Gain(metric, sentences)(i, j) < metric.exp(mean))
  {
    hide Table, AllMatches, LogRatios, Comparing, Bleu, Penalised;
    var matches := AllMatches(metric.order, Table(metric.order, sentences[i]), Table(metric.order, sentences[j]));
    MatchesPerOrder(metric.order, Table(metric.order, sentences[i]), Table(metric.order, sentences[j]));
    assert Gain(metric, sentences)(i, j) == Bleu(metric, |sentences[i]|, |sentences[j]|, matches);
    if matches[0] == 0 {
      NoMatchesNoScore(metric, |sentences[i]|, |sentences[j]|, matches);
    } else {
      BrevityPenalty(metric, |sentences[i]|, |sentences[j]|, matches);
      BrevityPenalty(metric, |sentences[i]|, |sentences[i]|, matches);
    }
  }

  lemma NoMatchesNoScore(metric: Metric, length: nat, refLength: nat, matches: seq<nat>)
    requires 0 < metric.order == |matches| && matches[0] == 0
    ensures Bleu(metric, length, refLength, matches) == 0.0
  {}

  lemma MatchesPerOrder(order: nat, hyp: Counts, refs: Counts)
    ensures |AllMatches(order, hyp, refs)| == order
  {}

  lemma GainIsMass(metric: Metric, sentences: seq<Sentence>, share: seq<real>)
    requires Sound(metric) && Distribution(share)
    ensures Mass(metric.times, Gain(metric, sentences), share)
  {
    forall i: nat, j: nat ensures 0.0 <= Gain(metric, sentences)(i, j) <= 1.0 {
      if i < |sentences| && j < |sentences| {
        var hyp, refs := Table(metric.order, sentences[i]), Table(metric.order, sentences[j]);
        TableIsCounts(metric.order, sentences[i], hyp);
        MatchesAreBounded(metric.order, sentences[i], hyp, refs);
        BleuIsFraction(metric, |sentences[i]|, |sentences[j]|, AllMatches(metric.order, hyp, refs));
      }
    }
  }

  method ScoreAgainst(metric: Metric, nbest: NBest, i: nat, j: nat) returns (bleu: real)
    requires metric.order > 0 && Valid(metric.order, nbest)
    requires i < |nbest.sentences| && j < |nbest.sentences|
    ensures bleu == Gain(metric, nbest.sentences)(i, j)
  {
    hide Table, CountsOf, Total, Bleu, AllMatches;
    KeysAreNGrams(metric.order, nbest.sentences[i], nbest.tables[i]);
    bleu := CalculateScore(metric, |nbest.sentences[i]|, nbest.tables[i], |nbest.sentences[j]|, nbest.tables[j]);
  }

  lemma KeysAreNGrams(order: nat, s: Sentence, m: Counts)
    requires m == Table(order, s)
    ensures forall g <- m :: 1 <= |g| <= order
  {}

  const HUGE_LOSS: real := 1000000.0

  /** The inner loop: it gives up as soon as the running loss exceeds the best one so far. */
  method RunningLoss(metric: Metric, nbest: NBest, i: nat, minLoss: real, ghost share: seq<real>)
    returns (cumul: real)
    requires metric.order > 0 && Valid(metric.order, nbest) && i < |nbest.sentences|
    requires share == Shares(metric.quotient, nbest.joint, nbest.marginal)
    requires Mass(metric.times, Gain(metric, nbest.sentences), share)
    ensures var risk := Risk(metric.times, Gain(metric, nbest.sentences), share, i, |nbest.sentences|);
            risk <= 1.0 && (cumul == risk || minLoss < cumul <= risk)
  {
    hide Gain, Table, Mass, Risk, Total;
    var n := |nbest.sentences|;
    ghost var gain := Gain(metric, nbest.sentences);
    RiskAtMostOne(metric.times, gain, share, i);
    cumul := 0.0;
    RiskStep(metric.times, gain, share, i);
    for j := 0 to n
      invariant cumul == Risk(metric.times, gain, share, i, j)
    {
      if i != j {
        var bleu := ScoreAgainst(metric, nbest, i, j);
        cumul := cumul + metric.times(1.0 - bleu, metric.quotient(nbest.joint[j], nbest.marginal));
        if cumul > minLoss {
          RiskGrows(metric.times, gain, share, i, j + 1, n);
          return;
        }
      }
    }
  }

  /** best is the first candidate of least risk. */
  ghost predicate FirstMinimum(times: (real, real) -> real, gain: (nat, nat) -> real, share: seq<real>, best: nat) {
    && best < |share|
    && (forall i :: 0 <= i < |share| ==>
          Risk(times, gain, share, best, |share|) <= Risk(times, gain, share, i, |share|))
    && (forall i :: 0 <= i < best ==>
          Risk(times, gain, share, best, |share|) < Risk(times, gain, share, i, |share|))
  }

  /** The main loop of doMBR: despite the early exits the index is the first minimiser of the full risk. */
  method MinimiseRisk(metric: Metric, nbest: NBest) returns (best: nat)
    requires Sound(metric) && Fractions(metric) && Valid(metric.order, nbest) && nbest.sentences != []
    ensures var share := Shares(metric.quotient, nbest.joint, nbest.marginal);
            FirstMinimum(metric.times, Gain(metric, nbest.sentences), share, best)
  {
    hide Gain, Table, Mass, Risk, Shares, Fractions, Additive, Reduces, Total, Quotient;
    var n := |nbest.sentences|;
    ghost var gain, share := Gain(metric, nbest.sentences), Shares(metric.quotient, nbest.joint, nbest.marginal);
    SharesAreMass(metric, nbest);
    var minLoss := HUGE_LOSS;
    var minIdx := -1;
    for i := 0 to n
      invariant -1 <= minIdx < i && (minIdx < 0 ==> i == 0 && minLoss == HUGE_LOSS)
      invariant minIdx >= 0 ==> minLoss == Risk(metric.times, gain, share, minIdx, n)
      invariant minIdx >= 0 ==> forall k :: 0 <= k < i ==> minLoss <= Risk(metric.times, gain, share, k, n)
      invariant minIdx >= 0 ==> forall k :: 0 <= k < minIdx ==> minLoss < Risk(metric.times, gain, share, k, n)
    {
      var cumul := RunningLoss(metric, nbest, i, minLoss, share);
      if cumul < minLoss {
        minLoss, minIdx := cumul, i;
      }
    }
    best := minIdx;
  }

  lemma SharesAreMass(metric: Metric, nbest: NBest)
    requires Sound(metric) && Fractions(metric) && Valid(metric.order, nbest) && nbest.sentences != []
    ensures Mass(metric.times, Gain(metric, nbest.sentences), Shares(metric.quotient, nbest.joint, nbest.marginal))
  {
    hide Additive, Reduces, Quotient, Shares, Mass, Gain, Table, Distribution;
    SharesSumToOne(metric.quotient, nbest.joint);
    GainIsMass(metric, nbest.sentences, Shares(metric.quotient, nbest.joint, nbest.marginal));
  }

  // ---------------------------------------------------------------- from scores and sentences to the choice

  const LOWEST_SCORE: real := -100000000000000000000.0

  /** The first loop of doMBR. */
  method MaxScore(scores: seq<real>) returns (maxScore: real)
    ensures LOWEST_SCORE <= maxScore && forall i :: 0 <= i < |scores| ==> scores[i] <= maxScore
    ensures maxScore == LOWEST_SCORE || maxScore in scores
  {
    maxScore := LOWEST_SCORE;
    for i := 0 to |scores|
      invariant LOWEST_SCORE <= maxScore && forall k :: 0 <= k < i ==> scores[k] <= maxScore
      invariant maxScore == LOWEST_SCORE || maxScore in scores
    {
      if maxScore < scores[i] {
        maxScore := scores[i];
      }
    }
  }

  /** The second loop of doMBR: joint probabilities relative to the best score, their total, and the
      n-gram table of every sentence. */
  method Prepare(metric: Metric, sentences: seq<Sentence>, scores: seq<real>, maxScore: real) returns (nbest: NBest)
    requires Exponential(metric.exp) && |scores| == |sentences|
    ensures Valid(metric.order, nbest) && nbest.sentences == sentences
    ensures nbest.joint == Joint(metric.exp, scores, maxScore)
  {
    hide Table;
    var tables := Tables(metric.order, sentences);
    var joint, marginal := [], 0.0;
    for i := 0 to |sentences|
      invariant |joint| == i && marginal == Total(joint, |joint|)
      invariant forall k :: 0 <= k < i ==> joint[k] == metric.exp(scores[k] - maxScore) > 0.0
    {
      var jointProb := metric.exp(scores[i] - maxScore);
      TotalPrefix(joint, joint + [jointProb], |joint|);
      marginal := marginal + jointProb;
      joint := joint + [jointProb];
    }
    nbest := NBest(sentences, tables, joint, marginal);
  }

  method Tables(order: nat, sentences: seq<Sentence>) returns (tables: seq<Counts>)
    ensures |tables| == |sentences|
    ensures forall i :: 0 <= i < |tables| ==> tables[i] == Table(order, sentences[i])
  {
    hide Table, CountsOf;
    tables := [];
    for i := 0 to |sentences|
      invariant |tables| == i
      invariant forall k :: 0 <= k < i ==> tables[k] == Table(order, sentences[k])
    {
      var counts := ExtractNgrams(order, sentences[i]);
      TableIsCounts(order, sentences[i], counts);
      tables := tables + [counts];
    }
  }

  /** doMBR: the first of the candidates that have the least expected loss when the candidates have the probabilities
      that their scores give them. */
  method DoMbr(metric: Metric, sentences: seq<Sentence>, scores: seq<real>) returns (translation: Sentence)
    requires Sound(metric) && Fractions(metric) && |scores| == |sentences| && sentences != []
    ensures Distribution(Probabilities(metric, scores))
    ensures exists best :: 0 <= best < |sentences| && translation == sentences[best]
              && FirstMinimum(metric.times, Gain(metric, sentences), Probabilities(metric, scores), best)
  {
    hide Increasing, Exponential, Product, Quotient, Fractions, Table, Gain, Risk, Shares, Probabilities, Distribution, Total, Joint;
    var maxScore := MaxScore(scores);
    var nbest := Prepare(metric, sentences, scores, maxScore);
    var index := MinimiseRisk(metric, nbest);
    ProbabilitiesOf(metric, scores, maxScore, nbest);
    translation := sentences[index];
  }

  lemma ProbabilitiesOf(metric: Metric, scores: seq<real>, maxScore: real, nbest: NBest)
    requires Sound(metric) && Fractions(metric) && |scores| == |nbest.sentences| && scores != []
    requires Valid(metric.order, nbest) && nbest.joint == Joint(metric.exp, scores, maxScore)
    ensures |Probabilities(metric, scores)| == |scores| && Distribution(Probabilities(metric, scores))
    ensures Shares(metric.quotient, nbest.joint, nbest.marginal) == Probabilities(metric, scores)
  {
    hide Additive, Reduces, Quotient, Shares, Table;
    ShiftIsHarmless(metric, scores, maxScore);
    SharesSumToOne(metric.quotient, nbest.joint);
  }
}
