/** Significance filtering of a phrase table (sigtest-filter/filter-pt.cpp): co-occurrence counts and
    the one-sided Fisher exact test.  lgamma and exp are replaced by exact factorials and reals. */
module Fisher {

  function Fact(n: nat): (f: nat)
    ensures f > 0
  {
    if n == 0 then 1 else n * Fact(n - 1)
  }

  /** Binomial coefficients by Pascal's rule; zero outside 0 <= k <= n. */
  function Choose(n: nat, k: int): nat {
    if n == 0 then (if k == 0 then 1 else 0)
    else Choose(n - 1, k - 1) + Choose(n - 1, k)
  }

  /** Number of ways to place the e-phrase in ce of n lines so that exactly t of them are among the
      cf lines that hold the f-phrase. */
  function Tables(n: nat, cf: nat, ce: int, t: int): nat
    requires cf <= n
  {
    Choose(cf, t) * Choose(n - cf, ce - t)
  }

  /** Placements with at least lo shared lines. */
  function TailCount(n: nat, cf: nat, ce: int, lo: int): nat
    requires cf <= n
    decreases ce - lo
  {
    if lo > ce then 0 else Tables(n, cf, ce, lo) + TailCount(n, cf, ce, lo + 1)
  }

  /** The upper tail of the hypergeometric distribution. */
  ghost function UpperTail(n: nat, cf: nat, ce: nat, lo: int): real
    requires cf <= n && ce <= n
  {
    ChooseFacts(n, ce);
    TailCount(n, cf, ce, lo) as real / Choose(n, ce) as real
  }

  // ---------------------------------------------------------------- binomial coefficients

  lemma {:induction false} ChooseFacts(n: nat, k: int)
    ensures k < 0 || k > n ==> Choose(n, k) == 0
    ensures 0 <= k <= n ==> Choose(n, k) > 0
  {
    if n > 0 {
      ChooseFacts(n - 1, k - 1);
      ChooseFacts(n - 1, k);
    }
  }

  /** Neighbouring coefficients: (k+1) C(n,k+1) = (n-k) C(n,k). */
  lemma {:induction false} ChooseStep(n: nat, k: int)
    ensures (k + 1) * Choose(n, k + 1) == (n - k) * Choose(n, k)
  {
    if n > 0 {
      ChooseStep(n - 1, k);
      ChooseStep(n - 1, k - 1);
      StepAlgebra(n, k, Choose(n - 1, k + 1), Choose(n - 1, k), Choose(n - 1, k - 1));
    }
  }

  lemma StepAlgebra(n: int, k: int, x: int, y: int, z: int)
    requires (k + 1) * x == (n - 1 - k) * y && k * y == (n - k) * z
    ensures (k + 1) * (y + x) == (n - k) * (z + y)
  {
    assert (k + 1) * (y + x) == (k + 1) * y + (k + 1) * x;
    assert (n - k) * (z + y) == (n - k) * z + (n - k) * y;
    assert (n - 1 - k) * y == n * y - y - k * y;
  }

  lemma {:induction false} ChooseFact(n: nat, k: nat)
    requires k <= n
    ensures Choose(n, k) * Fact(k) * Fact(n - k) == Fact(n)
  {
    if k == 0 {
      ChooseZero(n);
    } else {
      // k C(n,k) = (n-k+1) C(n,k-1)
      ChooseFact(n, k - 1);
      ChooseStep(n, k - 1);
      FactAlgebra(Choose(n, k), Choose(n, k - 1), k, n - k + 1, Fact(k - 1), Fact(n - k));
    }
  }

  lemma FactAlgebra(c: int, p: int, k: int, l: int, f: int, g: int)
    requires k * c == l * p
    ensures c * (k * f) * g == p * f * (l * g)
  {
    assert c * (k * f) * g == (k * c) * (f * g);
    assert p * f * (l * g) == (l * p) * (f * g);
  }

  lemma {:induction false} ChooseZero(n: nat)
    ensures Choose(n, 0) == 1
  {
    ChooseFacts(n, -1);
    if n > 0 {
      ChooseZero(n - 1);
      ChooseFacts(n - 1, -1);
    }
  }

  // ---------------------------------------------------------------- the distribution sums to one

  lemma {:induction false} TailPascal(m: nat, cf: nat, ce: int, lo: int)
    ensures TailCount(m + cf + 1, cf + 1, ce, lo)
         == TailCount(m + cf, cf, ce, lo) + TailCount(m + cf, cf, ce - 1, lo - 1)
    decreases ce - lo
  {
    if lo <= ce {
      TailPascal(m, cf, ce, lo + 1);
      SplitProduct(Choose(cf, lo), Choose(cf, lo - 1), Choose(m, ce - lo));
      assert Tables(m + cf + 1, cf + 1, ce, lo) == (Choose(cf, lo - 1) + Choose(cf, lo)) * Choose(m, ce - lo);
    }
  }

  lemma SplitProduct(x: int, y: int, z: int)
    ensures (y + x) * z == x * z + y * z
  {
  }

  lemma {:induction false} TailNoFLines(m: nat, ce: int, lo: int)
    ensures TailCount(m, 0, ce, lo) == if lo <= 0 <= ce then Choose(m, ce) else 0
    decreases ce - lo
  {
    if lo <= ce {
      TailNoFLines(m, ce, lo + 1);
    }
  }

  /** Vandermonde's identity, with any starting point at or below zero. */
  lemma {:induction false} Vandermonde(m: nat, cf: nat, ce: int, lo: int)
    requires lo <= 0
    ensures TailCount(m + cf, cf, ce, lo) == Choose(m + cf, ce)
    decreases cf
  {
    if cf == 0 {
      TailNoFLines(m, ce, lo);
      ChooseFacts(m, ce);
    } else {
      TailPascal(m, cf - 1, ce, lo);
      Vandermonde(m, cf - 1, ce, lo);
      Vandermonde(m, cf - 1, ce - 1, lo - 1);
    }
  }

  lemma {:induction false} TailAntitone(n: nat, cf: nat, ce: int, lo: int, hi: int)
    requires cf <= n && lo <= hi
    ensures TailCount(n, cf, ce, hi) <= TailCount(n, cf, ce, lo)
    decreases hi - lo
  {
    if lo < hi {
      TailAntitone(n, cf, ce, lo + 1, hi);
      if lo > ce { assert TailCount(n, cf, ce, hi) == 0; }
    }
  }

  /** The tail is a probability, and it is 1 when nothing is demanded. */
  lemma TailIsProbability(n: nat, cf: nat, ce: nat, lo: nat)
    requires cf <= n && ce <= n
    ensures 0.0 <= UpperTail(n, cf, ce, lo) <= 1.0
    ensures UpperTail(n, cf, ce, 0) == 1.0
  {
    ChooseFacts(n, ce);
    Vandermonde(n - cf, cf, ce, 0);
    TailAntitone(n, cf, ce, 0, lo);
    QuotientBounds(TailCount(n, cf, ce, lo) as real, Choose(n, ce) as real);
    QuotientOne(Choose(n, ce) as real);
  }

  lemma QuotientOne(c: real)
    requires 0.0 < c
    ensures c / c == 1.0
  {
  }

  lemma QuotientBounds(t: real, c: real)
    requires 0.0 <= t <= c && 0.0 < c
    ensures 0.0 <= t / c <= 1.0
  {
  }

  // ---------------------------------------------------------------- symmetry in the two marginals

  /** C(n,cf) * C(cf,t) * C(n-cf,ce-t) is the multinomial n!/(t! b! c! d!). */
  lemma TablesMultinomial(n: nat, cf: nat, ce: nat, t: nat)
    requires cf <= n && t <= cf && t <= ce && ce + cf - t <= n
    ensures Choose(n, cf) * Tables(n, cf, ce, t)
          * (Fact(t) * Fact(cf - t) * Fact(ce - t) * Fact(n - ce - cf + t)) == Fact(n)
  {
    ChooseFact(n, cf);
    ChooseFact(cf, t);
    ChooseFact(n - cf, ce - t);
    Regroup(Choose(n, cf), Choose(cf, t), Choose(n - cf, ce - t),
            Fact(t), Fact(cf - t), Fact(ce - t), Fact(n - ce - cf + t));
  }

  lemma Regroup(x: int, y: int, z: int, a: int, b: int, c: int, d: int)
    ensures x * (y * z) * (a * b * c * d) == x * (y * a * b) * (z * c * d)
  {
    calc {
      x * (y * z) * (a * b * c * d);
      x * ((y * z) * ((a * b) * (c * d)));
      { assert (y * z) * ((a * b) * (c * d)) == (y * (a * b)) * (z * (c * d)); }
      x * ((y * (a * b)) * (z * (c * d)));
      x * (y * a * b) * (z * c * d);
    }
  }

  /** Exchanging the marginals scales a table count by the ratio of the totals. */
  lemma TablesSymmetric(n: nat, cf: nat, ce: nat, t: nat)
    requires cf <= n && ce <= n
    ensures Choose(n, cf) * Tables(n, cf, ce, t) == Choose(n, ce) * Tables(n, ce, cf, t)
  {
    ChooseFacts(cf, t);
    ChooseFacts(ce, t);
    ChooseFacts(n - cf, ce - t);
    ChooseFacts(n - ce, cf - t);
    if t <= cf && t <= ce && ce + cf - t <= n {
      TablesMultinomial(n, cf, ce, t);
      TablesMultinomial(n, ce, cf, t);
      var k := Fact(t) * Fact(cf - t) * Fact(ce - t) * Fact(n - ce - cf + t);
      var l := Fact(t) * Fact(ce - t) * Fact(cf - t) * Fact(n - cf - ce + t);
      SwapMiddle(Fact(t), Fact(cf - t), Fact(ce - t), Fact(n - ce - cf + t));
      assert k == l;
      Cancel(Choose(n, cf) * Tables(n, cf, ce, t), Choose(n, ce) * Tables(n, ce, cf, t), k);
    } else {
      assert Tables(n, cf, ce, t) == 0 && Tables(n, ce, cf, t) == 0;
    }
  }

  lemma SwapMiddle(a: nat, b: nat, c: nat, d: nat)
    requires a > 0 && b > 0 && c > 0 && d > 0
    ensures a * b * c * d == a * c * b * d > 0
  {
    assert a * b * c == a * c * b;
    assert a * b > 0;
    assert a * b * c > 0;
  }

  lemma Cancel(x: int, y: int, k: int)
    requires k > 0 && x * k == y * k
    ensures x == y
  {
    assert (x - y) * k == 0;
  }

  lemma {:induction false} TailSymmetricCounts(n: nat, cf: nat, ce: nat, lo: nat, len: nat)
    requires cf <= n && ce <= n && lo + len == (if cf >= ce then cf else ce) + 1
    ensures Choose(n, cf) * TailCount(n, cf, ce, lo) == Choose(n, ce) * TailCount(n, ce, cf, lo)
    decreases len
  {
    if len > 0 {
      TailSymmetricCounts(n, cf, ce, lo + 1, len - 1);
      TablesSymmetric(n, cf, ce, lo);
      ChooseFacts(cf, lo);
      ChooseFacts(ce, lo);
      TailUnfold(n, cf, ce, lo);
      TailUnfold(n, ce, cf, lo);
      SpreadEqual(Choose(n, cf), Tables(n, cf, ce, lo), TailCount(n, cf, ce, lo + 1),
                  Choose(n, ce), Tables(n, ce, cf, lo), TailCount(n, ce, cf, lo + 1));
    }
  }

  lemma SpreadEqual(x: int, t: int, u: int, y: int, v: int, w: int)
    requires x * t == y * v && x * u == y * w
    ensures x * (t + u) == y * (v + w)
  {
  }

  lemma TailUnfold(n: nat, cf: nat, ce: nat, lo: int)
    requires cf <= n
    ensures TailCount(n, cf, ce, lo) == Tables(n, cf, ce, lo) + TailCount(n, cf, ce, lo + 1)
  {
    ChooseFacts(n - cf, ce - lo);
  }

  /** The test does not depend on which phrase is called f and which e. */
  lemma UpperTailSymmetric(n: nat, cf: nat, ce: nat, lo: nat)
    requires cf <= n && ce <= n && lo <= cf && lo <= ce
    ensures UpperTail(n, cf, ce, lo) == UpperTail(n, ce, cf, lo)
  {
    TailSymmetricCounts(n, cf, ce, lo, (if cf >= ce then cf else ce) + 1 - lo);
    ChooseFacts(n, cf);
    ChooseFacts(n, ce);
    EqualQuotients(Choose(n, cf), TailCount(n, cf, ce, lo), Choose(n, ce), TailCount(n, ce, cf, lo));
  }

  lemma EqualQuotients(x: nat, s: nat, y: nat, t: nat)
    requires x > 0 && y > 0 && x * s == y * t
    ensures s as real / y as real == t as real / x as real
  {
    var xr, sr, yr, tr := x as real, s as real, y as real, t as real;
    assert xr * sr == (x * s) as real;
    assert yr * tr == (y * t) as real;
    assert sr / yr == (xr * sr) / (xr * yr);
    assert tr / xr == (yr * tr) / (xr * yr);
  }

  // ---------------------------------------------------------------- the recurrence of fisher_exact

  lemma ChooseFactSum(k: nat, l: nat)
    ensures Choose(k + l, k) * Fact(k) * Fact(l) == Fact(k + l)
  {
    ChooseFact(k + l, k);
    assert k + l - k == l;
  }

  /** The weight of the 2x2 table with cells a, b, c, d. */
  function Cells(a: nat, b: nat, c: nat, d: nat): nat {
    Tables(a + b + c + d, a + b, a + c, a)
  }

  lemma CellsProduct(a: nat, b: nat, c: nat, d: nat)
    ensures Cells(a, b, c, d) == Choose(a + b, a) * Choose(c + d, c)
  {
    assert a + b + c + d - (a + b) == c + d && a + c - a == c;
  }

  lemma StartingRegroup(x: nat, y: nat, k: nat, f: nat, p: nat, q: nat, a: nat, b: nat, c: nat, d: nat)
    requires k * x * y == f && f > 0 && a > 0 && b > 0 && c > 0 && d > 0
    ensures f * a * b * c * d > 0
    ensures (x * y * (p * a * b) * (q * c * d)) * k == (p * q) * (f * a * b * c * d)
  {
    assert f * a > 0 && f * a * b > 0 && f * a * b * c > 0;
    calc {
      (x * y * (p * a * b) * (q * c * d)) * k;
      (k * x * y) * ((p * a * b) * (q * c * d));
      f * ((p * a * b) * (q * c * d));
      { assert (p * (a * b)) * (q * (c * d)) == (p * q) * ((a * b) * (c * d)); }
      f * ((p * q) * ((a * b) * (c * d)));
      (p * q) * (f * ((a * b) * (c * d)));
      (p * q) * (f * a * b * c * d);
    }
  }

  /** Moving one line from both b and c to a and d: the weights are in the ratio bc : (a+1)(d+1). */
  lemma CellsStep(a: nat, b: nat, c: nat, d: nat)
    requires b > 0 && c > 0
    ensures Cells(a + 1, b - 1, c - 1, d + 1) * ((a + 1) * (d + 1)) == Cells(a, b, c, d) * (b * c)
  {
    CellsProduct(a, b, c, d);
    CellsProduct(a + 1, b - 1, c - 1, d + 1);
    ChooseStep(a + b, a);
    ChooseStep(c + d, c - 1);
    ProductAlgebra(Choose(a + b, a), Choose(a + b, a + 1), Choose(c + d, c), Choose(c + d, c - 1), a + 1, b, c, d + 1);
  }

  lemma ProductAlgebra(p: int, q: int, r: int, s: int, a: int, b: int, c: int, d: int)
    requires a * q == b * p && c * r == d * s
    ensures (q * s) * (a * d) == (p * r) * (b * c)
  {
    assert (q * s) * (a * d) == (a * q) * (d * s);
    assert (p * r) * (b * c) == (b * p) * (c * r);
  }

  lemma {:induction false} TailPastF(n: nat, cf: nat, ce: int, lo: int)
    requires cf <= n && cf < lo
    ensures TailCount(n, cf, ce, lo) == 0
    decreases ce - lo
  {
    if lo <= ce {
      ChooseFacts(cf, lo);
      TailPastF(n, cf, ce, lo + 1);
    }
  }

  /** n times r, by repeated addition: n placements of probability r each. */
  ghost function Times(n: nat, r: real): real {
    if n == 0 then 0.0 else r + Times(n - 1, r)
  }

  lemma {:induction false} TimesIsProduct(n: nat, r: real)
    ensures Times(n, r) == r * n as real
  {
    if n > 0 { TimesIsProduct(n - 1, r); }
  }

  lemma {:induction false} TimesAdds(n: nat, r: real, s: real)
    ensures Times(n, r + s) == Times(n, r) + Times(n, s)
  {
    if n > 0 { TimesAdds(n - 1, r, s); }
  }

  lemma TimesQuotient(n: nat, p: real, t: nat)
    requires n > 0 && Times(n, p) == t as real
    ensures p == t as real / n as real
  {
    TimesIsProduct(n, p);
  }

  /** The value the source computes with lgamma and exp: the probability of the table a, b, c, d. */
  method StartingProbability(a: nat, b: nat, c: nat, d: nat) returns (cp: real)
    ensures Times(Choose(a + b + c + d, a + c), cp) == Cells(a, b, c, d) as real
  {
    ChooseFactSum(a + c, b + d);
    assert a + c + (b + d) == a + b + c + d;
    ChooseFactSum(a, b);
    ChooseFactSum(c, d);
    CellsProduct(a, b, c, d);
    cp := FactorialRatio(Fact(a + c), Fact(b + d), Fact(a + b), Fact(c + d), Fact(a + b + c + d),
                         Fact(a), Fact(b), Fact(c), Fact(d),
                         Choose(a + b + c + d, a + c), Choose(a + b, a), Choose(c + d, c));
  }

  /** The quotient of factorials, given the factorials themselves. */
  method FactorialRatio(ac: nat, bd: nat, ab: nat, cd: nat, n: nat, a: nat, b: nat, c: nat, d: nat,
                        ghost k: nat, ghost p: nat, ghost q: nat) returns (cp: real)
    requires k * ac * bd == n && p * a * b == ab && q * c * d == cd
    requires n > 0 && a > 0 && b > 0 && c > 0 && d > 0
    ensures Times(k, cp) == (p * q) as real
  {
    StartingRegroup(ac, bd, k, n, p, q, a, b, c, d);
    cp := DivideRatio(ac * bd * ab * cd, n * a * b * c * d, k, p * q);
  }

  method DivideRatio(num: nat, den: nat, ghost k: nat, ghost h: nat) returns (cp: real)
    requires den > 0 && num * k == h * den
    ensures Times(k, cp) == h as real
  {
    cp := num as real / den as real;
    CrossDivide(cp, num, den, k, h);
    TimesIsProduct(k, cp);
  }

  lemma CrossDivide(q: real, num: int, den: int, k: int, h: int)
    requires den > 0 && q == num as real / den as real && num * k == h * den
    ensures q * k as real == h as real
  {
    var dr, kr, hr := den as real, k as real, h as real;
    assert q * dr == num as real;
    assert num as real * kr == (num * k) as real;
    assert hr * dr == (h * den) as real;
    assert (q * kr - hr) * dr == 0.0;
  }

  /** The update at the end of a turn: the coefficient carries one table's probability to the next. */
  method NextProbability(cp: real, a: nat, b: nat, c: nat, d: nat, ghost w: nat) returns (cp': real)
    requires Times(w, cp) == Cells(a, b, c, d) as real
    ensures b > 0 && c > 0 ==> Times(w, cp') == Cells(a + 1, b - 1, c - 1, d + 1) as real
  {
    var coef := b as real * c as real / (a + 1) as real / (d + 1) as real;
    cp' := cp * coef;
    if b > 0 && c > 0 {
      CellsStep(a, b, c, d);
      NextWeight(cp, coef, w, a + 1, b, c, d + 1, Cells(a, b, c, d), Cells(a + 1, b - 1, c - 1, d + 1));
    }
  }

  lemma NextWeight(cp: real, coef: real, w: nat, a: int, b: int, c: int, d: int, h: nat, next: nat)
    requires a > 0 && d > 0 && coef == b as real * c as real / a as real / d as real
    requires next * (a * d) == h * (b * c) && Times(w, cp) == h as real
    ensures Times(w, cp * coef) == next as real
  {
    TwoDivisions(coef, a, b, c, d, h, next);
    TimesIsProduct(w, cp);
    TimesIsProduct(w, cp * coef);
    Exchange(cp, coef, w as real, h as real, next as real);
  }

  lemma Exchange(cp: real, coef: real, w: real, h: real, next: real)
    requires cp * w == h && coef * h == next
    ensures (cp * coef) * w == next
  {
  }

  lemma TwoDivisions(coef: real, a: int, b: int, c: int, d: int, h: int, next: int)
    requires a > 0 && d > 0 && coef == b as real * c as real / a as real / d as real
    requires next * (a * d) == h * (b * c)
    ensures coef * h as real == next as real
  {
    var ar, br, cr, dr, hr, nr := a as real, b as real, c as real, d as real, h as real, next as real;
    assert coef * dr == br * cr / ar;
    assert coef * dr * ar == br * cr;
    assert br * cr == (b * c) as real && ar * dr == (a * d) as real;
    assert nr * (ar * dr) == (next * (a * d)) as real;
    assert hr * (br * cr) == (h * (b * c)) as real;
    assert (coef * hr) * (ar * dr) == hr * (coef * dr * ar);
    assert (coef * hr - nr) * (ar * dr) == 0.0;
  }

  /** fisher_exact: the loop adds one table per turn and updates the probability by one quotient. */
  method FisherExact(numLines: nat, cfe: nat, ce: nat, cf: nat) returns (totalP: real)
    requires cfe <= ce && cfe <= cf && ce + cf - cfe <= numLines
    ensures totalP == UpperTail(numLines, cf, ce, cfe)
  {
    var a, b, c, d := cfe, cf - cfe, ce - cfe, numLines - ce - cf + cfe;
    ghost var w := Choose(numLines, ce);
    var cp := StartingProbability(a, b, c, d);
    assert a + b == cf && a + c == ce && a + b + c + d == numLines;
    totalP := 0.0;
    TimesIsProduct(w, totalP);
    var tc := if b < c then b else c;
    for i := 0 to tc + 1
      invariant a == cfe + i && a + b == cf && a + c == ce && a + b + c + d == numLines
      invariant i <= tc ==> Times(w, cp) == Cells(a, b, c, d) as real
      invariant Times(w, totalP) == (TailCount(numLines, cf, ce, cfe) - TailCount(numLines, cf, ce, a)) as real
    {
      TimesAdds(w, totalP, cp);
      totalP := totalP + cp;
      cp := NextProbability(cp, a, b, c, d, w);
      a, c, d, b := a + 1, c - 1, d + 1, b - 1;
    }
    if a > cf { TailPastF(numLines, cf, ce, a); }
    ChooseFacts(numLines, ce);
    TimesQuotient(w, totalP, TailCount(numLines, cf, ce, cfe));
  }

  // ---------------------------------------------------------------- counting co-occurrences

  /** The filter walks the smaller sentence set and probes the larger one. */
  method CountShared(fset: set<nat>, eset: set<nat>) returns (cef: nat)
    ensures cef == |fset * eset|
  {
    cef := 0;
    var todo, other := if |eset| < |fset| then eset else fset, if |eset| < |fset| then fset else eset;
    ghost var small := todo;
    while todo != {}
      invariant todo <= small
      invariant cef == |(small - todo) * other|
      decreases todo
    {
      var s :| s in todo;
      SharedStep(small, todo, other, s);
      if s in other {
        cef := cef + 1;
      }
      todo := todo - {s};
    }
    assert (small - todo) * other == small * other;
    assert small * other == fset * eset;
  }

  lemma SharedStep(small: set<nat>, todo: set<nat>, other: set<nat>, s: nat)
    requires s in todo && todo <= small
    ensures |(small - (todo - {s})) * other| == |(small - todo) * other| + if s in other then 1 else 0
  {
    if s in other {
      assert (small - (todo - {s})) * other == (small - todo) * other + {s};
    } else {
      assert (small - (todo - {s})) * other == (small - todo) * other;
    }
  }

  lemma {:induction false} LinesBound(n: nat, s: set<nat>)
    requires forall x :: x in s ==> x < n
    ensures |s| <= n
  {
    if n > 0 {
      LinesBound(n - 1, s - {n - 1});
    } else {
      assert s == {};
    }
  }

  /** The statistics of one phrase pair.  The source hands cf and ce to fisher_exact in the opposite
      order from its parameter list; by symmetry the result is the intended tail all the same. */
  method CoocSignificance(numLines: nat, fset: set<nat>, eset: set<nat>) returns (cef: nat, p: real)
    requires forall x :: x in fset + eset ==> x < numLines
    ensures cef == |fset * eset|
    ensures |fset| <= numLines && |eset| <= numLines
    ensures p == UpperTail(numLines, |fset|, |eset|, cef) && 0.0 <= p <= 1.0
  {
    LinesBound(numLines, fset + eset);
    assert |fset + eset| == |fset| + |eset| - |fset * eset|;
    LinesBound(numLines, fset);
    LinesBound(numLines, eset);
    cef := CountShared(fset, eset);
    assert fset * eset <= fset && fset * eset <= eset;
    SubsetSize(fset * eset, fset);
    SubsetSize(fset * eset, eset);
    p := FisherExact(numLines, cef, |fset|, |eset|);
    UpperTailSymmetric(numLines, |fset|, |eset|, cef);
    TailIsProbability(numLines, |fset|, |eset|, cef);
  }

  lemma SubsetSize(s: set<nat>, t: set<nat>)
    requires s <= t
    ensures |s| <= |t|
  {
    assert t == s + (t - s);
  }
}
