/** Back-off n-gram probabilities and the context they depend on, independent of any implementation.
    This is the reference for moses/src/LanguageModelInternal.cpp. */
module BackOff {
  type Word = string

  /** The entry of an n-gram. */
  datatype Entry = Entry(score: real, backOff: real)

  type Table = map<seq<Word>, Entry>

  const LOWEST_SCORE: real := -100.0

  datatype Option = None | Some(value: real)

  ghost predicate PrefixIn(t: Table, g: seq<Word>)
    requires |g| > 1
  {
    g[..|g| - 1] in t
  }

  ghost predicate SuffixIn(t: Table, g: seq<Word>)
    requires |g| > 1
  {
    g[1..] in t
  }

  /** Every prefix and every suffix of an n-gram is an n-gram. */
  ghost predicate Closed(t: Table) {
    && [] !in t
    && (forall g {:trigger PrefixIn(t, g)} :: g in t && |g| > 1 ==> PrefixIn(t, g))
    && (forall g {:trigger SuffixIn(t, g)} :: g in t && |g| > 1 ==> SuffixIn(t, g))
  }

  /** The back-off weight of a context; an unknown one weighs nothing. */
  function Weight(t: Table, context: seq<Word>): real {
    if context in t then t[context].backOff else 0.0
  }

  /** Back-off probability of the last word: none if it is unknown. */
  function Prob(t: Table, w: seq<Word>): Option
    requires w != []
  {
    if w in t then Some(t[w].score)
    else if |w| == 1 then None
    else
      var shorter := Prob(t, w[1..]);
      if shorter.None? then None else Some(shorter.value + Weight(t, w[..|w| - 1]))
  }

  /** FloorScore; the source's minus infinity is None. */
  function Floor(p: Option): real {
    if p.None? || p.value < LOWEST_SCORE then LOWEST_SCORE else p.value
  }

  function Value(t: Table, w: seq<Word>): real {
    if w == [] then LOWEST_SCORE else Floor(Prob(t, w))
  }

  /** The longest suffix that is an n-gram. */
  function Longest(t: Table, w: seq<Word>): (s: seq<Word>)
    ensures |s| <= |w| && (s != [] ==> s in t)
  {
    if w == [] || w in t then w else Longest(t, w[1..])
  }

  lemma {:induction false} LongestIsSuffix(t: Table, w: seq<Word>)
    ensures w[|w| - |Longest(t, w)|..] == Longest(t, w)
    ensures forall i :: 0 <= i < |w| - |Longest(t, w)| ==> w[i..] !in t
  {
    if w != [] && w !in t {
      LongestIsSuffix(t, w[1..]);
      forall i | 0 <= i < |w| - |Longest(t, w)| ensures w[i..] !in t {
        assert if i > 0 then w[i..] == w[1..][i - 1..] else w[i..] == w;
      }
    }
  }

  /** The back-off fields of the known contexts of the last word among the first n, which begin at the words 0 to
      n - 1 of the window. */
  function PassedOver(t: Table, w: seq<Word>, n: nat): real
    requires n < |w|
  {
    if n == 0 then 0.0
    else
      var context := w[n - 1..|w| - 1];
      PassedOver(t, w, n - 1) + (if context in t then t[context].backOff else 0.0)
  }

  lemma {:induction false} PassedOverRest(t: Table, w: seq<Word>, n: nat)
    requires 0 < n < |w|
    ensures PassedOver(t, w, n) == (if w[..|w| - 1] in t then t[w[..|w| - 1]].backOff else 0.0) + PassedOver(t, w[1..], n - 1)
  {
    if n == 1 {
      assert w[0..|w| - 1] == w[..|w| - 1];
    } else {
      PassedOverRest(t, w, n - 1);
      assert w[1..][n - 2..|w| - 2] == w[n - 1..|w| - 1];
    }
  }

  /** What back-off means for the entries: the score of the longest known suffix of the window, plus the back-off
      fields of all known contexts that were passed over on the way to it; nothing if the last word is unknown. */
  lemma {:induction false} ProbByEntries(t: Table, w: seq<Word>)
    requires w != []
    ensures var s := Longest(t, w);
            Prob(t, w) == if s == [] then None else Some(t[s].score + PassedOver(t, w, |w| - |s|))
  {
    if w !in t && |w| > 1 {
      ProbByEntries(t, w[1..]);
      var s := Longest(t, w[1..]);
      if s != [] { PassedOverRest(t, w, |w| - |s|); }
    }
  }

  /** FloorScore in terms of order. */
  lemma ValueByEntries(t: Table, w: seq<Word>)
    requires w != []
    ensures IsValue(t, w, Value(t, w))
  {
    ProbByEntries(t, w);
  }

  /** The value is the sum over the entries, but not less than -100, which it is if the last word is unknown. */
  ghost predicate IsValue(t: Table, w: seq<Word>, value: real)
    requires w != []
  {
    var s := Longest(t, w);
    if s == [] then value == -100.0
    else
      var raw := t[s].score + PassedOver(t, w, |w| - |s|);
      value >= -100.0 && value >= raw && (value == -100.0 || value == raw)
  }

  /** A bigram that is not known, with a last word that is. */
  lemma UnknownBigram(t: Table, a: Word, b: Word)
    requires [a, b] !in t && [b] in t
    ensures Prob(t, [a, b]) == Some(if [a] in t then t[[b]].score + t[[a]].backOff else t[[b]].score)
  {
    assert [a, b][1..] == [b] && [a, b][..1] == [a];
  }

  /** A trigram that is not known, by what is known of its last two words and of its context. */
  lemma UnknownTrigram(t: Table, a: Word, b: Word, c: Word)
    requires [a, b, c] !in t && [c] in t
    ensures var context := if [a, b] in t then t[[a, b]].backOff else 0.0;
            Prob(t, [a, b, c]) == Some(
              if [b, c] in t then t[[b, c]].score + context
              else t[[c]].score + (if [b] in t then t[[b]].backOff else 0.0) + context)
  {
    assert [a, b, c][1..] == [b, c] && [a, b, c][..2] == [a, b];
    if [b, c] !in t { UnknownBigram(t, b, c); }
  }

  /** Context that is not an n-gram does not count: the probability depends on the longest one only. */
  lemma {:induction false} ProbByContext(t: Table, u: seq<Word>, x: Word)
    requires Closed(t)
    ensures Prob(t, u + [x]) == Prob(t, Longest(t, u) + [x])
  {
    if u != [] && u !in t {
      assert (u + [x])[..|u + [x]| - 1] == u && (u + [x])[1..] == u[1..] + [x];
      assert u + [x] in t ==> PrefixIn(t, u + [x]);
      ProbByContext(t, u[1..], x);
    }
  }

  /** So does the next longest context. */
  lemma {:induction false} LongestByContext(t: Table, u: seq<Word>, x: Word)
    requires Closed(t)
    ensures Longest(t, u + [x]) == Longest(t, Longest(t, u) + [x])
  {
    if u != [] && u !in t {
      assert (u + [x])[..|u + [x]| - 1] == u && (u + [x])[1..] == u[1..] + [x];
      assert u + [x] in t ==> PrefixIn(t, u + [x]);
      LongestByContext(t, u[1..], x);
    }
  }

  /** Dropping the first word of a window leaves the same longest context, or that of the whole window cut by
      one word if the whole window is an n-gram. */
  lemma LongestOfRest(t: Table, w: seq<Word>)
    requires Closed(t) && w != []
    ensures Longest(t, w[1..]) == if Longest(t, w) == w then w[1..] else Longest(t, w)
  {
    assert w in t && |w| > 1 ==> SuffixIn(t, w);
  }

  /** The n-gram state: windows of one length with the same longest context are interchangeable. */
  lemma SameStateStep(t: Table, v: seq<Word>, w: seq<Word>, x: Word)
    requires Closed(t) && |v| == |w| > 0 && Longest(t, v) == Longest(t, w)
    ensures Value(t, v[1..] + [x]) == Value(t, w[1..] + [x])
    ensures Longest(t, v[1..] + [x]) == Longest(t, w[1..] + [x])
  {
    LongestOfRest(t, v);
    LongestOfRest(t, w);
    ProbByContext(t, v[1..], x);
    ProbByContext(t, w[1..], x);
    LongestByContext(t, v[1..], x);
    LongestByContext(t, w[1..], x);
  }
}
