/**
  The token-set Jaccard score shared by both variants of the detector
  (_calculate_jaccard_similarity in monitor.py, calculate_jaccard_similarity in
  crawler.py: the same code twice). Scores are kept as exact fractions, and
  "score >= threshold" is decided by cross-multiplication instead of floating
  point division.
*/
module Jaccard {
  import opened Text

  /** The fraction num / den. */
  datatype Ratio = Ratio(num: nat, den: nat)

  /** A similarity threshold p / q with q > 0. */
  type Threshold = t: Ratio | t.den > 0 witness Ratio(7, 10)

  /** The default threshold 0.7 of both variants. */
  const DEFAULT_THRESHOLD: Threshold := Ratio(7, 10)

  /** set(re.findall(r'\w+', s.lower())) */
  function Tokens(s: string): set<string> {
    set w | w in Runs(Lower(s), IsWordChar)
  }

  /** |A * B| == |A + B| holds only when A and B are the same set. */
  lemma IntersectionFillsUnion(A: set<string>, B: set<string>)
    ensures |A * B| <= |A + B|
    ensures |A * B| == |A + B| ==> A == B
  {
    assert A + B == (A - B) + (A * B) + (B - A);
    assert |A + B| == |A - B| + |A * B| + |B - A|;
    if |A * B| == |A + B| {
      assert A - B == {} && B - A == {};
    }
  }

  /** |A ∩ B| / |A ∪ B| over the two token sets, or 0 when either set is empty. */
  function Similarity(a: string, b: string): (r: Ratio)
    ensures r.den > 0 && r.num <= r.den
    ensures Tokens(a) == {} || Tokens(b) == {} ==> r.num == 0
    ensures r.num > 0 <==> Tokens(a) * Tokens(b) != {}
    ensures r.num == r.den <==> Tokens(a) == Tokens(b) != {}
  {
    var A, B := Tokens(a), Tokens(b);
    if A == {} || B == {} then Ratio(0, 1)
    else
      IntersectionFillsUnion(A, B);
      var x :| x in A;
      assert x in A + B;
      assert |A * B| == 0 <==> A * B == {};
      assert A == B ==> A * B == A + B;
      Ratio(|A * B|, |A + B|)
  }

  /** a * b, by repeated addition. Written recursively so that the solver
      treats a product as an uninterpreted term wherever its value does not
      matter; TimesIsProduct relates it to `*`. */
  function Times(a: nat, b: nat): nat {
    if b == 0 then 0 else Times(a, b - 1) + a
  }

  lemma {:induction false} TimesIsProduct(a: nat, b: nat)
    ensures Times(a, b) == a * b
  {
    if b > 0 {
      TimesIsProduct(a, b - 1);
    }
  }

  /** r >= t, for fractions with positive denominators, by cross-multiplication. */
  predicate AtLeast(r: Ratio, t: Threshold) {
    Times(r.num, t.den) >= Times(t.num, r.den)
  }

  /** similarity >= threshold */
  predicate Similar(a: string, b: string, t: Threshold) {
    AtLeast(Similarity(a, b), t)
  }

  /** The score does not depend on the order of its arguments. */
  lemma SimilaritySymmetric(a: string, b: string)
    ensures Similarity(a, b) == Similarity(b, a)
    ensures Similar(a, b, DEFAULT_THRESHOLD) == Similar(b, a, DEFAULT_THRESHOLD)
  {
    assert Tokens(a) * Tokens(b) == Tokens(b) * Tokens(a);
    assert Tokens(a) + Tokens(b) == Tokens(b) + Tokens(a);
  }

  /** A string without word characters is similar to nothing, itself included,
      under any positive threshold. */
  lemma NoTokensNeverSimilar(a: string, b: string, t: Threshold)
    requires t.num > 0
    requires Tokens(a) == {} || Tokens(b) == {}
    ensures !Similar(a, b, t) && !Similar(b, a, t)
  {
    var r := Similarity(a, b);
    TimesIsProduct(0, t.den);
    TimesIsProduct(t.num, r.den);
    TimesIsProduct(r.num, t.den);
  }

  /** Two strings with the same non-empty token set score 1, which reaches
      every threshold up to 1. */
  lemma SameTokensSimilar(a: string, b: string, t: Threshold)
    requires t.num <= t.den
    requires Tokens(a) == Tokens(b) != {}
    ensures Similar(a, b, t)
  {
    var n := Similarity(a, b).num;
    TimesLeft(t.num, t.den, n);
    TimesIsProduct(n, t.den);
    TimesIsProduct(t.den, n);
  }

  /** A string with a word in it is similar to itself at every threshold up
      to 1. */
  lemma SelfSimilar(a: string, t: Threshold)
    requires t.num <= t.den
    requires Tokens(a) != {}
    ensures Similar(a, a, t)
  {
    SameTokensSimilar(a, a, t);
  }

  /** Times is monotone in its first argument. */
  lemma {:induction false} TimesLeft(a: nat, b: nat, n: nat)
    requires a <= b
    ensures Times(a, n) <= Times(b, n)
  {
    if n > 0 {
      TimesLeft(a, b, n - 1);
    }
  }
}
