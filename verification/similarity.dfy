/** The scoring functions (internal/service/similarity.go): set-based Jaccard,
    TF-IDF cosine over the two-document corpus of its inputs, and pairwise
    sentence matching. Scores are exact reals. */
module Similarity {
  import opened Text
  import opened Sequences

  // ---------------------------------------------------------------------
  // Jaccard
  // ---------------------------------------------------------------------

  datatype JaccardResult = JaccardResult(intersection: int, union: int, score: real)

  /** A ratio of a count to a larger positive count lies in [0, 1]. */
  lemma RatioInUnit(n: int, d: int)
    requires 0 <= n <= d && 0 < d
    ensures 0.0 <= n as real / d as real <= 1.0
  {
    assert n as real <= d as real;
    assert n as real / d as real <= d as real / d as real;
  }

  /** Jaccard over the sets of the two inputs. Two empty sets score 1.0; the
      program's guard for an empty union is unreachable. */
  function Jaccard(a: seq<string>, b: seq<string>): (r: JaccardResult)
    ensures ToSet(a) == {} && ToSet(b) == {} ==> r == JaccardResult(0, 0, 1.0)
    ensures ToSet(a) != {} || ToSet(b) != {} ==>
      && r.intersection == |ToSet(a) * ToSet(b)|
      && r.union == |ToSet(a) + ToSet(b)|
      && 0 <= r.intersection <= r.union
      && 0 < r.union
      && r.score == r.intersection as real / r.union as real
    ensures 0.0 <= r.score <= 1.0
  {
    var A := ToSet(a);
    var B := ToSet(b);
    if |A| == 0 && |B| == 0 then JaccardResult(0, 0, 1.0)
    else
      // every element of A, plus the elements of B not already seen in A
      var inter := |A * B|;
      var uni := |A| + |B - A|;
      assert A + B == A + (B - A);
      assert A * B <= A + B;
      if uni == 0 then
        assert false; JaccardResult(inter, uni, 0.0)
      else
        RatioInUnit(inter, uni);
        JaccardResult(inter, uni, inter as real / uni as real)
  }

  /** The counting loops of `Jaccard`: one pass over A counting every element
      and those also in B, then one pass over B counting the elements not seen
      in A. Map iteration order is arbitrary, so each pass may take the
      remaining elements in any order. */
  method CountOverlap(A: set<string>, B: set<string>) returns (inter: int, uni: int)
    ensures inter == |A * B|
    ensures uni == |A + B|
  {
    inter, uni := CountFirstPass(A, B);
    uni := CountSecondPass(A, B, uni);
  }

  /** The pass over A. */
  method CountFirstPass(A: set<string>, B: set<string>) returns (inter: int, uni: int)
    ensures inter == |A * B|
    ensures uni == |A|
  {
    inter, uni := 0, 0;
    var seen: set<string> := {};
    var todo := A;
    while todo != {}
      invariant seen <= A && todo == A - seen
      invariant inter == |seen * B|
      invariant uni == |seen|
      decreases |todo|
    {
      var k :| k in todo;
      FirstPassStep(A, B, seen, k);
      if k in B {
        inter := inter + 1;
      }
      seen := seen + {k};
      uni := uni + 1;
      todo := todo - {k};
    }
    CoveredSubset(seen, A);
  }

  /** One step of the pass over A: visiting a new element `k` of A grows the
      visited set by one, and its overlap with B by one exactly when B has `k`. */
  lemma FirstPassStep(A: set<string>, B: set<string>, S: set<string>, k: string)
    requires S <= A && k in A - S
    ensures S + {k} <= A && A - (S + {k}) == (A - S) - {k}
    ensures |(A - S) - {k}| < |A - S|
    ensures |S + {k}| == |S| + 1
    ensures |(S + {k}) * B| == |S * B| + (if k in B then 1 else 0)
  {
    if k in B {
      assert (S + {k}) * B == S * B + {k};
    } else {
      assert (S + {k}) * B == S * B;
    }
  }

  /** The pass over B, starting from the count of the pass over A. */
  method CountSecondPass(A: set<string>, B: set<string>, count: int) returns (uni: int)
    requires count == |A|
    ensures uni == |A + B|
  {
    uni := count;
    var rest := B;
    var visited: set<string> := {};
    while rest != {}
      invariant visited <= B && rest == B - visited
      invariant uni == |A + visited|
      decreases |rest|
    {
      var k :| k in rest;
      SecondPassStep(A, B, visited, k);
      if k !in A {
        uni := uni + 1;
      }
      visited := visited + {k};
      rest := rest - {k};
    }
    CoveredSubset(visited, B);
  }

  lemma CoveredSubset(V: set<string>, B: set<string>)
    requires V <= B && B - V == {}
    ensures V == B
  {
    forall x | x in B ensures x in V {
      assert x !in B - V;
    }
  }

  /** One step of the pass over B: visiting a new element `k` of B grows
      `A + V` by one unless `A` has `k`, and leaves one element fewer to visit. */
  lemma SecondPassStep(A: set<string>, B: set<string>, V: set<string>, k: string)
    requires V <= B && k in B - V
    ensures V + {k} <= B && B - (V + {k}) == (B - V) - {k}
    ensures |(B - V) - {k}| < |B - V|
    ensures |A + (V + {k})| == |A + V| + (if k in A then 0 else 1)
  {
    if k in A {
      assert A + (V + {k}) == A + V;
    } else {
      assert A + (V + {k}) == (A + V) + {k};
    }
  }

  /** Jaccard is symmetric. */
  lemma JaccardSymmetric(a: seq<string>, b: seq<string>)
    ensures Jaccard(a, b) == Jaccard(b, a)
  {
    assert ToSet(a) * ToSet(b) == ToSet(b) * ToSet(a);
    assert ToSet(a) + ToSet(b) == ToSet(b) + ToSet(a);
  }

  /** A non-empty sequence is a perfect match with itself. */
  lemma JaccardSelf(a: seq<string>)
    requires |a| > 0
    ensures Jaccard(a, a).intersection == Jaccard(a, a).union
    ensures Jaccard(a, a).score == 1.0
  {
    assert a[0] in ToSet(a);
    assert ToSet(a) * ToSet(a) == ToSet(a) + ToSet(a);
  }

  /** Disjoint inputs, not both empty, share nothing: intersection and score 0. */
  lemma JaccardDisjoint(a: seq<string>, b: seq<string>)
    requires forall x :: x in a ==> x !in b
    requires |a| + |b| > 0
    ensures Jaccard(a, b).intersection == 0
    ensures Jaccard(a, b).score == 0.0
  {
    assert ToSet(a) * ToSet(b) == {};
    if |a| > 0 {
      assert a[0] in ToSet(a);
    } else {
      assert b[0] in ToSet(b);
    }
  }

  /** Two empty inputs are a perfect match: nothing shared, nothing in the union. */
  lemma JaccardEmpty(a: seq<string>, b: seq<string>)
    requires |a| == 0 && |b| == 0
    ensures Jaccard(a, b) == JaccardResult(0, 0, 1.0)
  {
    assert ToSet(a) == {} && ToSet(b) == {};
  }

  /** Only the sets of the inputs matter: order and duplicates do not. */
  lemma JaccardOfSameSets(a: seq<string>, b: seq<string>, a': seq<string>, b': seq<string>)
    requires forall x :: x in a <==> x in a'
    requires forall x :: x in b <==> x in b'
    ensures Jaccard(a, b) == Jaccard(a', b')
  {
    assert ToSet(a) == ToSet(a');
    assert ToSet(b) == ToSet(b');
  }

  // ---------------------------------------------------------------------
  // TF-IDF cosine
  // ---------------------------------------------------------------------

  /** A square-root function as the cosine uses it: positive on positive inputs. */
  type Root = f: real -> real | forall x :: 0.0 < x ==> 0.0 < f(x)
    witness (x: real) => x

  /** The double nearest to `1 + ln 2`, written out exactly: the idf of a term
      found in one document only. */
  const OneSidedIdf: real := 1.6931471805599453972490664455108344554901123046875

  /** Number of the two documents containing `t`. */
  function DocumentFrequency(tfa: multiset<string>, tfb: multiset<string>, t: string): (r: nat)
    ensures r <= 2
    ensures r == 2 <==> t in tfa && t in tfb
    ensures r == 0 <==> t !in tfa && t !in tfb
  {
    (if t in tfa then 1 else 0) + (if t in tfb then 1 else 0)
  }

  /** `1 + ln(2 / df)`: 1 for a term in both documents, `1 + ln 2` for a term in
      one. Every summed term lies in at least one document. */
  function Idf(df: nat): (r: real)
    ensures r >= 1.0
    ensures r == 1.0 <==> df == 2
  {
    if df == 2 then 1.0 else OneSidedIdf
  }

  /** The TF-IDF weight of each term in the document with term counts `tf`. */
  function Weights(tf: multiset<string>, tfa: multiset<string>, tfb: multiset<string>): string -> real {
    t => tf[t] as real * Idf(DocumentFrequency(tfa, tfb, t))
  }

  /** Raw term counts as reals. */
  function Counts(tf: multiset<string>): string -> real {
    t => tf[t] as real
  }

  function Product(f: string -> real, g: string -> real): string -> real {
    t => f(t) * g(t)
  }

  datatype CosineResult = CosineResult(dot: real, na2: real, nb2: real, score: real)

  /** The terms of the two documents, each once: the key set of Go's
      `allTerms` map, enumerated in first-occurrence order. */
  function AllTerms(a: seq<string>, b: seq<string>): seq<string> {
    Distinct(a + b)
  }

  /** The TF-IDF weights of document `x` within the corpus {a, b}. */
  function DocWeights(x: seq<string>, a: seq<string>, b: seq<string>): string -> real {
    Weights(multiset(x), multiset(a), multiset(b))
  }

  /** The squared norm of document `x` within the corpus {a, b}: positive
      exactly when `x` has a token. */
  function SquaredNorm(x: seq<string>, a: seq<string>, b: seq<string>): (r: real)
    requires forall t :: t in x ==> t in a + b
    ensures r >= 0.0
    ensures r > 0.0 <==> |x| > 0
  {
    SquaredNormSign(x, a, b);
    Sum(AllTerms(a, b), Product(DocWeights(x, a, b), DocWeights(x, a, b)))
  }

  lemma SquaredNormSign(x: seq<string>, a: seq<string>, b: seq<string>)
    requires forall t :: t in x ==> t in a + b
    ensures var w := DocWeights(x, a, b);
      Sum(AllTerms(a, b), Product(w, w)) >= 0.0
      && (Sum(AllTerms(a, b), Product(w, w)) > 0.0 <==> |x| > 0)
  {
    var w := DocWeights(x, a, b);
    SquaresNonnegative(w);
    SumNonnegative(AllTerms(a, b), Product(w, w));
    if |x| > 0 {
      SquaredNormPositive(x, a, b);
    } else {
      assert forall t :: Product(w, w)(t) == 0.0;
      SumZero(AllTerms(a, b), Product(w, w));
    }
  }

  lemma SquaredNormPositive(x: seq<string>, a: seq<string>, b: seq<string>)
    requires forall t :: t in x ==> t in a + b
    requires |x| > 0
    ensures var w := DocWeights(x, a, b); Sum(AllTerms(a, b), Product(w, w)) > 0.0
  {
    var w := DocWeights(x, a, b);
    var t := x[0];
    assert t in AllTerms(a, b);
    WeightOfPresentTerm(x, a, b, t);
    SquarePositive(w, t);
    SquaresNonnegative(w);
    SumPositive(AllTerms(a, b), Product(w, w), t);
  }

  lemma SquarePositive(w: string -> real, t: string)
    requires w(t) >= 1.0
    ensures Product(w, w)(t) > 0.0
  {
    var v := w(t);
    assert Product(w, w)(t) == v * v;
    assert v * v >= v;
  }

  lemma SquaresNonnegative(w: string -> real)
    ensures forall t :: Product(w, w)(t) >= 0.0
  {
    forall t ensures Product(w, w)(t) >= 0.0 {
      assert Product(w, w)(t) == w(t) * w(t);
    }
  }

  /** A term of `x` weighs at least 1 in `x`. */
  lemma WeightOfPresentTerm(x: seq<string>, a: seq<string>, b: seq<string>, t: string)
    requires t in x
    ensures DocWeights(x, a, b)(t) >= 1.0
  {
    assert t in multiset(x);
    var c, i := multiset(x)[t] as real, Idf(DocumentFrequency(multiset(a), multiset(b), t));
    assert c >= 1.0 && i >= 1.0;
    assert c * i >= 1.0 * i;
  }

  /** The dot product of the weight vectors of `a` and `b`. */
  function DotProduct(a: seq<string>, b: seq<string>): (r: real)
    ensures r >= 0.0
  {
    var wa, wb := DocWeights(a, a, b), DocWeights(b, a, b);
    assert forall t :: Product(wa, wb)(t) >= 0.0 by {
      forall t ensures Product(wa, wb)(t) >= 0.0 {
        assert Product(wa, wb)(t) == wa(t) * wb(t);
      }
    }
    SumNonnegative(AllTerms(a, b), Product(wa, wb));
    Sum(AllTerms(a, b), Product(wa, wb))
  }

  /** The score from the dot product and the squared norms: the cosine of the
      angle when both norms are positive, 0 otherwise. */
  function CosineScore(dot: real, na2: real, nb2: real, sqrt: Root): (r: real)
    requires dot >= 0.0
    ensures r >= 0.0
    ensures na2 <= 0.0 || nb2 <= 0.0 ==> r == 0.0
    ensures dot == 0.0 ==> r == 0.0
    ensures na2 > 0.0 && sqrt(na2) * sqrt(na2) == na2 && dot == na2 == nb2 ==> r == 1.0
  {
    if na2 > 0.0 && nb2 > 0.0 then
      var d := sqrt(na2) * sqrt(nb2);
      assert d > 0.0;
      assert dot == na2 == nb2 && sqrt(na2) * sqrt(na2) == na2 ==> dot / d == 1.0 by {
        if dot == na2 == nb2 && sqrt(na2) * sqrt(na2) == na2 {
          assert d == dot;
        }
      }
      assert dot == 0.0 ==> dot / d == 0.0;
      dot / d
    else
      0.0
  }

  /** The score does not depend on the order of the two norms. */
  lemma CosineScoreSymmetric(dot: real, na2: real, nb2: real, sqrt: Root)
    requires dot >= 0.0
    ensures CosineScore(dot, na2, nb2, sqrt) == CosineScore(dot, nb2, na2, sqrt)
  {
    if na2 > 0.0 && nb2 > 0.0 {
      assert sqrt(na2) * sqrt(nb2) == sqrt(nb2) * sqrt(na2);
    }
  }

  /** TF-IDF cosine over the corpus {a, b}. `sqrt` stands for `math.Sqrt`. */
  function CosineTfIdf(a: seq<string>, b: seq<string>, sqrt: Root): (r: CosineResult)
    ensures r.dot >= 0.0 && r.score >= 0.0
    ensures r.na2 >= 0.0 && (r.na2 > 0.0 <==> |a| > 0)
    ensures r.nb2 >= 0.0 && (r.nb2 > 0.0 <==> |b| > 0)
    ensures |a| == 0 || |b| == 0 ==> r.score == 0.0
  {
    var dot := DotProduct(a, b);
    var na2 := SquaredNorm(a, a, b);
    var nb2 := SquaredNorm(b, a, b);
    CosineResult(dot, na2, nb2, CosineScore(dot, na2, nb2, sqrt))
  }

  /** The idf of a shared term is 1 and a one-sided term has a zero count on
      the other side, so the dot product is the sum of raw count products. */
  lemma DotProductIsCountProduct(a: seq<string>, b: seq<string>)
    ensures DotProduct(a, b) == Sum(AllTerms(a, b), Product(Counts(multiset(a)), Counts(multiset(b))))
  {
    var tfa, tfb := multiset(a), multiset(b);
    var wa, wb := DocWeights(a, a, b), DocWeights(b, a, b);
    forall t | t in AllTerms(a, b)
      ensures Product(wa, wb)(t) == Product(Counts(tfa), Counts(tfb))(t)
    {
      if t in tfa && t in tfb {
        assert Idf(DocumentFrequency(tfa, tfb, t)) == 1.0;
      } else {
        assert tfa[t] == 0 || tfb[t] == 0;
      }
    }
    SumPointwise(AllTerms(a, b), Product(wa, wb), Product(Counts(tfa), Counts(tfb)));
  }

  /** Swapping the documents does not change the dot product. */
  lemma DotProductSymmetric(a: seq<string>, b: seq<string>)
    ensures DotProduct(b, a) == DotProduct(a, b)
  {
    var tfa, tfb := multiset(a), multiset(b);
    var terms, terms' := AllTerms(a, b), AllTerms(b, a);
    SameElementsPermutation(terms', terms);
    var f := Product(DocWeights(a, a, b), DocWeights(b, a, b));
    var g := Product(DocWeights(b, b, a), DocWeights(a, b, a));
    forall t
      ensures g(t) == f(t)
    {
      assert DocumentFrequency(tfb, tfa, t) == DocumentFrequency(tfa, tfb, t);
    }
    SumPermutation(terms', terms, g);
    SumPointwise(terms, g, f);
  }

  /** A document's squared norm does not depend on the order of the corpus. */
  lemma SquaredNormSymmetric(x: seq<string>, a: seq<string>, b: seq<string>)
    requires forall t :: t in x ==> t in a + b
    ensures forall t :: t in x ==> t in b + a
    ensures SquaredNorm(x, b, a) == SquaredNorm(x, a, b)
  {
    var tfa, tfb := multiset(a), multiset(b);
    var terms, terms' := AllTerms(a, b), AllTerms(b, a);
    SameElementsPermutation(terms', terms);
    var f := Product(DocWeights(x, a, b), DocWeights(x, a, b));
    var g := Product(DocWeights(x, b, a), DocWeights(x, b, a));
    forall t
      ensures g(t) == f(t)
    {
      assert DocumentFrequency(tfb, tfa, t) == DocumentFrequency(tfa, tfb, t);
    }
    SumPermutation(terms', terms, g);
    SumPointwise(terms, g, f);
  }

  /** Swapping the documents keeps the dot product and the score and swaps
      the squared norms. */
  lemma CosineSymmetric(a: seq<string>, b: seq<string>, sqrt: Root)
    ensures var r, s := CosineTfIdf(a, b, sqrt), CosineTfIdf(b, a, sqrt);
      s.dot == r.dot && s.na2 == r.nb2 && s.nb2 == r.na2 && s.score == r.score
  {
    DotProductSymmetric(a, b);
    SquaredNormSymmetric(a, a, b);
    SquaredNormSymmetric(b, a, b);
    CosineScoreSymmetric(DotProduct(a, b), SquaredNorm(a, a, b), SquaredNorm(b, a, b), sqrt);
  }

  /** Documents without a common term have a zero dot product. */
  lemma DotProductDisjoint(a: seq<string>, b: seq<string>)
    requires forall t :: t in a ==> t !in b
    ensures DotProduct(a, b) == 0.0
  {
    var tfa, tfb := multiset(a), multiset(b);
    var f := Product(Counts(tfa), Counts(tfb));
    DotProductIsCountProduct(a, b);
    forall t | t in AllTerms(a, b)
      ensures f(t) == 0.0
    {
      assert tfa[t] == 0 || tfb[t] == 0;
    }
    SumZero(AllTerms(a, b), f);
  }

  /** Documents without a common term score 0. */
  lemma CosineDisjoint(a: seq<string>, b: seq<string>, sqrt: Root)
    requires forall t :: t in a ==> t !in b
    ensures CosineTfIdf(a, b, sqrt).dot == 0.0
    ensures CosineTfIdf(a, b, sqrt).score == 0.0
  {
    DotProductDisjoint(a, b);
  }

  /** A document's dot product with itself is its squared norm. */
  lemma SelfDotProduct(a: seq<string>)
    ensures forall t :: t in a ==> t in a + a
    ensures DotProduct(a, a) == SquaredNorm(a, a, a)
  {
  }

  /** A document compared with itself: the dot product equals both squared
      norms, which are positive. */
  lemma CosineSelf(a: seq<string>, sqrt: Root)
    requires |a| > 0
    ensures var r := CosineTfIdf(a, a, sqrt);
      r.dot == r.na2 == r.nb2 > 0.0
  {
    SelfDotProduct(a);
  }

  /** With an exact square root, a document compared with itself scores 1. */
  lemma CosineSelfScore(a: seq<string>, sqrt: Root)
    requires |a| > 0
    requires var n := SquaredNorm(a, a, a); sqrt(n) * sqrt(n) == n
    ensures CosineTfIdf(a, a, sqrt).score == 1.0
  {
    SelfDotProduct(a);
  }

  // ---------------------------------------------------------------------
  // Sentence segments
  // ---------------------------------------------------------------------

  predicate IsSentenceEnd(c: char) {
    c == '.' || c == '!' || c == '?'
  }

  predicate Unpunctuated(s: string) {
    forall c :: c in s ==> !IsSentenceEnd(c)
  }

  /** The pieces of `piece + s` between sentence-ending runes, in order, empty
      pieces included; `piece` is the part of the current piece already read. */
  function SplitSentences(s: string, piece: string): (r: seq<string>)
    requires Unpunctuated(piece)
    ensures |r| > 0
    ensures forall p :: p in r ==> Unpunctuated(p)
    ensures Unpunctuated(s) ==> r == [piece + s]
    decreases |s|
  {
    if |s| == 0 then
      assert piece + s == piece;
      [piece]
    else if IsSentenceEnd(s[0]) then
      assert s[0] in s;
      [piece] + SplitSentences(s[1..], "")
    else
      assert piece + [s[0]] + s[1..] == piece + s;
      assert Unpunctuated(s) ==> Unpunctuated(s[1..]) by {
        assert forall c :: c in s[1..] ==> c in s;
      }
      SplitSentences(s[1..], piece + [s[0]])
  }

  /** The sentence-ending runes of `s`, in order. */
  function Ends(s: string): string {
    if |s| == 0 then "" else (if IsSentenceEnd(s[0]) then [s[0]] else "") + Ends(s[1..])
  }

  /** The pieces with the sentence-ending runes put back between them. */
  function Rejoin(ps: seq<string>, ends: string): string
    requires |ps| == |ends| + 1
    decreases |ends|
  {
    if |ends| == 0 then ps[0] else ps[0] + [ends[0]] + Rejoin(ps[1..], ends[1..])
  }

  /** Splitting cuts at every sentence-ending rune and loses nothing else:
      one piece more than there are cuts, and putting the cut runes back
      between the pieces gives the text again. */
  lemma {:induction false} SplitSentencesContents(s: string, piece: string)
    requires Unpunctuated(piece)
    ensures |SplitSentences(s, piece)| == |Ends(s)| + 1
    ensures Rejoin(SplitSentences(s, piece), Ends(s)) == piece + s
    decreases |s|, 1
  {
    if |s| == 0 {
      assert SplitSentences(s, piece) == [piece];
      assert piece + s == piece;
    } else if IsSentenceEnd(s[0]) {
      SplitAtEnd(s, piece);
    } else {
      SplitInside(s, piece);
    }
  }

  /** `SplitSentencesContents` when `s` starts with a sentence-ending rune. */
  lemma {:induction false} SplitAtEnd(s: string, piece: string)
    requires Unpunctuated(piece) && |s| > 0 && IsSentenceEnd(s[0])
    ensures |SplitSentences(s, piece)| == |Ends(s)| + 1
    ensures Rejoin(SplitSentences(s, piece), Ends(s)) == piece + s
    decreases |s|, 0
  {
    var rest := SplitSentences(s[1..], "");
    SplitSentencesContents(s[1..], "");
    assert "" + s[1..] == s[1..];
    assert SplitSentences(s, piece) == [piece] + rest;
    RejoinAtEnd(s, piece, rest);
  }

  /** `SplitSentencesContents` when `s` starts with any other rune. */
  lemma {:induction false} SplitInside(s: string, piece: string)
    requires Unpunctuated(piece) && |s| > 0 && !IsSentenceEnd(s[0])
    ensures |SplitSentences(s, piece)| == |Ends(s)| + 1
    ensures Rejoin(SplitSentences(s, piece), Ends(s)) == piece + s
    decreases |s|, 0
  {
    var next := piece + [s[0]];
    UnpunctuatedSnoc(piece, s[0]);
    SplitSentencesContents(s[1..], next);
    assert SplitSentences(s, piece) == SplitSentences(s[1..], next);
    assert Ends(s) == Ends(s[1..]);
    assert next + s[1..] == piece + s;
  }

  lemma UnpunctuatedSnoc(piece: string, c: char)
    requires Unpunctuated(piece) && !IsSentenceEnd(c)
    ensures Unpunctuated(piece + [c])
  {
  }

  /** A cut at the first rune of `s`: the current piece, the cut rune, then
      the pieces of the rest. */
  lemma RejoinAtEnd(s: string, piece: string, rest: seq<string>)
    requires |s| > 0 && IsSentenceEnd(s[0])
    requires |rest| == |Ends(s[1..])| + 1 && Rejoin(rest, Ends(s[1..])) == s[1..]
    ensures |[piece] + rest| == |Ends(s)| + 1
    ensures Rejoin([piece] + rest, Ends(s)) == piece + s
  {
    assert Ends(s) == [s[0]] + Ends(s[1..]);
    RejoinCons(piece, s[0], rest, Ends(s[1..]));
    assert piece + [s[0]] + s[1..] == piece + s by {
      assert s == [s[0]] + s[1..];
    }
  }

  lemma RejoinCons(p: string, c: char, ps: seq<string>, ends: string)
    requires |ps| == |ends| + 1
    ensures Rejoin([p] + ps, [c] + ends) == p + [c] + Rejoin(ps, ends)
  {
    assert ([p] + ps)[1..] == ps && ([c] + ends)[1..] == ends;
  }

  /** A sentence as `segmentText` reports it: non-empty, trimmed, and free of
      sentence punctuation. */
  predicate IsSegment(x: string) {
    |x| > 0 && !IsSpace(x[0]) && !IsSpace(x[|x| - 1]) && Unpunctuated(x)
  }

  /** Trims every piece and keeps the non-empty ones. */
  function TrimmedNonEmpty(ps: seq<string>): (r: seq<string>)
    requires forall p :: p in ps ==> Unpunctuated(p)
    ensures |r| <= |ps|
    ensures forall x :: x in r ==> IsSegment(x)
  {
    if |ps| == 0 then []
    else
      var p := ps[0];
      assert p in ps;
      var x := TrimSpace(p);
      assert Unpunctuated(x) by {
        forall c | c in x
          ensures !IsSentenceEnd(c)
        {
          assert c in p;
          assert Unpunctuated(p);
          assert !IsSentenceEnd(c);
        }
      }
      var rest := TrimmedNonEmpty(ps[1..]);
      if x == "" then rest
      else
        assert IsSegment(x);
        [x] + rest
  }

  /** The kept sentences are exactly the pieces that are not blank once trimmed. */
  lemma TrimmedNonEmptyContents(ps: seq<string>)
    requires forall p :: p in ps ==> Unpunctuated(p)
    ensures forall x :: x in TrimmedNonEmpty(ps) ==> exists p :: p in ps && x == TrimSpace(p)
    ensures forall p :: p in ps && TrimSpace(p) != "" ==> TrimSpace(p) in TrimmedNonEmpty(ps)
  {
    TrimmedComeFromPieces(ps);
    NonBlankPiecesAreKept(ps);
  }

  lemma {:induction false} TrimmedComeFromPieces(ps: seq<string>)
    requires forall p :: p in ps ==> Unpunctuated(p)
    ensures forall x :: x in TrimmedNonEmpty(ps) ==> exists p :: p in ps && x == TrimSpace(p)
  {
    if |ps| > 0 {
      var p, rest := ps[0], TrimmedNonEmpty(ps[1..]);
      TrimmedComeFromPieces(ps[1..]);
      assert TrimmedNonEmpty(ps) == if TrimSpace(p) == "" then rest else [TrimSpace(p)] + rest;
      forall x | x in TrimmedNonEmpty(ps)
        ensures exists q :: q in ps && x == TrimSpace(q)
      {
        if x in rest {
          var q :| q in ps[1..] && x == TrimSpace(q);
          assert q in ps;
        } else {
          assert p in ps && x == TrimSpace(p);
        }
      }
    }
  }

  lemma {:induction false} NonBlankPiecesAreKept(ps: seq<string>)
    requires forall p :: p in ps ==> Unpunctuated(p)
    ensures forall p :: p in ps && TrimSpace(p) != "" ==> TrimSpace(p) in TrimmedNonEmpty(ps)
  {
    if |ps| > 0 {
      var p, rest := ps[0], TrimmedNonEmpty(ps[1..]);
      NonBlankPiecesAreKept(ps[1..]);
      assert TrimmedNonEmpty(ps) == if TrimSpace(p) == "" then rest else [TrimSpace(p)] + rest;
      forall q | q in ps && TrimSpace(q) != ""
        ensures TrimSpace(q) in TrimmedNonEmpty(ps)
      {
        if q != p {
          assert q in ps[1..] by {
            assert ps == [p] + ps[1..];
          }
        }
      }
    }
  }

  /** Trimming and dropping blanks works piece by piece: it distributes over
      concatenation, and one piece gives its trimmed form or nothing. */
  lemma {:induction false} TrimmedNonEmptyAppend(p: seq<string>, q: seq<string>)
    requires forall x :: x in p ==> Unpunctuated(x)
    requires forall x :: x in q ==> Unpunctuated(x)
    ensures TrimmedNonEmpty(p + q) == TrimmedNonEmpty(p) + TrimmedNonEmpty(q)
    decreases |p|
  {
    if |p| == 0 {
      assert p + q == q;
    } else {
      var pq := p + q;
      assert pq[0] == p[0] && pq[1..] == p[1..] + q;
      assert p[0] in p;
      TrimmedNonEmptyAppend(p[1..], q);
    }
  }

  lemma TrimmedNonEmptySingle(x: string)
    requires Unpunctuated(x)
    ensures TrimmedNonEmpty([x]) == if TrimSpace(x) == "" then [] else [TrimSpace(x)]
  {
    assert [x][1..] == [];
  }

  /** Sentences: split after `.`, `!` or `?` (and any white space following
      it), trimmed, empty ones dropped. */
  function SegmentText(text: string): (r: seq<string>)
    ensures forall x :: x in r ==> IsSegment(x)
  {
    TrimmedNonEmpty(SplitSentences(text, ""))
  }

  /** Text without sentence punctuation and with no white space at either end
      is one sentence, or none when empty. */
  lemma SegmentsOfUnpunctuated(t: string)
    requires Unpunctuated(t)
    requires |t| == 0 || (!IsSpace(t[0]) && !IsSpace(t[|t| - 1]))
    ensures SegmentText(t) == if |t| == 0 then [] else [t]
  {
    assert "" + t == t;
    var ps := SplitSentences(t, "");
    assert ps == [t];
    assert TrimSpace(t) == t;
    assert ps[1..] == [];
    assert TrimmedNonEmpty(ps[1..]) == [];
  }

  datatype MatchingSegment = MatchingSegment(textA: string, textB: string, score: real)

  /** A segment's words: `strings.Fields(strings.ToLower(seg))`. */
  function SegmentWords(seg: string): seq<string> {
    Fields(LowerString(seg))
  }

  /** A segment's words are the maximal runs of non-space runes of the
      lower-cased segment, and together they are all of its non-space runes. */
  lemma SegmentWordsAreRuns(seg: string)
    ensures SplitsInto(LowerString(seg), SegmentWords(seg))
    ensures Concat(SegmentWords(seg)) == NonSpace(LowerString(seg))
  {
    FieldsAreMaximalRuns(LowerString(seg));
    FieldsConcat(LowerString(seg));
  }

  function SegmentScore(x: string, y: string): real {
    Jaccard(SegmentWords(x), SegmentWords(y)).score
  }

  /** A reported pair carries its word-level Jaccard score, which is above 0.5. */
  predicate IsMatch(m: MatchingSegment) {
    m.score == SegmentScore(m.textA, m.textB) && m.score > 0.5
  }

  /** The matches of one segment of A against every segment of B, in B order. */
  function MatchRow(x: string, segsB: seq<string>): seq<MatchingSegment> {
    if |segsB| == 0 then []
    else
      MatchHead(x, segsB[0]) + MatchRow(x, segsB[1..])
  }

  /** One row holds at most one pair per segment of B: exactly the matching ones. */
  lemma {:induction false} MatchRowSpec(x: string, segsB: seq<string>)
    ensures |MatchRow(x, segsB)| <= |segsB|
    ensures forall m :: m in MatchRow(x, segsB) <==> m.textA == x && m.textB in segsB && IsMatch(m)
  {
    if |segsB| > 0 {
      var y := segsB[0];
      var head := MatchHead(x, y);
      MatchRowSpec(x, segsB[1..]);
      assert MatchRow(x, segsB) == head + MatchRow(x, segsB[1..]);
      assert forall t :: t in segsB <==> t == y || t in segsB[1..] by {
        assert segsB == [y] + segsB[1..];
      }
    }
  }

  /** The pair of `x` and `y` when it matches. */
  function MatchHead(x: string, y: string): (r: seq<MatchingSegment>)
    ensures |r| <= 1
    ensures forall m :: m in r <==> m.textA == x && m.textB == y && IsMatch(m)
  {
    var s := SegmentScore(x, y);
    if s > 0.5 then [MatchingSegment(x, y, s)] else []
  }

  /** Every pair of segments, A-major, keeping those scoring above 0.5. */
  function MatchAll(segsA: seq<string>, segsB: seq<string>): seq<MatchingSegment> {
    if |segsA| == 0 then []
    else MatchRow(segsA[0], segsB) + MatchAll(segsA[1..], segsB)
  }

  /** At most one pair per pair of segments. */
  lemma {:induction false} MatchAllLength(segsA: seq<string>, segsB: seq<string>)
    ensures |MatchAll(segsA, segsB)| <= |segsA| * |segsB|
  {
    if |segsA| > 0 {
      MatchRowSpec(segsA[0], segsB);
      MatchAllLength(segsA[1..], segsB);
      RowProduct(|segsA|, |segsB|);
    }
  }

  lemma RowProduct(n: nat, m: nat)
    requires n > 0
    ensures n * m == m + (n - 1) * m
  {
  }

  /** A pair is kept exactly when its segments come from A and B and it scores above 0.5. */
  lemma {:induction false} MatchAllMembers(segsA: seq<string>, segsB: seq<string>)
    ensures forall m :: m in MatchAll(segsA, segsB) <==> m.textA in segsA && m.textB in segsB && IsMatch(m)
  {
    if |segsA| > 0 {
      var x := segsA[0];
      MatchRowSpec(x, segsB);
      MatchAllMembers(segsA[1..], segsB);
      assert MatchAll(segsA, segsB) == MatchRow(x, segsB) + MatchAll(segsA[1..], segsB);
      forall m
        ensures m in MatchAll(segsA, segsB) <==> m.textA in segsA && m.textB in segsB && IsMatch(m)
      {
        assert m.textA in segsA <==> m.textA == x || m.textA in segsA[1..] by {
          assert segsA == [x] + segsA[1..];
        }
      }
    }
  }

  /** The matches of A's earlier sentences come before those of its later ones. */
  lemma {:induction false} MatchAllAppend(x: seq<string>, y: seq<string>, segsB: seq<string>)
    ensures MatchAll(x + y, segsB) == MatchAll(x, segsB) + MatchAll(y, segsB)
    decreases |x|
  {
    if |x| > 0 {
      assert (x + y)[0] == x[0] && (x + y)[1..] == x[1..] + y;
      MatchAllAppend(x[1..], y, segsB);
    } else {
      assert x + y == y;
    }
  }

  /** A matching pair occurs once in the head of its own two sentences and
      in no other. */
  lemma HeadCount(x: string, y: string, m: MatchingSegment)
    requires IsMatch(m)
    ensures multiset(MatchHead(x, y))[m] == if m.textA == x && m.textB == y then 1 else 0
  {
    var head := MatchHead(x, y);
    if m in head {
      assert head == [m];
    } else {
      assert multiset(head)[m] == 0;
    }
  }

  lemma MultisetOfCons<T>(s: seq<T>)
    requires |s| > 0
    ensures multiset(s) == multiset([s[0]]) + multiset(s[1..])
  {
    assert s == [s[0]] + s[1..];
  }

  /** A row holds each matching pair once per occurrence of its B sentence. */
  lemma {:induction false} MatchRowCounts(x: string, segsB: seq<string>, m: MatchingSegment)
    requires IsMatch(m)
    ensures multiset(MatchRow(x, segsB))[m] == if m.textA == x then multiset(segsB)[m.textB] else 0
  {
    if |segsB| > 0 {
      var y := segsB[0];
      assert multiset(MatchRow(x, segsB))[m]
          == multiset(MatchHead(x, y))[m] + multiset(MatchRow(x, segsB[1..]))[m] by {
        assert MatchRow(x, segsB) == MatchHead(x, y) + MatchRow(x, segsB[1..]);
      }
      HeadCount(x, y, m);
      MatchRowCounts(x, segsB[1..], m);
      MultisetOfCons(segsB);
    }
  }

  /** The arithmetic of one row of `MatchAllCounts`. */
  lemma CountStep(total: int, row: int, rest: int, n: int, b: int, k: int, here: bool)
    requires total == row + rest
    requires row == if here then k else 0
    requires rest == b * k
    requires n == if here then b + 1 else b
    ensures total == n * k
  {
    if here {
      assert (b + 1) * k == b * k + k;
    }
  }

  /** No pair is merged or dropped: a matching pair is reported once for every
      pair of positions holding its two sentences (`MatchAllMembers` rules
      out every other pair). */
  lemma {:induction false} MatchAllCounts(segsA: seq<string>, segsB: seq<string>, m: MatchingSegment)
    requires IsMatch(m)
    ensures var na: int, nb: int := multiset(segsA)[m.textA], multiset(segsB)[m.textB];
      multiset(MatchAll(segsA, segsB))[m] == na * nb
  {
    if |segsA| > 0 {
      var x := segsA[0];
      var row, rest := MatchRow(x, segsB), MatchAll(segsA[1..], segsB);
      var n: int := multiset(segsA)[m.textA];
      assert n == if x == m.textA then multiset(segsA[1..])[m.textA] + 1 else multiset(segsA[1..])[m.textA] by {
        MultisetOfCons(segsA);
      }
      assert multiset(MatchAll(segsA, segsB))[m] == multiset(row)[m] + multiset(rest)[m] by {
        assert MatchAll(segsA, segsB) == row + rest;
      }
      MatchRowCounts(x, segsB, m);
      MatchAllCounts(segsA[1..], segsB, m);
      CountStep(multiset(MatchAll(segsA, segsB))[m], multiset(row)[m], multiset(rest)[m],
        n, multiset(segsA[1..])[m.textA], multiset(segsB)[m.textB], x == m.textA);
    }
  }

  /** Sentence matching of two raw texts. The program's error result is always nil. */
  function CompareSegments(textA: string, textB: string): (r: seq<MatchingSegment>)
    ensures |r| <= |SegmentText(textA)| * |SegmentText(textB)|
    ensures forall m :: m in r <==>
      m.textA in SegmentText(textA) && m.textB in SegmentText(textB) && IsMatch(m)
  {
    MatchAllLength(SegmentText(textA), SegmentText(textB));
    MatchAllMembers(SegmentText(textA), SegmentText(textB));
    MatchAll(SegmentText(textA), SegmentText(textB))
  }

  /** Texts of at most one sentence each match in at most one pair. */
  lemma SingleSentencesMatchOnce(textA: string, textB: string)
    requires |SegmentText(textA)| <= 1 && |SegmentText(textB)| <= 1
    ensures |CompareSegments(textA, textB)| <= 1
  {
    SingleMatch(SegmentText(textA), SegmentText(textB));
  }

  lemma SingleMatch(segsA: seq<string>, segsB: seq<string>)
    requires |segsA| <= 1 && |segsB| <= 1
    ensures |MatchAll(segsA, segsB)| <= 1
  {
    if |segsA| == 1 {
      MatchRowSpec(segsA[0], segsB);
      assert MatchAll(segsA[1..], segsB) == [];
    }
  }

  /** How often each pair is reported: once for every pair of sentence
      positions holding it, when it matches. */
  lemma CompareSegmentsCounts(textA: string, textB: string, m: MatchingSegment)
    ensures var na: int, nb: int := multiset(SegmentText(textA))[m.textA], multiset(SegmentText(textB))[m.textB];
      multiset(CompareSegments(textA, textB))[m] == if IsMatch(m) then na * nb else 0
  {
    var segsA, segsB := SegmentText(textA), SegmentText(textB);
    assert CompareSegments(textA, textB) == MatchAll(segsA, segsB);
    if IsMatch(m) {
      MatchAllCounts(segsA, segsB, m);
    } else {
      MatchAllMembers(segsA, segsB);
    }
  }

  /** Comparing B with A reports the same pairs, mirrored. */
  lemma CompareSegmentsSwap(textA: string, textB: string, m: MatchingSegment)
    ensures m in CompareSegments(textA, textB)
        <==> MatchingSegment(m.textB, m.textA, m.score) in CompareSegments(textB, textA)
  {
    JaccardSymmetric(SegmentWords(m.textA), SegmentWords(m.textB));
  }
}
