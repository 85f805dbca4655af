/** Comparing two stored documents (internal/usecase/compare.go): tokens and
    5-shingles of each text, Jaccard over the shingles as the near-duplicate
    score, TF-IDF cosine over the tokens as the topic score, their weighted sum
    as the final score, and sentence matches of the two texts. */
module Compare {
  import opened Text
  import opened Sequences
  import opened Normalizer
  import opened Similarity
  import opened Documents

  /** Tokens per shingle. */
  const ShingleSize: int := 5

  /** Weights of the near-duplicate and topic scores in the final score. */
  const NearWeight: real := 0.6
  const TopicWeight: real := 0.4

  datatype CompareResult = CompareResult(
    doc1TextContentLength: nat,
    doc2TextContentLength: nat,
    doc1TokensLength: nat,
    doc2TokensLength: nat,
    doc1ShinglesLength: nat,
    doc2ShinglesLength: nat,
    jaccard: JaccardResult,
    cosine: CosineResult,
    nearDuplicate: real,
    topicSimilarity: real,
    final: real,
    matchingSegments: seq<MatchingSegment>)

  /** The comparison of two fetched texts. */
  function CompareTexts(text1: string, text2: string, sqrt: Root): (r: CompareResult)
    ensures r.doc1TextContentLength == Utf8Length(text1) && r.doc2TextContentLength == Utf8Length(text2)
    ensures r.doc1TextContentLength >= |text1| && r.doc2TextContentLength >= |text2|
    ensures r.doc1TokensLength == |Tokenize(text1)| && r.doc2TokensLength == |Tokenize(text2)|
    ensures r.doc1ShinglesLength == |Shingles(Tokenize(text1), ShingleSize)|
    ensures r.doc2ShinglesLength == |Shingles(Tokenize(text2), ShingleSize)|
    ensures r.jaccard == Jaccard(Shingles(Tokenize(text1), ShingleSize), Shingles(Tokenize(text2), ShingleSize))
    ensures r.cosine == CosineTfIdf(Tokenize(text1), Tokenize(text2), sqrt)
    ensures r.nearDuplicate == r.jaccard.score && r.topicSimilarity == r.cosine.score
    ensures r.final == NearWeight * r.nearDuplicate + TopicWeight * r.topicSimilarity
    ensures r.matchingSegments == CompareSegments(text1, text2)
    ensures 0.0 <= r.nearDuplicate <= 1.0 && 0.0 <= r.topicSimilarity
    ensures 0.0 <= r.final
    ensures r.topicSimilarity <= 1.0 ==> r.final <= 1.0
  {
    var tok1, tok2 := Tokenize(text1), Tokenize(text2);
    var sh1, sh2 := Shingles(tok1, ShingleSize), Shingles(tok2, ShingleSize);
    var jaccard := Jaccard(sh1, sh2);
    var cosine := CosineTfIdf(tok1, tok2, sqrt);
    var near := jaccard.score;
    var topic := cosine.score;
    var final := NearWeight * near + TopicWeight * topic;
    WeightedSumBounds(near, topic);
    CompareResult(
      Utf8Length(text1), Utf8Length(text2),
      |tok1|, |tok2|, |sh1|, |sh2|,
      jaccard, cosine, near, topic, final,
      CompareSegments(text1, text2))
  }

  /** The final score of scores in range is in range. */
  lemma WeightedSumBounds(near: real, topic: real)
    requires 0.0 <= near <= 1.0 && 0.0 <= topic
    ensures 0.0 <= NearWeight * near + TopicWeight * topic
    ensures topic <= 1.0 ==> NearWeight * near + TopicWeight * topic <= 1.0
  {
  }

  /** The shingle counts reported for each document: four fewer than its
      tokens when it has at least five, otherwise one per token. */
  lemma ShingleCounts(text1: string, text2: string, sqrt: Root)
    ensures var r := CompareTexts(text1, text2, sqrt);
      && r.doc1ShinglesLength == (if r.doc1TokensLength >= 5 then r.doc1TokensLength - 4 else r.doc1TokensLength)
      && r.doc2ShinglesLength == (if r.doc2TokensLength >= 5 then r.doc2TokensLength - 4 else r.doc2TokensLength)
  {
    var tok1, tok2 := Tokenize(text1), Tokenize(text2);
    var n1, n2 := |Shingles(tok1, ShingleSize)|, |Shingles(tok2, ShingleSize)|;
    assert n1 == if |tok1| >= 5 then |tok1| - 4 else |tok1|;
    assert n2 == if |tok2| >= 5 then |tok2| - 4 else |tok2|;
  }

  /** Fetches both documents, the first id first, and compares them; a missing
      document fails the whole comparison with no partial result. */
  function CompareTwo(store: Store, id1: string, id2: string, sqrt: Root): (r: Result<CompareResult>)
    ensures id1 !in store ==> r == Failure(NotFound(id1))
    ensures id1 in store && id2 !in store ==> r == Failure(NotFound(id2))
    ensures r.Ok? <==> id1 in store && id2 in store
    ensures r.Ok? ==> r.value == CompareTexts(store[id1], store[id2], sqrt)
  {
    match Get(store, id1)
    case Failure(e) => Failure(e)
    case Ok(text1) =>
      match Get(store, id2)
      case Failure(e) => Failure(e)
      case Ok(text2) => Ok(CompareTexts(text1, text2, sqrt))
  }

  /** Two texts without tokens: the empty shingle sets are a perfect
      near-duplicate, the cosine of two empty vectors is 0. */
  lemma EmptyDocuments(text1: string, text2: string, sqrt: Root)
    requires Tokenize(text1) == [] && Tokenize(text2) == []
    ensures var r := CompareTexts(text1, text2, sqrt);
      && r.jaccard == JaccardResult(0, 0, 1.0)
      && r.nearDuplicate == 1.0
      && r.topicSimilarity == 0.0
      && r.final == 0.6
  {
    JaccardEmpty(Shingles(Tokenize(text1), ShingleSize), Shingles(Tokenize(text2), ShingleSize));
  }

  /** A text with at least one token compared with itself: every shingle is
      shared, and the dot product equals both squared norms, so the final
      score is 0.6 plus 0.4 times the cosine (which is 1 with an exact square
      root, see `CosineSelfScore`). */
  lemma IdenticalContent(text: string, sqrt: Root)
    requires |Tokenize(text)| > 0
    ensures var r := CompareTexts(text, text, sqrt);
      && r.jaccard.intersection == r.jaccard.union
      && r.nearDuplicate == 1.0
      && r.cosine.dot == r.cosine.na2 == r.cosine.nb2 > 0.0
      && r.final == 0.6 + 0.4 * r.topicSimilarity
  {
    var tok := Tokenize(text);
    JaccardSelf(Shingles(tok, ShingleSize));
    CosineSelf(tok, sqrt);
  }

  /** Swapping the two texts leaves the shingle overlap unchanged. */
  lemma SwapNearDuplicate(text1: string, text2: string, sqrt: Root)
    ensures var r, s := CompareTexts(text1, text2, sqrt), CompareTexts(text2, text1, sqrt);
      s.jaccard == r.jaccard && s.nearDuplicate == r.nearDuplicate
  {
    var tok1, tok2 := Tokenize(text1), Tokenize(text2);
    JaccardSymmetric(Shingles(tok1, ShingleSize), Shingles(tok2, ShingleSize));
  }

  /** Swapping the two texts keeps the dot product and cosine and swaps the norms. */
  lemma SwapTopic(text1: string, text2: string, sqrt: Root)
    ensures var r, s := CompareTexts(text1, text2, sqrt), CompareTexts(text2, text1, sqrt);
      && s.cosine.dot == r.cosine.dot
      && s.cosine.na2 == r.cosine.nb2 && s.cosine.nb2 == r.cosine.na2
      && s.topicSimilarity == r.topicSimilarity
  {
    CosineSymmetric(Tokenize(text1), Tokenize(text2), sqrt);
  }

  /** Swapping the two texts swaps the per-document fields and leaves every
      score unchanged. */
  lemma CompareTextsSwap(text1: string, text2: string, sqrt: Root)
    ensures var r, s := CompareTexts(text1, text2, sqrt), CompareTexts(text2, text1, sqrt);
      && s.doc1TokensLength == r.doc2TokensLength && s.doc2TokensLength == r.doc1TokensLength
      && s.doc1ShinglesLength == r.doc2ShinglesLength && s.doc2ShinglesLength == r.doc1ShinglesLength
      && s.jaccard == r.jaccard
      && s.cosine.dot == r.cosine.dot
      && s.cosine.na2 == r.cosine.nb2 && s.cosine.nb2 == r.cosine.na2
      && s.nearDuplicate == r.nearDuplicate
      && s.topicSimilarity == r.topicSimilarity
      && s.final == r.final
  {
    SwapNearDuplicate(text1, text2, sqrt);
    SwapTopic(text1, text2, sqrt);
  }

  /** Comparing in the other order succeeds in the same cases, with the same scores. */
  lemma CompareTwoSwap(store: Store, id1: string, id2: string, sqrt: Root)
    ensures CompareTwo(store, id1, id2, sqrt).Ok? == CompareTwo(store, id2, id1, sqrt).Ok?
    ensures CompareTwo(store, id1, id2, sqrt).Ok? ==>
      var r, s := CompareTwo(store, id1, id2, sqrt).value, CompareTwo(store, id2, id1, sqrt).value;
      s.jaccard == r.jaccard && s.cosine.dot == r.cosine.dot
      && s.nearDuplicate == r.nearDuplicate && s.topicSimilarity == r.topicSimilarity
      && s.final == r.final
  {
    if id1 in store && id2 in store {
      CompareTextsSwap(store[id1], store[id2], sqrt);
    }
  }

  /** Every word of a shingle is one of the tokens it was built from. */
  lemma ShingleWordsAreTokens(tokens: seq<string>, s: string)
    requires forall t :: t in tokens ==> IsWord(t)
    requires s in Shingles(tokens, ShingleSize)
    ensures |Fields(s)| > 0 && Fields(s)[0] in tokens
    ensures forall w :: w in Fields(s) ==> w in tokens
  {
    var sh := Shingles(tokens, ShingleSize);
    if |tokens| >= ShingleSize {
      var i :| 0 <= i < |sh| && sh[i] == s;
      ShingleFields(tokens, ShingleSize, i);
      assert tokens[i] in Fields(s);
    } else {
      assert s in tokens;
      FieldsOfJoin([s]);
    }
  }

  /** Tokens are words: non-empty and free of white space. */
  lemma TokensAreWords(text: string)
    ensures forall t :: t in Tokenize(text) ==> IsWord(t)
  {
    forall t | t in Tokenize(text) ensures IsWord(t) {
      forall i | 0 <= i < |t| ensures !IsSpace(t[i]) { NormalRuneIsNotSpace(t[i]); }
    }
  }

  /** Token sequences without a common token have no common shingle. */
  lemma DisjointShingles(tok1: seq<string>, tok2: seq<string>)
    requires forall t :: t in tok1 ==> IsWord(t)
    requires forall t :: t in tok2 ==> IsWord(t)
    requires forall t :: t in tok1 ==> t !in tok2
    ensures forall s :: s in Shingles(tok1, ShingleSize) ==> s !in Shingles(tok2, ShingleSize)
  {
    var sh1, sh2 := Shingles(tok1, ShingleSize), Shingles(tok2, ShingleSize);
    forall s | s in sh1 && s in sh2
      ensures false
    {
      ShingleWordsAreTokens(tok1, s);
      ShingleWordsAreTokens(tok2, s);
    }
  }

  /** Texts without a common token share no shingle, so every score is 0. */
  lemma DisjointVocabulary(text1: string, text2: string, sqrt: Root)
    requires forall t :: t in Tokenize(text1) ==> t !in Tokenize(text2)
    requires |Tokenize(text1)| + |Tokenize(text2)| > 0
    ensures var r := CompareTexts(text1, text2, sqrt);
      && r.jaccard.intersection == 0
      && r.nearDuplicate == 0.0
      && r.topicSimilarity == 0.0
      && r.final == 0.0
  {
    var tok1, tok2 := Tokenize(text1), Tokenize(text2);
    var sh1, sh2 := Shingles(tok1, ShingleSize), Shingles(tok2, ShingleSize);
    TokensAreWords(text1);
    TokensAreWords(text2);
    DisjointShingles(tok1, tok2);
    JaccardDisjoint(sh1, sh2);
    CosineDisjoint(tok1, tok2, sqrt);
  }

  /** Normalized text has no sentence punctuation, so it is at most one
      sentence and two such texts match in at most one pair. */
  lemma NormalizedTextsMatchOnce(text1: string, text2: string, sqrt: Root)
    requires IsNormalized(text1) && IsNormalized(text2)
    ensures |CompareTexts(text1, text2, sqrt).matchingSegments| <= 1
  {
    NormalizedIsOneSegment(text1);
    NormalizedIsOneSegment(text2);
    SingleSentencesMatchOnce(text1, text2);
    assert CompareTexts(text1, text2, sqrt).matchingSegments == CompareSegments(text1, text2);
  }

  lemma NormalizedIsOneSegment(t: string)
    requires IsNormalized(t)
    ensures |SegmentText(t)| <= 1
  {
    assert Unpunctuated(t) by {
      forall c | c in t ensures !IsSentenceEnd(c) {
        var i :| 0 <= i < |t| && t[i] == c;
      }
    }
    if |t| > 0 {
      NormalRuneIsNotSpace(t[0]);
      NormalRuneIsNotSpace(t[|t| - 1]);
    }
    SegmentsOfUnpunctuated(t);
  }

  /** Stored text content is the normalizer's output, so comparing two stored
      documents reports at most one matching sentence pair. */
  lemma StoredDocumentsMatchOnce(store: Store, id1: string, id2: string, sqrt: Root)
    requires forall id :: id in store ==> IsNormalized(store[id])
    ensures CompareTwo(store, id1, id2, sqrt).Ok? ==>
      |CompareTwo(store, id1, id2, sqrt).value.matchingSegments| <= 1
  {
    if id1 in store && id2 in store {
      NormalizedTextsMatchOnce(store[id1], store[id2], sqrt);
    }
  }

  /** Token-based scores of stored (normalized) text equal those of the raw
      text it was normalized from. */
  lemma StoredTextScores(raw1: string, raw2: string, sqrt: Root)
    ensures var r, s := CompareTexts(Normalize(raw1), Normalize(raw2), sqrt), CompareTexts(raw1, raw2, sqrt);
      && r.jaccard == s.jaccard && r.cosine == s.cosine
      && r.nearDuplicate == s.nearDuplicate && r.topicSimilarity == s.topicSimilarity
      && r.final == s.final
  {
    TokenizeOfNormalized(raw1);
    TokenizeOfNormalized(raw2);
    SameTokensSameScores(Normalize(raw1), Normalize(raw2), raw1, raw2, sqrt);
  }

  /** The scores depend on the texts only through their tokens. */
  lemma SameTokensSameScores(x1: string, x2: string, y1: string, y2: string, sqrt: Root)
    requires Tokenize(x1) == Tokenize(y1) && Tokenize(x2) == Tokenize(y2)
    ensures CompareTexts(x1, x2, sqrt).jaccard == CompareTexts(y1, y2, sqrt).jaccard
    ensures CompareTexts(x1, x2, sqrt).cosine == CompareTexts(y1, y2, sqrt).cosine
  {
  }
}
