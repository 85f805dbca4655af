# Similarity engine of a plagiarism detector, in Dafny

This project models the scoring core of a Go plagiarism-detection backend. It covers four parts:

- **Normalizer.** Lower-cases a text and blanks out every rune outside `[a-zA-Z0-9áéíóúÁÉÍÓÚñÑüÜ]`. It collapses white space, splits the result into tokens, and drops 17 English and Spanish stop words. It also builds overlapping 5-token shingles.
- **Similarity service.**
  - Set-based Jaccard, where two empty sets score 1.0.
  - TF-IDF cosine over the two-document corpus formed by the inputs.
  - Sentence matching: texts are split on `.`, `!` and `?`, and every sentence pair whose word-level Jaccard exceeds 0.5 is reported.
- **CompareTwo.** Fetches two documents from the store and compares them. Near-duplicate is Jaccard over shingles, topic is the cosine over tokens, and final is `0.6*near + 0.4*topic`.
- **The `Similar` handler's ranking.**
  - The `topK` query parameter is parsed and clamped.
  - The target document is skipped, and so is every document whose comparison fails.
  - Scores are rounded to whole percentages.
  - Rows are ordered by an exchange sort on the final percentage, and the first `topK` are kept.

Modules follow the program's structure:

- `Text`: the Go `strings`/`unicode` primitives the engine relies on.
- `Sequences`: sets, duplicate removal and sums over sequences.
- `Normalizer`.
- `Similarity`.
- `Documents`: the document store, as a map from id to stored text content.
- `Compare`.
- `Ranking`.

Scores are exact reals. The square root is a parameter `sqrt` of type `Root`, a function that is positive on positive inputs. The idf of a term found in one document only is the constant `1 + ln 2`, written as the exact decimal expansion of the double nearest to it (the value `1.0 + math.Log(2.0)` takes when `math.Log` is correctly rounded).

Stored text content is always the normalizer's output (internal/usecase/ingest.go:33). The model builds this in as lemmas about normalized text:

- tokenizing normalized text changes nothing;
- normalized text is at most one sentence.

## Model

| member | source | states |
|---|---|---|
| Text.Lower | internal/service/normalizer.go:16 | Lower-casing leaves no ASCII capital and none of the seven accented capitals. Each of those capitals moves exactly 0x20 code points up to its small letter. Only those capitals, dotted capital I and the Kelvin sign change. A rune is white space if and only if its lower-case form is. |
| Text.LowerString | internal/service/normalizer.go:16 | The lower-cased text has the input's length, and each rune is the lower-case form of the rune at the same position. |
| Text.Fields | internal/service/normalizer.go:18 | Every field is non-empty, free of white space, and made only of runes that occur in the text. |
| Text.FieldsAreMaximalRuns | internal/service/normalizer.go:18 | The fields are the maximal runs of non-space runes, in order. Between and around them there is only white space, and each field is followed by white space or the end of the text. |
| Text.MaximalRunsAreFields | internal/service/normalizer.go:18 | Any split of a text into maximal non-space runes is its field list, so the fields are the only such split. |
| Text.FieldsConcat | internal/service/normalizer.go:18 | Written one after another, the fields are the text with every white-space rune removed. |
| Text.JoinAppend | internal/service/normalizer.go:18 | Joining two non-empty lists is joining each and putting one separator between them. |
| Text.NonSpaceOfJoin | internal/service/normalizer.go:18 | Removing the spaces from a single-space join of words gives the words written one after another. |
| Text.TrimSpace | internal/service/similarity.go:141 | The result has no white space at either end and uses only runes of the input. A string with no white space at either end is returned unchanged. |
| Text.TrimSpaceIsSlice | internal/service/similarity.go:141 | The result is the slice of the input that starts after its leading white space. Everything after the slice is white space. |
| Text.Utf8Length | internal/usecase/compare.go:66-67 | The reported content length (UTF-8 bytes) is at least the number of runes and at most four times it. |
| Text.FieldsOfJoin | internal/service/normalizer.go:33 | Splitting a single-space join of words on white space gives back exactly those words. |
| Normalizer.Mask | internal/service/normalizer.go:17 | The masked text has the input's length. Each rune in the kept class stays where it is, and every other rune becomes one space. |
| Normalizer.NonSpaceOfMask | internal/service/normalizer.go:17 | Removing the spaces from the masked text leaves exactly the kept runes, in order. |
| Normalizer.LowerOfKept | internal/service/normalizer.go:16-17 | Lower-casing fixes every lower-case kept rune and turns every kept rune into a lower-case kept rune. |
| Normalizer.KeptRunesEmpty | internal/service/normalizer.go:17 | A text has no kept rune if and only if none of its runes is in the kept class. |
| Normalizer.Normalize | internal/service/normalizer.go:15-19 | Output holds only lower-case kept letters, digits and single spaces, with no space at either end. |
| Normalizer.NormalizeContents | internal/service/normalizer.go:15-19 | The words of the output are the fields of the lower-cased, masked input. With its spaces removed, the output is exactly the kept runes of the lower-cased input, in order. The output is empty if and only if no rune lower-cases to a kept rune. |
| Normalizer.NormalizeFixesExactlyNormalized | internal/service/normalizer.go:15-19 | Normalize leaves a text unchanged if and only if the text already has that shape. |
| Normalizer.NormalizeIdempotent | internal/service/normalizer.go:15-19 | Normalizing twice is the same as normalizing once. |
| Normalizer.DropStopwords | internal/service/normalizer.go:22-28 | A word survives if and only if it was present and is not a stop word. The result is never longer than the input. |
| Normalizer.DropStopwordsKeepsCounts | internal/service/normalizer.go:27 | Every non-stop-word keeps its number of occurrences. |
| Normalizer.DropStopwordsAppend | internal/service/normalizer.go:27 | Filtering distributes over concatenation, so the surviving words keep their order. |
| Normalizer.Tokenize | internal/service/normalizer.go:20-29 | Tokens are exactly the words of the normalized text that are not stop words. No token is empty, contains a space, or is a stop word. |
| Normalizer.TokenizeOfNormalized | internal/service/normalizer.go:20-21 | Tokenizing normalized text gives the same tokens as tokenizing the raw text. |
| Normalizer.Shingles | internal/service/normalizer.go:30-35 | With `k <= 1` or fewer than `k` tokens, the tokens are returned unchanged. Otherwise there are exactly `len-k+1` shingles, and shingle `i` is tokens `i..i+k` joined by single spaces. |
| Normalizer.Windows | internal/service/normalizer.go:32-33 | From position `i` the loop yields one shingle per remaining start position, and each is the `k` tokens from that start joined by single spaces. |
| Normalizer.ShingleFields | internal/service/normalizer.go:33 | Splitting shingle `i` on white space gives back tokens `i..i+k`. |
| Normalizer.ShinglesOverlap | internal/service/normalizer.go:32-33 | The last `k-1` words of a shingle are the first `k-1` words of the next. |
| Sequences.Distinct | internal/service/similarity.go:78-85 | The term list has each term of either document exactly once, and no other terms. |
| Sequences.SumPermutation | internal/service/similarity.go:89-103 | A sum does not depend on the order of its terms, so map iteration order cannot change the dot product or the norms. |
| Similarity.Jaccard | internal/service/similarity.go:16-52 | Two empty sets give (0, 0, 1.0). Otherwise intersection is the size of A∩B, union is the size of A∪B, 0 <= intersection <= union, union > 0 (so the zero-union branch is dead), and score = intersection/union, which lies in [0, 1]. |
| Similarity.CountOverlap | internal/service/similarity.go:31-44 | The two counting passes yield the size of A∩B and of A∪B, whatever order the sets are visited in. |
| Similarity.JaccardEmpty | internal/service/similarity.go:27-30 | Two empty inputs give intersection 0, union 0 and score 1.0. |
| Similarity.JaccardOfSameSets | internal/service/similarity.go:18-26 | Only the sets of the inputs matter: duplicates and order do not. |
| Similarity.JaccardSymmetric | internal/service/similarity.go:31-51 | Swapping the inputs gives the same result. |
| Similarity.JaccardSelf | internal/service/similarity.go:31-51 | A non-empty input compared with itself has intersection equal to union and score 1. |
| Similarity.JaccardDisjoint | internal/service/similarity.go:31-51 | Disjoint inputs, not both empty, have intersection 0 and score 0. |
| Similarity.DocumentFrequency | internal/service/similarity.go:69-76 | A term's document frequency is at most 2. It is 2 if and only if both documents contain the term, and 0 if and only if neither does. |
| Similarity.Idf | internal/service/similarity.go:91-98 | The idf is at least 1, and equals 1 if and only if the term occurs in both documents. |
| Similarity.WeightOfPresentTerm | internal/service/similarity.go:91-93 | A term that occurs in the document has a tf-idf weight of at least 1. |
| Similarity.SquaredNorm | internal/service/similarity.go:101-102 | A squared norm is non-negative, and positive if and only if the document has a token. |
| Similarity.DotProduct | internal/service/similarity.go:100 | The dot product is non-negative. |
| Similarity.CosineScore | internal/service/similarity.go:105-108 | The score is non-negative. It is 0 when either norm is 0 or the dot product is 0, and 1 when dot = na2 = nb2 > 0 and the root is exact. |
| Similarity.CosineTfIdf | internal/service/similarity.go:54-112 | The dot product, the norms and the score are non-negative. A norm is positive if and only if its document has a token. An empty input scores 0. |
| Similarity.DotProductIsCountProduct | internal/service/similarity.go:70-103 | The dot product equals the sum of raw count products, because a shared term has idf 1 and a one-sided term has count 0 on the other side. |
| Similarity.DotProductSymmetric | internal/service/similarity.go:89-103 | Swapping the documents leaves the dot product unchanged. |
| Similarity.SquaredNormSymmetric | internal/service/similarity.go:89-103 | A document's squared norm does not depend on the order of the two documents. |
| Similarity.CosineSymmetric | internal/service/similarity.go:54-112 | Swapping the inputs keeps the dot product and the score and swaps na2 with nb2. |
| Similarity.DotProductDisjoint | internal/service/similarity.go:89-103 | Documents with no common term have dot product 0. |
| Similarity.CosineDisjoint | internal/service/similarity.go:89-108 | Documents with no common term have dot product 0 and score 0. |
| Similarity.CosineSelf | internal/service/similarity.go:89-103 | A non-empty document compared with itself has dot = na2 = nb2 > 0. |
| Similarity.CosineSelfScore | internal/service/similarity.go:105-108 | With an exact square root, a non-empty document compared with itself scores 1. |
| Similarity.SplitSentences | internal/service/similarity.go:138 | There is at least one piece, and no piece contains `.`, `!` or `?`. Text without those runes is a single piece. |
| Similarity.SplitSentencesContents | internal/service/similarity.go:138 | There is one more piece than there are sentence-ending runes. Putting each of those runes back between consecutive pieces rebuilds the text exactly. |
| Similarity.TrimmedNonEmpty | internal/service/similarity.go:140-145 | Every kept piece is non-empty, trimmed and unpunctuated, and there are no more pieces than went in. |
| Similarity.TrimmedNonEmptyContents | internal/service/similarity.go:140-145 | The kept pieces are exactly the trimmed forms of the pieces that are not blank. |
| Similarity.TrimmedNonEmptyAppend | internal/service/similarity.go:139-145 | Filtering distributes over concatenation, so kept pieces keep their order and their multiplicity. |
| Similarity.TrimmedNonEmptySingle | internal/service/similarity.go:141-144 | One piece is kept, trimmed, if and only if it is not blank. |
| Similarity.SegmentText | internal/service/similarity.go:136-147 | Every segment is non-empty, trimmed and free of `.`, `!` and `?`. |
| Similarity.SegmentsOfUnpunctuated | internal/service/similarity.go:136-147 | Text without sentence punctuation and trimmed at both ends is one segment, or none when empty. |
| Similarity.SegmentWordsAreRuns | internal/service/similarity.go:122 | A sentence's words are the maximal non-space runs of its lower-cased form. Written one after another, they are that form with white space removed. |
| Similarity.MatchHead | internal/service/similarity.go:122-129 | A pair of sentences is reported, at most once, if and only if its word-level Jaccard score exceeds 0.5, and it carries that score. |
| Similarity.MatchRowSpec | internal/service/similarity.go:120-130 | One sentence of A yields at most one match per sentence of B, and exactly the matching pairs. |
| Similarity.MatchRowCounts | internal/service/similarity.go:120-130 | For one sentence of A, a matching pair is reported as many times as its B sentence occurs in B, provided its A sentence is that sentence. |
| Similarity.MatchAllCounts | internal/service/similarity.go:119-131 | A matching pair is reported (occurrences in A) × (occurrences in B) times. |
| Similarity.MatchAllLength | internal/service/similarity.go:119-131 | There are at most as many matches as sentence pairs. |
| Similarity.MatchAllMembers | internal/service/similarity.go:119-131 | A pair is reported if and only if its sentences come from A and B and it scores above 0.5. |
| Similarity.MatchAllAppend | internal/service/similarity.go:119-131 | Matches come in A-sentence-major order: matches for earlier sentences of A precede those of later ones. |
| Similarity.CompareSegments | internal/service/similarity.go:114-133 | At most `len(segA)*len(segB)` matches, and a pair is reported if and only if its segments come from the two texts and its score is above 0.5. |
| Similarity.CompareSegmentsCounts | internal/service/similarity.go:114-133 | A pair is reported (occurrences of its A sentence) × (occurrences of its B sentence) times when it scores above 0.5, and never otherwise. |
| Similarity.CompareSegmentsSwap | internal/service/similarity.go:122-123 | Comparing B with A reports the same pairs, mirrored. |
| Similarity.SingleSentencesMatchOnce | internal/service/similarity.go:119-131 | Texts of at most one sentence each produce at most one match. |
| Documents.Get | internal/repo/fsrepo.go:46-60 | A stored id yields its text content, and any other id yields NotFound for that id. |
| Compare.CompareTexts | internal/usecase/compare.go:44-78 | Near-duplicate is the Jaccard score of the two texts' 5-shingles, and topic is the TF-IDF cosine of their tokens. Final is 0.6·near + 0.4·topic. Near lies in [0, 1], topic and final are non-negative, and final <= 1 whenever topic <= 1. Matching segments are the sentence comparison of the raw texts. Token and shingle counts are those of each text, and content lengths are their UTF-8 byte counts. |
| Compare.WeightedSumBounds | internal/usecase/compare.go:56 | The weighted sum of a near score in [0, 1] and a non-negative topic score is non-negative, and at most 1 when topic is at most 1. |
| Compare.SameTokensSameScores | internal/usecase/compare.go:45-56 | Texts with the same tokens get the same Jaccard and cosine results. |
| Compare.ShingleCounts | internal/usecase/compare.go:48-50 | The shingle count is the token count minus 4 when there are at least 5 tokens, and the token count otherwise. |
| Compare.CompareTwo | internal/usecase/compare.go:33-79 | A missing first id fails with NotFound for it. Otherwise a missing second id fails with NotFound for that one. The call succeeds if and only if both are stored, and then its value is the comparison of the two stored texts. |
| Compare.EmptyDocuments | internal/usecase/compare.go:52-56 | Two texts without tokens give Jaccard (0, 0, 1.0), near 1, topic 0 and final 0.6. |
| Compare.IdenticalContent | internal/usecase/compare.go:52-56 | A text with a token compared with itself has intersection = union, near 1, dot = na2 = nb2 > 0, and final = 0.6 + 0.4·topic. |
| Compare.CompareTextsSwap | internal/usecase/compare.go:45-77 | Swapping the texts swaps the per-document counts and norms, and leaves Jaccard, the dot product, near, topic and final unchanged. |
| Compare.CompareTwoSwap | internal/usecase/compare.go:33-79 | Swapping the ids succeeds in the same cases, with the same Jaccard, dot product, near, topic and final. |
| Compare.ShingleWordsAreTokens | internal/service/normalizer.go:33 | Every word of a 5-shingle is one of the tokens it was built from. |
| Compare.TokensAreWords | internal/service/normalizer.go:21-27 | Tokens are non-empty and contain no white space. |
| Compare.DisjointShingles | internal/service/normalizer.go:30-35 | Token lists with no common token have no common shingle. |
| Compare.DisjointVocabulary | internal/usecase/compare.go:52-56 | Texts with no common token, not both empty, have intersection 0 and near, topic and final all 0. |
| Compare.NormalizedIsOneSegment | internal/service/similarity.go:136-147 | Normalized text is at most one sentence. |
| Compare.NormalizedTextsMatchOnce | internal/usecase/compare.go:59 | Two normalized texts produce at most one matching sentence pair. |
| Compare.StoredDocumentsMatchOnce | internal/usecase/ingest.go:33 | When every stored text is normalizer output, a successful comparison reports at most one matching pair. |
| Compare.StoredTextScores | internal/usecase/compare.go:45-56 | Comparing normalized texts gives the same Jaccard, cosine, near, topic and final as comparing the raw texts they came from. |
| Ranking.ParseInt | internal/api/handlers.go:135 | Parsing succeeds if and only if the query is a base-10 numeral (digits, optionally after one `+` or `-`) whose value lies in the 64-bit range. Its value is then the numeral's value. |
| Ranking.ParsedInRange | internal/api/handlers.go:135 | A successfully parsed value lies in the 64-bit range, and the query contains a digit. |
| Ranking.ParseDigits | internal/api/handlers.go:135 | A digit string parses to its value when that is at most 2^63-1 and fails otherwise. A leading `+` changes nothing, and a leading `-` gives the negated value when it is at least -2^63. |
| Ranking.LeadingZero | internal/api/handlers.go:135 | A leading zero does not change the value of a digit string. |
| Ranking.ParseLeadingZero | internal/api/handlers.go:135 | A numeral with a leading zero parses exactly as the one without it, signed or not. |
| Ranking.ParseDecimal | internal/api/handlers.go:135 | A decimal numeral parses to its value when that fits in 64 bits and fails otherwise. A leading `+` changes nothing, and a leading `-` negates. |
| Ranking.TopK | internal/api/handlers.go:133-138 | topK lies in 1..100. It is the parsed value when that lies in 1..100, and 10 in every other case. |
| Ranking.TopKOfDecimal | internal/api/handlers.go:133-138 | A numeral `n` gives topK `n` when 1 <= n <= 100, and 10 otherwise. |
| Ranking.Truncate | internal/api/handlers.go:160-162 | Conversion to int truncates toward zero. |
| Ranking.Percent | internal/api/handlers.go:160-162 | The percentage is score·100 + 0.5 truncated toward zero: within 1 of it, on the side of zero. |
| Ranking.PercentOfUnitScore | internal/api/handlers.go:160-162 | A score in [0, 1] becomes floor(score·100 + 0.5), a whole percentage in 0..100 within 0.5 of score·100. |
| Ranking.PercentMonotone | internal/api/handlers.go:160-162 | Rounding to percentages never reverses the order of two scores. |
| Ranking.PercentNonnegative | internal/api/handlers.go:160-162 | A non-negative score gives a non-negative percentage. |
| Ranking.RowOf | internal/api/handlers.go:158-163 | The row carries the document's id, and each score in [0, 1] becomes a whole percentage in 0..100 within 0.5 of score·100. |
| Ranking.Candidate | internal/api/handlers.go:153-164 | A listed id gets a row if and only if it is not the target and its comparison succeeds. The row carries that id and the rounded scores of that comparison. |
| Ranking.CollectRows | internal/api/handlers.go:151-165 | No more rows than listed ids. Every row belongs to a listed id other than the target, holds the rounded scores of a successful comparison, and has its near-duplicate percentage in 0..100. |
| Ranking.CollectRowsAppend | internal/api/handlers.go:152-165 | Collecting over a concatenated listing gives the rows of the first part followed by those of the second. |
| Ranking.CollectRowsSingle | internal/api/handlers.go:153-164 | A single listed id contributes exactly its candidate row, or nothing. |
| Ranking.CollectedIdsInOrder | internal/api/handlers.go:151-165 | The rows' ids are the listed ids that are not the target and compare successfully, in listing order and with repeats kept: one row per such listed id. |
| Ranking.CollectedIds | internal/api/handlers.go:152-165 | An id has a row if and only if it is listed, is not the target, and compares successfully, so a failed comparison skips that id without aborting the ranking. |
| Ranking.UnknownTarget | internal/api/handlers.go:156-157 | An unstored target compares with nothing, so the ranking is empty. |
| Ranking.Swap | internal/api/handlers.go:170 | Exchanging two rows changes only those two positions and keeps the same rows. |
| Ranking.ExchangeSort | internal/api/handlers.go:167-173 | The result is a permutation of the rows, ordered by non-increasing final percentage. |
| Ranking.TopRows | internal/api/handlers.go:174-176 | The result is the prefix of length min(#rows, topK). |
| Ranking.TopOfSortedIsRanked | internal/api/handlers.go:166-176 | A prefix of a sorted permutation is sorted and drawn from the rows, has the maximal length, and no dropped row has a higher final percentage than a kept one. |
| Ranking.Similar | internal/api/handlers.go:131-178 | A failed listing fails the request with that error. Otherwise the response holds a best-first selection of min(#rows, topK) of the collected rows, each for a listed id other than the target. An unstored target gives an empty ranking. |

## Left out

- Every `log.Printf`/`log.Println` call: logging has no effect on results.
- Floating point: scores are exact reals, so rounding in sums and divisions is not modelled.
- Similarity.CosineTfIdf: `math.Sqrt` is the parameter `sqrt`, known only to be positive on positive inputs. `math.Log` appears only as the constant value of `1 + ln 2`, since the document frequency is always 1 or 2.
- Compare.CompareTexts: does not state `topicSimilarity <= 1`, so it does not bound `final` by 1 unconditionally. That bound is the Cauchy–Schwarz inequality, which would need more of the square root than positivity.
- Compare.IdenticalContent: does not state `final == 1`. With the parameter `sqrt` that needs an exact root, which Similarity.CosineSelfScore assumes and which `math.Sqrt` does not always give.
- Text.Lower: `unicode.ToLower` is modelled on the runes that can reach a kept letter: ASCII capitals, the seven accented capitals, U+0130 and U+212A. Every other rune is left unchanged. That includes every other capital: Latin-1 capitals such as À, Ç and Ö, as well as Greek, Cyrillic and the rest, which Go lowers. The normalizer blanks all of these either way, so tokens, shingles and the scores built on them are unaffected. Sentence matching lower-cases raw text itself, so there `Fields(ToLower(seg))` keeps such a capital as it is: "Ça va" against "ça va" scores 1/3 in the model, where Go scores 1.0. Stored text has already been through the normalizer and contains no such capital, so comparisons of stored documents are unaffected.
- Similarity.SplitSentences: the regular expression `[.!?]\s*` is modelled as a cut at each of `.`, `!` and `?`. The white space after the cut stays in the next piece and is removed by the trim that follows, which gives the same sentences.
- Similarity.CompareSegments: the error result, which is always nil, is not modelled. A nil slice and an empty slice are the same empty sequence.
- Documents.Get: the repository's filesystem lookup (sidecar JSON, id format check) is a map. An id of the wrong shape and an unreadable sidecar both answer NotFound for that id.
- Ranking.Similar: the listing of ids is a parameter. Its order is Go map iteration order, so any order is allowed, and a listing error arrives as a failure that the handler passes on (HTTP 500 in the source). Whether the JSON body is `null` or `[]` for no rows, the HTTP encoding, and the path and query extraction are not modelled.
- Ranking.PercentOfUnitScore: is stated for scores in [0, 1]. Beyond that, Ranking.PercentNonnegative and Ranking.PercentMonotone hold. Conversion of values beyond the 64-bit range is not modelled.
- The other handlers (upload, document listing and deletion, the single comparison endpoint, login, user management, the auth middleware), the user repository, the extractors, JWT, configuration and the server wiring are not part of this model.
- Ingestion (internal/usecase/ingest.go) is not modelled. Its one relevant fact, that stored text is the normalizer's output, enters as the precondition of Compare.StoredDocumentsMatchOnce.
