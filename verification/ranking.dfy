/** The ranking behind `GET /documents/{id}/similar` (internal/api/handlers.go):
    compare the target with every other listed document, turn the scores into
    rounded percentages, order by the final percentage (highest first) and
    keep the first `topK` rows. */
module Ranking {
  import opened Similarity
  import opened Documents
  import opened Compare

  datatype Option<T> = None | Some(value: T)

  /** The range of Go's 64-bit `int`. */
  const MaxInt: int := 0x7FFF_FFFF_FFFF_FFFF
  const MinInt: int := -0x8000_0000_0000_0000

  /** `topK` when the query gives none, or an unusable one. */
  const DefaultTopK: int := 10

  /** The largest `topK` a query may ask for. */
  const MaxTopK: int := 100

  // ---------------------------------------------------------------------
  // Parsing topK
  // ---------------------------------------------------------------------

  predicate IsDigit(c: char) {
    '0' <= c <= '9'
  }

  predicate AllDigits(s: string) {
    forall i :: 0 <= i < |s| ==> IsDigit(s[i])
  }

  /** The value of a string of decimal digits, most significant first. */
  function DigitsValue(s: string): nat
    requires AllDigits(s)
  {
    if |s| == 0 then 0
    else DigitsValue(s[..|s| - 1]) * 10 + (s[|s| - 1] as int - '0' as int)
  }

  /** The syntax `strconv.Atoi` accepts in base 10: digits, or a `+` or `-`
      followed by digits; at least one digit either way. */
  predicate IsNumeral(q: string) {
    || (|q| > 0 && AllDigits(q))
    || (|q| > 1 && (q[0] == '+' || q[0] == '-') && AllDigits(q[1..]))
  }

  /** The value a numeral denotes, leading zeros included. */
  function NumeralValue(q: string): int
    requires IsNumeral(q)
  {
    if AllDigits(q) then DigitsValue(q)
    else if q[0] == '-' then -(DigitsValue(q[1..]) as int)
    else DigitsValue(q[1..])
  }

  /** `strconv.Atoi` in base 10: an optional sign followed by at least one
      ASCII digit, with a value in the 64-bit range; anything else fails. */
  function ParseInt(q: string): (r: Option<int>)
    ensures r.Some? <==> IsNumeral(q) && MinInt <= NumeralValue(q) <= MaxInt
    ensures r.Some? ==> r.value == NumeralValue(q)
  {
    var signed := |q| > 0 && (q[0] == '-' || q[0] == '+');
    var digits := if signed then q[1..] else q;
    if |digits| == 0 || !AllDigits(digits) then None
    else
      assert IsDigit(q[|q| - 1]);
      var magnitude: int := DigitsValue(digits);
      var v := if q[0] == '-' then -magnitude else magnitude;
      if MinInt <= v <= MaxInt then Some(v) else None
  }

  /** A parsed value lies in the 64-bit range, and the query holds a digit. */
  lemma ParsedInRange(q: string)
    requires ParseInt(q).Some?
    ensures MinInt <= ParseInt(q).value <= MaxInt
    ensures exists i :: 0 <= i < |q| && IsDigit(q[i])
  {
    assert IsDigit(q[|q| - 1]);
  }

  /** The canonical decimal rendering of a natural number. */
  function Decimal(n: nat): (r: string)
    ensures |r| > 0 && AllDigits(r)
  {
    if n < 10 then ['0' + n as char]
    else Decimal(n / 10) + ['0' + (n % 10) as char]
  }

  lemma {:induction false} DecimalValue(n: nat)
    ensures DigitsValue(Decimal(n)) == n
  {
    var s := Decimal(n);
    if n >= 10 {
      DecimalValue(n / 10);
      assert s[..|s| - 1] == Decimal(n / 10);
    }
  }

  /** What `ParseInt` gives for a digit string, with or without a sign. */
  lemma ParseDigits(s: string)
    requires |s| > 0 && AllDigits(s)
    ensures ParseInt(s) == if DigitsValue(s) <= MaxInt then Some(DigitsValue(s)) else None
    ensures ParseInt("+" + s) == ParseInt(s)
    ensures ParseInt("-" + s) == if -(DigitsValue(s) as int) >= MinInt then Some(-(DigitsValue(s) as int)) else None
  {
    assert IsNumeral(s) && NumeralValue(s) == DigitsValue(s);
    var p, m := "+" + s, "-" + s;
    assert p[1..] == s && !IsDigit(p[0]);
    assert IsNumeral(p) && NumeralValue(p) == DigitsValue(s);
    assert m[1..] == s && !IsDigit(m[0]);
    assert IsNumeral(m) && NumeralValue(m) == -(DigitsValue(s) as int);
  }

  /** Reading back a rendered number gives the number; with a minus sign, its negation. */
  lemma ParseDecimal(n: nat)
    ensures ParseInt(Decimal(n)) == if n <= MaxInt then Some(n) else None
    ensures ParseInt("+" + Decimal(n)) == ParseInt(Decimal(n))
    ensures n <= -MinInt ==> ParseInt("-" + Decimal(n)).Some? && ParseInt("-" + Decimal(n)).value == -(n as int)
  {
    DecimalValue(n);
    ParseDigits(Decimal(n));
  }

  /** A leading zero does not change the value of a string of digits. */
  lemma {:induction false} LeadingZero(s: string)
    requires AllDigits(s)
    ensures AllDigits("0" + s) && DigitsValue("0" + s) == DigitsValue(s)
    decreases |s|
  {
    var t := "0" + s;
    if |s| > 0 {
      assert t[..|t| - 1] == "0" + s[..|s| - 1];
      assert t[|t| - 1] == s[|s| - 1];
      LeadingZero(s[..|s| - 1]);
    } else {
      assert t[..|t| - 1] == "";
    }
  }

  /** Numerals with leading zeros parse to the same value as without them,
      with or without a sign. */
  lemma ParseLeadingZero(s: string)
    requires |s| > 0 && AllDigits(s)
    ensures ParseInt("0" + s) == ParseInt(s)
    ensures ParseInt("-" + ("0" + s)) == ParseInt("-" + s)
    ensures ParseInt("+" + ("0" + s)) == ParseInt("+" + s)
  {
    LeadingZero(s);
    ParseDigits(s);
    ParseDigits("0" + s);
  }

  /** The page size: the query's value when it parses to an integer in
      1..100, otherwise 10. */
  function TopK(q: string): (k: int)
    ensures 1 <= k <= MaxTopK
    ensures ParseInt(q) == Some(k) || k == DefaultTopK
    ensures ParseInt(q).Some? && 1 <= ParseInt(q).value <= MaxTopK ==> k == ParseInt(q).value
  {
    if q == "" then DefaultTopK
    else
      match ParseInt(q)
      case Some(n) => if 0 < n <= MaxTopK then n else DefaultTopK
      case None => DefaultTopK
  }

  /** A rendered count is used as given when in 1..100, and replaced by 10 otherwise. */
  lemma TopKOfDecimal(n: nat)
    ensures TopK(Decimal(n)) == if 1 <= n <= MaxTopK then n else DefaultTopK
  {
    ParseDecimal(n);
  }

  // ---------------------------------------------------------------------
  // Percentages
  // ---------------------------------------------------------------------

  /** Go's float-to-int conversion: truncation toward zero. */
  function Truncate(x: real): (r: int)
    ensures x >= 0.0 ==> r as real <= x < r as real + 1.0
    ensures x < 0.0 ==> r as real - 1.0 < x <= r as real
  {
    if x >= 0.0 then x.Floor else -((-x).Floor)
  }

  /** A score as a whole percentage: `int(score*100 + 0.5)`, which rounds
      toward zero. */
  function Percent(score: real): (r: int)
    ensures score * 100.0 + 0.5 >= 0.0 ==> r as real <= score * 100.0 + 0.5 < r as real + 1.0
    ensures score * 100.0 + 0.5 < 0.0 ==> r as real - 1.0 < score * 100.0 + 0.5 <= r as real
  {
    Truncate(score * 100.0 + 0.5)
  }

  /** A score in [0, 1] becomes the nearest whole percentage in 0..100,
      halves rounding up. */
  lemma PercentOfUnitScore(score: real)
    requires 0.0 <= score <= 1.0
    ensures Percent(score) == (score * 100.0 + 0.5).Floor
    ensures 0 <= Percent(score) <= 100
    ensures score * 100.0 - 0.5 < Percent(score) as real <= score * 100.0 + 0.5
  {
  }

  /** Rounding to percentages never reverses the order of two scores. */
  lemma PercentMonotone(s: real, t: real)
    requires s <= t
    ensures Percent(s) <= Percent(t)
  {
    var x, y := s * 100.0 + 0.5, t * 100.0 + 0.5;
    if x >= 0.0 {
      assert x.Floor <= y.Floor;
    } else if y < 0.0 {
      assert (-y).Floor <= (-x).Floor;
    }
  }

  // ---------------------------------------------------------------------
  // Rows
  // ---------------------------------------------------------------------

  /** One ranked document: its id and three scores as percentages. */
  datatype Row = Row(id: string, final: int, near: int, topic: int)

  /** The row of one comparison: each score in [0, 1] becomes the nearest
      whole percentage in 0..100. */
  function RowOf(id: string, res: CompareResult): (r: Row)
    ensures r.id == id
    ensures 0.0 <= res.final <= 1.0 ==>
      0 <= r.final <= 100 && res.final * 100.0 - 0.5 < r.final as real <= res.final * 100.0 + 0.5
    ensures 0.0 <= res.nearDuplicate <= 1.0 ==>
      0 <= r.near <= 100 && res.nearDuplicate * 100.0 - 0.5 < r.near as real <= res.nearDuplicate * 100.0 + 0.5
    ensures 0.0 <= res.topicSimilarity <= 1.0 ==>
      0 <= r.topic <= 100 && res.topicSimilarity * 100.0 - 0.5 < r.topic as real <= res.topicSimilarity * 100.0 + 0.5
  {
    Row(id, Percent(res.final), Percent(res.nearDuplicate), Percent(res.topicSimilarity))
  }

  /** The ids of rows, in order. */
  function Ids(rows: seq<Row>): (r: seq<string>)
    ensures |r| == |rows|
    ensures forall i :: 0 <= i < |rows| ==> r[i] == rows[i].id
  {
    if |rows| == 0 then [] else [rows[0].id] + Ids(rows[1..])
  }

  /** A row reports the comparison of the target with the row's document. */
  predicate ComparedRow(store: Store, target: string, row: Row, sqrt: Root) {
    && row.id != target
    && CompareTwo(store, target, row.id, sqrt).Ok?
    && row == RowOf(row.id, CompareTwo(store, target, row.id, sqrt).value)
  }

  /** What one listed id contributes: nothing for the target itself or when
      the comparison fails, otherwise its row. */
  function Candidate(store: Store, target: string, other: string, sqrt: Root): (r: seq<Row>)
    ensures |r| <= 1
    ensures |r| == 1 <==> other != target && CompareTwo(store, target, other, sqrt).Ok?
    ensures |r| == 1 ==> r[0].id == other && ComparedRow(store, target, r[0], sqrt)
    ensures |r| == 1 ==> 0 <= r[0].near <= 100 && 0 <= r[0].final && 0 <= r[0].topic
  {
    if other == target then []
    else
      match CompareTwo(store, target, other, sqrt)
      case Failure(_) => []
      case Ok(res) =>
        PercentOfUnitScore(res.nearDuplicate);
        PercentNonnegative(res.final);
        PercentNonnegative(res.topicSimilarity);
        var row := RowOf(other, res);
        assert ComparedRow(store, target, row, sqrt);
        [row]
  }

  /** The loop over the listed ids: the target itself is skipped, and so is
      every document whose comparison fails; the rest become rows in listing
      order. */
  function CollectRows(store: Store, target: string, ids: seq<string>, sqrt: Root): (rows: seq<Row>)
    ensures |rows| <= |ids|
    ensures forall row :: row in rows ==> row.id in ids && ComparedRow(store, target, row, sqrt)
    ensures forall row :: row in rows ==> 0 <= row.near <= 100 && 0 <= row.final && 0 <= row.topic
  {
    if |ids| == 0 then []
    else
      assert forall o :: o in ids[1..] ==> o in ids;
      Candidate(store, target, ids[0], sqrt) + CollectRows(store, target, ids[1..], sqrt)
  }

  /** Exactly the listed ids other than the target whose comparison succeeds
      get a row. */
  lemma {:induction false} CollectedIds(store: Store, target: string, ids: seq<string>, sqrt: Root)
    ensures forall o :: o in Ids(CollectRows(store, target, ids, sqrt)) <==>
      o in ids && o != target && CompareTwo(store, target, o, sqrt).Ok?
  {
    if |ids| > 0 {
      var here := Candidate(store, target, ids[0], sqrt);
      var rest := CollectRows(store, target, ids[1..], sqrt);
      CollectedIds(store, target, ids[1..], sqrt);
      IdsAppend(here, rest);
      assert Ids(here) == if |here| == 1 then [ids[0]] else [] by {
        if |here| == 1 {
          assert here[0] in here;
        }
      }
      forall o
        ensures o in Ids(here + rest) <==> o in ids && o != target && CompareTwo(store, target, o, sqrt).Ok?
      {
        assert o in ids <==> o == ids[0] || o in ids[1..] by {
          assert ids == [ids[0]] + ids[1..];
        }
      }
    }
  }

  /** Whether the loop turns a listed id into a row. */
  predicate Qualifies(store: Store, target: string, o: string, sqrt: Root) {
    o != target && CompareTwo(store, target, o, sqrt).Ok?
  }

  /** The listed ids that qualify, in listing order, repeats kept. */
  function QualifyingIds(store: Store, target: string, ids: seq<string>, sqrt: Root): seq<string> {
    if |ids| == 0 then []
    else
      var here := if Qualifies(store, target, ids[0], sqrt) then [ids[0]] else [];
      here + QualifyingIds(store, target, ids[1..], sqrt)
  }

  /** The loop over a concatenated listing is the loop over each part. */
  lemma {:induction false} CollectRowsAppend(store: Store, target: string, a: seq<string>, b: seq<string>, sqrt: Root)
    ensures CollectRows(store, target, a + b, sqrt)
      == CollectRows(store, target, a, sqrt) + CollectRows(store, target, b, sqrt)
    decreases |a|
  {
    if |a| == 0 {
      assert a + b == b;
    } else {
      var here := Candidate(store, target, a[0], sqrt);
      assert (a + b)[0] == a[0] && (a + b)[1..] == a[1..] + b;
      assert CollectRows(store, target, a + b, sqrt) == here + CollectRows(store, target, a[1..] + b, sqrt);
      CollectRowsAppend(store, target, a[1..], b, sqrt);
      SeqAssoc(here, CollectRows(store, target, a[1..], sqrt), CollectRows(store, target, b, sqrt));
    }
  }

  lemma SeqAssoc<T>(x: seq<T>, y: seq<T>, z: seq<T>)
    ensures x + (y + z) == (x + y) + z
  {
  }

  /** One listed id contributes exactly its candidate row, if any. */
  lemma CollectRowsSingle(store: Store, target: string, o: string, sqrt: Root)
    ensures CollectRows(store, target, [o], sqrt) == Candidate(store, target, o, sqrt)
  {
    assert [o][1..] == [];
  }

  /** The rows are one per qualifying listed id, in listing order: their ids
      are exactly the qualifying ids, repeats included. */
  lemma {:induction false} CollectedIdsInOrder(store: Store, target: string, ids: seq<string>, sqrt: Root)
    ensures Ids(CollectRows(store, target, ids, sqrt)) == QualifyingIds(store, target, ids, sqrt)
    decreases |ids|
  {
    if |ids| > 0 {
      var here := Candidate(store, target, ids[0], sqrt);
      var rest := CollectRows(store, target, ids[1..], sqrt);
      CollectedIdsInOrder(store, target, ids[1..], sqrt);
      IdsAppend(here, rest);
      assert Ids(here) == if Qualifies(store, target, ids[0], sqrt) then [ids[0]] else [];
    }
  }

  lemma IdsAppend(a: seq<Row>, b: seq<Row>)
    ensures Ids(a + b) == Ids(a) + Ids(b)
  {
    var l, r := Ids(a + b), Ids(a) + Ids(b);
    forall i | 0 <= i < |l| ensures l[i] == r[i] {
      IdAt(a, b, i);
    }
  }

  lemma IdAt(a: seq<Row>, b: seq<Row>, i: nat)
    requires i < |a| + |b|
    ensures Ids(a + b)[i] == (Ids(a) + Ids(b))[i]
  {
    if i < |a| {
      assert Ids(a + b)[i] == a[i].id == Ids(a)[i];
    } else {
      assert Ids(a + b)[i] == b[i - |a|].id == Ids(b)[i - |a|];
    }
  }

  lemma PercentNonnegative(score: real)
    requires 0.0 <= score
    ensures 0 <= Percent(score)
  {
  }

  /** A target that is not stored compares with nothing: the ranking is empty. */
  lemma UnknownTarget(store: Store, target: string, ids: seq<string>, sqrt: Root)
    requires target !in store
    ensures CollectRows(store, target, ids, sqrt) == []
  {
  }

  // ---------------------------------------------------------------------
  // Sorting and truncation
  // ---------------------------------------------------------------------

  /** Non-increasing final percentage. */
  predicate SortedByFinal(a: seq<Row>) {
    forall p, q :: 0 <= p < q < |a| ==> a[p].final >= a[q].final
  }

  function Swap(a: seq<Row>, i: int, j: int): (r: seq<Row>)
    requires 0 <= i < |a| && 0 <= j < |a|
    ensures |r| == |a| && r[i] == a[j] && r[j] == a[i]
    ensures forall k :: 0 <= k < |a| && k != i && k != j ==> r[k] == a[k]
    ensures multiset(r) == multiset(a)
  {
    a[i := a[j]][j := a[i]]
  }

  /** The handler's exchange sort: for each position `i`, every later row with
      a strictly higher final percentage is swapped into `i`. */
  method ExchangeSort(rows: seq<Row>) returns (a: seq<Row>)
    ensures multiset(a) == multiset(rows)
    ensures SortedByFinal(a)
  {
    a := rows;
    var i := 0;
    while i < |a|
      invariant |a| == |rows| && 0 <= i <= |a|
      invariant multiset(a) == multiset(rows)
      invariant forall p, q :: 0 <= p < i && p < q < |a| ==> a[p].final >= a[q].final
    {
      var j := i + 1;
      while j < |a|
        invariant |a| == |rows| && i < j <= |a|
        invariant multiset(a) == multiset(rows)
        invariant forall p, q :: 0 <= p < i && p < q < |a| ==> a[p].final >= a[q].final
        invariant forall q :: i < q < j ==> a[i].final >= a[q].final
      {
        if a[j].final > a[i].final {
          a := Swap(a, i, j);
        }
        j := j + 1;
      }
      i := i + 1;
    }
  }

  /** The first `k` rows, or all of them when there are fewer. */
  function TopRows(rows: seq<Row>, k: nat): (r: seq<Row>)
    ensures |r| == if |rows| > k then k else |rows|
    ensures r == rows[..|r|]
  {
    if |rows| > k then rows[..k] else rows
  }

  /** `out` is a best-first selection of `k` rows of `rows`: as many as
      possible, ordered, drawn from `rows`, and no left-out row beats a kept one. */
  predicate Ranked(out: seq<Row>, rows: seq<Row>, k: nat) {
    && |out| == (if |rows| > k then k else |rows|)
    && SortedByFinal(out)
    && multiset(out) <= multiset(rows)
    && forall x, y :: x in multiset(rows) - multiset(out) && y in out ==> x.final <= y.final
  }

  /** The rows left out by a prefix are exactly the rest of the sequence. */
  lemma DroppedRows(sorted: seq<Row>, m: nat)
    requires m <= |sorted|
    ensures multiset(sorted[..m]) <= multiset(sorted)
    ensures multiset(sorted) - multiset(sorted[..m]) == multiset(sorted[m..])
  {
    assert sorted == sorted[..m] + sorted[m..];
  }

  /** A prefix of a sorted sequence is sorted. */
  lemma SortedPrefix(sorted: seq<Row>, m: nat)
    requires m <= |sorted| && SortedByFinal(sorted)
    ensures SortedByFinal(sorted[..m])
  {
    forall p, q | 0 <= p < q < m
      ensures sorted[..m][p].final >= sorted[..m][q].final
    {
      assert sorted[..m][p] == sorted[p] && sorted[..m][q] == sorted[q];
    }
  }

  /** In a sorted sequence, no row after position `m` beats a row before it. */
  lemma SortedSplit(sorted: seq<Row>, m: nat)
    requires m <= |sorted| && SortedByFinal(sorted)
    ensures forall x, y :: x in multiset(sorted) - multiset(sorted[..m]) && y in sorted[..m] ==> x.final <= y.final
  {
    DroppedRows(sorted, m);
    forall x, y | x in multiset(sorted) - multiset(sorted[..m]) && y in sorted[..m]
      ensures x.final <= y.final
    {
      assert x in sorted[m..];
      var q :| m <= q < |sorted| && sorted[q] == x;
      var p :| 0 <= p < m && sorted[p] == y;
    }
  }

  /** The first `k` rows of a sorted permutation of `rows` rank `rows`. */
  lemma TopOfSortedIsRanked(sorted: seq<Row>, rows: seq<Row>, k: nat)
    requires multiset(sorted) == multiset(rows)
    requires SortedByFinal(sorted)
    ensures Ranked(TopRows(sorted, k), rows, k)
  {
    var m := |TopRows(sorted, k)|;
    DroppedRows(sorted, m);
    SortedPrefix(sorted, m);
    SortedSplit(sorted, m);
  }

  /** The handler: a failed listing fails the request; otherwise the compared
      rows, best first, at most `topK` of them. */
  method Similar(store: Store, target: string, listing: Result<seq<string>>, topKQuery: string, sqrt: Root)
    returns (r: Result<seq<Row>>)
    ensures listing.Failure? ==> r == Failure(listing.error)
    ensures listing.Ok? ==> r.Ok?
    ensures listing.Ok? ==> Ranked(r.value, CollectRows(store, target, listing.value, sqrt), TopK(topKQuery))
    ensures listing.Ok? ==> forall row :: row in r.value ==>
      row.id in listing.value && ComparedRow(store, target, row, sqrt)
    ensures listing.Ok? && target !in store ==> r == Ok([])
  {
    match listing
    case Failure(e) =>
      r := Failure(e);
    case Ok(ids) =>
      var rows := CollectRows(store, target, ids, sqrt);
      var sorted := ExchangeSort(rows);
      var top := TopRows(sorted, TopK(topKQuery));
      TopOfSortedIsRanked(sorted, rows, TopK(topKQuery));
      forall row | row in top
        ensures row in rows
      {
        assert row in multiset(top);
      }
      if target !in store {
        UnknownTarget(store, target, ids, sqrt);
      }
      r := Ok(top);
  }
}
