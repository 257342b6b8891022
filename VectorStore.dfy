/** The in-memory embedding store of `DbManager`: loading it from the couplet table
    (`singletonKurals`, `fetchAndStoreSingletonDb`) and ranking its entries against a query
    embedding (`retrieveRelatedDocuments`). */
module VectorStore {
  import opened Wrappers
  import opened EmbeddingCodec

  /** One row of `SELECT kno, embeddings FROM vallu.tirukkural WHERE embeddings IS NOT NULL`;
      the blob is the text `String(...)` makes of it, `None` standing for SQL NULL. */
  datatype Row = Row(kno: int, embeddings: Option<string>)

  /** One entry of `singletonDb`. */
  datatype EmbeddingRecord = EmbeddingRecord(id: int, values: Vector)

  /** What `singletonKurals` finds: no database handle yet, a connection or query that threw,
      or the rows of the query. */
  datatype RowSource = NoDatabase | QueryFailed | Rows(rows: seq<Row>)

  // ---------------------------------------------------------------------------------------
  // Loading

  /** JavaScript truthiness of a blob: neither null nor the empty string. */
  predicate IsTruthy(blob: Option<string>) {
    blob.Some? && blob.value != ""
  }

  /** The record a row contributes: none when its blob is falsy or does not decode. */
  function DecodeRow(row: Row): (r: Option<EmbeddingRecord>)
    ensures r.Some? <==> IsTruthy(row.embeddings) && ProcessEmbeddingBinding(row.embeddings.value).Some?
    ensures r.Some? ==> (r.value.id == row.kno
                     && Some(r.value.values) == ProcessEmbeddingBinding(row.embeddings.value))
  {
    if IsTruthy(row.embeddings) then
      match ProcessEmbeddingBinding(row.embeddings.value)
      case Some(values) => Some(EmbeddingRecord(row.kno, values))
      case None => None
    else None
  }

  /** The `map`/`filter` of `singletonKurals` over the rows. */
  function KeptRecords(rows: seq<Row>): (r: seq<EmbeddingRecord>)
    ensures |r| <= |rows|
  {
    if rows == [] then [] else RowRecords(rows[0]) + KeptRecords(rows[1..])
  }

  /** What one row adds to the store: its record, or nothing. */
  function RowRecords(row: Row): seq<EmbeddingRecord>
  {
    if DecodeRow(row).Some? then [DecodeRow(row).value] else []
  }

  /** The records of consecutive runs of rows follow each other. */
  lemma {:induction false} KeptRecordsAppend(a: seq<Row>, b: seq<Row>)
    ensures KeptRecords(a + b) == KeptRecords(a) + KeptRecords(b)
  {
    if a == [] {
      assert a + b == b;
    } else {
      var h := RowRecords(a[0]);
      calc {
        KeptRecords(a + b);
        { assert (a + b)[0] == a[0] && (a + b)[1..] == a[1..] + b; }
        h + KeptRecords(a[1..] + b);
        { KeptRecordsAppend(a[1..], b); }
        h + (KeptRecords(a[1..]) + KeptRecords(b));
        (h + KeptRecords(a[1..])) + KeptRecords(b);
      }
    }
  }

  /** Row `i` contributes its decoded record, if it has one, between the records of the rows
      before it and those of the rows after it: rows are kept in input order, a row is kept
      iff its blob is truthy and decodes, and nothing else is added. */
  lemma KeptRecordsAt(rows: seq<Row>, i: nat)
    requires i < |rows|
    ensures KeptRecords(rows)
         == KeptRecords(rows[..i])
          + (if DecodeRow(rows[i]).Some? then [DecodeRow(rows[i]).value] else [])
          + KeptRecords(rows[i + 1..])
  {
    KeptRecordsSplit(rows, i);
  }

  /** `KeptRecordsAt` in terms of `RowRecords`. */
  lemma KeptRecordsSplit(rows: seq<Row>, i: nat)
    requires i < |rows|
    ensures KeptRecords(rows) == KeptRecords(rows[..i]) + (RowRecords(rows[i]) + KeptRecords(rows[i + 1..]))
  {
    var one := [rows[i]];
    calc {
      KeptRecords(rows);
      { assert rows == rows[..i] + (one + rows[i + 1..]); }
      KeptRecords(rows[..i] + (one + rows[i + 1..]));
      { KeptRecordsAppend(rows[..i], one + rows[i + 1..]); }
      KeptRecords(rows[..i]) + KeptRecords(one + rows[i + 1..]);
      { KeptRecordsAppend(one, rows[i + 1..]);
        assert one[1..] == [];
        assert KeptRecords(one) == RowRecords(rows[i]); }
      KeptRecords(rows[..i]) + (RowRecords(rows[i]) + KeptRecords(rows[i + 1..]));
    }
  }

  /** Every record in the store comes from a row with the same id whose blob decodes to its
      values. */
  lemma {:induction false} KeptRecordsFromRows(rows: seq<Row>, k: nat)
    requires k < |KeptRecords(rows)|
    ensures exists i :: 0 <= i < |rows| && DecodeRow(rows[i]) == Some(KeptRecords(rows)[k])
  {
    var rec := KeptRecords(rows)[k];
    if DecodeRow(rows[0]).Some? && k == 0 {
    } else {
      var k' := if DecodeRow(rows[0]).Some? then k - 1 else k;
      assert KeptRecords(rows[1..])[k'] == rec;
      KeptRecordsFromRows(rows[1..], k');
      var i :| 0 <= i < |rows[1..]| && DecodeRow(rows[1..][i]) == Some(rec);
      assert rows[1..][i] == rows[i + 1];
    }
  }

  /** `singletonKurals`: no database, or a query that throws, gives the empty list. */
  function SingletonKurals(source: RowSource): seq<EmbeddingRecord>
  {
    match source
    case NoDatabase => []
    case QueryFailed => []
    case Rows(rows) => KeptRecords(rows)
  }

  // ---------------------------------------------------------------------------------------
  // Ranking

  /** `cosineSimilarity(queryEmbedding, embedding)` for every stored vector, in store order;
      `similarity` stands for the floating-point computation. */
  function Similarities(store: seq<EmbeddingRecord>, query: Vector, similarity: (Vector, Vector) -> real)
    : (s: seq<real>)
    ensures |s| == |store|
  {
    seq(|store|, i requires 0 <= i < |store| => similarity(query, store[i].values))
  }

  predicate InRange(xs: seq<nat>, n: nat) {
    forall i :: 0 <= i < |xs| ==> xs[i] < n
  }

  predicate Distinct(xs: seq<nat>) {
    forall i, j :: 0 <= i < j < |xs| ==> xs[i] != xs[j]
  }

  predicate Increasing(xs: seq<nat>) {
    forall i, j :: 0 <= i < j < |xs| ==> xs[i] < xs[j]
  }

  /** Scores do not increase along `xs`. */
  predicate SortedDesc(xs: seq<nat>, scores: seq<real>)
    requires InRange(xs, |scores|)
  {
    forall i, j :: 0 <= i < j < |xs| ==> scores[xs[i]] >= scores[xs[j]]
  }

  /** Entries with equal scores appear in increasing index order (store order). */
  predicate TiesInOrder(xs: seq<nat>, scores: seq<real>)
    requires InRange(xs, |scores|)
  {
    forall i, j :: 0 <= i < j < |xs| && scores[xs[i]] == scores[xs[j]] ==> xs[i] < xs[j]
  }

  /** One insertion step of the stable descending sort: `x` goes in front of the first entry
      that does not score higher. */
  function InsertByScore(x: nat, sorted: seq<nat>, scores: seq<real>): (r: seq<nat>)
    requires x < |scores| && InRange(sorted, |scores|)
    ensures |r| == |sorted| + 1 && InRange(r, |scores|)
  {
    if sorted == [] then [x]
    else if scores[x] >= scores[sorted[0]] then [x] + sorted
    else [sorted[0]] + InsertByScore(x, sorted[1..], scores)
  }

  /** Inserting adds `x` and loses nothing. */
  lemma {:induction false} InsertByScorePerm(x: nat, sorted: seq<nat>, scores: seq<real>)
    requires x < |scores| && InRange(sorted, |scores|)
    ensures multiset(InsertByScore(x, sorted, scores)) == multiset(sorted) + multiset{x}
  {
    if sorted != [] && scores[x] < scores[sorted[0]] {
      InsertByScorePerm(x, sorted[1..], scores);
      assert sorted == [sorted[0]] + sorted[1..];
    }
  }

  /** Every entry after an insertion is the inserted index or an entry of the list. */
  lemma InsertedFrom(x: nat, sorted: seq<nat>, scores: seq<real>, j: nat)
    requires x < |scores| && InRange(sorted, |scores|)
    requires j < |sorted| + 1
    ensures var r := InsertByScore(x, sorted, scores);
      r[j] == x || exists k :: 0 <= k < |sorted| && sorted[k] == r[j]
  {
    var r := InsertByScore(x, sorted, scores);
    InsertByScorePerm(x, sorted, scores);
    assert r[j] in multiset(r);
    if r[j] != x {
      assert r[j] in multiset(sorted);
    }
  }

  lemma {:induction false} InsertByScoreSorted(x: nat, sorted: seq<nat>, scores: seq<real>)
    requires x < |scores| && InRange(sorted, |scores|)
    requires SortedDesc(sorted, scores)
    ensures SortedDesc(InsertByScore(x, sorted, scores), scores)
  {
    if sorted != [] && scores[x] < scores[sorted[0]] {
      InsertByScoreSorted(x, sorted[1..], scores);
      var rest := InsertByScore(x, sorted[1..], scores);
      assert InsertByScore(x, sorted, scores) == [sorted[0]] + rest;
      forall j | 0 <= j < |rest|
        ensures scores[sorted[0]] >= scores[rest[j]]
      {
        InsertedFrom(x, sorted[1..], scores, j);
        if rest[j] != x {
          var k :| 0 <= k < |sorted[1..]| && sorted[1..][k] == rest[j];
          assert sorted[k + 1] == rest[j];
        }
      }
    }
  }

  lemma {:induction false} InsertByScoreStable(x: nat, sorted: seq<nat>, scores: seq<real>)
    requires x < |scores| && InRange(sorted, |scores|)
    requires TiesInOrder(sorted, scores)
    requires forall i :: 0 <= i < |sorted| ==> x < sorted[i]
    ensures TiesInOrder(InsertByScore(x, sorted, scores), scores)
  {
    if sorted != [] && scores[x] < scores[sorted[0]] {
      InsertByScoreStable(x, sorted[1..], scores);
      var rest := InsertByScore(x, sorted[1..], scores);
      assert InsertByScore(x, sorted, scores) == [sorted[0]] + rest;
      forall j | 0 <= j < |rest| && scores[sorted[0]] == scores[rest[j]]
        ensures sorted[0] < rest[j]
      {
        InsertedFrom(x, sorted[1..], scores, j);
        if rest[j] != x {
          var k :| 0 <= k < |sorted[1..]| && sorted[1..][k] == rest[j];
          assert sorted[k + 1] == rest[j];
        }
      }
    }
  }

  /** The stable descending sort of `.sort((a, b) => b.similarity - a.similarity)`, by
      insertion. */
  function SortByScore(xs: seq<nat>, scores: seq<real>): (r: seq<nat>)
    requires InRange(xs, |scores|)
    ensures |r| == |xs| && InRange(r, |scores|)
    ensures multiset(r) == multiset(xs)
  {
    if xs == [] then []
    else
      assert xs == [xs[0]] + xs[1..];
      InsertByScorePerm(xs[0], SortByScore(xs[1..], scores), scores);
      InsertByScore(xs[0], SortByScore(xs[1..], scores), scores)
  }

  /** The sort orders by non-increasing score and keeps equal scores in their original order. */
  lemma {:induction false} SortByScoreOrdered(xs: seq<nat>, scores: seq<real>)
    requires InRange(xs, |scores|)
    ensures SortedDesc(SortByScore(xs, scores), scores)
    ensures Increasing(xs) ==> TiesInOrder(SortByScore(xs, scores), scores)
  {
    if xs != [] {
      var rest := SortByScore(xs[1..], scores);
      SortByScoreOrdered(xs[1..], scores);
      InsertByScoreSorted(xs[0], rest, scores);
      if Increasing(xs) {
        forall i | 0 <= i < |rest|
          ensures xs[0] < rest[i]
        {
          assert rest[i] in multiset(xs[1..]);
          var k :| 0 <= k < |xs[1..]| && xs[1..][k] == rest[i];
          assert xs[k + 1] == rest[i];
        }
        InsertByScoreStable(xs[0], rest, scores);
      }
    }
  }

  lemma {:induction false} InsertByScoreDistinct(x: nat, sorted: seq<nat>, scores: seq<real>)
    requires x < |scores| && InRange(sorted, |scores|)
    requires Distinct(sorted) && x !in sorted
    ensures Distinct(InsertByScore(x, sorted, scores))
  {
    if sorted != [] && scores[x] < scores[sorted[0]] {
      var rest := InsertByScore(x, sorted[1..], scores);
      InsertByScoreDistinct(x, sorted[1..], scores);
      InsertByScorePerm(x, sorted[1..], scores);
      assert sorted[0] !in multiset(sorted[1..]) + multiset{x} by {
        assert forall j :: 0 <= j < |sorted[1..]| ==> sorted[1..][j] == sorted[j + 1];
      }
      assert sorted[0] !in rest;
    }
  }

  /** Sorting a list without repetitions gives a list without repetitions. */
  lemma {:induction false} SortByScoreDistinct(xs: seq<nat>, scores: seq<real>)
    requires InRange(xs, |scores|) && Distinct(xs)
    ensures Distinct(SortByScore(xs, scores))
  {
    if xs != [] {
      var rest := SortByScore(xs[1..], scores);
      SortByScoreDistinct(xs[1..], scores);
      assert xs[0] !in multiset(xs[1..]) by {
        assert forall j :: 0 <= j < |xs[1..]| ==> xs[1..][j] == xs[j + 1];
      }
      assert xs[0] !in rest;
      InsertByScoreDistinct(xs[0], rest, scores);
    }
  }

  /** The store indices `0 .. n-1` in store order. */
  function Indices(n: nat): (r: seq<nat>)
    ensures |r| == n && InRange(r, n) && Increasing(r) && Distinct(r)
    ensures forall k :: 0 <= k < n ==> r[k] == k
  {
    seq(n, i requires 0 <= i < n => i)
  }

  /** The end index `Array.prototype.slice(0, end)` uses on a list of length `len`: a
      negative end counts from the back. */
  function SliceEnd(len: nat, end: int): (m: nat)
    ensures m <= len
    ensures 0 <= end ==> m == if end < len then end else len
    ensures end < 0 ==> m == if len + end > 0 then len + end else 0
  {
    if end < 0 then (if len + end > 0 then len + end else 0)
    else if end < len then end else len
  }

  /** `r` is a top list of store indices for `scores`, as a stable descending sort cut at
      some length gives it: distinct indices into the store, scores non-increasing, ties in
      store order, and every index left out scores at most as high as each one taken and, on
      a tie, comes after it in the store. */
  predicate IsRanking(r: seq<nat>, scores: seq<real>)
  {
    && InRange(r, |scores|) && Distinct(r)
    && SortedDesc(r, scores) && TiesInOrder(r, scores)
    && (forall k, j :: 0 <= k < |scores| && k !in r && 0 <= j < |r| ==> scores[k] <= scores[r[j]])
    && (forall k, j :: 0 <= k < |scores| && k !in r && 0 <= j < |r| && scores[k] == scores[r[j]] ==>
          r[j] < k)
  }

  /** The `sort`/`slice` pipeline of `retrieveRelatedDocuments` on store indices: the first
      `slice` bound many indices of the stable ranking. */
  function RankedIndices(scores: seq<real>, topN: int): (r: seq<nat>)
    ensures |r| == SliceEnd(|scores|, topN)
    ensures IsRanking(r, scores)
  {
    var all := Indices(|scores|);
    var sorted := SortByScore(all, scores);
    SortByScoreOrdered(all, scores);
    SortByScoreDistinct(all, scores);
    SortedPrefixIsTop(all, sorted, scores, SliceEnd(|scores|, topN));
    sorted[..SliceEnd(|scores|, topN)]
  }

  /** A prefix of a stable descending arrangement of all indices holds the highest scores,
      and of equal scores the earliest in the store. */
  lemma SortedPrefixIsTop(all: seq<nat>, sorted: seq<nat>, scores: seq<real>, m: nat)
    requires all == Indices(|scores|) && multiset(sorted) == multiset(all)
    requires InRange(sorted, |scores|) && SortedDesc(sorted, scores) && m <= |sorted|
    requires TiesInOrder(sorted, scores)
    ensures forall k, j :: 0 <= k < |scores| && k !in sorted[..m] && 0 <= j < m ==>
      scores[k] <= scores[sorted[j]] && (scores[k] == scores[sorted[j]] ==> sorted[j] < k)
  {
    var r := sorted[..m];
    forall k, j | 0 <= k < |scores| && k !in r && 0 <= j < m
      ensures scores[k] <= scores[sorted[j]] && (scores[k] == scores[sorted[j]] ==> sorted[j] < k)
    {
      assert all[k] == k;
      assert k in multiset(all);
      var p :| 0 <= p < |sorted| && sorted[p] == k;
      assert forall q :: 0 <= q < m ==> sorted[q] == r[q] && r[q] != k;
      assert j < p;
    }
  }

  /** `retrieveRelatedDocuments`: no query embedding (the embedding request failed) gives
      `[]`; otherwise the ids of the ranked store entries. */
  function RetrieveRelatedDocuments(store: seq<EmbeddingRecord>, queryEmbedding: Option<Vector>,
                                    similarity: (Vector, Vector) -> real, topN: int): (ids: seq<int>)
    ensures queryEmbedding.None? ==> ids == []
    ensures queryEmbedding.Some? ==> |ids| == SliceEnd(|store|, topN)
  {
    match queryEmbedding
    case None => []
    case Some(query) =>
      var ranked := RankedIndices(Similarities(store, query, similarity), topN);
      seq(|ranked|, i requires 0 <= i < |ranked| => store[ranked[i]].id)
  }

  /** With a query embedding and any store, the result lists, for the best-scoring store
      entries in non-increasing score order (ties in store order), their ids; for `topN >= 0`
      there are min(topN, store size) of them. When the store's ids are distinct, so are the
      results. */
  lemma RetrieveRelatedDocumentsRanked(store: seq<EmbeddingRecord>, query: Vector,
                                       similarity: (Vector, Vector) -> real, topN: int)
    ensures var ids := RetrieveRelatedDocuments(store, Some(query), similarity, topN);
      exists r: seq<nat> :: IsRanking(r, Similarities(store, query, similarity)) && |r| == |ids| &&
        forall i :: 0 <= i < |ids| ==> ids[i] == store[r[i]].id
    ensures var ids := RetrieveRelatedDocuments(store, Some(query), similarity, topN);
      && (0 <= topN ==> |ids| == if topN < |store| then topN else |store|)
      && ((forall i, j :: 0 <= i < j < |store| ==> store[i].id != store[j].id) ==>
            forall i, j :: 0 <= i < j < |ids| ==> ids[i] != ids[j])
      && (forall i :: 0 <= i < |ids| ==> exists k :: 0 <= k < |store| && store[k].id == ids[i])
  {
    var ranked := RankedIndices(Similarities(store, query, similarity), topN);
    var ids := RetrieveRelatedDocuments(store, Some(query), similarity, topN);
    assert forall i :: 0 <= i < |ids| ==> ids[i] == store[ranked[i]].id;
    if forall i, j :: 0 <= i < j < |store| ==> store[i].id != store[j].id {
      forall i, j | 0 <= i < j < |ids| ensures ids[i] != ids[j] {
        assert ranked[i] != ranked[j];
      }
    }
    forall i | 0 <= i < |ids| ensures exists k :: 0 <= k < |store| && store[k].id == ids[i] {
      assert store[ranked[i]].id == ids[i];
    }
  }

  /** The end-to-end scenario: similarities 1.0, 0.0 and 0.994 against a query with topN = 2
      select the first and the third entry, in that order. */
  lemma RankedIndicesExample()
    ensures RankedIndices([1.0, 0.0, 0.994], 2) == [0, 2]
  {
    SortExample();
    assert SliceEnd(3, 2) == 2;
  }

  lemma SortExample()
    ensures SortByScore(Indices(3), [1.0, 0.0, 0.994]) == [0, 2, 1]
  {
    var scores := [1.0, 0.0, 0.994];
    var all := Indices(3);
    assert all == [0, 1, 2];
    assert all[1..] == [1, 2] && all[1..][1..] == [2] && [2][1..] == [];
    assert SortByScore([2], scores) == [2];
    assert InsertByScore(1, [2], scores) == [2, 1];
    assert SortByScore([1, 2], scores) == [2, 1];
    assert InsertByScore(0, [2, 1], scores) == [0, 2, 1];
  }

  /** Two entries with equal scores keep store order: the first one loaded comes first. */
  lemma RankedIndicesTie()
    ensures RankedIndices([0.5, 0.5], 1) == [0]
  {
    var scores := [0.5, 0.5];
    var all := Indices(2);
    assert all == [0, 1];
    assert all[1..] == [1] && [1][1..] == [];
    assert SortByScore([1], scores) == [1];
    assert SortByScore(all, scores) == [0, 1];
  }

  // ---------------------------------------------------------------------------------------
  // The store holder

  /** The part of `DbManager` that owns the embedding store. */
  class DbManager {
    var singletonDb: seq<EmbeddingRecord>

    /** The constructor starts with an empty store. */
    constructor ()
      ensures singletonDb == []
    {
      singletonDb := [];
    }

    /** `fetchAndStoreSingletonDb`: the store is replaced as a whole by what `singletonKurals`
        returns, never merged with the previous one. Since `singletonKurals` turns a missing
        database or a failing query into `[]`, such a load empties the store. */
    method FetchAndStoreSingletonDb(source: RowSource)
      modifies this
      ensures singletonDb == SingletonKurals(source)
    {
      var embeddings := SingletonKurals(source);
      // `{ id: parseInt(item.id), values: item.values.map(Number) }` gives back the same record
      var serializable := seq(|embeddings|, i requires 0 <= i < |embeddings| =>
        EmbeddingRecord(embeddings[i].id, embeddings[i].values));
      assert serializable == embeddings;
      singletonDb := serializable;
    }

    /** `searchSentences` / `retrieveRelatedDocuments` on the current store. */
    method SearchSentences(queryEmbedding: Option<Vector>, similarity: (Vector, Vector) -> real, topN: int)
      returns (ids: seq<int>)
      ensures ids == RetrieveRelatedDocuments(singletonDb, queryEmbedding, similarity, topN)
      ensures queryEmbedding.None? || singletonDb == [] ==> ids == []
    {
      ids := RetrieveRelatedDocuments(singletonDb, queryEmbedding, similarity, topN);
    }
  }
}
