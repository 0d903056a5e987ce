/** The in-memory vector store of the retrieval-augmented prompting flow: a
    list of (path, content, embedding) records kept unique by path, with
    upsert, ranked search, count and clear. The embedding provider and the
    similarity score are parameters: the provider answers with a vector or a
    failure, the score is any function into the reals. */
module Rag {
  import opened Wrappers
  import opened Seqs
  import opened Ranking

  /** A stored source file: its path (the key), its text, and the embedding
      the provider computed for that text. */
  datatype RagDocument = RagDocument(path: string, content: string, embedding: seq<real>)

  /** What generateEmbedding answers: a vector, or the error it throws. */
  datatype EmbedOutcome = Embedded(vector: seq<real>) | EmbedFailed(reason: string)

  /** The embedding provider: (base URL, model, text) to outcome. */
  type Embedder = (string, string, string) -> EmbedOutcome

  /** The similarity of a document's embedding to the query's embedding
      (cosineSimilarity(query, document)). */
  type Scorer = (seq<real>, seq<real>) -> real

  /** Why an operation of the store throws. */
  datatype StoreError = NotConfigured | ProviderError(reason: string)

  const DefaultBaseUrl: string := "http://localhost:11434"
  const DefaultLimit: int := 3

  // ---------------------------------------------------------------------
  // Paths and upsert

  /** The paths of the records in `docs`. */
  function Paths(docs: seq<RagDocument>): set<string> {
    set i | 0 <= i < |docs| :: docs[i].path
  }

  /** No two records share a path. */
  predicate DistinctPaths(docs: seq<RagDocument>) {
    forall i, j :: 0 <= i < j < |docs| ==> docs[i].path != docs[j].path
  }

  function OtherPath(path: string): RagDocument -> bool {
    (d: RagDocument) => d.path != path
  }

  /** `documents.filter(d => d.path !== path)`: no record with the path is left
      (RemovePathSpec says what is kept). */
  function RemovePath(docs: seq<RagDocument>, path: string): (r: seq<RagDocument>)
    ensures |r| <= |docs|
    ensures forall i :: 0 <= i < |r| ==> r[i].path != path
  {
    Filter(docs, OtherPath(path))
  }

  /** What a successful addDocument does to the records: drop the record with
      the same path, if any, and append the new one. */
  function Upsert(docs: seq<RagDocument>, doc: RagDocument): (r: seq<RagDocument>)
    ensures 1 <= |r| <= |docs| + 1 && r[|r| - 1] == doc
  {
    RemovePath(docs, doc.path) + [doc]
  }

  /** The records after successful addDocument calls for `batch`, in order. */
  function Ingest(docs: seq<RagDocument>, batch: seq<RagDocument>): seq<RagDocument>
    decreases |batch|
  {
    if batch == [] then docs
    else Upsert(Ingest(docs, batch[..|batch| - 1]), batch[|batch| - 1])
  }

  /** removePath drops the path, keeps every other record in order, adds nothing. */
  lemma RemovePathSpec(docs: seq<RagDocument>, path: string)
    ensures forall i :: 0 <= i < |RemovePath(docs, path)| ==>
              RemovePath(docs, path)[i].path != path && RemovePath(docs, path)[i] in docs
    ensures forall i :: 0 <= i < |docs| && docs[i].path != path ==> docs[i] in RemovePath(docs, path)
    ensures IsSubsequence(RemovePath(docs, path), docs)
    ensures Paths(RemovePath(docs, path)) == Paths(docs) - {path}
  {
    var r := RemovePath(docs, path);
    FilterIsSubsequence(docs, OtherPath(path));
    forall p | p in Paths(docs) - {path} ensures p in Paths(r) {
      var i :| 0 <= i < |docs| && docs[i].path == p;
      assert docs[i] in r;
      var j :| 0 <= j < |r| && r[j] == docs[i];
    }
    forall p | p in Paths(r) ensures p in Paths(docs) - {path} {
      var j :| 0 <= j < |r| && r[j].path == p;
      var i :| 0 <= i < |docs| && docs[i] == r[j];
    }
  }

  /** Removing records keeps the paths distinct. */
  lemma {:induction false} RemovePathKeepsDistinct(docs: seq<RagDocument>, path: string)
    requires DistinctPaths(docs)
    ensures DistinctPaths(RemovePath(docs, path))
    decreases |docs|
  {
    if docs != [] {
      var rest := RemovePath(docs[1..], path);
      RemovePathKeepsDistinct(docs[1..], path);
      if docs[0].path != path {
        assert RemovePath(docs, path) == [docs[0]] + rest;
        forall j | 0 <= j < |rest| ensures rest[j].path != docs[0].path {
          var k :| 0 <= k < |docs[1..]| && docs[1..][k] == rest[j];
          assert docs[k + 1] == rest[j];
        }
      } else {
        assert RemovePath(docs, path) == rest;
      }
    }
  }

  /** Upsert keeps the paths distinct, adds the new path and loses none. */
  lemma UpsertKeepsDistinct(docs: seq<RagDocument>, doc: RagDocument)
    requires DistinctPaths(docs)
    ensures DistinctPaths(Upsert(docs, doc))
    ensures Paths(Upsert(docs, doc)) == Paths(docs) + {doc.path}
  {
    RemovePathSpec(docs, doc.path);
    RemovePathKeepsDistinct(docs, doc.path);
    PathsAppend(RemovePath(docs, doc.path), doc);
  }

  /** Appending a record adds its path to the path set. */
  lemma PathsAppend(r: seq<RagDocument>, doc: RagDocument)
    ensures Paths(r + [doc]) == Paths(r) + {doc.path}
  {
    forall p | p in Paths(r + [doc]) ensures p in Paths(r) + {doc.path} {
      var i :| 0 <= i < |r + [doc]| && (r + [doc])[i].path == p;
      if i < |r| { assert r[i].path == p; }
    }
    forall p | p in Paths(r) ensures p in Paths(r + [doc]) {
      var i :| 0 <= i < |r| && r[i].path == p;
      assert (r + [doc])[i] == r[i];
    }
    assert (r + [doc])[|r|] == doc;
  }

  /** After an upsert exactly one record has the new path, the last one, and it
      is the new record; every record with another path is kept, in order,
      and nothing else is there. */
  lemma UpsertPlacesLast(docs: seq<RagDocument>, doc: RagDocument)
    ensures var r := Upsert(docs, doc);
      |r| >= 1 && r[|r| - 1] == doc
      && (forall i :: 0 <= i < |r| ==> (r[i].path == doc.path <==> i == |r| - 1))
      && (forall i :: 0 <= i < |docs| && docs[i].path != doc.path ==> docs[i] in r)
      && (forall i :: 0 <= i < |r| - 1 ==> r[i] in docs)
      && IsSubsequence(r[..|r| - 1], docs)
  {
    var r := Upsert(docs, doc);
    RemovePathSpec(docs, doc.path);
    assert r[..|r| - 1] == RemovePath(docs, doc.path);
    forall i | 0 <= i < |docs| && docs[i].path != doc.path ensures docs[i] in r {
      assert docs[i] in RemovePath(docs, doc.path);
    }
  }

  /** The number of records a list with distinct paths holds is its number of paths. */
  lemma {:induction false} DistinctPathsCount(docs: seq<RagDocument>)
    requires DistinctPaths(docs)
    ensures |Paths(docs)| == |docs|
    decreases |docs|
  {
    if docs != [] {
      var rest := docs[1..];
      DistinctPathsCount(rest);
      assert Paths(docs) == {docs[0].path} + Paths(rest) by {
        forall p | p in Paths(docs) ensures p in {docs[0].path} + Paths(rest) {
          var i :| 0 <= i < |docs| && docs[i].path == p;
          if i > 0 { assert rest[i - 1].path == p; }
        }
        forall p | p in Paths(rest) ensures p in Paths(docs) {
          var i :| 0 <= i < |rest| && rest[i].path == p;
          assert docs[i + 1].path == p;
        }
        assert docs[0].path in Paths(docs);
      }
      assert docs[0].path !in Paths(rest) by {
        forall i | 0 <= i < |rest| ensures rest[i].path != docs[0].path {
          assert rest[i] == docs[i + 1];
        }
      }
    }
  }

  /** Any run of successful addDocument calls on a store with distinct paths
      keeps them distinct and adds exactly the paths of the run. */
  lemma {:induction false} IngestPaths(docs: seq<RagDocument>, batch: seq<RagDocument>)
    requires DistinctPaths(docs)
    ensures DistinctPaths(Ingest(docs, batch))
    ensures Paths(Ingest(docs, batch)) == Paths(docs) + Paths(batch)
    decreases |batch|
  {
    if batch != [] {
      var init, last := batch[..|batch| - 1], batch[|batch| - 1];
      IngestPaths(docs, init);
      UpsertKeepsDistinct(Ingest(docs, init), last);
      assert Paths(batch) == Paths(init) + {last.path} by {
        forall p | p in Paths(batch) ensures p in Paths(init) + {last.path} {
          var i :| 0 <= i < |batch| && batch[i].path == p;
          if i < |batch| - 1 { assert init[i].path == p; }
        }
        forall p | p in Paths(init) ensures p in Paths(batch) {
          var i :| 0 <= i < |init| && init[i].path == p;
          assert batch[i].path == p;
        }
        assert batch[|batch| - 1].path in Paths(batch);
      }
    }
  }

  /** Starting from an empty store, the number of records after any run of
      successful addDocument calls is the number of distinct paths added. */
  lemma IngestCount(batch: seq<RagDocument>)
    ensures |Ingest([], batch)| == |Paths(batch)|
  {
    IngestPaths([], batch);
    DistinctPathsCount(Ingest([], batch));
    assert Paths([]) == {};
  }

  // ---------------------------------------------------------------------
  // Ranking

  /** The score of a record against the query embedding `q`. */
  function QueryScore(score: Scorer, q: seq<real>): RagDocument -> real {
    (d: RagDocument) => score(q, d.embedding)
  }

  /** The records ranked by search: a stable sort by descending score. */
  function Rank(docs: seq<RagDocument>, score: Scorer, q: seq<real>): (r: seq<RagDocument>)
    ensures multiset(r) == multiset(docs)
    ensures NonIncreasing(r, QueryScore(score, q))
  {
    SortDescending(docs, QueryScore(score, q))
  }

  /** The ranking is a stable descending sort of the records, and the only one. */
  lemma RankIsStableSort(docs: seq<RagDocument>, score: Scorer, q: seq<real>, other: seq<RagDocument>)
    ensures IsStableSortOf(Rank(docs, score, q), docs, QueryScore(score, q))
    ensures multiset(Rank(docs, score, q)) == multiset(docs)
    ensures IsStableSortOf(other, docs, QueryScore(score, q)) ==> other == Rank(docs, score, q)
  {
    var key := QueryScore(score, q);
    SortDescendingIsStable(docs, key);
    if IsStableSortOf(other, docs, key) {
      StableSortIsUnique(other, Rank(docs, score, q), key);
    }
  }

  /** Two records of equal score keep their store order in the ranking: the
      one stored first is ranked first. */
  lemma RankKeepsStoreOrderOnTies(docs: seq<RagDocument>, score: Scorer, q: seq<real>, v: real)
    ensures WithKey(Rank(docs, score, q), QueryScore(score, q), v) == WithKey(docs, QueryScore(score, q), v)
  {
    SortDescendingIsStable(docs, QueryScore(score, q));
  }

  // ---------------------------------------------------------------------
  // The store

  class VectorStore {
    var documents: seq<RagDocument>
    var baseUrl: string
    var model: string
    /** The records successfully added since the store was made or last cleared. */
    ghost var added: seq<RagDocument>

    /** The records are exactly what the successful addDocument calls since the
        last clear produced, and their paths are distinct. */
    ghost predicate Valid()
      reads this
    {
      documents == Ingest([], added) && DistinctPaths(documents)
    }

    constructor ()
      ensures Valid()
      ensures documents == [] && added == []
      ensures baseUrl == DefaultBaseUrl && model == ""
    {
      documents := [];
      baseUrl := DefaultBaseUrl;
      model := "";
      added := [];
    }

    /** configure: rebinds the provider; the records stay as they are. */
    method Configure(newBaseUrl: string, newModel: string)
      requires Valid()
      modifies this
      ensures Valid()
      ensures baseUrl == newBaseUrl && model == newModel
      ensures documents == old(documents) && added == old(added)
    {
      baseUrl := newBaseUrl;
      model := newModel;
    }

    /** addDocument: throws NotConfigured when no model is set and the
        provider's error when embedding fails, in both cases changing nothing;
        otherwise upserts the record with the returned embedding. */
    method AddDocument(path: string, content: string, embed: Embedder) returns (result: Outcome<StoreError>)
      requires Valid()
      modifies this
      ensures Valid()
      ensures baseUrl == old(baseUrl) && model == old(model)
      ensures result == Fail(NotConfigured) <==> model == ""
      ensures result.Fail? ==> documents == old(documents) && added == old(added)
      ensures model != "" ==>
        match embed(baseUrl, model, content)
        case EmbedFailed(reason) => result == Fail(ProviderError(reason))
        case Embedded(v) =>
          result == Pass
          && documents == Upsert(old(documents), RagDocument(path, content, v))
          && added == old(added) + [RagDocument(path, content, v)]
    {
      if model == "" {
        return Fail(NotConfigured);
      }
      var outcome := embed(baseUrl, model, content);
      if outcome.EmbedFailed? {
        return Fail(ProviderError(outcome.reason));
      }
      var doc := RagDocument(path, content, outcome.vector);
      UpsertKeepsDistinct(documents, doc);
      documents := RemovePath(documents, path);
      documents := documents + [doc];
      added := added + [doc];
      assert added[..|added| - 1] == old(added);
      result := Pass;
    }

    /** search: on an empty store the answer is [] whatever the provider would
        do (it is not consulted); otherwise the provider's error, or the first
        `limit` records of the stable ranking by descending score, as
        `slice(0, limit)` counts them. The store is not changed. */
    function Search(query: string, embed: Embedder, score: Scorer, limit: int := DefaultLimit)
      : (r: Result<seq<RagDocument>, StoreError>)
      reads this
      ensures documents == [] ==> r == Ok([])
      ensures documents != [] && embed(baseUrl, model, query).EmbedFailed? ==>
                r == Err(ProviderError(embed(baseUrl, model, query).reason))
      ensures documents != [] && embed(baseUrl, model, query).Embedded? ==>
                var q := embed(baseUrl, model, query).vector;
                r.Ok?
                && r.value == Prefix(Rank(documents, score, q), limit)
                && (limit >= 0 ==> |r.value| == if limit < |documents| then limit else |documents|)
                && (limit < 0 ==> |r.value| == if |documents| + limit > 0 then |documents| + limit else 0)
                && (forall i :: 0 <= i < |r.value| ==> r.value[i] in documents)
                && (forall i, j :: 0 <= i < j < |r.value| ==>
                      score(q, r.value[i].embedding) >= score(q, r.value[j].embedding))
    {
      if documents == [] then Ok([])
      else
        match embed(baseUrl, model, query)
        case EmbedFailed(reason) => Err(ProviderError(reason))
        case Embedded(q) =>
          var ranked := Rank(documents, score, q);
          PrefixIsTop(ranked, QueryScore(score, q), limit);
          assert forall i :: 0 <= i < |ranked| ==> ranked[i] in multiset(documents);
          Ok(Prefix(ranked, limit))
    }

    /** count: the number of distinct paths added since the store was made or
        last cleared. */
    function Count(): (n: nat)
      reads this
      requires Valid()
      ensures n == |Paths(added)|
    {
      IngestCount(added);
      |documents|
    }

    /** clear: drops every record and keeps the configuration. */
    method Clear()
      requires Valid()
      modifies this
      ensures Valid()
      ensures documents == [] && added == [] && Count() == 0
      ensures baseUrl == old(baseUrl) && model == old(model)
    {
      documents := [];
      added := [];
    }
  }

  /** Search returns the best records: none left out scores more than one
      returned. */
  lemma SearchReturnsBest(docs: seq<RagDocument>, score: Scorer, q: seq<real>, limit: int, d: RagDocument)
    requires d in docs && d !in Prefix(Rank(docs, score, q), limit)
    ensures forall i :: 0 <= i < |Prefix(Rank(docs, score, q), limit)| ==>
              score(q, Prefix(Rank(docs, score, q), limit)[i].embedding) >= score(q, d.embedding)
  {
    var ranked := Rank(docs, score, q);
    var top := Prefix(ranked, limit);
    assert d in multiset(ranked);
    var j :| 0 <= j < |ranked| && ranked[j] == d;
    assert forall k :: 0 <= k < |top| ==> ranked[k] == top[k] != d;
    assert j >= |top|;
    PrefixIsTop(ranked, QueryScore(score, q), limit);
  }

  /** The dot product of two-dimensional vectors, standing in for the cosine
      in the example below (the two rank its three records alike). */
  function Dot2(u: seq<real>, v: seq<real>): real {
    if |u| == 2 && |v| == 2 then u[0] * v[0] + u[1] * v[1] else 0.0
  }

  /** Records a, b and c with embeddings [1, 0], [0, 1] and [0.7, 0.7],
      ranked against the query [1, 0]: a, then c, then b, so a search with
      limit 2 returns a and c. */
  lemma RankExample(a: RagDocument, b: RagDocument, c: RagDocument)
    requires a.embedding == [1.0, 0.0] && b.embedding == [0.0, 1.0] && c.embedding == [0.7, 0.7]
    ensures Rank([a, b, c], Dot2, [1.0, 0.0]) == [a, c, b]
    ensures Prefix(Rank([a, b, c], Dot2, [1.0, 0.0]), 2) == [a, c]
  {
    var key := QueryScore(Dot2, [1.0, 0.0]);
    ExampleScores(a, b, c);
    SortThree(a, b, c, key);
    RankIsSort([a, b, c], Dot2, [1.0, 0.0]);
    PrefixTwo(a, c, b);
  }

  /** Only unfolds Rank, so that RankExample can use SortThree. */
  lemma RankIsSort(docs: seq<RagDocument>, score: Scorer, q: seq<real>)
    ensures Rank(docs, score, q) == SortDescending(docs, QueryScore(score, q))
  {
  }

  lemma PrefixTwo(x: RagDocument, y: RagDocument, z: RagDocument)
    ensures Prefix([x, y, z], 2) == [x, y]
  {
    assert [x, y, z][..2] == [x, y];
  }

  /** The dot products of the example's embeddings with the query [1, 0]. */
  lemma ExampleScores(a: RagDocument, b: RagDocument, c: RagDocument)
    requires a.embedding == [1.0, 0.0] && b.embedding == [0.0, 1.0] && c.embedding == [0.7, 0.7]
    ensures QueryScore(Dot2, [1.0, 0.0])(a) == 1.0
    ensures QueryScore(Dot2, [1.0, 0.0])(c) == 0.7
    ensures QueryScore(Dot2, [1.0, 0.0])(b) == 0.0
  {
    assert Dot2([1.0, 0.0], [1.0, 0.0]) == 1.0;
    assert Dot2([1.0, 0.0], [0.7, 0.7]) == 0.7;
    assert Dot2([1.0, 0.0], [0.0, 1.0]) == 0.0;
  }
}
