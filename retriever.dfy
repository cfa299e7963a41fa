/**
  `ragchat/retriever.py`: a question is encoded with the query encoder, the vector index
  is searched with its first vector, and each hit becomes a result row. The index's
  `search` is a parameter; `None` is a search that raises.
 */
module Retriever {
  import opened Wrappers
  import opened Strings
  import opened PyValue
  import opened Embeddings
  import opened Ingest

  /** A scored point returned by the index; its payload may be `None`. */
  datatype Hit = Hit(score: real, payload: Option<map<Text, Value>>)

  /** `{"score": ..., "text": ..., "id": ...}` */
  datatype Row = Row(score: real, text: Value, id: Value)

  const DEFAULT_TOP_K: int := 5

  /** `pl.get("context_text") or pl.get("answer_text") or ""` */
  function PayloadText(pl: map<Text, Value>): (r: Value)
    ensures Truthy(Get(pl, CONTEXT_TEXT, Null)) ==> r == pl[CONTEXT_TEXT]
    ensures !Truthy(Get(pl, CONTEXT_TEXT, Null)) && Truthy(Get(pl, ANSWER_TEXT, Null)) ==> r == pl[ANSWER_TEXT]
    ensures !Truthy(Get(pl, CONTEXT_TEXT, Null)) && !Truthy(Get(pl, ANSWER_TEXT, Null)) ==> r == Str([])
  {
    Or(Or(Get(pl, CONTEXT_TEXT, Null), Get(pl, ANSWER_TEXT, Null)), Str([]))
  }

  /** Lines 19-24 for one hit; a `None` payload reads as `{}`. */
  function ToRow(h: Hit): (r: Row)
    ensures r.score == h.score
    ensures h.payload.None? ==> r.text == Str([]) && r.id == Null
    ensures h.payload.Some? ==> r.text == PayloadText(h.payload.value) && r.id == Get(h.payload.value, ID, Null)
  {
    var pl := h.payload.GetOr(map[]);
    Row(h.score, PayloadText(pl), Get(pl, ID, Null))
  }

  /** The rows for a list of hits: one per hit, in hit order. */
  function Rows(hits: seq<Hit>): (r: seq<Row>)
    ensures |r| == |hits|
    ensures forall i :: 0 <= i < |hits| ==> r[i] == ToRow(hits[i])
  {
    seq(|hits|, i requires 0 <= i < |hits| => ToRow(hits[i]))
  }

  /** The retriever's configuration: the embedder, the index's search, the collection and `top_k`. */
  datatype Retriever = Retriever(
    embedder: Embedder,
    search: (Text, Vector, int) -> Option<seq<Hit>>,
    collection: Text,
    topK: int)

  /**
    The hits for a question (lines 15-16), or `None` when the encoder returns no vector
    (`[0]` fails) or the search raises.
   */
  function SearchHits(r: Retriever, question: Text): (h: Option<seq<Hit>>)
    ensures EncodeQueries(r.embedder, [question]) == [] ==> h.None?
    ensures EncodeQueries(r.embedder, [question]) != [] ==>
              h == r.search(r.collection, EncodeQueries(r.embedder, [question])[0], r.topK)
  {
    var vs := EncodeQueries(r.embedder, [question]);
    if vs == [] then None else r.search(r.collection, vs[0], r.topK)
  }

  /** `similar_contexts` */
  method SimilarContexts(r: Retriever, question: Text) returns (results: Option<seq<Row>>)
    ensures results.None? <==> SearchHits(r, question).None?
    ensures results.Some? ==> results.value == Rows(SearchHits(r, question).value)
  {
    var vectors := EncodeQueries(r.embedder, [question]);
    if |vectors| == 0 {
      return None;
    }
    var qv := vectors[0];
    var found := r.search(r.collection, qv, r.topK);
    if found.None? {
      return None;
    }
    var hits := found.value;
    var rows: seq<Row> := [];
    for i := 0 to |hits|
      invariant rows == Rows(hits[..i])
    {
      var h := hits[i];
      var pl := h.payload.GetOr(map[]);
      rows := rows + [Row(h.score, Or(Or(Get(pl, CONTEXT_TEXT, Null), Get(pl, ANSWER_TEXT, Null)), Str([])), Get(pl, ID, Null))];
    }
    assert hits[..|hits|] == hits;
    results := Some(rows);
  }

  /** With an index that honours its limit, there are at most `top_k` results. */
  lemma RowsWithinTopK(r: Retriever, question: Text)
    requires SearchHits(r, question).Some? && |SearchHits(r, question).value| <= r.topK
    ensures |Rows(SearchHits(r, question).value)| <= r.topK
  {
  }

  /** Rows follow the hits: the rows of two runs of hits are the two runs of rows. */
  lemma RowsAppend(a: seq<Hit>, b: seq<Hit>)
    ensures Rows(a + b) == Rows(a) + Rows(b)
  {
  }
}
