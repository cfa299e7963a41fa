/**
  What the two ingestion commands of `ragchat/cli/` share: a loaded dataset, the first
  answer of an example, and the batched upload of embedded texts with their payloads.
  The embedder's `embed_batch` is a parameter and each `upsert` call is recorded.
 */
module Ingest {
  import opened Wrappers
  import opened Strings
  import opened PyValue
  import opened Embeddings

  /** A dataset row. */
  type Example = map<Text, Value>

  /** A dataset split: its column names and its rows. An empty split is falsy. */
  datatype Split = Split(features: set<Text>, rows: seq<Example>)

  /**
    What `load_from_disk` returns: a dictionary of named splits in insertion order, or a
    single split.
   */
  datatype Dataset = Splits(named: seq<(Text, Split)>) | Single(split: Split)

  /** `ds.get(name)` on a dictionary of splits. */
  function GetSplit(named: seq<(Text, Split)>, name: Text): (r: Option<Split>)
    ensures r.None? <==> forall k :: 0 <= k < |named| ==> named[k].0 != name
    ensures r.Some? ==> exists k :: 0 <= k < |named| && named[k] == (name, r.value)
  {
    if named == [] then None
    else if named[0].0 == name then Some(named[0].1)
    else
      var r := GetSplit(named[1..], name);
      assert forall k :: 1 <= k < |named| ==> named[k] == named[1..][k - 1];
      r
  }

  function TRAIN(): Text { Lit("train") }
  function VALIDATION(): Text { Lit("validation") }
  function ANSWERS(): Text { Lit("answers") }
  function TEXT(): Text { Lit("text") }
  function CONTEXT(): Text { Lit("context") }
  function QUESTION(): Text { Lit("question") }

  /** The payload fields the ingestion commands write and the retriever reads. */
  const ID: Text := Lit("id")
  const CHUNK_INDEX: Text := Lit("chunk_index")
  const CONTEXT_TEXT: Text := Lit("context_text")
  const ANSWER_TEXT: Text := Lit("answer_text")
  const RAW_CONTEXT: Text := Lit("raw_context")
  const ORIGINAL_EXAMPLE_ID: Text := Lit("original_example_id")
  const HASH: Text := Lit("hash")

  /**
    `ex.get("answers", {}).get("text", [])`, or `None` when `answers` is not a dictionary
    (the attribute lookup raises).
   */
  function AnswerList(ex: Example): (r: Option<Value>)
    ensures ANSWERS() !in ex ==> r == Some(Lst([]))
    ensures ANSWERS() in ex && ex[ANSWERS()].Dict? ==> r == Some(Get(ex[ANSWERS()].entries, TEXT(), Lst([])))
    ensures r.None? <==> ANSWERS() in ex && !ex[ANSWERS()].Dict?
  {
    var answers := Get(ex, ANSWERS(), Dict(map[]));
    if answers.Dict? then Some(Get(answers.entries, TEXT(), Lst([]))) else None
  }

  /**
    `v[0]` on a truthy value: the first item of a list or the first character of a
    string; anything else raises.
   */
  function FirstItem(v: Value): (r: Option<Value>)
    requires Truthy(v)
    ensures v.Lst? ==> r == Some(v.items[0])
    ensures v.Str? ==> r == Some(Str([v.s[0]]))
    ensures r.None? <==> !v.Lst? && !v.Str?
  {
    match v
    case Lst(items) => Some(items[0])
    case Str(s) => Some(Str([s[0]]))
    case _ => None
  }

  /* ---------------------------------------------------------------------------------
     Batching: `for start in range(0, len(texts), batch_size)`
     --------------------------------------------------------------------------------- */

  /** One `idx.upsert` call. */
  datatype Upsert<P> = Upsert(vectors: seq<Vector>, payloads: seq<P>, startId: Option<int>)

  /** `range(start, n, size)` for a positive step. */
  function BatchStarts(n: nat, size: nat, start: nat): (r: seq<nat>)
    requires size >= 1
    ensures forall i :: 0 <= i < |r| ==> start <= r[i] < n
    ensures r != [] ==> r[0] == start
    decreases n - start
  {
    if start >= n then [] else [start] + BatchStarts(n, size, start + size)
  }

  /** `s[start:start + size]`, with Python's clamping at the end. */
  function PySlice<T>(s: seq<T>, start: nat, size: nat): (r: seq<T>)
    ensures start <= |s| ==> r == s[start..if start + size <= |s| then start + size else |s|]
    ensures start > |s| ==> r == []
  {
    if start > |s| then [] else if start + size <= |s| then s[start..start + size] else s[start..]
  }

  /** The upsert for the batch at `start`. */
  function BatchUpsert<T, P>(texts: seq<T>, payloads: seq<P>, size: nat, embed: seq<T> -> seq<Vector>,
                             withStartId: bool, start: nat): Upsert<P>
  {
    Upsert(embed(PySlice(texts, start, size)), PySlice(payloads, start, size),
           if withStartId then Some(start) else None)
  }

  /** The upserts for a list of batch starts, in order. */
  function UpsertsAt<T, P>(texts: seq<T>, payloads: seq<P>, size: nat, embed: seq<T> -> seq<Vector>,
                           withStartId: bool, starts: seq<nat>): (r: seq<Upsert<P>>)
    ensures |r| == |starts|
  {
    seq(|starts|, i requires 0 <= i < |starts| => BatchUpsert(texts, payloads, size, embed, withStartId, starts[i]))
  }

  /**
    The calls the upload loop makes: `range` with a zero step raises (`None`), a negative
    step gives no batch, a positive one a batch per start.
   */
  function Upserts<T, P>(texts: seq<T>, payloads: seq<P>, batchSize: int, embed: seq<T> -> seq<Vector>,
                         withStartId: bool): (r: Option<seq<Upsert<P>>>)
    ensures r.None? <==> batchSize == 0
    ensures batchSize < 0 ==> r == Some([])
  {
    if batchSize == 0 then None
    else if batchSize < 0 then Some([])
    else Some(UpsertsAt(texts, payloads, batchSize, embed, withStartId, BatchStarts(|texts|, batchSize, 0)))
  }

  lemma UpsertsAtSnoc<T, P>(texts: seq<T>, payloads: seq<P>, size: nat, embed: seq<T> -> seq<Vector>,
                            withStartId: bool, starts: seq<nat>, start: nat)
    ensures UpsertsAt(texts, payloads, size, embed, withStartId, starts + [start])
         == UpsertsAt(texts, payloads, size, embed, withStartId, starts) + [BatchUpsert(texts, payloads, size, embed, withStartId, start)]
  {
  }

  /** The batching loop of both ingestion commands (`start_id=start` or `start_id=None`). */
  method UploadBatches<T, P>(texts: seq<T>, payloads: seq<P>, batchSize: int, embed: seq<T> -> seq<Vector>,
                             withStartId: bool) returns (calls: Option<seq<Upsert<P>>>)
    ensures calls == Upserts(texts, payloads, batchSize, embed, withStartId)
  {
    if batchSize == 0 {
      return None;
    }
    if batchSize < 0 {
      return Some([]);
    }
    var done: seq<Upsert<P>> := [];
    ghost var used: seq<nat> := [];
    var start := 0;
    while start < |texts|
      invariant used + BatchStarts(|texts|, batchSize, start) == BatchStarts(|texts|, batchSize, 0)
      invariant done == UpsertsAt(texts, payloads, batchSize, embed, withStartId, used)
      decreases |texts| - start
    {
      var batch := PySlice(texts, start, batchSize);
      var vectors := embed(batch);
      var batchPayloads := PySlice(payloads, start, batchSize);
      var call := Upsert(vectors, batchPayloads, if withStartId then Some(start) else None);
      assert call == BatchUpsert(texts, payloads, batchSize, embed, withStartId, start);
      UpsertsAtSnoc(texts, payloads, batchSize, embed, withStartId, used, start);
      done := done + [call];
      ghost var rest := BatchStarts(|texts|, batchSize, start + batchSize);
      assert BatchStarts(|texts|, batchSize, start) == [start] + rest;
      assert (used + [start]) + rest == used + ([start] + rest);
      used := used + [start];
      start := start + batchSize;
    }
    assert BatchStarts(|texts|, batchSize, start) == [];
    assert used == BatchStarts(|texts|, batchSize, 0);
    calls := Some(done);
  }

  function Flatten<T>(parts: seq<seq<T>>): seq<T>
  {
    if parts == [] then [] else parts[0] + Flatten(parts[1..])
  }

  /** The text batches for a list of batch starts. */
  function TextBatches<T>(texts: seq<T>, size: nat, starts: seq<nat>): (r: seq<seq<T>>)
    ensures |r| == |starts|
  {
    seq(|starts|, i requires 0 <= i < |starts| => PySlice(texts, starts[i], size))
  }

  /** The batches partition the texts: in order, without gap or overlap. */
  lemma {:induction false} BatchesPartition<T>(texts: seq<T>, size: nat, start: nat)
    requires size >= 1 && start <= |texts|
    ensures Flatten(TextBatches(texts, size, BatchStarts(|texts|, size, start))) == texts[start..]
    decreases |texts| - start
  {
    var starts := BatchStarts(|texts|, size, start);
    if start < |texts| {
      var next := if start + size <= |texts| then start + size else |texts|;
      var rest := BatchStarts(|texts|, size, start + size);
      var first := PySlice(texts, start, size);
      assert starts == [start] + rest;
      assert Flatten(TextBatches(texts, size, rest)) == texts[next..] by {
        if start + size <= |texts| {
          BatchesPartition(texts, size, start + size);
        } else {
          assert rest == [];
        }
      }
      assert Flatten(TextBatches(texts, size, starts)) == first + Flatten(TextBatches(texts, size, rest)) by {
        TextBatchesCons(texts, size, start, rest);
      }
      assert first == texts[start..next];
      assert texts[start..] == texts[start..next] + texts[next..];
    }
  }

  lemma TextBatchesCons<T>(texts: seq<T>, size: nat, start: nat, rest: seq<nat>)
    ensures Flatten(TextBatches(texts, size, [start] + rest)) == PySlice(texts, start, size) + Flatten(TextBatches(texts, size, rest))
  {
    var bs := TextBatches(texts, size, [start] + rest);
    assert bs == [PySlice(texts, start, size)] + TextBatches(texts, size, rest);
  }

  /** Every batch holds between 1 and `batch_size` texts. */
  lemma BatchSizes<T>(texts: seq<T>, size: nat, start: nat, i: nat)
    requires size >= 1
    requires i < |BatchStarts(|texts|, size, start)|
    ensures 1 <= |TextBatches(texts, size, BatchStarts(|texts|, size, start))[i]| <= size
  {
  }

  /** The `i`-th batch starts at `i * batch_size`, the `start_id` it is uploaded with. */
  lemma {:induction false} BatchStartAt(n: nat, size: nat, start: nat, i: nat)
    requires size >= 1
    requires i < |BatchStarts(n, size, start)|
    ensures BatchStarts(n, size, start)[i] == start + i * size
    decreases n - start
  {
    if i > 0 {
      var rest := BatchStarts(n, size, start + size);
      assert BatchStarts(n, size, start) == [start] + rest;
      BatchStartAt(n, size, start + size, i - 1);
      assert (start + size) + (i - 1) * size == start + i * size;
    }
  }
}
