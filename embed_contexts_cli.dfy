/**
  `ragchat/cli/embed_contexts_cli.py`: the context chunks of a preprocessed split are
  flattened into one list of texts with one payload each, embedded in batches and
  uploaded with the batch start as the first point id.
 */
module EmbedContextsCli {
  import opened Wrappers
  import opened Strings
  import opened PyValue
  import opened Ingest
  import opened Embeddings

  function CHUNKS(): Text { Lit("chunks") }

  /**
    `load_dataset_split`: a dictionary of splits gives `train` when present (`is not
    None`), else `validation`, else its first split (`None`: `next` raises on no split);
    a single split is returned as is.
   */
  function LoadDatasetSplit(ds: Dataset): (r: Option<Split>)
    ensures ds.Single? ==> r == Some(ds.split)
    ensures ds.Splits? && GetSplit(ds.named, TRAIN()).Some? ==> r == GetSplit(ds.named, TRAIN())
    ensures ds.Splits? && GetSplit(ds.named, TRAIN()).None? && GetSplit(ds.named, VALIDATION()).Some? ==>
              r == GetSplit(ds.named, VALIDATION())
    ensures ds.Splits? && GetSplit(ds.named, TRAIN()).None? && GetSplit(ds.named, VALIDATION()).None? ==>
              r == if ds.named == [] then None else Some(ds.named[0].1)
  {
    match ds
    case Single(split) => Some(split)
    case Splits(named) =>
      if GetSplit(named, TRAIN()).Some? then GetSplit(named, TRAIN())
      else if GetSplit(named, VALIDATION()).Some? then GetSplit(named, VALIDATION())
      else if named != [] then Some(named[0].1)
      else None
  }

  /** Lines 62-63: the first answer, `Null` when there is none, or `None` when the lookup raises. */
  function ChunkAnswer(ex: Example): (r: Option<Value>)
    ensures AnswerList(ex).Some? && !Truthy(AnswerList(ex).value) ==> r == Some(Null)
    ensures AnswerList(ex).Some? && AnswerList(ex).value.Lst? && AnswerList(ex).value.items != [] ==>
              r == Some(AnswerList(ex).value.items[0])
  {
    match AnswerList(ex)
    case None => None
    case Some(answers) => if Truthy(answers) then FirstItem(answers) else Some(Null)
  }

  /** `ex["chunks"]` as a list, or `None` when it is missing or not a list. */
  function ExampleChunks(ex: Example): Option<seq<Value>>
  {
    if CHUNKS() in ex && ex[CHUNKS()].Lst? then Some(ex[CHUNKS()].items) else None
  }

  /** Lines 67-74: the payload of chunk `j` of example `i`. */
  function ChunkPayload(i: nat, j: nat, chunk: Value, answerText: Value, ex: Example): (m: map<Text, Value>)
    ensures ID in m && m[ID] == Int(i)
    ensures CHUNK_INDEX in m && m[CHUNK_INDEX] == Int(j)
    ensures CONTEXT_TEXT in m && m[CONTEXT_TEXT] == chunk
    ensures ANSWER_TEXT in m && m[ANSWER_TEXT] == answerText
    ensures RAW_CONTEXT in m && m[RAW_CONTEXT] == Get(ex, CONTEXT(), Null)
    ensures QUESTION() in m && m[QUESTION()] == Get(ex, QUESTION(), Null)
    ensures m.Keys == {ID, CHUNK_INDEX, CONTEXT_TEXT, ANSWER_TEXT, RAW_CONTEXT, QUESTION()}
  {
    assert ANSWER_TEXT[0] != CHUNK_INDEX[0];
    assert RAW_CONTEXT[0] != QUESTION()[0] && RAW_CONTEXT[0] != ANSWER_TEXT[0] && RAW_CONTEXT[0] != CHUNK_INDEX[0];
    assert RAW_CONTEXT[0] != ID[0] && RAW_CONTEXT[0] != CONTEXT_TEXT[0];
    assert QUESTION()[0] != ANSWER_TEXT[0] && QUESTION()[0] != CHUNK_INDEX[0] && QUESTION()[0] != ID[0] && QUESTION()[0] != CONTEXT_TEXT[0];
    map[RAW_CONTEXT := Get(ex, CONTEXT(), Null), QUESTION() := Get(ex, QUESTION(), Null), ANSWER_TEXT := answerText,
        CHUNK_INDEX := Int(j), ID := Int(i), CONTEXT_TEXT := chunk]
  }

  /** The payloads of the chunks of example `i`, in chunk order. */
  function ChunkPayloads(i: nat, chunks: seq<Value>, answerText: Value, ex: Example): (r: seq<map<Text, Value>>)
    ensures |r| == |chunks|
    ensures forall j :: 0 <= j < |chunks| ==> r[j] == ChunkPayload(i, j, chunks[j], answerText, ex)
  {
    seq(|chunks|, j requires 0 <= j < |chunks| => ChunkPayload(i, j, chunks[j], answerText, ex))
  }

  /** The flattened texts and payloads. */
  datatype Flat = Flat(texts: seq<Value>, payloads: seq<map<Text, Value>>)

  /** The texts and payloads example `i` contributes, or `None` when it raises. */
  function ExampleEntries(i: nat, ex: Example): Option<Flat>
  {
    match (ChunkAnswer(ex), ExampleChunks(ex))
    case (Some(answerText), Some(chunks)) => Some(Flat(chunks, ChunkPayloads(i, chunks, answerText, ex)))
    case _ => None
  }

  /**
    `extract_chunks` on the rows, example after example, or `None` when one of them
    raises: one payload per text, each naming its text as `context_text`.
   */
  function Extracted(rows: seq<Example>): (r: Option<Flat>)
    ensures r.Some? ==> |r.value.texts| == |r.value.payloads|
    ensures r.Some? ==> forall p :: 0 <= p < |r.value.texts| ==>
              CONTEXT_TEXT in r.value.payloads[p] && r.value.payloads[p][CONTEXT_TEXT] == r.value.texts[p]
  {
    if rows == [] then Some(Flat([], []))
    else
      match (Extracted(rows[..|rows| - 1]), ExampleEntries(|rows| - 1, rows[|rows| - 1]))
      case (Some(done), Some(more)) => Some(Flat(done.texts + more.texts, done.payloads + more.payloads))
      case _ => None
  }

  /** The number of chunks of the rows (with no example raising). */
  function TotalChunks(rows: seq<Example>): nat
  {
    if rows == [] then 0
    else TotalChunks(rows[..|rows| - 1]) + |ExampleChunks(rows[|rows| - 1]).GetOr([])|
  }

  /** There is one text and one payload per chunk. */
  lemma {:induction false} ExtractedCount(rows: seq<Example>)
    requires Extracted(rows).Some?
    ensures |Extracted(rows).value.texts| == TotalChunks(rows)
  {
    if rows != [] {
      ExtractedCount(rows[..|rows| - 1]);
    }
  }

  /** The rank of a payload: its example index, then its chunk index. */
  predicate Ranked(m: map<Text, Value>) {
    ID in m && m[ID].Int? && CHUNK_INDEX in m && m[CHUNK_INDEX].Int?
  }

  predicate Before(a: map<Text, Value>, b: map<Text, Value>)
    requires Ranked(a) && Ranked(b)
  {
    a[ID].i < b[ID].i || (a[ID].i == b[ID].i && a[CHUNK_INDEX].i < b[CHUNK_INDEX].i)
  }

  /**
    The payloads come example after example and, within an example, chunk after chunk:
    every payload is ranked below `|rows|`, and ranks strictly increase.
   */
  predicate InOrder(payloads: seq<map<Text, Value>>, n: nat) {
    && (forall p :: 0 <= p < |payloads| ==> Ranked(payloads[p]) && 0 <= payloads[p][ID].i < n)
    && (forall p, q :: 0 <= p < q < |payloads| ==> Before(payloads[p], payloads[q]))
  }

  /** Within an example, the payloads carry its index and rank by chunk index. */
  lemma ChunkPayloadsInOrder(i: nat, chunks: seq<Value>, answerText: Value, ex: Example)
    ensures var ps := ChunkPayloads(i, chunks, answerText, ex);
            forall p :: 0 <= p < |ps| ==> Ranked(ps[p]) && ps[p][ID].i == i && ps[p][CHUNK_INDEX].i == p
    ensures var ps := ChunkPayloads(i, chunks, answerText, ex);
            forall p, q :: 0 <= p < q < |ps| ==> Ranked(ps[p]) && Ranked(ps[q]) && Before(ps[p], ps[q])
  {
    var ps := ChunkPayloads(i, chunks, answerText, ex);
    forall p | 0 <= p < |ps| ensures Ranked(ps[p]) && ps[p][ID].i == i && ps[p][CHUNK_INDEX].i == p {
      assert ps[p] == ChunkPayload(i, p, chunks[p], answerText, ex);
    }
    forall p, q | 0 <= p < q < |ps| ensures Ranked(ps[p]) && Ranked(ps[q]) && Before(ps[p], ps[q]) {
      assert ps[p][CHUNK_INDEX].i == p && ps[q][CHUNK_INDEX].i == q;
    }
  }

  lemma InOrderAppend(a: seq<map<Text, Value>>, b: seq<map<Text, Value>>, n: nat, i: nat)
    requires InOrder(a, i) && i < n
    requires forall p :: 0 <= p < |b| ==> Ranked(b[p]) && b[p][ID].i == i
    requires forall p, q :: 0 <= p < q < |b| ==> Before(b[p], b[q])
    ensures InOrder(a + b, n)
  {
    var s := a + b;
    forall p, q | 0 <= p < q < |s| ensures Before(s[p], s[q]) {
      if q < |a| {
        assert Before(a[p], a[q]);
      } else if p >= |a| {
        assert Before(b[p - |a|], b[q - |a|]);
      }
    }
  }

  lemma {:induction false} ExtractedInOrder(rows: seq<Example>)
    requires Extracted(rows).Some?
    ensures InOrder(Extracted(rows).value.payloads, |rows|)
  {
    if rows != [] {
      var i := |rows| - 1;
      ExtractedInOrder(rows[..i]);
      var more := ExampleEntries(i, rows[i]).value;
      ChunkPayloadsInOrder(i, more.texts, ChunkAnswer(rows[i]).value, rows[i]);
      InOrderAppend(Extracted(rows[..i]).value.payloads, more.payloads, |rows|, i);
    }
  }

  lemma {:induction false} ExtractedPrefixFails(rows: seq<Example>, i: nat)
    requires i <= |rows| && Extracted(rows[..i]).None?
    ensures Extracted(rows).None?
    decreases |rows| - i
  {
    if i < |rows| {
      assert rows[..i + 1][..i] == rows[..i];
      ExtractedPrefixFails(rows, i + 1);
    } else {
      assert rows[..i] == rows;
    }
  }

  /** One more example: its entries are appended, or the extraction fails. */
  lemma ExtractedStep(rows: seq<Example>, i: nat)
    requires i < |rows|
    ensures Extracted(rows[..i + 1]) ==
              match (Extracted(rows[..i]), ExampleEntries(i, rows[i]))
              case (Some(done), Some(more)) => Some(Flat(done.texts + more.texts, done.payloads + more.payloads))
              case _ => None
  {
    var prefix := rows[..i + 1];
    assert prefix[..|prefix| - 1] == rows[..i];
    assert prefix[|prefix| - 1] == rows[i];
  }

  /** One more chunk: its payload is appended. */
  lemma ChunkPayloadsStep(i: nat, chunks: seq<Value>, j: nat, answerText: Value, ex: Example)
    requires j < |chunks|
    ensures ChunkPayloads(i, chunks[..j + 1], answerText, ex)
            == ChunkPayloads(i, chunks[..j], answerText, ex) + [ChunkPayload(i, j, chunks[j], answerText, ex)]
  {
    var before := ChunkPayloads(i, chunks[..j], answerText, ex);
    var after := ChunkPayloads(i, chunks[..j + 1], answerText, ex);
    assert |after| == |before| + 1;
    forall k | 0 <= k < |after| ensures after[k] == (before + [ChunkPayload(i, j, chunks[j], answerText, ex)])[k] {
      assert chunks[..j + 1][k] == chunks[k];
    }
  }

  /** `extract_chunks` (lines 54-76), with the nested loops. */
  method ExtractChunks(split: Split) returns (r: Option<Flat>)
    ensures r == Extracted(split.rows)
  {
    var rows := split.rows;
    var allTexts: seq<Value> := [];
    var allPayloads: seq<map<Text, Value>> := [];
    assert rows[..0] == [];
    for i := 0 to |rows|
      invariant Extracted(rows[..i]) == Some(Flat(allTexts, allPayloads))
    {
      var ex := rows[i];
      ExtractedStep(rows, i);
      var answerList := AnswerList(ex);
      if answerList.None? {
        ExtractedPrefixFails(rows, i + 1);
        return None;
      }
      var answerText: Value := Null;
      if Truthy(answerList.value) {
        var first := FirstItem(answerList.value);
        if first.None? {
          ExtractedPrefixFails(rows, i + 1);
          return None;
        }
        answerText := first.value;
      }
      assert ChunkAnswer(ex) == Some(answerText);
      if CHUNKS() !in ex || !ex[CHUNKS()].Lst? {
        ExtractedPrefixFails(rows, i + 1);
        return None;
      }
      var chunks := ex[CHUNKS()].items;
      ghost var textsBefore, payloadsBefore := allTexts, allPayloads;
      for j := 0 to |chunks|
        invariant allTexts == textsBefore + chunks[..j]
        invariant allPayloads == payloadsBefore + ChunkPayloads(i, chunks[..j], answerText, ex)
      {
        assert chunks[..j + 1] == chunks[..j] + [chunks[j]];
        ChunkPayloadsStep(i, chunks, j, answerText, ex);
        allTexts := allTexts + [chunks[j]];
        allPayloads := allPayloads + [ChunkPayload(i, j, chunks[j], answerText, ex)];
      }
      assert chunks[..|chunks|] == chunks;
      assert ExampleEntries(i, ex) == Some(Flat(chunks, ChunkPayloads(i, chunks, answerText, ex)));
    }
    assert rows[..|rows|] == rows;
    r := Some(Flat(allTexts, allPayloads));
  }

  /** The Qdrant calls `embed_contexts` makes, or `None` when it stops with a logged error. */
  function ContextUploads(ds: Dataset, embed: seq<Value> -> seq<Vector>, batchSize: int): Option<seq<Upsert<map<Text, Value>>>>
  {
    match LoadDatasetSplit(ds)
    case None => None
    case Some(split) =>
      if CHUNKS() !in split.features then None
      else
        match Extracted(split.rows)
        case None => None
        case Some(flat) => Upserts(flat.texts, flat.payloads, batchSize, embed, true)
  }

  /** `embed_contexts` (lines 86-120) once the embedder and the index are set up. */
  method EmbedContexts(ds: Dataset, embed: seq<Value> -> seq<Vector>, batchSize: int)
    returns (calls: Option<seq<Upsert<map<Text, Value>>>>)
    ensures calls == ContextUploads(ds, embed, batchSize)
  {
    var split := LoadDatasetSplit(ds);
    if split.None? {
      return None;
    }
    if CHUNKS() !in split.value.features {
      return None;
    }
    var flat := ExtractChunks(split.value);
    if flat.None? {
      return None;
    }
    calls := UploadBatches(flat.value.texts, flat.value.payloads, batchSize, embed, true);
  }

  /**
    Every upload carries the payloads of exactly the chunks it embeds, and the `i`-th
    upload starts at point id `i * batch_size`.
   */
  lemma ContextUploadsAligned(ds: Dataset, embed: seq<Value> -> seq<Vector>, batchSize: int, i: nat)
    requires ContextUploads(ds, embed, batchSize).Some? && batchSize >= 1
    requires i < |ContextUploads(ds, embed, batchSize).value|
    ensures var flat := Extracted(LoadDatasetSplit(ds).value.rows).value;
            var u := ContextUploads(ds, embed, batchSize).value[i];
            && u.startId == Some(i * batchSize)
            && u.vectors == embed(PySlice(flat.texts, i * batchSize, batchSize))
            && u.payloads == PySlice(flat.payloads, i * batchSize, batchSize)
  {
    var flat := Extracted(LoadDatasetSplit(ds).value.rows).value;
    BatchStartAt(|flat.texts|, batchSize, 0, i);
  }
}
