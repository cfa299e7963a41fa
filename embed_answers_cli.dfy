/**
  `ragchat/cli/embed_answers_cli.py`: the normalized first answer of every example that
  has one is embedded and uploaded with a payload keyed by its content hash. The hash
  function `make_hash_id` is a parameter.
 */
module EmbedAnswersCli {
  import opened Wrappers
  import opened Strings
  import opened PyValue
  import opened Ingest
  import opened Embeddings
  import Utils
  import DataUtils
  import EmbedContextsCli

  /**
    `load_dataset_split`: `ds.get("train") or ds.get("validation") or next(iter(ds.values()))`;
    a split missing or empty is passed over (`None`: `next` raises on no split).
   */
  function LoadDatasetSplit(ds: Dataset): (r: Option<Split>)
    ensures ds.Single? ==> r == Some(ds.split)
    ensures ds.Splits? && TruthySplit(GetSplit(ds.named, TRAIN())) ==> r == GetSplit(ds.named, TRAIN())
    ensures ds.Splits? && !TruthySplit(GetSplit(ds.named, TRAIN())) && TruthySplit(GetSplit(ds.named, VALIDATION())) ==>
              r == GetSplit(ds.named, VALIDATION())
    ensures ds.Splits? && !TruthySplit(GetSplit(ds.named, TRAIN())) && !TruthySplit(GetSplit(ds.named, VALIDATION())) ==>
              r == if ds.named == [] then None else Some(ds.named[0].1)
    ensures r.Some? && ds.Splits? ==> exists k :: 0 <= k < |ds.named| && ds.named[k].1 == r.value
  {
    match ds
    case Single(split) => Some(split)
    case Splits(named) =>
      var train := GetSplit(named, TRAIN());
      var validation := GetSplit(named, VALIDATION());
      if train.Some? && train.value.rows != [] then train
      else if validation.Some? && validation.value.rows != [] then validation
      else if named != [] then Some(named[0].1)
      else None
  }

  /** `ds.get(name)` as an operand of `or`: a missing or empty split is falsy. */
  predicate TruthySplit(s: Option<Split>) {
    s.Some? && s.value.rows != []
  }

  /** The two commands pick the same split whenever `train` is present and non-empty. */
  lemma LoadersAgreeOnTrain(ds: Dataset)
    requires ds.Splits? && TruthySplit(GetSplit(ds.named, TRAIN()))
    ensures LoadDatasetSplit(ds) == EmbedContextsCli.LoadDatasetSplit(ds)
  {
  }

  /**
    An empty `train` split before a non-empty `validation` split: the contexts command
    takes `train` (it is not `None`), the answers command takes `validation` (`train` is
    falsy).
   */
  lemma LoadersDifferOnEmptyTrain(features: set<Text>, row: Example)
    ensures var ds := Splits([(TRAIN(), Split(features, [])), (VALIDATION(), Split(features, [row]))]);
            && EmbedContextsCli.LoadDatasetSplit(ds) == Some(Split(features, []))
            && LoadDatasetSplit(ds) == Some(Split(features, [row]))
  {
    var ds := Splits([(TRAIN(), Split(features, [])), (VALIDATION(), Split(features, [row]))]);
    assert TRAIN()[0] != VALIDATION()[0];
    assert GetSplit(ds.named, TRAIN()) == Some(Split(features, []));
    assert GetSplit(ds.named[1..], VALIDATION()) == Some(Split(features, [row]));
  }

  /**
    `normalize_arabic_text` of `ragchat/data/utils.py` on any value: a string is
    normalized; anything else gives `""`, through the emptiness test or the caught error.
   */
  function NormalizeAnswer(v: Value): (r: Text)
    ensures v.Str? ==> r == Utils.NormalizeArabicText(v.s)
    ensures !v.Str? ==> r == []
    ensures Canonical(r)
  {
    DataUtils.NormalizeArabicText(if v.Str? then Some(v.s) else None)
  }

  /** Lines 67-74: the payload of the answer of example `i`. */
  function AnswerPayload(i: nat, ans: Text, hashId: Text, ex: Example): (m: map<Text, Value>)
    ensures ID in m && m[ID] == Str(hashId)
    ensures HASH in m && m[HASH] == Str(hashId)
    ensures ORIGINAL_EXAMPLE_ID in m && m[ORIGINAL_EXAMPLE_ID] == Int(i)
    ensures ANSWER_TEXT in m && m[ANSWER_TEXT] == Str(ans)
    ensures CONTEXT() in m && m[CONTEXT()] == Get(ex, CONTEXT(), Null)
    ensures QUESTION() in m && m[QUESTION()] == Get(ex, QUESTION(), Null)
    ensures m.Keys == {ID, ORIGINAL_EXAMPLE_ID, ANSWER_TEXT, CONTEXT(), QUESTION(), HASH}
  {
    assert ANSWER_TEXT[0] != HASH[0] && ANSWER_TEXT[0] != ORIGINAL_EXAMPLE_ID[0];
    assert CONTEXT()[0] != QUESTION()[0] && CONTEXT()[0] != ID[0] && CONTEXT()[0] != ORIGINAL_EXAMPLE_ID[0];
    assert CONTEXT()[0] != ANSWER_TEXT[0] && CONTEXT()[0] != HASH[0];
    assert QUESTION()[0] != ID[0] && QUESTION()[0] != ORIGINAL_EXAMPLE_ID[0] && QUESTION()[0] != ANSWER_TEXT[0] && QUESTION()[0] != HASH[0];
    map[CONTEXT() := Get(ex, CONTEXT(), Null), QUESTION() := Get(ex, QUESTION(), Null), ID := Str(hashId),
        ORIGINAL_EXAMPLE_ID := Int(i), ANSWER_TEXT := Str(ans), HASH := Str(hashId)]
  }

  /** The answers and payloads extracted so far. */
  datatype Flat = Flat(texts: seq<Text>, payloads: seq<map<Text, Value>>)

  /** What example `i` contributes: nothing without answers, `None` when it raises. */
  function AnswerEntries(i: nat, ex: Example, makeHashId: Text -> Text): Option<Flat>
  {
    match AnswerList(ex)
    case None => None
    case Some(answers) =>
      if !Truthy(answers) then Some(Flat([], []))
      else
        match FirstItem(answers)
        case None => None
        case Some(first) =>
          var ans := NormalizeAnswer(first);
          Some(Flat([ans], [AnswerPayload(i, ans, makeHashId(ans), ex)]))
  }

  /** Whether example `ex` has answers (`if answers:`). */
  predicate HasAnswers(ex: Example) {
    AnswerList(ex).Some? && Truthy(AnswerList(ex).value)
  }

  function CountAnswered(rows: seq<Example>): nat
  {
    if rows == [] then 0
    else CountAnswered(rows[..|rows| - 1]) + (if HasAnswers(rows[|rows| - 1]) then 1 else 0)
  }

  /** The payload of one answer text, as the retrieval evaluation reads it back. */
  predicate Describes(m: map<Text, Value>, ans: Text, makeHashId: Text -> Text, n: nat) {
    && ANSWER_TEXT in m && m[ANSWER_TEXT] == Str(ans)
    && ID in m && m[ID] == Str(makeHashId(ans))
    && HASH in m && m[HASH] == m[ID]
    && ORIGINAL_EXAMPLE_ID in m && m[ORIGINAL_EXAMPLE_ID].Int? && 0 <= m[ORIGINAL_EXAMPLE_ID].i < n
  }

  /**
    `extract_answers` on the rows, example after example, or `None` when one raises: one
    answer per example with answers, each with its payload, in example order.
   */
  function Extracted(rows: seq<Example>, makeHashId: Text -> Text): (r: Option<Flat>)
    ensures r.Some? ==> |r.value.texts| == |r.value.payloads| == CountAnswered(rows)
  {
    if rows == [] then Some(Flat([], []))
    else
      match (Extracted(rows[..|rows| - 1], makeHashId), AnswerEntries(|rows| - 1, rows[|rows| - 1], makeHashId))
      case (Some(done), Some(more)) => Some(Flat(done.texts + more.texts, done.payloads + more.payloads))
      case _ => None
  }

  /** Each payload describes its answer, and each answer is in normal form. */
  lemma {:induction false} ExtractedDescribed(rows: seq<Example>, makeHashId: Text -> Text)
    requires Extracted(rows, makeHashId).Some?
    ensures var flat := Extracted(rows, makeHashId).value;
            && (forall p :: 0 <= p < |flat.texts| ==> Describes(flat.payloads[p], flat.texts[p], makeHashId, |rows|))
            && (forall p :: 0 <= p < |flat.texts| ==> Canonical(flat.texts[p]))
  {
    if rows != [] {
      var i := |rows| - 1;
      ExtractedDescribed(rows[..i], makeHashId);
      var done := Extracted(rows[..i], makeHashId).value;
      var more := AnswerEntries(i, rows[i], makeHashId).value;
      var flat := Extracted(rows, makeHashId).value;
      assert flat.texts == done.texts + more.texts && flat.payloads == done.payloads + more.payloads;
      forall p | 0 <= p < |flat.texts|
        ensures Describes(flat.payloads[p], flat.texts[p], makeHashId, |rows|) && Canonical(flat.texts[p])
      {
        if p < |done.texts| {
          assert Describes(done.payloads[p], done.texts[p], makeHashId, i);
        } else {
          assert flat.texts[p] == more.texts[p - |done.texts|];
        }
      }
    }
  }

  function OriginalId(m: map<Text, Value>): int
  {
    if ORIGINAL_EXAMPLE_ID in m && m[ORIGINAL_EXAMPLE_ID].Int? then m[ORIGINAL_EXAMPLE_ID].i else -1
  }

  /** `original_example_id` strictly increases: no example gives two answers. */
  lemma {:induction false} ExtractedIdsIncrease(rows: seq<Example>, makeHashId: Text -> Text)
    requires Extracted(rows, makeHashId).Some?
    ensures var ps := Extracted(rows, makeHashId).value.payloads;
            forall p, q :: 0 <= p < q < |ps| ==> OriginalId(ps[p]) < OriginalId(ps[q])
  {
    if rows != [] {
      var i := |rows| - 1;
      ExtractedIdsIncrease(rows[..i], makeHashId);
      ExtractedDescribed(rows[..i], makeHashId);
      var done := Extracted(rows[..i], makeHashId).value;
      var more := AnswerEntries(i, rows[i], makeHashId).value;
      var ps := done.payloads + more.payloads;
      forall p, q | 0 <= p < q < |ps| ensures OriginalId(ps[p]) < OriginalId(ps[q]) {
        if q >= |done.payloads| {
          assert OriginalId(ps[q]) == i;
          if p < |done.payloads| {
            assert Describes(done.payloads[p], done.texts[p], makeHashId, i);
          }
        }
      }
    }
  }

  lemma {:induction false} ExtractedPrefixFails(rows: seq<Example>, makeHashId: Text -> Text, i: nat)
    requires i <= |rows| && Extracted(rows[..i], makeHashId).None?
    ensures Extracted(rows, makeHashId).None?
    decreases |rows| - i
  {
    if i < |rows| {
      assert rows[..i + 1][..i] == rows[..i];
      ExtractedPrefixFails(rows, makeHashId, i + 1);
    } else {
      assert rows[..i] == rows;
    }
  }

  /** One more example: its entries are appended, or the extraction fails. */
  lemma ExtractedStep(rows: seq<Example>, makeHashId: Text -> Text, i: nat)
    requires i < |rows|
    ensures Extracted(rows[..i + 1], makeHashId) ==
              match (Extracted(rows[..i], makeHashId), AnswerEntries(i, rows[i], makeHashId))
              case (Some(done), Some(more)) => Some(Flat(done.texts + more.texts, done.payloads + more.payloads))
              case _ => None
  {
    var prefix := rows[..i + 1];
    assert prefix[..|prefix| - 1] == rows[..i];
    assert prefix[|prefix| - 1] == rows[i];
  }

  /** `extract_answers` (lines 55-76) */
  method ExtractAnswers(split: Split, makeHashId: Text -> Text) returns (r: Option<Flat>)
    ensures r == Extracted(split.rows, makeHashId)
  {
    var rows := split.rows;
    var answerTexts: seq<Text> := [];
    var payloads: seq<map<Text, Value>> := [];
    assert rows[..0] == [];
    for i := 0 to |rows|
      invariant Extracted(rows[..i], makeHashId) == Some(Flat(answerTexts, payloads))
    {
      var ex := rows[i];
      ExtractedStep(rows, makeHashId, i);
      var answers := AnswerList(ex);
      if answers.None? {
        ExtractedPrefixFails(rows, makeHashId, i + 1);
        return None;
      }
      if Truthy(answers.value) {
        var first := FirstItem(answers.value);
        if first.None? {
          ExtractedPrefixFails(rows, makeHashId, i + 1);
          return None;
        }
        var ans := NormalizeAnswer(first.value);
        var hashId := makeHashId(ans);
        answerTexts := answerTexts + [ans];
        payloads := payloads + [AnswerPayload(i, ans, hashId, ex)];
      } else {
        assert answerTexts + [] == answerTexts && payloads + [] == payloads;
      }
    }
    assert rows[..|rows|] == rows;
    r := Some(Flat(answerTexts, payloads));
  }

  /** The Qdrant calls `embed_answers` makes, or `None` when it stops with a logged error. */
  function AnswerUploads(ds: Dataset, embed: seq<Text> -> seq<Vector>, makeHashId: Text -> Text,
                         batchSize: int): Option<seq<Upsert<map<Text, Value>>>>
  {
    match LoadDatasetSplit(ds)
    case None => None
    case Some(split) =>
      if ANSWERS() !in split.features then None
      else
        match Extracted(split.rows, makeHashId)
        case None => None
        case Some(flat) => Upserts(flat.texts, flat.payloads, batchSize, embed, false)
  }

  /** `embed_answers` (lines 86-123) once the embedder and the index are set up. */
  method EmbedAnswers(ds: Dataset, embed: seq<Text> -> seq<Vector>, makeHashId: Text -> Text, batchSize: int)
    returns (calls: Option<seq<Upsert<map<Text, Value>>>>)
    ensures calls == AnswerUploads(ds, embed, makeHashId, batchSize)
  {
    var split := LoadDatasetSplit(ds);
    if split.None? {
      return None;
    }
    if ANSWERS() !in split.value.features {
      return None;
    }
    var flat := ExtractAnswers(split.value, makeHashId);
    if flat.None? {
      return None;
    }
    calls := UploadBatches(flat.value.texts, flat.value.payloads, batchSize, embed, false);
  }

  /** Every answer upload lets the index choose the point ids. */
  lemma AnswerUploadsLeaveIds(ds: Dataset, embed: seq<Text> -> seq<Vector>, makeHashId: Text -> Text,
                              batchSize: int, i: nat)
    requires AnswerUploads(ds, embed, makeHashId, batchSize).Some?
    requires i < |AnswerUploads(ds, embed, makeHashId, batchSize).value|
    ensures AnswerUploads(ds, embed, makeHashId, batchSize).value[i].startId == None
  {
  }
}
