/**
  `ragchat/preprocessing.py`: `preprocess_example` normalizes the context, the question
  and the first answer of a dataset example in place and adds the sentence chunks of
  the normalized context.
 */
module Preprocessing {
  import opened Wrappers
  import opened Strings
  import opened PyValue
  import Utils

  function CONTEXT(): Text { Lit("context") }
  function QUESTION(): Text { Lit("question") }
  function ANSWERS(): Text { Lit("answers") }
  function TEXT(): Text { Lit("text") }
  function CHUNKS(): Text { Lit("chunks") }

  lemma KeysDistinct()
    ensures CONTEXT() != QUESTION() && CONTEXT() != ANSWERS() && CONTEXT() != CHUNKS()
    ensures QUESTION() != ANSWERS() && QUESTION() != CHUNKS() && ANSWERS() != CHUNKS()
  {
    assert CONTEXT()[0] == 'c' as int && QUESTION()[0] == 'q' as int;
    assert ANSWERS()[0] == 'a' as int && CHUNKS()[0] == 'c' as int;
    assert CONTEXT()[1] == 'o' as int && CHUNKS()[1] == 'h' as int;
  }

  /** A dataset example: a dictionary the preprocessing updates in place. */
  class Example {
    var fields: map<Text, Value>

    constructor (fields: map<Text, Value>)
      ensures this.fields == fields
    {
      this.fields := fields;
    }
  }

  /** A value `normalize_arabic_text` rejects: a truthy value that is not a string raises inside `re.sub`. */
  predicate Unnormalizable(v: Value) {
    Truthy(v) && !v.Str?
  }

  /**
    `normalize_arabic_text(v)` on any value: a string is normalized, a falsy value gives
    `""` through the `if not text` test, and anything else raises (`None`).
   */
  function NormalizeValue(v: Value): (r: Option<Text>)
    ensures r.None? <==> Unnormalizable(v)
    ensures v.Str? ==> r == Some(Utils.NormalizeArabicText(v.s))
    ensures !Truthy(v) ==> r == Some([])
  {
    if v.Str? then Some(Utils.NormalizeArabicText(v.s))
    else if !Truthy(v) then Some([])
    else None
  }

  /** The `answers` entry after lines 18-23, or `None` when normalizing the first answer raises. */
  function NormalizedAnswers(answers: Value): Option<Value>
  {
    if answers.Dict? then
      var ansList := Get(answers.entries, TEXT(), Lst([]));
      if ansList.Lst? && |ansList.items| > 0 then
        match NormalizeValue(ansList.items[0])
        case None => None
        case Some(first) => Some(Dict(answers.entries[TEXT() := Lst(ansList.items[0 := Str(first)])]))
      else Some(answers)
    else Some(answers)
  }

  /**
    The example's fields after `preprocess_example` returns normally, or `None` when an
    exception is raised (and caught) before the first update.
   */
  function Preprocess(fields: map<Text, Value>, groupSize: int): Option<map<Text, Value>>
  {
    var context := NormalizeValue(Get(fields, CONTEXT(), Str([])));
    var question := NormalizeValue(Get(fields, QUESTION(), Str([])));
    var answers := NormalizedAnswers(Get(fields, ANSWERS(), Dict(map[])));
    if context.None? || question.None? || answers.None? then None
    else
      var chunks := Utils.Chunks(Utils.SplitIntoSentences(context.value), groupSize);
      Some(Written(fields, Str(context.value), Str(question.value), answers.value, StrList(chunks)))
  }

  /** `fields` after lines 25-27 and 34 write the four keys. */
  function Written(fields: map<Text, Value>, context: Value, question: Value, answers: Value, chunks: Value): (m: map<Text, Value>)
    ensures m.Keys == fields.Keys + {CONTEXT(), QUESTION(), ANSWERS(), CHUNKS()}
    ensures m[CONTEXT()] == context && m[QUESTION()] == question
    ensures m[ANSWERS()] == answers && m[CHUNKS()] == chunks
    ensures forall k :: k in fields && k !in {CONTEXT(), QUESTION(), ANSWERS(), CHUNKS()} ==> m[k] == fields[k]
  {
    KeysDistinct();
    fields[CONTEXT() := context][QUESTION() := question][ANSWERS() := answers][CHUNKS() := chunks]
  }

  /** The first answer, when `answers["text"]` is a non-empty list. */
  predicate HasFirstAnswer(fields: map<Text, Value>) {
    var answers := Get(fields, ANSWERS(), Dict(map[]));
    && answers.Dict?
    && TEXT() in answers.entries
    && answers.entries[TEXT()].Lst?
    && |answers.entries[TEXT()].items| > 0
  }

  function FirstAnswer(fields: map<Text, Value>): Value
    requires HasFirstAnswer(fields)
  {
    Get(fields, ANSWERS(), Dict(map[])).entries[TEXT()].items[0]
  }

  /**
    The exception path: preprocessing fails exactly when the context, the question or
    the first answer is a truthy non-string.
   */
  lemma PreprocessFails(fields: map<Text, Value>, groupSize: int)
    ensures Preprocess(fields, groupSize).None? <==>
              || Unnormalizable(Get(fields, CONTEXT(), Str([])))
              || Unnormalizable(Get(fields, QUESTION(), Str([])))
              || (HasFirstAnswer(fields) && Unnormalizable(FirstAnswer(fields)))
  {
  }

  /**
    Only the four written keys change; `context` and `question` become the normalized
    texts (a missing field counts as `""`), and `chunks` are the chunked sentences of
    the normalized context.
   */
  lemma PreprocessFields(fields: map<Text, Value>, groupSize: int, context: Text, question: Text)
    requires Get(fields, CONTEXT(), Str([])) == Str(context)
    requires Get(fields, QUESTION(), Str([])) == Str(question)
    requires Preprocess(fields, groupSize).Some?
    ensures var m := Preprocess(fields, groupSize).value;
            && m.Keys == fields.Keys + {CONTEXT(), QUESTION(), ANSWERS(), CHUNKS()}
            && (forall k :: k in fields && k !in {CONTEXT(), QUESTION(), ANSWERS(), CHUNKS()} ==> m[k] == fields[k])
            && m[CONTEXT()] == Str(Utils.NormalizeArabicText(context))
            && m[QUESTION()] == Str(Utils.NormalizeArabicText(question))
            && m[CHUNKS()] == StrList(Utils.Chunks(Utils.SplitIntoSentences(Utils.NormalizeArabicText(context)), groupSize))
  {
    KeysDistinct();
  }

  /** When nothing raises, the four keys get the normalized values and the chunks. */
  lemma PreprocessWritten(fields: map<Text, Value>, groupSize: int, context: Text, question: Text, answers: Value)
    requires NormalizeValue(Get(fields, CONTEXT(), Str([]))) == Some(context)
    requires NormalizeValue(Get(fields, QUESTION(), Str([]))) == Some(question)
    requires NormalizedAnswers(Get(fields, ANSWERS(), Dict(map[]))) == Some(answers)
    ensures Preprocess(fields, groupSize)
            == Some(Written(fields, Str(context), Str(question), answers, StrList(Utils.Chunks(Utils.SplitIntoSentences(context), groupSize))))
  {
  }

  /** The `answers` entry written back is the one lines 18-23 computed. */
  lemma PreprocessAnswers(fields: map<Text, Value>, groupSize: int)
    requires Preprocess(fields, groupSize).Some?
    ensures Preprocess(fields, groupSize).value[ANSWERS()] == NormalizedAnswers(Get(fields, ANSWERS(), Dict(map[]))).value
  {
  }

  /**
    Only `answers["text"][0]` is normalized: the other answer strings and the other keys
    of `answers` are unchanged.
   */
  lemma PreprocessFirstAnswer(fields: map<Text, Value>, groupSize: int, first: Text)
    requires HasFirstAnswer(fields) && FirstAnswer(fields) == Str(first)
    requires Preprocess(fields, groupSize).Some?
    ensures var before := fields[ANSWERS()].entries;
            var after := Preprocess(fields, groupSize).value[ANSWERS()];
            && after.Dict? && after.entries.Keys == before.Keys
            && (forall k :: k in before && k != TEXT() ==> after.entries[k] == before[k])
            && after.entries[TEXT()] == Lst([Str(Utils.NormalizeArabicText(first))] + before[TEXT()].items[1..])
  {
    var answersIn := Get(fields, ANSWERS(), Dict(map[]));
    assert ANSWERS() in fields && answersIn == fields[ANSWERS()];
    PreprocessAnswers(fields, groupSize);
    FirstAnswerNormalized(answersIn, first);
  }

  /** Lines 20-23 on a dict whose `text` list starts with the string `first`. */
  lemma FirstAnswerNormalized(answers: Value, first: Text)
    requires answers.Dict? && TEXT() in answers.entries && answers.entries[TEXT()].Lst?
    requires |answers.entries[TEXT()].items| > 0 && answers.entries[TEXT()].items[0] == Str(first)
    ensures var before := answers.entries;
            var after := NormalizedAnswers(answers);
            && after.Some? && after.value.Dict? && after.value.entries.Keys == before.Keys
            && (forall k :: k in before && k != TEXT() ==> after.value.entries[k] == before[k])
            && after.value.entries[TEXT()] == Lst([Str(Utils.NormalizeArabicText(first))] + before[TEXT()].items[1..])
  {
    var before := answers.entries;
    var items := before[TEXT()].items;
    var n := Str(Utils.NormalizeArabicText(first));
    NormalizedAnswersOfList(before, items, Utils.NormalizeArabicText(first));
    assert items[0 := n] == [n] + items[1..];
  }

  /**
    A non-dict `answers`, or a missing, empty or non-list `text`, is left as it was
    (a missing `answers` becomes `{}`).
   */
  lemma PreprocessKeepsAnswers(fields: map<Text, Value>, groupSize: int)
    requires !HasFirstAnswer(fields)
    requires Preprocess(fields, groupSize).Some?
    ensures Preprocess(fields, groupSize).value[ANSWERS()] == Get(fields, ANSWERS(), Dict(map[]))
  {
    KeysDistinct();
  }

  lemma NormalizeValueIdempotent(v: Value)
    requires !Unnormalizable(v)
    ensures NormalizeValue(Str(NormalizeValue(v).value)) == NormalizeValue(v)
  {
    Utils.NormalizeIdempotent(if v.Str? then v.s else []);
  }

  /** What lines 20-23 do to an `answers` dict whose `text` is a non-empty list. */
  lemma NormalizedAnswersOfList(entries: map<Text, Value>, items: seq<Value>, first: Text)
    requires Get(entries, TEXT(), Lst([])) == Lst(items) && |items| > 0
    requires NormalizeValue(items[0]) == Some(first)
    ensures NormalizedAnswers(Dict(entries)) == Some(Dict(entries[TEXT() := Lst(items[0 := Str(first)])]))
  {
  }

  lemma SeqUpdateSame(s: seq<Value>, i: nat, v: Value)
    requires i < |s| && s[i] == v
    ensures s[i := v] == s
  {
  }

  lemma MapUpdateSame(m: map<Text, Value>, k: Text, v: Value)
    requires k in m && m[k] == v
    ensures m[k := v] == m
  {
  }

  lemma NormalizedAnswersIdempotent(answers: Value)
    requires NormalizedAnswers(answers).Some?
    ensures NormalizedAnswers(NormalizedAnswers(answers).value) == NormalizedAnswers(answers)
  {
    if answers.Dict? {
      var ansList := Get(answers.entries, TEXT(), Lst([]));
      if ansList.Lst? && |ansList.items| > 0 {
        var first := NormalizeValue(ansList.items[0]).value;
        var items' := ansList.items[0 := Str(first)];
        var entries' := answers.entries[TEXT() := Lst(items')];
        NormalizedAnswersOfList(answers.entries, ansList.items, first);
        NormalizeValueIdempotent(ansList.items[0]);
        NormalizedAnswersOfList(entries', items', first);
        SeqUpdateSame(items', 0, Str(first));
        MapUpdateSame(entries', TEXT(), Lst(items'));
      }
    }
  }

  lemma WrittenAgain(fields: map<Text, Value>, context: Value, question: Value, answers: Value, chunks: Value)
    ensures var m := Written(fields, context, question, answers, chunks);
            Written(m, context, question, answers, chunks) == m
  {
  }

  /** Preprocessing a preprocessed example changes nothing. */
  lemma PreprocessIdempotent(fields: map<Text, Value>, groupSize: int)
    requires Preprocess(fields, groupSize).Some?
    ensures Preprocess(Preprocess(fields, groupSize).value, groupSize) == Preprocess(fields, groupSize)
  {
    var contextIn := Get(fields, CONTEXT(), Str([]));
    var questionIn := Get(fields, QUESTION(), Str([]));
    var answersIn := Get(fields, ANSWERS(), Dict(map[]));
    var context := NormalizeValue(contextIn).value;
    var question := NormalizeValue(questionIn).value;
    var answers := NormalizedAnswers(answersIn).value;
    var chunks := StrList(Utils.Chunks(Utils.SplitIntoSentences(context), groupSize));
    var m := Written(fields, Str(context), Str(question), answers, chunks);
    assert Preprocess(fields, groupSize) == Some(m);
    NormalizeValueIdempotent(contextIn);
    NormalizeValueIdempotent(questionIn);
    NormalizedAnswersIdempotent(answersIn);
    assert Get(m, CONTEXT(), Str([])) == Str(context);
    assert Get(m, QUESTION(), Str([])) == Str(question);
    assert Get(m, ANSWERS(), Dict(map[])) == answers;
    WrittenAgain(fields, Str(context), Str(question), answers, chunks);
  }

  /**
    `preprocess_example` (lines 8-40): the same dictionary object is updated and
    returned; on an exception it is returned untouched.
   */
  method PreprocessExample(example: Example, groupSize: int) returns (r: Example)
    modifies example
    ensures r == example
    ensures example.fields == Preprocess(old(example.fields), groupSize).GetOr(old(example.fields))
  {
    r := example;
    ghost var fields := example.fields;
    var context := NormalizeValue(Get(example.fields, CONTEXT(), Str([])));
    if context.None? {
      return;
    }
    var question := NormalizeValue(Get(example.fields, QUESTION(), Str([])));
    if question.None? {
      return;
    }
    var answers := Get(example.fields, ANSWERS(), Dict(map[]));
    if answers.Dict? {
      var ansList := Get(answers.entries, TEXT(), Lst([]));
      if ansList.Lst? && |ansList.items| > 0 {
        var first := NormalizeValue(ansList.items[0]);
        if first.None? {
          return;
        }
        ansList := Lst(ansList.items[0 := Str(first.value)]);
        answers := Dict(answers.entries[TEXT() := ansList]);
      }
    }
    assert NormalizedAnswers(Get(fields, ANSWERS(), Dict(map[]))) == Some(answers);
    example.fields := example.fields[CONTEXT() := Str(context.value)];
    example.fields := example.fields[QUESTION() := Str(question.value)];
    example.fields := example.fields[ANSWERS() := answers];
    var sentences := Utils.SplitIntoSentences(context.value);
    var chunks := Utils.ChunkSentences(sentences, groupSize);
    example.fields := example.fields[CHUNKS() := StrList(chunks)];
    assert example.fields == Written(fields, Str(context.value), Str(question.value), answers, StrList(chunks));
    PreprocessWritten(fields, groupSize, context.value, question.value, answers);
  }
}
