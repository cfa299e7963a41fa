/**
  `ragchat/pipeline.py`: `RagPipeline.ask` normalizes the question, retrieves rows for it,
  keeps the rows scoring above the threshold, passes the texts of the first `k` of them
  (or of the best row) to the generator, and reports the first `k` rows unfiltered.
  The retriever and the generator are parameters.
 */
module Pipeline {
  import opened Wrappers
  import opened Strings
  import opened PyValue
  import opened Retriever
  import Utils

  const SCORE_THRESHOLD: real := 0.3

  /** `s[:k]` with Python's reading of a negative bound. */
  function PyTake<T>(s: seq<T>, k: int): (r: seq<T>)
    ensures 0 <= k ==> r == s[..if k < |s| then k else |s|]
    ensures k < 0 ==> r == s[..if |s| + k < 0 then 0 else |s| + k]
  {
    if k >= 0 then (if k < |s| then s[..k] else s)
    else if |s| + k < 0 then [] else s[..|s| + k]
  }

  /** `[h for h in hits if h.get('score', 0) > 0.3]` */
  function Passing(hits: seq<Row>): (r: seq<Row>)
    ensures |r| <= |hits|
    ensures forall i :: 0 <= i < |r| ==> r[i].score > SCORE_THRESHOLD
  {
    if hits == [] then []
    else (if hits[0].score > SCORE_THRESHOLD then [hits[0]] else []) + Passing(hits[1..])
  }

  /** A row passes exactly when it was retrieved and scores above the threshold. */
  lemma {:induction false} PassingMembership(hits: seq<Row>, h: Row)
    ensures h in Passing(hits) <==> h in hits && h.score > SCORE_THRESHOLD
  {
    if hits != [] {
      PassingMembership(hits[1..], h);
      assert hits == [hits[0]] + hits[1..];
    }
  }

  /** Filtering keeps retrieval order. */
  lemma {:induction false} PassingAppend(a: seq<Row>, b: seq<Row>)
    ensures Passing(a + b) == Passing(a) + Passing(b)
  {
    if a == [] {
      assert a + b == b;
    } else {
      var x, tail := a[0], a[1..];
      var head := if x.score > SCORE_THRESHOLD then [x] else [];
      assert a == [x] + tail;
      assert a + b == [x] + (tail + b);
      PassingCons(x, tail + b);
      PassingCons(x, tail);
      PassingAppend(tail, b);
      assert head + (Passing(tail) + Passing(b)) == (head + Passing(tail)) + Passing(b);
    }
  }

  lemma PassingCons(x: Row, rest: seq<Row>)
    ensures Passing([x] + rest) == (if x.score > SCORE_THRESHOLD then [x] else []) + Passing(rest)
  {
    assert ([x] + rest)[1..] == rest;
  }

  /** `k or settings.top_k` */
  function EffectiveK(k: Option<int>, topK: int): (r: int)
    ensures k == None || k == Some(0) ==> r == topK
    ensures k.Some? && k.value != 0 ==> r == k.value
  {
    match k
    case None => topK
    case Some(n) => if n != 0 then n else topK
  }

  function Texts(rows: seq<Row>): (r: seq<Value>)
    ensures |r| == |rows| && forall i :: 0 <= i < |rows| ==> r[i] == rows[i].text
  {
    seq(|rows|, i requires 0 <= i < |rows| => rows[i].text)
  }

  /** Lines 34-38: the contexts handed to the generator. */
  function GeneratorContexts(hits: seq<Row>, k: int): (r: seq<Value>)
    ensures hits == [] ==> r == []
    ensures hits != [] && PyTake(Passing(hits), k) == [] ==> r == [hits[0].text]
    ensures PyTake(Passing(hits), k) != [] ==> r == Texts(PyTake(Passing(hits), k))
  {
    var contexts := Texts(PyTake(Passing(hits), k));
    if contexts == [] && hits != [] then [hits[0].text] else contexts
  }

  /**
    With a positive `k`, the generator sees the texts of the first `k` rows that pass the
    threshold, or the best-ranked row alone when none passes: never more than `k` texts.
   */
  lemma GeneratorContextsPositiveK(hits: seq<Row>, k: int)
    requires k >= 1
    ensures |GeneratorContexts(hits, k)| <= k
    ensures Passing(hits) != [] ==> GeneratorContexts(hits, k) == Texts(PyTake(Passing(hits), k))
    ensures forall i :: 0 <= i < |GeneratorContexts(hits, k)| ==>
              exists h :: h in hits && h.text == GeneratorContexts(hits, k)[i]
  {
    var r := GeneratorContexts(hits, k);
    var taken := PyTake(Passing(hits), k);
    forall i | 0 <= i < |r| ensures exists h :: h in hits && h.text == r[i] {
      if taken == [] {
        assert hits[0] in hits;
      } else {
        assert taken[i] in Passing(hits);
        PassingMembership(hits, taken[i]);
      }
    }
  }

  /** What `ask` returns. */
  datatype Answer = Answer(question: Text, contexts: seq<Row>, answer: Text)

  /**
    `ask`: the normalized question goes to both the retriever and the generator and is
    the one reported; the reported rows are the first `k`, unfiltered. A retrieval that
    raises (`None` from `similar`) propagates out of `ask`.
   */
  function Ask(question: Text, k: Option<int>, topK: int,
               similar: Text -> Option<seq<Row>>, generate: (Text, seq<Value>) -> Text): (r: Option<Answer>)
    ensures r.None? <==> similar(Utils.NormalizeArabicText(question)).None?
    ensures r.Some? ==>
              var hits := similar(Utils.NormalizeArabicText(question)).value;
              && r.value.question == Utils.NormalizeArabicText(question)
              && r.value.contexts == PyTake(hits, EffectiveK(k, topK))
              && r.value.answer == generate(r.value.question, GeneratorContexts(hits, EffectiveK(k, topK)))
  {
    var q := Utils.NormalizeArabicText(question);
    match similar(q)
    case None => None
    case Some(hits) =>
      var n := EffectiveK(k, topK);
      Some(Answer(q, PyTake(hits, n), generate(q, GeneratorContexts(hits, n))))
  }

  /** With no hits the generator is still asked, with no context. */
  lemma AskWithoutHits(question: Text, k: Option<int>, topK: int,
                       similar: Text -> Option<seq<Row>>, generate: (Text, seq<Value>) -> Text)
    requires similar(Utils.NormalizeArabicText(question)) == Some([])
    ensures Ask(question, k, topK, similar, generate) ==
              Some(Answer(Utils.NormalizeArabicText(question), [], generate(Utils.NormalizeArabicText(question), [])))
  {
  }

  /** Asking a normalized question is asking the original one. */
  lemma AskNormalized(question: Text, k: Option<int>, topK: int,
                      similar: Text -> Option<seq<Row>>, generate: (Text, seq<Value>) -> Text)
    ensures Ask(Utils.NormalizeArabicText(question), k, topK, similar, generate) == Ask(question, k, topK, similar, generate)
  {
    Utils.NormalizeIdempotent(question);
  }
}
