/**
  `ragchat/generator.py`: the prompt builders for the seq2seq (T5) and causal (GPT-2)
  models, the post-processing of generated text, and the dispatch between the two
  paths. The tokenizer's counts, `clean_text` and the model's generation are parameters.
 */
module Generator {
  import opened Wrappers
  import opened Strings
  import opened Packing
  import Utils

  const SEP: Text := Lit("\n- ")

  /** The instruction and examples that open every GPT-2 prompt (lines 107-116). */
  const FEWSHOT: Text := Lit("أجب بإيجاز وبشكل دقيق باللغة العربية فقط.\nالأمثلة:\nالسؤال: من هو نجيب محفوظ؟\nالإجابة: هو كاتب وروائي مصري فاز بجائزة نوبل في الأدب.\nالسؤال: ما هي عاصمة السعودية؟\nالإجابة: الرياض.\nالسؤال: من اكتشف الكهرباء؟\nالإجابة: بنجامين فرانكلين.\n\n")

  /** The answer tag `الإجابة:` */
  const ANSWER_TAG: Text := Lit("الإجابة:")

  const DEFAULT_ENCODER_MAX_LEN: int := 512
  const DEFAULT_PROMPT_MAX_LEN: int := 640

  /* ---------------------------------------------------------------------------------
     _arabic_only
     --------------------------------------------------------------------------------- */

  /** The punctuation `_arabic_only` keeps: `. , ؟ ! : ؛ - ( ) " '` */
  predicate IsKeptPunctuation(c: CodePoint) {
    c in {'.' as int, ',' as int, 0x061F, '!' as int, ':' as int, 0x061B, '-' as int, '(' as int, ')' as int, '"' as int, '\'' as int}
  }

  /** The class `[ء-ي0-9\s.,؟!:؛\-\(\)\"']` of line 15. */
  predicate IsArabicOnlyChar(c: CodePoint) {
    || 0x0621 <= c <= 0x064A
    || '0' as int <= c <= '9' as int
    || IsSpace(c)
    || IsKeptPunctuation(c)
  }

  predicate IsNotArabicOnlyChar(c: CodePoint) {
    !IsArabicOnlyChar(c)
  }

  /**
    `_arabic_only`: every character outside the kept class becomes a space, then
    whitespace is collapsed and stripped. What remains is single spaces between Arabic
    letters, ASCII digits and the kept punctuation.
   */
  function ArabicOnly(s: Text): (r: Text)
    ensures Canonical(r)
    ensures forall i :: 0 <= i < |r| ==> r[i] == SPACE || (IsArabicOnlyChar(r[i]) && !IsSpace(r[i]))
  {
    var k := Replace(s, IsNotArabicOnlyChar, SPACE);
    CollapseAndStripKeeps(k, IsArabicOnlyChar);
    CollapseAndStrip(k)
  }

  /** Filtering filtered text changes nothing. */
  lemma ArabicOnlyIdempotent(s: Text)
    ensures ArabicOnly(ArabicOnly(s)) == ArabicOnly(s)
  {
    var r := ArabicOnly(s);
    Utils.ReplaceNothing(r, IsNotArabicOnlyChar, SPACE);
    CollapseAndStripKeepsCanonical(r);
  }

  /* ---------------------------------------------------------------------------------
     _extract_after_answer_tag
     --------------------------------------------------------------------------------- */

  /** `re.split(r"الإجابة:\s*", text, maxsplit=1)` and `m[-1] if len(m) > 1 else text` */
  function AfterAnswerTag(text: Text): (r: Text)
  {
    match FindFrom(text, ANSWER_TAG, 0)
    case Some(i) => LStrip(text[i + |ANSWER_TAG|..])
    case None => text
  }

  /** The words after which `\n\s*(...)\b` cuts the answer. */
  const ECHO_QUESTION: Text := Lit("السؤال")
  const ECHO_CONTEXT: Text := Lit("context")
  const ECHO_CONTEXT_COLON: Text := Lit("context:")
  const ECHO_CONTEXT_AR: Text := Lit("سياق")
  const ECHO_THE_CONTEXT_AR: Text := Lit("السياق")

  /** `\b` at position `e`: a word character on exactly one side. */
  predicate IsBoundary(s: Text, e: nat) {
    (0 < e <= |s| && IsWordChar(s[e - 1])) != (e < |s| && IsWordChar(s[e]))
  }

  predicate EchoWordAt(s: Text, q: nat, w: Text) {
    OccursAt(s, w, q) && IsBoundary(s, q + |w|)
  }

  /**
    `\n\s*(السؤال|context|context:|سياق|السياق)\b` matches at `p`. The words all start
    with a non-whitespace character, so `\s*` can only end where the whitespace run does.
   */
  predicate EchoAt(s: Text, p: nat) {
    p < |s| && s[p] == NEWLINE &&
    var q := RunEnd(s, p + 1, IsSpace);
    || EchoWordAt(s, q, ECHO_QUESTION)
    || EchoWordAt(s, q, ECHO_CONTEXT)
    || EchoWordAt(s, q, ECHO_CONTEXT_COLON)
    || EchoWordAt(s, q, ECHO_CONTEXT_AR)
    || EchoWordAt(s, q, ECHO_THE_CONTEXT_AR)
  }

  /** `re.split(r"\n\s*(...)\b", ans)[0]`: the text before the first echoed prompt line. */
  function CutAtEcho(s: Text): (r: Text)
    ensures StartsWith(s, r)
    ensures |r| < |s| ==> EchoAt(s, |r|)
    ensures forall p :: 0 <= p < |r| ==> !EchoAt(s, p)
  {
    var echo := (p: nat) => EchoAt(s, p);
    match FirstWhere(|s|, echo, 0)
    case Some(p) =>
      assert forall q :: 0 <= q < p ==> !EchoAt(s, q) by {
        forall q | 0 <= q < p ensures !EchoAt(s, q) {
          assert !echo(q);
        }
      }
      s[..p]
    case None =>
      assert forall q :: 0 <= q < |s| ==> !EchoAt(s, q) by {
        forall q | 0 <= q < |s| ensures !EchoAt(s, q) {
          assert !echo(q);
        }
      }
      s
  }

  predicate IsStop(c: CodePoint) {
    c == '.' as int || c == '!' as int || c == 0x061F
  }

  /** `[.!؟]\s` matches at `p`. */
  predicate StopAt(s: Text, p: nat) {
    p + 1 < |s| && IsStop(s[p]) && IsSpace(s[p + 1])
  }

  /** No `.`, `!` or `؟` is immediately followed by whitespace. */
  predicate NoStopBeforeSpace(s: Text) {
    forall p :: 0 <= p < |s| ==> !StopAt(s, p)
  }

  /** `re.split(r"[.!؟]\s", ans, maxsplit=1)[0]`: the text before the first sentence end. */
  function CutAtStop(s: Text): (r: Text)
    ensures StartsWith(s, r)
    ensures |r| < |s| ==> StopAt(s, |r|)
    ensures forall p :: 0 <= p < |r| ==> !StopAt(s, p)
  {
    var stop := (p: nat) => StopAt(s, p);
    match FirstWhere(|s|, stop, 0)
    case Some(p) =>
      assert forall q :: 0 <= q < p ==> !StopAt(s, q) by {
        forall q | 0 <= q < p ensures !StopAt(s, q) {
          assert !stop(q);
        }
      }
      s[..p]
    case None =>
      assert forall q :: 0 <= q < |s| ==> !StopAt(s, q) by {
        forall q | 0 <= q < |s| ensures !StopAt(s, q) {
          assert !stop(q);
        }
      }
      s
  }

  lemma CutAtStopHasNoStop(s: Text)
    ensures NoStopBeforeSpace(CutAtStop(s))
  {
    var r := CutAtStop(s);
    forall p | 0 <= p < |r| ensures !StopAt(r, p) {
      assert !StopAt(s, p);
      if p + 1 < |r| {
        assert r[p] == s[p] && r[p + 1] == s[p + 1];
      }
    }
  }

  const MAX_ANSWER_TOKENS: nat := 25

  /** Lines 139-141: more than 25 words are cut to the first 25, joined by single spaces. */
  function TruncateWords(s: Text): Text
  {
    var tokens := Words(s);
    if |tokens| > MAX_ANSWER_TOKENS then Join([SPACE], tokens[..MAX_ANSWER_TOKENS]) else s
  }

  /** Lines 134-142, after the tag has been located. */
  function FinishAnswer(s: Text): (r: Text)
    ensures Trimmed(r)
  {
    Strip(TruncateWords(CutAtStop(CutAtEcho(Strip(s)))))
  }

  /** `_extract_after_answer_tag` */
  function ExtractAfterAnswerTag(text: Text): (r: Text)
    ensures Trimmed(r)
  {
    FinishAnswer(AfterAnswerTag(text))
  }

  /** Everything up to the first tag and the whitespace after it is dropped. */
  lemma ExtractDropsThroughTag(before: Text, after: Text)
    requires FindFrom(before + ANSWER_TAG + after, ANSWER_TAG, 0) == Some(|before|)
    ensures ExtractAfterAnswerTag(before + ANSWER_TAG + after) == FinishAnswer(LStrip(after))
  {
    var text := before + ANSWER_TAG + after;
    assert text[|before| + |ANSWER_TAG|..] == after;
  }

  /** Text without the tag is processed whole. */
  lemma ExtractWithoutTag(text: Text)
    requires forall j :: 0 <= j <= |text| ==> !OccursAt(text, ANSWER_TAG, j)
    ensures ExtractAfterAnswerTag(text) == FinishAnswer(text)
  {
  }

  lemma WordsOfTruncate(s: Text)
    ensures Words(TruncateWords(s)) == if |Words(s)| > MAX_ANSWER_TOKENS then Words(s)[..MAX_ANSWER_TOKENS] else Words(s)
  {
    var tokens := Words(s);
    if |tokens| > MAX_ANSWER_TOKENS {
      WordsOfJoin(tokens[..MAX_ANSWER_TOKENS]);
    }
  }

  /** The answer has at most 25 whitespace-separated tokens. */
  lemma FinishAnswerWords(s: Text)
    ensures |Words(FinishAnswer(s))| <= MAX_ANSWER_TOKENS
  {
    var cut := CutAtStop(CutAtEcho(Strip(s)));
    WordsOfTruncate(cut);
    WordsOfStrip(TruncateWords(cut));
  }

  lemma NoStopSlice(s: Text, i: nat, j: nat)
    requires NoStopBeforeSpace(s) && i <= j <= |s|
    ensures NoStopBeforeSpace(s[i..j])
  {
    var t := s[i..j];
    forall p | 0 <= p < |t| ensures !StopAt(t, p) {
      assert !StopAt(s, i + p);
      if p + 1 < |t| {
        assert t[p] == s[i + p] && t[p + 1] == s[i + p + 1];
      }
    }
  }

  lemma NoStopConcat(a: Text, b: Text)
    requires NoStopBeforeSpace(a) && NoStopBeforeSpace(b)
    requires a != [] && b != [] ==> !(IsStop(a[|a| - 1]) && IsSpace(b[0]))
    ensures NoStopBeforeSpace(a + b)
  {
    var s := a + b;
    forall p | 0 <= p < |s| ensures !StopAt(s, p) {
      if p + 1 < |a| {
        assert !StopAt(a, p);
      } else if p + 1 == |a| {
      } else if p + 1 < |s| {
        assert !StopAt(b, p - |a|);
      }
    }
  }

  /** Rejoining the words of a text whose stops are never followed by whitespace brings in no such stop. */
  lemma {:induction false} NoStopJoinWords(s: Text)
    requires NoStopBeforeSpace(s)
    ensures NoStopBeforeSpace(Join([SPACE], Words(s)))
    decreases |s|
  {
    if s != [] {
      if IsSpace(s[0]) {
        NoStopSlice(s, 1, |s|);
        assert s[1..|s|] == s[1..];
        NoStopJoinWords(s[1..]);
      } else {
        var k := RunEnd(s, 0, IsNonSpace);
        var w, rest := s[..k], s[k..];
        NoStopSlice(s, 0, k);
        NoStopSlice(s, k, |s|);
        assert s[k..|s|] == rest;
        NoStopJoinWords(rest);
        var ws := Words(rest);
        assert Words(s) == [w] + ws;
        if ws != [] {
          assert ([w] + ws)[1..] == ws;
          assert Join([SPACE], Words(s)) == w + [SPACE] + Join([SPACE], ws);
          assert !StopAt(s, k - 1);
          NoStopConcat(w, [SPACE]);
          NoStopConcat(w + [SPACE], Join([SPACE], ws));
        }
      }
    }
  }

  lemma JoinPrefix(ws: seq<Text>, n: nat)
    requires 1 <= n < |ws|
    ensures StartsWith(Join([SPACE], ws), Join([SPACE], ws[..n]))
  {
    assert ws == ws[..n] + ws[n..];
    JoinAppend([SPACE], ws[..n], ws[n..]);
  }

  lemma NoStopTruncate(s: Text)
    requires NoStopBeforeSpace(s)
    ensures NoStopBeforeSpace(TruncateWords(s))
  {
    var tokens := Words(s);
    if |tokens| > MAX_ANSWER_TOKENS {
      NoStopJoinWords(s);
      JoinPrefix(tokens, MAX_ANSWER_TOKENS);
      NoStopSlice(Join([SPACE], tokens), 0, |Join([SPACE], tokens[..MAX_ANSWER_TOKENS])|);
    }
  }

  /** The answer contains no `.`, `!` or `؟` immediately followed by whitespace. */
  lemma FinishAnswerNoStop(s: Text)
    ensures NoStopBeforeSpace(FinishAnswer(s))
  {
    var cut := CutAtStop(CutAtEcho(Strip(s)));
    CutAtStopHasNoStop(CutAtEcho(Strip(s)));
    NoStopTruncate(cut);
    var t := TruncateWords(cut);
    var i, j := StripSlice(t);
    NoStopSlice(t, i, j);
  }

  /* ---------------------------------------------------------------------------------
     Context selection and the two prompt builders
     --------------------------------------------------------------------------------- */

  /** `[clean_text(c) for c in (contexts or []) if c and c.strip()]` */
  function UsableContexts(contexts: seq<Text>, cleanText: Text -> Text): (r: seq<Text>)
    ensures |r| <= |contexts|
  {
    if contexts == [] then []
    else (if Strip(contexts[0]) != [] then [cleanText(contexts[0])] else []) + UsableContexts(contexts[1..], cleanText)
  }

  /** Blank contexts are skipped and the others kept in order. */
  lemma {:induction false} UsableContextsAllBlank(contexts: seq<Text>, cleanText: Text -> Text)
    ensures UsableContexts(contexts, cleanText) == [] <==> AllBlank(contexts)
  {
    if contexts != [] {
      var tail := contexts[1..];
      assert UsableContexts(contexts, cleanText) == [] <==> Strip(contexts[0]) == [] && UsableContexts(tail, cleanText) == [];
      UsableContextsAllBlank(tail, cleanText);
      assert AllBlank(contexts) <==> Strip(contexts[0]) == [] && AllBlank(tail) by {
        assert forall k :: 1 <= k < |contexts| ==> contexts[k] == tail[k - 1];
      }
    }
  }

  /** Every context is empty or whitespace. */
  predicate AllBlank(contexts: seq<Text>) {
    forall k :: 0 <= k < |contexts| ==> Strip(contexts[k]) == []
  }

  /** `ctx_block + (SEP if ctx_block else "") + c` */
  function Glue(block: Text, c: Text): Text
  {
    block + (if block != [] then SEP else []) + c
  }

  /** The prompt around a context block (lines 121 and 127). */
  function Gpt2Skeleton(q: Text, block: Text): Text
  {
    FEWSHOT + Lit("السؤال: ") + q + Lit("\nالسياق:") + block + Lit("\nالإجابة:")
  }

  function Gpt2Fits(q: Text, tokenCount: Text -> nat, promptMaxLen: int): Text -> bool
  {
    (block: Text) => tokenCount(Gpt2Skeleton(q, block)) <= promptMaxLen
  }

  /** The GPT-2 prompt: the few-shot skeleton around the greedily packed context block. */
  function Gpt2Prompt(question: Text, contexts: Option<seq<Text>>, cleanText: Text -> Text,
                      tokenCount: Text -> nat, promptMaxLen: int): Text
  {
    var q := cleanText(question);
    var ctxs := UsableContexts(contexts.GetOr([]), cleanText);
    Gpt2Skeleton(q, Packed(Glue, Gpt2Fits(q, tokenCount, promptMaxLen), [], ctxs))
  }

  /** With non-empty contexts the block is their `"\n- "`-join. */
  lemma {:induction false} GlueIsJoin(cs: seq<Text>)
    requires forall k :: 0 <= k < |cs| ==> cs[k] != []
    ensures Fold(Glue, [], cs) == Join(SEP, cs)
    decreases |cs|
  {
    if |cs| > 1 {
      var init := cs[..|cs| - 1];
      GlueIsJoin(init);
      assert cs == init + [cs[|cs| - 1]];
      JoinAppend(SEP, init, [cs[|cs| - 1]]);
      assert Join(SEP, init) != [] by {
        JoinNonEmpty(init);
      }
    } else if |cs| == 1 {
      assert cs[..0] == [];
    }
  }

  lemma {:induction false} JoinNonEmpty(cs: seq<Text>)
    requires cs != [] && forall k :: 0 <= k < |cs| ==> cs[k] != []
    ensures Join(SEP, cs) != []
  {
  }

  /**
    The GPT-2 prompt is the skeleton around the `"\n- "`-join of the longest prefix of
    the usable contexts whose every step fits the budget, when no cleaned context is empty.
   */
  lemma Gpt2PromptShape(question: Text, contexts: Option<seq<Text>>, cleanText: Text -> Text,
                        tokenCount: Text -> nat, promptMaxLen: int)
    requires forall k :: 0 <= k < |UsableContexts(contexts.GetOr([]), cleanText)| ==>
               UsableContexts(contexts.GetOr([]), cleanText)[k] != []
    ensures var q := cleanText(question);
            var ctxs := UsableContexts(contexts.GetOr([]), cleanText);
            var n := Accepted(Glue, Gpt2Fits(q, tokenCount, promptMaxLen), [], ctxs);
            && GreedyPrefix(Glue, Gpt2Fits(q, tokenCount, promptMaxLen), [], ctxs, n)
            && Gpt2Prompt(question, contexts, cleanText, tokenCount, promptMaxLen) == Gpt2Skeleton(q, Join(SEP, ctxs[..n]))
  {
    var q := cleanText(question);
    var ctxs := UsableContexts(contexts.GetOr([]), cleanText);
    var n := Accepted(Glue, Gpt2Fits(q, tokenCount, promptMaxLen), [], ctxs);
    GlueIsJoin(ctxs[..n]);
  }

  /** `_gpt2_build` (lines 101-128) */
  method Gpt2Build(question: Text, contexts: Option<seq<Text>>, cleanText: Text -> Text,
                   tokenCount: Text -> nat, promptMaxLen: int) returns (prompt: Text)
    ensures prompt == Gpt2Prompt(question, contexts, cleanText, tokenCount, promptMaxLen)
  {
    var q := cleanText(question);
    var ctxs := UsableContexts(contexts.GetOr([]), cleanText);
    ghost var fits := Gpt2Fits(q, tokenCount, promptMaxLen);
    var ctxBlock: Text := [];
    var i := 0;
    assert ctxs[..0] == [];
    while i < |ctxs|
      invariant i <= |ctxs|
      invariant ctxBlock == Fold(Glue, [], ctxs[..i])
      invariant AcceptedFrom(Glue, fits, [], ctxs, i) == Accepted(Glue, fits, [], ctxs)
    {
      var c := ctxs[i];
      var candidate := ctxBlock + (if ctxBlock != [] then SEP else []) + c;
      assert candidate == Glue(ctxBlock, c);
      var skeleton := Gpt2Skeleton(q, candidate);
      PackStep(Glue, fits, [], ctxs, i);
      assert fits(candidate) == (tokenCount(skeleton) <= promptMaxLen);
      if tokenCount(skeleton) <= promptMaxLen {
        ctxBlock := candidate;
        i := i + 1;
      } else {
        break;
      }
    }
    if i == |ctxs| {
      PackEnd(Glue, fits, [], ctxs);
    }
    prompt := Gpt2Skeleton(q, ctxBlock);
  }

  /** `f"question: {q}"` */
  function T5Base(q: Text): Text
  {
    Lit("question: ") + q
  }

  /** `prompt + (c if prompt.endswith(": ") else " </s> " + c)` */
  function T5Step(prompt: Text, c: Text): Text
  {
    prompt + (if EndsWith(prompt, Lit(": ")) then c else Lit(" </s> ") + c)
  }

  function T5Fits(tokenCount: Text -> nat, encoderMaxLen: int): Text -> bool
  {
    (candidate: Text) => tokenCount(candidate) <= encoderMaxLen - 16
  }

  /**
    The T5 input: `question: q` alone when no context is usable, otherwise
    `question: q context: ` with the greedily packed contexts.
   */
  function T5Prompt(question: Text, contexts: Option<seq<Text>>, cleanText: Text -> Text,
                    tokenCount: Text -> nat, encoderMaxLen: int): Text
  {
    var q := cleanText(question);
    var ctxs := UsableContexts(contexts.GetOr([]), cleanText);
    if ctxs == [] then T5Base(q)
    else Packed(T5Step, T5Fits(tokenCount, encoderMaxLen), T5Base(q) + Lit(" context: "), ctxs)
  }

  /** `_t5_build` (lines 55-72) */
  method T5Build(question: Text, contexts: Option<seq<Text>>, cleanText: Text -> Text,
                 tokenCount: Text -> nat, encoderMaxLen: int) returns (prompt: Text)
    ensures prompt == T5Prompt(question, contexts, cleanText, tokenCount, encoderMaxLen)
  {
    var q := cleanText(question);
    var ctxs := UsableContexts(contexts.GetOr([]), cleanText);
    var base := Lit("question: ") + q;
    if ctxs == [] {
      return base;
    }
    prompt := base + Lit(" context: ");
    ghost var start := prompt;
    ghost var fits := T5Fits(tokenCount, encoderMaxLen);
    var maxLen := encoderMaxLen - 16;
    var i := 0;
    assert ctxs[..0] == [];
    while i < |ctxs|
      invariant i <= |ctxs|
      invariant prompt == Fold(T5Step, start, ctxs[..i])
      invariant AcceptedFrom(T5Step, fits, start, ctxs, i) == Accepted(T5Step, fits, start, ctxs)
    {
      var c := ctxs[i];
      var candidate := prompt + (if EndsWith(prompt, Lit(": ")) then c else Lit(" </s> ") + c);
      assert candidate == T5Step(prompt, c);
      PackStep(T5Step, fits, start, ctxs, i);
      assert fits(candidate) == (tokenCount(candidate) <= maxLen);
      if tokenCount(candidate) <= maxLen {
        prompt := candidate;
        i := i + 1;
      } else {
        break;
      }
    }
    if i == |ctxs| {
      PackEnd(T5Step, fits, start, ctxs);
    }
  }

  /**
    With usable contexts none of which is empty or ends in a space, the T5 input is
    `question: q context: ` and the ` </s> `-join of the longest prefix of them whose every
    step fits the budget.
   */
  lemma T5PromptShape(question: Text, contexts: Option<seq<Text>>, cleanText: Text -> Text,
                      tokenCount: Text -> nat, encoderMaxLen: int)
    requires UsableContexts(contexts.GetOr([]), cleanText) != []
    requires forall k :: 0 <= k < |UsableContexts(contexts.GetOr([]), cleanText)| ==>
               var c := UsableContexts(contexts.GetOr([]), cleanText)[k]; c != [] && c[|c| - 1] != SPACE
    ensures var q := cleanText(question);
            var ctxs := UsableContexts(contexts.GetOr([]), cleanText);
            var start := T5Base(q) + Lit(" context: ");
            var n := Accepted(T5Step, T5Fits(tokenCount, encoderMaxLen), start, ctxs);
            && GreedyPrefix(T5Step, T5Fits(tokenCount, encoderMaxLen), start, ctxs, n)
            && T5Prompt(question, contexts, cleanText, tokenCount, encoderMaxLen) == start + Join(Lit(" </s> "), ctxs[..n])
  {
    var q := cleanText(question);
    var ctxs := UsableContexts(contexts.GetOr([]), cleanText);
    var start := T5Base(q) + Lit(" context: ");
    var n := Accepted(T5Step, T5Fits(tokenCount, encoderMaxLen), start, ctxs);
    var accepted := ctxs[..n];
    assert T5Prompt(question, contexts, cleanText, tokenCount, encoderMaxLen) == Fold(T5Step, start, accepted);
    T5StartEnds(q);
    assert forall k :: 0 <= k < |accepted| ==> accepted[k] == ctxs[k];
    T5FoldIsJoin(start, accepted);
  }

  lemma T5StartEnds(q: Text)
    ensures EndsWith(T5Base(q) + Lit(" context: "), Lit(": "))
  {
    var start := T5Base(q) + Lit(" context: ");
    assert start[|start| - 2..] == Lit(": ");
  }

  /** With no usable context the T5 input is exactly `question: q`. */
  lemma T5PromptWithoutContexts(question: Text, contexts: Option<seq<Text>>, cleanText: Text -> Text,
                                tokenCount: Text -> nat, encoderMaxLen: int)
    requires AllBlank(contexts.GetOr([]))
    ensures T5Prompt(question, contexts, cleanText, tokenCount, encoderMaxLen) == Lit("question: ") + cleanText(question)
  {
    UsableContextsAllBlank(contexts.GetOr([]), cleanText);
  }

  /** Each T5 step appends to the prompt, so the prompt always begins with `question: q context: `. */
  lemma {:induction false} T5FoldExtends(start: Text, cs: seq<Text>)
    ensures StartsWith(Fold(T5Step, start, cs), start)
    decreases |cs|
  {
    if cs != [] {
      var init := cs[..|cs| - 1];
      T5FoldExtends(start, init);
      var p := Fold(T5Step, start, init);
      assert T5Step(p, cs[|cs| - 1])[..|p|] == p;
      assert T5Step(p, cs[|cs| - 1])[..|start|] == p[..|start|];
    }
  }

  lemma T5PromptStart(question: Text, contexts: Option<seq<Text>>, cleanText: Text -> Text,
                      tokenCount: Text -> nat, encoderMaxLen: int)
    requires UsableContexts(contexts.GetOr([]), cleanText) != []
    ensures StartsWith(T5Prompt(question, contexts, cleanText, tokenCount, encoderMaxLen),
                       T5Base(cleanText(question)) + Lit(" context: "))
  {
    var ctxs := UsableContexts(contexts.GetOr([]), cleanText);
    var accepted := ctxs[..Accepted(T5Step, T5Fits(tokenCount, encoderMaxLen), T5Base(cleanText(question)) + Lit(" context: "), ctxs)];
    T5FoldExtends(T5Base(cleanText(question)) + Lit(" context: "), accepted);
  }

  /**
    When no context is empty or ends in a space, the first context follows
    `context: ` directly and the others are separated by ` </s> `.
   */
  lemma {:induction false} JoinLastNot(sep: Text, parts: seq<Text>)
    requires parts != []
    requires forall k :: 0 <= k < |parts| ==> parts[k] != [] && parts[k][|parts[k]| - 1] != SPACE
    ensures Join(sep, parts) != [] && Join(sep, parts)[|Join(sep, parts)| - 1] != SPACE
    decreases |parts|
  {
    if |parts| > 1 {
      JoinLastNot(sep, parts[1..]);
    }
  }

  /** A text whose last character is not a space does not end in `": "`. */
  lemma NotColonEnded(x: Text)
    requires x != [] && x[|x| - 1] != SPACE
    ensures !EndsWith(x, Lit(": "))
  {
    var sfx := Lit(": ");
    assert sfx[1] == SPACE;
  }

  /** Adding a context to a prompt that does not end in `": "` puts ` </s> ` before it. */
  lemma T5StepAfterJoin(start: Text, init: seq<Text>, c: Text)
    requires init != []
    requires forall k :: 0 <= k < |init| ==> init[k] != [] && init[k][|init[k]| - 1] != SPACE
    ensures T5Step(start + Join(Lit(" </s> "), init), c) == start + Join(Lit(" </s> "), init + [c])
  {
    var sep := Lit(" </s> ");
    var j := Join(sep, init);
    var p := start + j;
    JoinLastNot(sep, init);
    assert p[|p| - 1] == j[|j| - 1];
    NotColonEnded(p);
    assert Join(sep, init + [c]) == j + sep + c by {
      JoinAppend(sep, init, [c]);
    }
  }

  /**
    When no context is empty or ends in a space, the first context follows
    `context: ` directly and the others are separated by ` </s> `.
   */
  lemma {:induction false} T5FoldIsJoin(start: Text, cs: seq<Text>)
    requires EndsWith(start, Lit(": "))
    requires forall k :: 0 <= k < |cs| ==> cs[k] != [] && cs[k][|cs[k]| - 1] != SPACE
    ensures Fold(T5Step, start, cs) == start + Join(Lit(" </s> "), cs)
    decreases |cs|
  {
    if cs == [] {
      assert start + [] == start;
    } else if |cs| == 1 {
      assert cs[..0] == [];
    } else {
      var init := cs[..|cs| - 1];
      var c := cs[|cs| - 1];
      assert Fold(T5Step, start, cs) == T5Step(Fold(T5Step, start, init), c);
      T5FoldIsJoin(start, init);
      assert cs == init + [c];
      T5StepAfterJoin(start, init, c);
    }
  }

  /* ---------------------------------------------------------------------------------
     Generation
     --------------------------------------------------------------------------------- */

  /** `decoded[len(prompt):].strip() if decoded.startswith(prompt) else decoded` */
  function StripEcho(decoded: Text, prompt: Text): Text
  {
    if StartsWith(decoded, prompt) then Strip(decoded[|prompt|..]) else decoded
  }

  /** A decoded text that repeats the prompt is cut to its stripped continuation. */
  lemma StripEchoOfEcho(prompt: Text, completion: Text)
    ensures StripEcho(prompt + completion, prompt) == Strip(completion)
  {
    assert (prompt + completion)[..|prompt|] == prompt;
    assert (prompt + completion)[|prompt|..] == completion;
  }

  lemma StripEchoWithoutEcho(decoded: Text, prompt: Text)
    requires !StartsWith(decoded, prompt)
    ensures StripEcho(decoded, prompt) == decoded
  {
  }

  /**
    A loaded generator. `modelType` is the lower-cased model type of the configuration;
    `tokenCount` counts tokens without special tokens and `tokenCountWithSpecial` with
    them; `complete` is what the model generates from an input text, decoded without
    special tokens.
   */
  datatype Model = Model(
    modelType: Text,
    encoderMaxLen: int,
    promptMaxLen: int,
    cleanText: Text -> Text,
    tokenCount: Text -> nat,
    tokenCountWithSpecial: Text -> nat,
    complete: Text -> Text)

  predicate IsT5(m: Model) {
    m.modelType == Lit("t5")
  }

  /** What `generate` returns. */
  function Generated(m: Model, question: Text, contexts: Option<seq<Text>>): Text
  {
    if IsT5(m) then
      var input := T5Prompt(question, contexts, m.cleanText, m.tokenCountWithSpecial, m.encoderMaxLen);
      ArabicOnly(m.cleanText(m.complete(input)))
    else
      var prompt := Gpt2Prompt(question, contexts, m.cleanText, m.tokenCount, m.promptMaxLen);
      var completion := StripEcho(m.complete(prompt), prompt);
      ArabicOnly(m.cleanText(ExtractAfterAnswerTag(completion)))
  }

  /**
    `generate` (lines 168-174) with `_t5_generate` and `_gpt2_generate`: whichever path
    runs, the answer has passed `_arabic_only`.
   */
  method Generate(m: Model, question: Text, contexts: Option<seq<Text>>) returns (answer: Text)
    ensures answer == Generated(m, question, contexts)
    ensures Canonical(answer)
    ensures forall i :: 0 <= i < |answer| ==> answer[i] == SPACE || (IsArabicOnlyChar(answer[i]) && !IsSpace(answer[i]))
  {
    if m.modelType == Lit("t5") {
      var inputText := T5Build(question, contexts, m.cleanText, m.tokenCountWithSpecial, m.encoderMaxLen);
      var ans := m.complete(inputText);
      answer := ArabicOnly(m.cleanText(ans));
    } else {
      var prompt := Gpt2Build(question, contexts, m.cleanText, m.tokenCount, m.promptMaxLen);
      var decoded := m.complete(prompt);
      var completion := if StartsWith(decoded, prompt) then Strip(decoded[|prompt|..]) else decoded;
      var ans := ExtractAfterAnswerTag(completion);
      answer := ArabicOnly(m.cleanText(ans));
    }
  }
}
