/**
  `ragchat/utils.py`: Unicode cleaning, Arabic normalization, sentence splitting and
  the grouping of sentences into fixed-size chunks. This is the revision that the
  preprocessing, generation and evaluation code import.
 */
module Utils {
  import opened Strings

  /* ---------------------------------------------------------------------------------
     Character classes
     --------------------------------------------------------------------------------- */

  /** `[\ud800-\udfff]` */
  predicate IsSurrogate(c: CodePoint) {
    0xD800 <= c <= 0xDFFF
  }

  /** `[\x00-\x1F\x7F]` */
  predicate IsControl(c: CodePoint) {
    c <= 0x1F || c == 0x7F
  }

  /** Arabic diacritics, `[ؐ-ًؚ-ٟۖ-ۭ]` */
  predicate IsTashkeel(c: CodePoint) {
    || 0x0610 <= c <= 0x061A
    || 0x064B <= c <= 0x065F
    || 0x06D6 <= c <= 0x06ED
  }

  const TATWEEL: CodePoint := 0x0640

  /** The Arabic elongation mark `ـ` */
  predicate IsTatweel(c: CodePoint) {
    c == TATWEEL
  }

  /** The sentence delimiters `[\.!\؟!]`: full stop, exclamation mark and Arabic question mark. */
  predicate IsSentenceDelim(c: CodePoint) {
    c == '.' as int || c == '!' as int || c == 0x061F
  }

  /** A character that can survive normalization. */
  predicate IsNormalChar(c: CodePoint) {
    !IsSurrogate(c) && !IsControl(c) && !IsTashkeel(c) && !IsTatweel(c)
  }

  predicate IsTashkeelOrTatweel(c: CodePoint) {
    IsTashkeel(c) || IsTatweel(c)
  }

  predicate IsTashkeelTatweelOrSpace(c: CodePoint) {
    IsTashkeelOrTatweel(c) || IsSpace(c)
  }

  predicate IsControlOrLater(c: CodePoint) {
    IsControl(c) || IsTashkeelTatweelOrSpace(c)
  }

  /** Everything normalization drops or turns into (collapsed) whitespace. */
  predicate IsDroppedByNormalize(c: CodePoint) {
    IsSurrogate(c) || IsControlOrLater(c)
  }

  /** A text with no sentence delimiter in it. */
  predicate DelimFree(t: Text) {
    forall m :: 0 <= m < |t| ==> !IsSentenceDelim(t[m])
  }

  predicate IsDelimOrSpace(c: CodePoint) {
    IsSentenceDelim(c) || IsSpace(c)
  }

  /** Removing characters keeps any property every character had. */
  lemma {:induction false} RemoveKeeps(s: Text, drop: CodePoint -> bool, p: CodePoint -> bool)
    requires forall i :: 0 <= i < |s| ==> p(s[i])
    ensures forall i :: 0 <= i < |Remove(s, drop)| ==> p(Remove(s, drop)[i])
  {
    if s != [] {
      RemoveKeeps(s[1..], drop, p);
    }
  }

  lemma ReplaceNothing(s: Text, hit: CodePoint -> bool, repl: CodePoint)
    requires forall i :: 0 <= i < |s| ==> !hit(s[i])
    ensures Replace(s, hit, repl) == s
  {
  }

  /* ---------------------------------------------------------------------------------
     clean_unicode and normalize_arabic_text
     --------------------------------------------------------------------------------- */

  /**
    `clean_unicode`: surrogates are deleted and every control character becomes one
    space, so the result is exactly as long as the input without its surrogates.
   */
  function CleanUnicode(text: Text): (r: Text)
    ensures |r| == |Remove(text, IsSurrogate)| <= |text|
    ensures var kept := Remove(text, IsSurrogate);
            forall i :: 0 <= i < |kept| ==> r[i] == if IsControl(kept[i]) then SPACE else kept[i]
    ensures forall i :: 0 <= i < |r| ==> !IsSurrogate(r[i]) && !IsControl(r[i])
  {
    Replace(Remove(text, IsSurrogate), IsControl, SPACE)
  }

  /** Cleaning works character by character: a text is cleaned piece by piece. */
  lemma CleanUnicodeAppend(a: Text, b: Text)
    ensures CleanUnicode(a + b) == CleanUnicode(a) + CleanUnicode(b)
  {
    RemoveAppend(a, b, IsSurrogate);
    var x, y := Remove(a, IsSurrogate), Remove(b, IsSurrogate);
    var l, r := CleanUnicode(a + b), CleanUnicode(a) + CleanUnicode(b);
    assert |l| == |r|;
    forall k | 0 <= k < |l| ensures l[k] == r[k] {
      if k < |x| {
        assert (x + y)[k] == x[k];
      } else {
        assert (x + y)[k] == y[k - |x|];
      }
    }
  }

  /** One character: a surrogate is deleted, a control character becomes a space, any other is kept. */
  lemma CleanUnicodeChar(c: CodePoint)
    ensures CleanUnicode([c]) == if IsSurrogate(c) then [] else if IsControl(c) then [SPACE] else [c]
  {
    assert Remove([c], IsSurrogate) == (if IsSurrogate(c) then [] else [c]) + Remove([], IsSurrogate);
  }

  /** Text without surrogates or control characters is left alone. */
  lemma CleanUnicodeKeepsClean(text: Text)
    requires forall i :: 0 <= i < |text| ==> !IsSurrogate(text[i]) && !IsControl(text[i])
    ensures CleanUnicode(text) == text
  {
    RemoveNothing(text, IsSurrogate);
  }

  lemma CleanUnicodeIdempotent(text: Text)
    ensures CleanUnicode(CleanUnicode(text)) == CleanUnicode(text)
  {
    CleanUnicodeKeepsClean(CleanUnicode(text));
  }

  /** The steps of `normalize_arabic_text` after the emptiness test. */
  function NormalizeSteps(text: Text): (r: Text)
    ensures Canonical(r)
    ensures forall i :: 0 <= i < |r| ==> IsNormalChar(r[i])
  {
    var cleaned := CleanUnicode(text);
    var noTashkeel := Remove(cleaned, IsTashkeel);
    RemoveKeeps(cleaned, IsTashkeel, (c: CodePoint) => !IsSurrogate(c) && !IsControl(c));
    var noTatweel := Remove(noTashkeel, IsTatweel);
    RemoveKeeps(noTashkeel, IsTatweel, (c: CodePoint) => !IsSurrogate(c) && !IsControl(c) && !IsTashkeel(c));
    CollapseAndStrip(noTatweel)
  }

  /**
    `normalize_arabic_text`: the empty text stays empty; otherwise the result is
    trimmed, single-spaced and free of surrogates, control characters, tashkeel and
    tatweel.
   */
  function NormalizeArabicText(text: Text): (r: Text)
    ensures text == [] ==> r == []
    ensures Canonical(r)
    ensures forall i :: 0 <= i < |r| ==> IsNormalChar(r[i])
  {
    if text == [] then [] else NormalizeSteps(text)
  }

  /** Text that is already canonical and made of characters normalization keeps is its own normal form. */
  lemma NormalizeFixes(text: Text)
    requires Canonical(text)
    requires forall i :: 0 <= i < |text| ==> IsNormalChar(text[i])
    ensures NormalizeArabicText(text) == text
  {
    if text != [] {
      RemoveNothing(text, IsSurrogate);
      ReplaceNothing(text, IsControl, SPACE);
      RemoveNothing(text, IsTashkeel);
      RemoveNothing(text, IsTatweel);
      CollapseAndStripKeepsCanonical(text);
    }
  }

  /** Normalizing twice is normalizing once. */
  lemma NormalizeIdempotent(text: Text)
    ensures NormalizeArabicText(NormalizeArabicText(text)) == NormalizeArabicText(text)
  {
    NormalizeFixes(NormalizeArabicText(text));
  }

  lemma DropTashkeelTatweelSpace(cleaned: Text)
    ensures Remove(Remove(Remove(cleaned, IsTashkeel), IsTatweel), IsSpace) == Remove(cleaned, IsTashkeelTatweelOrSpace)
  {
    RemoveTwice(cleaned, IsTashkeel, IsTatweel, IsTashkeelOrTatweel);
    RemoveTwice(cleaned, IsTashkeelOrTatweel, IsSpace, IsTashkeelTatweelOrSpace);
  }

  lemma DropAfterClean(text: Text)
    ensures Remove(CleanUnicode(text), IsTashkeelTatweelOrSpace) == Remove(text, IsDroppedByNormalize)
  {
    var noSurrogates := Remove(text, IsSurrogate);
    RemoveAfterReplace(noSurrogates, IsControl, SPACE, IsTashkeelTatweelOrSpace, IsControlOrLater);
    RemoveTwice(text, IsSurrogate, IsControlOrLater, IsDroppedByNormalize);
  }

  /**
    Nothing but the removed classes is lost: the non-whitespace characters of the result
    are those of the input minus surrogates, control characters, tashkeel and tatweel,
    in their original order.
   */
  lemma NormalizeKeepsContent(text: Text)
    ensures NonSpace(NormalizeArabicText(text)) == Remove(text, IsDroppedByNormalize)
  {
    if text != [] {
      var cleaned := CleanUnicode(text);
      var noTatweel := Remove(Remove(cleaned, IsTashkeel), IsTatweel);
      assert NormalizeArabicText(text) == CollapseAndStrip(noTatweel);
      CollapseAndStripNonSpace(noTatweel);
      DropTashkeelTatweelSpace(cleaned);
      DropAfterClean(text);
    }
  }

  /* ---------------------------------------------------------------------------------
     split_into_sentences
     --------------------------------------------------------------------------------- */

  /** `[p.strip() for p in pieces if p.strip()]` */
  function StrippedPieces(pieces: seq<Text>): (r: seq<Text>)
    ensures |r| <= |pieces|
    ensures forall k :: 0 <= k < |r| ==> r[k] != [] && Trimmed(r[k])
  {
    if pieces == [] then []
    else if Strip(pieces[0]) == [] then StrippedPieces(pieces[1..])
    else [Strip(pieces[0])] + StrippedPieces(pieces[1..])
  }

  lemma StripDelimFree(t: Text)
    requires DelimFree(t)
    ensures DelimFree(Strip(t))
  {
    var i, j := StripSlice(t);
    assert forall k :: 0 <= k < |Strip(t)| ==> Strip(t)[k] == t[i + k];
  }

  /** Stripping the pieces brings in no delimiter. */
  lemma {:induction false} StrippedPiecesNoDelim(pieces: seq<Text>)
    requires forall k :: 0 <= k < |pieces| ==> DelimFree(pieces[k])
    ensures forall k :: 0 <= k < |StrippedPieces(pieces)| ==> DelimFree(StrippedPieces(pieces)[k])
  {
    if pieces != [] {
      var rest := StrippedPieces(pieces[1..]);
      StrippedPiecesNoDelim(pieces[1..]);
      if Strip(pieces[0]) != [] {
        StripDelimFree(pieces[0]);
        assert StrippedPieces(pieces) == [Strip(pieces[0])] + rest;
      }
    }
  }

  /**
    `split_into_sentences`: the text split at every run of `.`, `!` and `؟`, each piece
    stripped, blank pieces dropped. Every sentence is non-empty, trimmed and free of the
    delimiters.
   */
  function SplitIntoSentences(text: Text): (r: seq<Text>)
    ensures text == [] ==> r == []
    ensures forall k :: 0 <= k < |r| ==> r[k] != [] && Trimmed(r[k])
    ensures forall k :: 0 <= k < |r| ==> DelimFree(r[k])
  {
    if text == [] then []
    else
      var pieces := SplitRuns(text, IsSentenceDelim);
      assert forall k :: 0 <= k < |pieces| ==> DelimFree(pieces[k]);
      StrippedPiecesNoDelim(pieces);
      StrippedPieces(pieces)
  }

  lemma {:induction false} StrippedPiecesContent(pieces: seq<Text>)
    ensures NonSpace(Concat(StrippedPieces(pieces))) == NonSpace(Concat(pieces))
  {
    if pieces != [] {
      var p, tail := pieces[0], pieces[1..];
      var rest := StrippedPieces(tail);
      assert NonSpace(Concat(pieces)) == NonSpace(p) + NonSpace(Concat(tail)) by {
        assert Concat(pieces) == p + Concat(tail);
        RemoveAppend(p, Concat(tail), IsSpace);
      }
      assert NonSpace(Strip(p)) == NonSpace(p) by {
        StripNonSpace(p);
      }
      StrippedPiecesContent(tail);
      if Strip(p) != [] {
        assert StrippedPieces(pieces) == [Strip(p)] + rest;
        assert Concat([Strip(p)] + rest) == Strip(p) + Concat(rest);
        RemoveAppend(Strip(p), Concat(rest), IsSpace);
      } else {
        assert StrippedPieces(pieces) == rest;
        assert NonSpace(Strip(p)) == [];
      }
    }
  }

  /**
    No sentence is lost: concatenated, the sentences hold every character of the text
    that is neither whitespace nor a delimiter, in the original order.
   */
  lemma SentencesKeepContent(text: Text)
    ensures NonSpace(Concat(SplitIntoSentences(text))) == Remove(text, IsDelimOrSpace)
  {
    if text != [] {
      var pieces := SplitRuns(text, IsSentenceDelim);
      StrippedPiecesContent(pieces);
      RemoveTwice(text, IsSentenceDelim, IsSpace, IsDelimOrSpace);
    }
  }

  /** A text with no delimiter (a Latin `?` is none) is one sentence, or none if blank. */
  lemma SingleSentence(text: Text)
    requires text != []
    requires forall i :: 0 <= i < |text| ==> !IsSentenceDelim(text[i])
    ensures SplitIntoSentences(text) == if Strip(text) == [] then [] else [Strip(text)]
  {
    RunEndIs(text, 0, (c: CodePoint) => !IsSentenceDelim(c), |text|);
  }

  /* ---------------------------------------------------------------------------------
     chunk_sentences
     --------------------------------------------------------------------------------- */

  /**
    The groups `chunk_sentences` forms: runs of `groupSize` sentences and a shorter
    last run; when `groupSize` is below one the size test never succeeds and all
    sentences form one group.
   */
  function Groups(sentences: seq<Text>, groupSize: int): seq<seq<Text>>
    decreases |sentences|
  {
    if sentences == [] then []
    else if 1 <= groupSize < |sentences| then [sentences[..groupSize]] + Groups(sentences[groupSize..], groupSize)
    else [sentences]
  }

  /** Each group joined by single spaces. */
  function JoinEach(groups: seq<seq<Text>>): (r: seq<Text>)
    ensures |r| == |groups|
  {
    seq(|groups|, k requires 0 <= k < |groups| => Join([SPACE], groups[k]))
  }

  /** What `chunk_sentences(sentences, groupSize)` returns. */
  function Chunks(sentences: seq<Text>, groupSize: int): seq<Text>
  {
    JoinEach(Groups(sentences, groupSize))
  }

  function Flatten(groups: seq<seq<Text>>): seq<Text>
  {
    if groups == [] then [] else groups[0] + Flatten(groups[1..])
  }

  /** Grouping a full group followed by more sentences. */
  lemma GroupsAfterFull(full: seq<Text>, rest: seq<Text>, groupSize: int)
    requires |full| == groupSize >= 1
    ensures Groups(full + rest, groupSize) == [full] + Groups(rest, groupSize)
  {
    if rest == [] {
      assert full + rest == full;
    } else {
      assert (full + rest)[..groupSize] == full;
      assert (full + rest)[groupSize..] == rest;
    }
  }

  /** A group shorter than the group size, or any group when the size is below one, stays whole. */
  lemma GroupsOfPartial(current: seq<Text>, groupSize: int)
    requires groupSize >= 1 ==> |current| < groupSize
    ensures Groups(current, groupSize) == if current == [] then [] else [current]
  {
  }

  /** The groups are non-empty and, put back together, are the sentences. */
  lemma {:induction false} GroupsFlatten(sentences: seq<Text>, groupSize: int)
    ensures Flatten(Groups(sentences, groupSize)) == sentences
    ensures forall k :: 0 <= k < |Groups(sentences, groupSize)| ==> Groups(sentences, groupSize)[k] != []
    decreases |sentences|
  {
    if sentences != [] && 1 <= groupSize < |sentences| {
      GroupsFlatten(sentences[groupSize..], groupSize);
      assert sentences == sentences[..groupSize] + sentences[groupSize..];
    }
  }

  /**
    With a group size of at least one, every group but the last holds exactly
    `groupSize` sentences and the last holds between one and `groupSize`.
   */
  lemma {:induction false} GroupSizes(sentences: seq<Text>, groupSize: int)
    requires groupSize >= 1
    ensures var gs := Groups(sentences, groupSize);
            && (forall k :: 0 <= k < |gs| - 1 ==> |gs[k]| == groupSize)
            && (gs != [] ==> 1 <= |gs[|gs| - 1]| <= groupSize)
    decreases |sentences|
  {
    if sentences != [] && groupSize < |sentences| {
      GroupSizes(sentences[groupSize..], groupSize);
    }
  }

  lemma DivAddDivisor(a: int, g: int)
    requires a >= 0 && g >= 1
    ensures (a + g) / g == a / g + 1
    ensures (a + g) % g == a % g
  {
    var q, m := a / g, a % g;
    assert a == g * q + m && 0 <= m < g;
    assert a + g == g * (q + 1) + m;
    DivUnique(a + g, g, q + 1, m);
  }

  /** Euclidean division is determined by the quotient-remainder decomposition. */
  lemma DivUnique(a: int, g: int, q: int, m: int)
    requires g >= 1 && 0 <= m < g && a == g * q + m
    ensures a / g == q && a % g == m
  {
    var q', m' := a / g, a % g;
    assert a == g * q' + m' && 0 <= m' < g;
    assert g * (q - q') == m' - m;
    if q > q' {
      MulAtLeast(g, q - q');
    } else if q < q' {
      MulAtLeast(g, q' - q);
    }
  }

  lemma MulAtLeast(g: int, d: int)
    requires g >= 1 && d >= 1
    ensures g * d >= g
  {
  }

  lemma {:induction false} GroupCount(sentences: seq<Text>, groupSize: int)
    requires groupSize >= 1
    ensures |Groups(sentences, groupSize)| == (|sentences| + groupSize - 1) / groupSize
    decreases |sentences|
  {
    var n := |sentences|;
    if sentences == [] {
      DivUnique(groupSize - 1, groupSize, 0, groupSize - 1);
    } else if groupSize < n {
      var rest := sentences[groupSize..];
      assert |Groups(sentences, groupSize)| == 1 + |Groups(rest, groupSize)|;
      GroupCount(rest, groupSize);
      assert |rest| + groupSize - 1 == n - 1;
      DivAddDivisor(n - 1, groupSize);
    } else {
      assert |Groups(sentences, groupSize)| == 1;
      DivUnique(n - 1, groupSize, 0, n - 1);
      DivAddDivisor(n - 1, groupSize);
    }
  }

  /** There are `ceil(n / groupSize)` chunks. */
  lemma ChunkCount(sentences: seq<Text>, groupSize: int)
    requires groupSize >= 1
    ensures |Chunks(sentences, groupSize)| == (|sentences| + groupSize - 1) / groupSize
  {
    GroupCount(sentences, groupSize);
  }

  /** The last chunk holds `n % groupSize` sentences, or a full group when that is zero. */
  lemma {:induction false} LastGroupSize(sentences: seq<Text>, groupSize: int)
    requires groupSize >= 1 && sentences != []
    ensures var gs := Groups(sentences, groupSize);
            |gs[|gs| - 1]| == if |sentences| % groupSize == 0 then groupSize else |sentences| % groupSize
    decreases |sentences|
  {
    var n := |sentences|;
    if groupSize < n {
      LastGroupSize(sentences[groupSize..], groupSize);
      DivAddDivisor(n - groupSize, groupSize);
    } else if groupSize == n {
      DivAddDivisor(0, groupSize);
    } else {
      assert n % groupSize == n;
    }
  }

  /** With a group size below one, all sentences form a single chunk. */
  lemma OneChunkWhenSizeBelowOne(sentences: seq<Text>, groupSize: int)
    requires groupSize < 1 && sentences != []
    ensures Chunks(sentences, groupSize) == [Join([SPACE], sentences)]
  {
  }

  lemma {:induction false} JoinFlatten(groups: seq<seq<Text>>)
    requires forall k :: 0 <= k < |groups| ==> groups[k] != []
    ensures Join([SPACE], JoinEach(groups)) == Join([SPACE], Flatten(groups))
  {
    if |groups| > 1 {
      JoinFlatten(groups[1..]);
      assert JoinEach(groups[1..]) == JoinEach(groups)[1..];
      GroupsFlattenNonEmpty(groups[1..]);
      JoinAppend([SPACE], groups[0], Flatten(groups[1..]));
    } else if |groups| == 1 {
      assert Flatten(groups) == groups[0] + Flatten([]);
      assert Flatten(groups) == groups[0];
    }
  }

  lemma {:induction false} GroupsFlattenNonEmpty(groups: seq<seq<Text>>)
    requires groups != []
    requires forall k :: 0 <= k < |groups| ==> groups[k] != []
    ensures Flatten(groups) != []
  {
  }

  /** Nothing is lost by chunking: joining the chunks is joining the sentences. */
  lemma ChunksKeepText(sentences: seq<Text>, groupSize: int)
    ensures Join([SPACE], Chunks(sentences, groupSize)) == Join([SPACE], sentences)
  {
    GroupsFlatten(sentences, groupSize);
    JoinFlatten(Groups(sentences, groupSize));
  }

  /** `chunk_sentences` (lines 34-50): the loop over the sentences filling `current`. */
  method ChunkSentences(sentences: seq<Text>, groupSize: int) returns (chunks: seq<Text>)
    ensures chunks == Chunks(sentences, groupSize)
  {
    chunks := [];
    var current: seq<Text> := [];
    ghost var done: seq<seq<Text>> := [];
    assert current + sentences[0..] == sentences;
    for i := 0 to |sentences|
      invariant done + Groups(current + sentences[i..], groupSize) == Groups(sentences, groupSize)
      invariant chunks == JoinEach(done)
      invariant groupSize >= 1 ==> |current| < groupSize
    {
      assert (current + [sentences[i]]) + sentences[i + 1..] == current + sentences[i..];
      current := current + [sentences[i]];
      if |current| == groupSize {
        GroupsAfterFull(current, sentences[i + 1..], groupSize);
        assert done + [current] + Groups(sentences[i + 1..], groupSize) == Groups(sentences, groupSize);
        chunks := chunks + [Join([SPACE], current)];
        done := done + [current];
        current := [];
        assert current + sentences[i + 1..] == sentences[i + 1..];
      }
    }
    assert current + sentences[|sentences|..] == current;
    GroupsOfPartial(current, groupSize);
    if current != [] {
      chunks := chunks + [Join([SPACE], current)];
      assert done + [current] == Groups(sentences, groupSize);
    } else {
      assert done == Groups(sentences, groupSize);
    }
  }
}
