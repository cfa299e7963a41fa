/**
  `ragchat/evaluation.py`: the answer normalization used for scoring, the tokenizer and
  token-level F1 with the `Counter` intersection as a multiset intersection, and the
  empty-input guard of corpus BLEU.
 */
module Evaluation {
  import opened Wrappers
  import opened Strings
  import Utils

  predicate IsAsciiUpper(c: CodePoint) {
    'A' as int <= c <= 'Z' as int
  }

  /** `str.lower` on the characters it maps within ASCII. */
  function LowerChar(c: CodePoint): (r: CodePoint)
    ensures !IsAsciiUpper(r)
  {
    if IsAsciiUpper(c) then c + 32 else c
  }

  /** `s.lower()` */
  function Lower(s: Text): (r: Text)
    ensures |r| == |s|
    ensures forall i :: 0 <= i < |s| ==> r[i] == LowerChar(s[i])
  {
    if s == [] then [] else [LowerChar(s[0])] + Lower(s[1..])
  }

  /** The arabic letters `[ء-ي]` */
  predicate IsArabicLetter(c: CodePoint) {
    0x0621 <= c <= 0x064A
  }

  predicate IsAsciiDigit(c: CodePoint) {
    '0' as int <= c <= '9' as int
  }

  /** The kept class `[\w\sء-ي0-9]` of line 21. */
  predicate IsKept(c: CodePoint) {
    IsWordChar(c) || IsSpace(c) || IsArabicLetter(c) || IsAsciiDigit(c)
  }

  predicate IsNotKept(c: CodePoint) {
    !IsKept(c)
  }

  /** A character `normalize_text` can produce. */
  predicate IsEvalChar(c: CodePoint) {
    c == SPACE || IsEvalWordChar(c)
  }

  lemma LowerKeepsNormal(s: Text)
    requires forall i :: 0 <= i < |s| ==> Utils.IsNormalChar(s[i])
    ensures forall i :: 0 <= i < |Lower(s)| ==> Utils.IsNormalChar(Lower(s)[i])
  {
  }

  /** A non-whitespace character kept by line 21 and not upper case. */
  predicate IsEvalWordChar(c: CodePoint) {
    IsWordChar(c) && Utils.IsNormalChar(c) && !IsAsciiUpper(c)
  }

  lemma ReplaceNotKept(l: Text)
    requires forall i :: 0 <= i < |l| ==> Utils.IsNormalChar(l[i]) && !IsAsciiUpper(l[i])
    ensures forall i :: 0 <= i < |Replace(l, IsNotKept, SPACE)| && !IsSpace(Replace(l, IsNotKept, SPACE)[i]) ==>
              IsEvalWordChar(Replace(l, IsNotKept, SPACE)[i])
  {
  }

  /** The steps of `normalize_text` after `s or ""`. */
  function NormalizeSteps(s: Text): (r: Text)
    ensures Canonical(r)
    ensures forall i :: 0 <= i < |r| ==> IsEvalChar(r[i])
  {
    var n := Utils.NormalizeArabicText(s);
    var l := Lower(n);
    LowerKeepsNormal(n);
    var k := Replace(l, IsNotKept, SPACE);
    ReplaceNotKept(l);
    CollapseAndStripKeeps(k, IsEvalWordChar);
    CollapseAndStrip(k)
  }

  /**
    `normalize_text`: `None` gives `""`; the result is trimmed and single-spaced, and
    each of its characters is a space or a lower-case word character.
   */
  function NormalizeText(s: Option<Text>): (r: Text)
    ensures s == None || s == Some([]) ==> r == []
    ensures Canonical(r)
    ensures forall i :: 0 <= i < |r| ==> IsEvalChar(r[i])
  {
    var t := s.GetOr([]);
    if t == [] then [] else NormalizeSteps(t)
  }

  /** Normalizing a normalized answer changes nothing. */
  lemma NormalizeTextIdempotent(s: Option<Text>)
    ensures NormalizeText(Some(NormalizeText(s))) == NormalizeText(s)
  {
    var r := NormalizeText(s);
    if r != [] {
      NormalizeStepsFixes(r);
    }
  }

  lemma LowerFixes(s: Text)
    requires forall i :: 0 <= i < |s| ==> !IsAsciiUpper(s[i])
    ensures Lower(s) == s
  {
  }

  /** An evaluation character survives every step of normalization: it is normal, not upper case, and kept. */
  lemma EvalCharsFixed(r: Text)
    requires forall i :: 0 <= i < |r| ==> IsEvalChar(r[i])
    ensures forall i :: 0 <= i < |r| ==> Utils.IsNormalChar(r[i]) && !IsAsciiUpper(r[i]) && !IsNotKept(r[i])
  {
  }

  lemma NormalizeStepsFixes(r: Text)
    requires Canonical(r)
    requires forall i :: 0 <= i < |r| ==> IsEvalChar(r[i])
    ensures NormalizeSteps(r) == r
  {
    EvalCharsFixed(r);
    Utils.NormalizeFixes(r);
    LowerFixes(r);
    Utils.ReplaceNothing(r, IsNotKept, SPACE);
    CollapseAndStripKeepsCanonical(r);
  }

  /* ---------------------------------------------------------------------------------
     _tokenize
     --------------------------------------------------------------------------------- */

  /**
    `re.findall(r"\w+|[ء-ي]+", s)`: the maximal runs of word characters, in order (the
    Arabic letter class lies inside `\w`, so the second alternative never adds a token).
   */
  function WordRuns(s: Text): (ws: seq<Text>)
    ensures forall k :: 0 <= k < |ws| ==> ws[k] != []
    decreases |s|
  {
    if s == [] then []
    else if !IsWordChar(s[0]) then WordRuns(s[1..])
    else
      var k := RunEnd(s, 0, IsWordChar);
      [s[..k]] + WordRuns(s[k..])
  }

  lemma ArabicLettersAreWordChars(c: CodePoint)
    ensures IsArabicLetter(c) ==> IsWordChar(c)
  {
  }

  /** On text made of word characters and whitespace the word runs are the `split()` words. */
  lemma {:induction false} WordRunsAreWords(s: Text)
    requires forall i :: 0 <= i < |s| ==> IsWordChar(s[i]) || IsSpace(s[i])
    ensures WordRuns(s) == Words(s)
    decreases |s|
  {
    if s != [] {
      if !IsWordChar(s[0]) {
        WordRunsAreWords(s[1..]);
      } else {
        var k := RunEnd(s, 0, IsWordChar);
        RunEndIs(s, 0, IsNonSpace, k);
        WordRunsAreWords(s[k..]);
      }
    }
  }

  /** `_tokenize`: the word runs of the normalized text. */
  function Tokenize(s: Option<Text>): (ts: seq<Text>)
    ensures ts == Words(NormalizeText(s))
  {
    var n := NormalizeText(s);
    WordRunsAreWords(n);
    WordRuns(n)
  }

  /* ---------------------------------------------------------------------------------
     f1 and bleu
     --------------------------------------------------------------------------------- */

  /** `sum((Counter(p) & Counter(g)).values())` */
  function Overlap(p: seq<Text>, g: seq<Text>): nat
  {
    |multiset(p) * multiset(g)|
  }

  lemma SubMultisetSize(a: multiset<Text>, b: multiset<Text>)
    requires a <= b
    ensures |a| <= |b|
  {
    var d := b - a;
    assert b == a + d;
  }

  /** The overlap is at most the length of either token list. */
  lemma OverlapBounds(p: seq<Text>, g: seq<Text>)
    ensures Overlap(p, g) <= |p| && Overlap(p, g) <= |g|
  {
    SubMultisetSize(multiset(p) * multiset(g), multiset(p));
    SubMultisetSize(multiset(p) * multiset(g), multiset(g));
  }

  /** Lines 37-46 on the token lists. */
  function F1Tokens(p: seq<Text>, g: seq<Text>): real
  {
    if p == [] || g == [] then 0.0
    else
      var overlap := Overlap(p, g);
      if overlap == 0 then 0.0
      else
        var precision := overlap as real / |p| as real;
        var recall := overlap as real / |g| as real;
        2.0 * precision * recall / (precision + recall)
  }

  /** `f1(pred, gold)` */
  function F1(pred: Option<Text>, gold: Option<Text>): real
  {
    F1Tokens(Tokenize(pred), Tokenize(gold))
  }

  lemma HarmonicMean(o: real, a: real, b: real)
    requires o > 0.0 && a > 0.0 && b > 0.0
    ensures 2.0 * (o / a) * (o / b) / (o / a + o / b) == 2.0 * o / (a + b)
  {
    var p, r := o / a, o / b;
    assert p * a == o && r * b == o;
    assert (p + r) * (a * b) == o * (a + b);
    assert 2.0 * p * r * (a * b) == 2.0 * o * o;
    assert 2.0 * p * r * (a + b) == 2.0 * o * (p + r);
  }

  /** F1 is the Dice coefficient `2·overlap / (|p| + |g|)` of the token lists. */
  lemma F1ClosedForm(p: seq<Text>, g: seq<Text>)
    ensures F1Tokens(p, g) == if p == [] || g == [] then 0.0 else 2.0 * Overlap(p, g) as real / (|p| + |g|) as real
  {
    if p != [] && g != [] && Overlap(p, g) != 0 {
      HarmonicMean(Overlap(p, g) as real, |p| as real, |g| as real);
    }
  }

  /** `0 <= f1 <= 1` */
  lemma F1Bounds(p: seq<Text>, g: seq<Text>)
    ensures 0.0 <= F1Tokens(p, g) <= 1.0
  {
    F1ClosedForm(p, g);
    if p != [] && g != [] {
      OverlapBounds(p, g);
      var o, n := Overlap(p, g) as real, (|p| + |g|) as real;
      assert 2.0 * o <= n;
      DivAtMostOne(2.0 * o, n);
    }
  }

  lemma DivAtMostOne(x: real, n: real)
    requires 0.0 <= x <= n && n > 0.0
    ensures 0.0 <= x / n <= 1.0
  {
  }

  /** F1 does not care which side is the prediction. */
  lemma F1Symmetric(p: seq<Text>, g: seq<Text>)
    ensures F1Tokens(p, g) == F1Tokens(g, p)
  {
    F1ClosedForm(p, g);
    F1ClosedForm(g, p);
    assert multiset(p) * multiset(g) == multiset(g) * multiset(p);
  }

  /** A non-empty token list scores 1 against itself. */
  lemma F1Self(p: seq<Text>)
    requires p != []
    ensures F1Tokens(p, p) == 1.0
  {
    F1ClosedForm(p, p);
    assert multiset(p) * multiset(p) == multiset(p);
  }

  /** F1 is zero when no token is shared. */
  lemma F1Disjoint(p: seq<Text>, g: seq<Text>)
    requires multiset(p) * multiset(g) == multiset{}
    ensures F1Tokens(p, g) == 0.0
  {
  }

  /** Any answer with a token scores 1 against itself, whatever its spelling variants. */
  lemma F1OfSameAnswer(pred: Option<Text>, gold: Option<Text>)
    requires NormalizeText(pred) == NormalizeText(gold) && Tokenize(pred) != []
    ensures F1(pred, gold) == 1.0
  {
    F1Self(Tokenize(pred));
  }

  /**
    `bleu`: 0 when either list is empty, otherwise what the corpus BLEU of the
    scoring library returns for the predictions against the single reference stream.
   */
  function Bleu(preds: seq<Text>, refs: seq<Text>, corpusBleu: (seq<Text>, seq<Text>) -> real): (r: real)
    ensures preds == [] || refs == [] ==> r == 0.0
    ensures preds != [] && refs != [] ==> r == corpusBleu(preds, refs)
  {
    if preds == [] || refs == [] then 0.0 else corpusBleu(preds, refs)
  }
}
