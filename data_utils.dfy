/**
  `ragchat/data/utils.py`: the guarded revision of the text utilities. Each function
  accepts `None` and returns an empty value for it; on a `str` argument each one
  computes what its counterpart in `ragchat/utils.py` computes.
 */
module DataUtils {
  import opened Wrappers
  import opened Strings
  import Utils

  /** `clean_unicode`: `None` gives `""`. */
  function CleanUnicode(text: Option<Text>): (r: Text)
    ensures text.None? ==> r == []
    ensures text.Some? ==> r == Utils.CleanUnicode(text.value) && |r| <= |text.value|
    ensures forall i :: 0 <= i < |r| ==> !Utils.IsSurrogate(r[i]) && !Utils.IsControl(r[i])
  {
    match text
    case None => []
    case Some(t) => Utils.CleanUnicode(t)
  }

  /** `normalize_arabic_text`: `None` and `""` give `""` (the `if not text` test). */
  function NormalizeArabicText(text: Option<Text>): (r: Text)
    ensures text == None || text == Some([]) ==> r == []
    ensures text.Some? ==> r == Utils.NormalizeArabicText(text.value)
    ensures Canonical(r)
    ensures forall i :: 0 <= i < |r| ==> Utils.IsNormalChar(r[i])
  {
    match text
    case None => []
    case Some(t) => Utils.NormalizeArabicText(t)
  }

  lemma NormalizeIdempotent(text: Option<Text>)
    ensures NormalizeArabicText(Some(NormalizeArabicText(text))) == NormalizeArabicText(text)
  {
    if text.Some? {
      Utils.NormalizeIdempotent(text.value);
    }
  }

  /** `split_into_sentences`: `None` and `""` give `[]`. */
  function SplitIntoSentences(text: Option<Text>): (r: seq<Text>)
    ensures text == None || text == Some([]) ==> r == []
    ensures text.Some? ==> r == Utils.SplitIntoSentences(text.value)
    ensures forall k :: 0 <= k < |r| ==> r[k] != [] && Trimmed(r[k])
    ensures forall k :: 0 <= k < |r| ==> Utils.DelimFree(r[k])
  {
    match text
    case None => []
    case Some(t) => Utils.SplitIntoSentences(t)
  }

  /**
    `chunk_sentences` (lines 51-74): an empty list returns at once, and otherwise the
    loop is the one of `ragchat/utils.py`; it computes the same chunks as that loop.
   */
  method ChunkSentences(sentences: seq<Text>, groupSize: int) returns (chunks: seq<Text>)
    ensures chunks == Utils.Chunks(sentences, groupSize)
  {
    if sentences == [] {
      return [];
    }
    chunks := Utils.ChunkSentences(sentences, groupSize);
  }
}
