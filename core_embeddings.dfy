/**
  `ragchat/core/embeddings.py`: the embedder used by the ingestion commands. Both paths
  clean their input the same way, and a failing encoder gives empty vectors instead of
  an exception. The model's `encode` is a parameter that may fail (`None`).
 */
module CoreEmbeddings {
  import opened Wrappers
  import opened Strings
  import Utils
  import DataUtils
  import opened Embeddings

  lemma CleanEmpty()
    ensures Utils.CleanUnicode([]) == []
  {
  }

  /**
    `normalize_arabic_text(clean_unicode(t))`. Normalization starts by cleaning, so the
    extra cleaning changes nothing.
   */
  function CleanForEmbedding(t: Text): (r: Text)
    ensures r == Utils.NormalizeArabicText(t)
    ensures Canonical(r)
    ensures forall i :: 0 <= i < |r| ==> Utils.IsNormalChar(r[i])
  {
    var c := DataUtils.CleanUnicode(Some(t));
    Utils.CleanUnicodeIdempotent(t);
    CleanEmpty();
    DataUtils.NormalizeArabicText(Some(c))
  }

  /** Line 54: the cleaned batch, one text per input in order. */
  function CleanBatch(texts: seq<Text>): (r: seq<Text>)
    ensures |r| == |texts|
    ensures forall i :: 0 <= i < |texts| ==> r[i] == Utils.NormalizeArabicText(texts[i])
  {
    seq(|texts|, i requires 0 <= i < |texts| => CleanForEmbedding(texts[i]))
  }

  /** `embed_text`: the encoder's vector for the cleaned text, or `[]` when encoding fails. */
  function EmbedText(encodeOne: Text -> Option<Vector>, text: Text): (r: Vector)
    ensures encodeOne(Utils.NormalizeArabicText(text)).None? ==> r == []
    ensures encodeOne(Utils.NormalizeArabicText(text)).Some? ==> r == encodeOne(Utils.NormalizeArabicText(text)).value
  {
    encodeOne(CleanForEmbedding(text)).GetOr([])
  }

  /** `[[] for _ in texts]` */
  function EmptyVectors(n: nat): (r: seq<Vector>)
    ensures |r| == n && forall i :: 0 <= i < n ==> r[i] == []
  {
    seq(n, i => [])
  }

  /**
    `embed_batch`: the encoder's vectors for the cleaned batch, or, when encoding fails,
    exactly one empty vector per input.
   */
  function EmbedBatch(encodeMany: seq<Text> -> Option<seq<Vector>>, texts: seq<Text>): (r: seq<Vector>)
    ensures encodeMany(CleanBatch(texts)).None? ==> |r| == |texts| && forall i :: 0 <= i < |r| ==> r[i] == []
    ensures encodeMany(CleanBatch(texts)).Some? ==> r == encodeMany(CleanBatch(texts)).value
  {
    match encodeMany(CleanBatch(texts))
    case Some(vectors) => vectors
    case None => EmptyVectors(|texts|)
  }
}
