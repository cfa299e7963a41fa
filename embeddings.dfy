/**
  `ragchat/embeddings.py`: the E5-style prefix convention of the text embedder. The
  Sentence-Transformers and Hugging Face backends are functions on the prefixed list.
 */
module Embeddings {
  import opened Wrappers
  import opened Strings

  type Vector = seq<real>

  const QUERY: Text := Lit("query")
  const PASSAGE: Text := Lit("passage")
  const PREFIX_SEP: Text := Lit(": ")

  /** `_add_prefix`: `f"{prefix}: {t}"` for each text, in order. */
  function AddPrefix(texts: seq<Text>, prefix: Text): (r: seq<Text>)
    ensures |r| == |texts|
    ensures forall i :: 0 <= i < |texts| ==> StartsWith(r[i], prefix + PREFIX_SEP)
  {
    seq(|texts|, i requires 0 <= i < |texts| => prefix + PREFIX_SEP + texts[i])
  }

  /** The text a prefixed input was made from, if it carries the prefix. */
  function DropPrefix(t: Text, prefix: Text): Option<Text>
  {
    if StartsWith(t, prefix + PREFIX_SEP) then Some(t[|prefix + PREFIX_SEP|..]) else None
  }

  /** The prefix is added to each text without changing it: removing it gives the text back. */
  lemma DropAddPrefix(texts: seq<Text>, prefix: Text, i: nat)
    requires i < |texts|
    ensures DropPrefix(AddPrefix(texts, prefix)[i], prefix) == Some(texts[i])
  {
    var head := prefix + PREFIX_SEP;
    assert AddPrefix(texts, prefix)[i] == head + texts[i];
    assert (head + texts[i])[|head|..] == texts[i];
  }

  /** Prefixing works element by element, so it commutes with concatenation. */
  lemma AddPrefixAppend(a: seq<Text>, b: seq<Text>, prefix: Text)
    ensures AddPrefix(a + b, prefix) == AddPrefix(a, prefix) + AddPrefix(b, prefix)
  {
  }

  /** A query input and a passage input are never the same text. */
  lemma QueryIsNotPassage(q: Text, p: Text)
    ensures AddPrefix([q], QUERY)[0] != AddPrefix([p], PASSAGE)[0]
  {
    assert AddPrefix([q], QUERY)[0][0] == 'q' as int;
    assert AddPrefix([p], PASSAGE)[0][0] == 'p' as int;
  }

  /**
    A loaded embedder: `stLoaded` says whether the Sentence-Transformers model loaded;
    `stEncode` and `hfEncode` are its `encode` and the mean-pooling fallback.
   */
  datatype Embedder = Embedder(
    stLoaded: bool,
    stEncode: seq<Text> -> seq<Vector>,
    hfEncode: seq<Text> -> seq<Vector>)

  /** The backend the embedder uses, chosen only by whether the first one loaded. */
  function Backend(e: Embedder): seq<Text> -> seq<Vector>
  {
    if e.stLoaded then e.stEncode else e.hfEncode
  }

  /** `encode_queries`: the backend applied to the `query`-prefixed list. */
  function EncodeQueries(e: Embedder, queries: seq<Text>): (r: seq<Vector>)
    ensures r == Backend(e)(AddPrefix(queries, QUERY))
    ensures e.stLoaded ==> r == e.stEncode(AddPrefix(queries, QUERY))
    ensures !e.stLoaded ==> r == e.hfEncode(AddPrefix(queries, QUERY))
  {
    var texts := AddPrefix(queries, QUERY);
    if e.stLoaded then e.stEncode(texts) else e.hfEncode(texts)
  }

  /** `encode_passages`: the backend applied to the `passage`-prefixed list. */
  function EncodePassages(e: Embedder, passages: seq<Text>): (r: seq<Vector>)
    ensures r == Backend(e)(AddPrefix(passages, PASSAGE))
    ensures e.stLoaded ==> r == e.stEncode(AddPrefix(passages, PASSAGE))
    ensures !e.stLoaded ==> r == e.hfEncode(AddPrefix(passages, PASSAGE))
  {
    var texts := AddPrefix(passages, PASSAGE);
    if e.stLoaded then e.stEncode(texts) else e.hfEncode(texts)
  }
}
