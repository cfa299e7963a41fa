/**
  `backend/api/services/rag_service.py`: a text posted by a user is normalized, given a
  content-derived id in the 8-4-4-4-12 layout of a UUID (section 3 of RFC 4122; the
  version and variant bits are not set), embedded, and upserted into the contexts
  collection. The SHA-256 hex digest (FIPS 180-4) of the UTF-8 bytes and the embedder
  are parameters.
 */
module RagService {
  import opened Wrappers
  import opened Strings
  import opened PyValue
  import opened Embeddings
  import Utils
  import DataUtils
  import CoreEmbeddings

  const DASH: CodePoint := '-' as int

  predicate IsDash(c: CodePoint) {
    c == DASH
  }

  predicate IsHexDigit(c: CodePoint) {
    '0' as int <= c <= '9' as int || 'a' as int <= c <= 'f' as int
  }

  /** `h[a:b]` with Python's clamping. */
  function Slice(h: Text, a: nat, b: nat): (r: Text)
    requires a <= b
    ensures |r| == if b <= |h| then b - a else if a <= |h| then |h| - a else 0
  {
    if b <= |h| then h[a..b] else if a <= |h| then h[a..] else []
  }

  /** Line 21: `f"{h[0:8]}-{h[8:12]}-{h[12:16]}-{h[16:20]}-{h[20:32]}"` */
  function FormatUuid(h: Text): Text
  {
    Slice(h, 0, 8) + [DASH] + Slice(h, 8, 12) + [DASH] + Slice(h, 12, 16) + [DASH] + Slice(h, 16, 20) + [DASH] + Slice(h, 20, 32)
  }

  /**
    On a digest of at least 32 characters the id has 36 characters, dashes at 8, 13, 18
    and 23, and the first 32 digest characters in order everywhere else.
   */
  lemma UuidLayout(h: Text)
    requires |h| >= 32
    ensures var u := FormatUuid(h);
            && |u| == 36
            && u[8] == DASH && u[13] == DASH && u[18] == DASH && u[23] == DASH
            && (forall k :: 0 <= k < 8 ==> u[k] == h[k])
            && (forall k :: 9 <= k < 13 ==> u[k] == h[k - 1])
            && (forall k :: 14 <= k < 18 ==> u[k] == h[k - 2])
            && (forall k :: 19 <= k < 23 ==> u[k] == h[k - 3])
            && (forall k :: 24 <= k < 36 ==> u[k] == h[k - 4])
  {
  }

  /** Dropping the dashes of `x`, a dash and a dash-free `y`. */
  lemma DropDashBefore(x: Text, y: Text)
    requires forall k :: 0 <= k < |y| ==> IsHexDigit(y[k])
    ensures Remove(x + [DASH] + y, IsDash) == Remove(x, IsDash) + y
  {
    var xd := x + [DASH];
    assert Remove(xd + y, IsDash) == Remove(xd, IsDash) + Remove(y, IsDash) by {
      RemoveAppend(xd, y, IsDash);
    }
    assert Remove(xd, IsDash) == Remove(x, IsDash) by {
      RemoveAppend(x, [DASH], IsDash);
      RemoveEverything([DASH], IsDash);
    }
    assert Remove(y, IsDash) == y by {
      RemoveNothing(y, IsDash);
    }
  }

  /** For a hex digest, dropping the dashes gives back its first 32 characters. */
  lemma UuidDropDashes(h: Text)
    requires |h| >= 32 && forall k :: 0 <= k < |h| ==> IsHexDigit(h[k])
    ensures Remove(FormatUuid(h), IsDash) == h[..32]
  {
    var a, b, c, d, e := h[0..8], h[8..12], h[12..16], h[16..20], h[20..32];
    var ab := a + [DASH] + b;
    var abc := ab + [DASH] + c;
    var abcd := abc + [DASH] + d;
    assert FormatUuid(h) == abcd + [DASH] + e;
    RemoveNothing(a, IsDash);
    DropDashBefore(a, b);
    DropDashBefore(ab, c);
    DropDashBefore(abc, d);
    DropDashBefore(abcd, e);
    assert h[..32] == a + b + c + d + e;
  }

  /** A point written to the index. */
  datatype Point = Point(id: Text, vector: Vector, payload: map<Text, Value>)

  /** The response and the point upserted, if any. */
  datatype Outcome = Outcome(response: map<Text, Value>, upserted: Option<Point>)

  function STATUS(): Text { Lit("status") }
  function MESSAGE(): Text { Lit("message") }
  function INSERTED_ID(): Text { Lit("inserted_id") }
  function TEXT(): Text { Lit("text") }
  function CONTEXT_TEXT(): Text { Lit("context_text") }
  function RAW_CONTEXT(): Text { Lit("raw_context") }
  function SOURCE(): Text { Lit("source") }

  /** `not text or not text.strip()` */
  predicate IsBlank(text: Option<Text>) {
    text.None? || Strip(text.value) == []
  }

  /** The id of a text: the UUID layout of the digest of its normalized form. */
  function ContentId(clean: Text, sha256Hex: Text -> Text): Text
  {
    FormatUuid(sha256Hex(clean))
  }

  /** Lines 26-30 */
  function IngestPayload(clean: Text): (m: map<Text, Value>)
    ensures CONTEXT_TEXT() in m && m[CONTEXT_TEXT()] == Str(clean)
    ensures RAW_CONTEXT() in m && m[RAW_CONTEXT()] == Str(clean)
    ensures SOURCE() in m && m[SOURCE()] == Str(Lit("user_ingest"))
    ensures m.Keys == {CONTEXT_TEXT(), RAW_CONTEXT(), SOURCE()}
  {
    assert CONTEXT_TEXT()[0] != RAW_CONTEXT()[0] && CONTEXT_TEXT()[0] != SOURCE()[0] && RAW_CONTEXT()[0] != SOURCE()[0];
    map[CONTEXT_TEXT() := Str(clean), RAW_CONTEXT() := Str(clean), SOURCE() := Str(Lit("user_ingest"))]
  }

  /**
    `ingest_text_to_qdrant`: a blank text is answered with an error and nothing is
    embedded or upserted; otherwise the normalized text is stored under its content id,
    with the embedding of that same text (normalizing it again for the embedder changes
    nothing) or an empty vector when the embedder fails.
   */
  function IngestText(text: Option<Text>, sha256Hex: Text -> Text, encodeOne: Text -> Option<Vector>): (r: Outcome)
    ensures IsBlank(text) <==> r.upserted.None?
    ensures IsBlank(text) ==> r.response == map[STATUS() := Str(Lit("error")), MESSAGE() := Str(Lit("Empty text."))]
    ensures !IsBlank(text) ==>
              var clean := Utils.NormalizeArabicText(text.value);
              && r.upserted.value.id == ContentId(clean, sha256Hex)
              && r.upserted.value.payload == IngestPayload(clean)
              && r.upserted.value.vector == encodeOne(clean).GetOr([])
              && r.response == map[STATUS() := Str(Lit("ok")), INSERTED_ID() := Str(r.upserted.value.id), TEXT() := Str(clean)]
  {
    if IsBlank(text) then
      Outcome(map[STATUS() := Str(Lit("error")), MESSAGE() := Str(Lit("Empty text."))], None)
    else
      var clean := DataUtils.NormalizeArabicText(text);
      var uid := FormatUuid(sha256Hex(clean));
      var vector := CoreEmbeddings.EmbedText(encodeOne, clean);
      Utils.NormalizeIdempotent(text.value);
      Outcome(map[STATUS() := Str(Lit("ok")), INSERTED_ID() := Str(uid), TEXT() := Str(clean)],
              Some(Point(uid, vector, IngestPayload(clean))))
  }

  /** Texts with the same normalized form are stored under the same id with the same payload. */
  lemma IngestIdempotent(a: Text, b: Text, sha256Hex: Text -> Text, encodeOne: Text -> Option<Vector>)
    requires !IsBlank(Some(a)) && !IsBlank(Some(b))
    requires Utils.NormalizeArabicText(a) == Utils.NormalizeArabicText(b)
    ensures IngestText(Some(a), sha256Hex, encodeOne) == IngestText(Some(b), sha256Hex, encodeOne)
  {
  }

  /** Ingesting the stored text again, once it is not blank, is ingesting the original. */
  lemma IngestAgain(text: Text, sha256Hex: Text -> Text, encodeOne: Text -> Option<Vector>)
    requires !IsBlank(Some(text)) && !IsBlank(Some(Utils.NormalizeArabicText(text)))
    ensures IngestText(Some(Utils.NormalizeArabicText(text)), sha256Hex, encodeOne) == IngestText(Some(text), sha256Hex, encodeOne)
  {
    Utils.NormalizeIdempotent(text);
  }
}
