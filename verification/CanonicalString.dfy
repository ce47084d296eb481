/** The text that is signed, and what a signature over it pins down. */
module CanonicalString {
  import opened Core
  import opened Tso
  import opened Text
  import opened Codecs

  type Hash = h: seq<Byte> | |h| == 32 witness seq(32, _ => 0)

  datatype SignedRequestParts = SignedRequestParts(
    httpMethod: string, path: string, query: string, requestHash: Hash,
    keyId: Uuid, algo: string, ts: U64, nonce: seq<Byte>, signature: seq<Byte>)

  /** The part that comes from the request line. */
  function RequestLine(p: SignedRequestParts): string {
    p.httpMethod + "\n" + p.path + "\n" + p.query
  }

  function Canonical(p: SignedRequestParts): string {
    "HEADLINES-SIGN-V1\n" + p.httpMethod + "\n" + p.path + "\n" + p.query + "\n"
    + Hex(p.requestHash) + "\n" + UuidText(p.keyId) + "\n" + Decimal(p.ts) + "\n" + Base64(p.nonce)
  }

  method BuildCanonicalString(p: SignedRequestParts) returns (s: string)
    ensures s == Canonical(p)
  {
    var hash := HexEncode(p.requestHash);
    s := "HEADLINES-SIGN-V1\n" + p.httpMethod + "\n" + p.path + "\n" + p.query + "\n"
         + hash + "\n" + UuidText(p.keyId) + "\n" + Decimal(p.ts) + "\n" + Base64(p.nonce);
  }

  predicate SameSignedFields(p: SignedRequestParts, q: SignedRequestParts) {
    p.requestHash == q.requestHash && p.keyId == q.keyId && p.ts == q.ts && p.nonce == q.nonce
  }

  lemma Base64IsInjective(a: seq<Byte>, b: seq<Byte>)
    requires Base64(a) == Base64(b)
    ensures a == b
  {
    Base64Decodes(a);
    Base64Decodes(b);
  }

  /** For any method, path and query: two requests have the same text exactly when body hash, key,
      timestamp, nonce and the joined request line are the same. The last four lines need no care. */
  lemma CanonicalDetermines(p: SignedRequestParts, q: SignedRequestParts)
    ensures Canonical(p) == Canonical(q) <==> SameSignedFields(p, q) && RequestLine(p) == RequestLine(q)
  {
    FourLines(p);
    FourLines(q);
    if Canonical(p) == Canonical(q) {
      var p3, q3 := "HEADLINES-SIGN-V1\n" + RequestLine(p), "HEADLINES-SIGN-V1\n" + RequestLine(q);
      var p2, q2 := p3 + "\n" + Hex(p.requestHash), q3 + "\n" + Hex(q.requestHash);
      var p1, q1 := p2 + "\n" + UuidText(p.keyId), q2 + "\n" + UuidText(q.keyId);
      var p0, q0 := p1 + "\n" + Decimal(p.ts), q1 + "\n" + Decimal(q.ts);
      CutBack(p0, q0, Base64(p.nonce), Base64(q.nonce), '\n');
      Base64IsInjective(p.nonce, q.nonce);
      CutBack(p1, q1, Decimal(p.ts), Decimal(q.ts), '\n');
      CutBack(p2, q2, UuidText(p.keyId), UuidText(q.keyId), '\n');
      CutBack(p3, q3, Hex(p.requestHash), Hex(q.requestHash), '\n');
      HexIsInjective(p.requestHash, q.requestHash);
      assert p3[18..] == RequestLine(p) && q3[18..] == RequestLine(q);
    }
  }

  lemma FourLines(p: SignedRequestParts)
    ensures Canonical(p)
         == "HEADLINES-SIGN-V1\n" + RequestLine(p) + "\n" + Hex(p.requestHash) + "\n" + UuidText(p.keyId)
            + "\n" + Decimal(p.ts) + "\n" + Base64(p.nonce)
    ensures '\n' !in Hex(p.requestHash) && '\n' !in UuidText(p.keyId)
    ensures '\n' !in Decimal(p.ts) && '\n' !in Base64(p.nonce)
    ensures ParseUuid(UuidText(p.keyId)) == Some(p.keyId) && ParseU64(Decimal(p.ts)) == Some(p.ts)
  {
    HexIsToken(p.requestHash);
    UuidTextParses(p.keyId);
    DecimalParses(p.ts);
    Base64IsToken(p.nonce);
    hide Hex, UuidText, Decimal, Base64, ParseUuid, ParseU64;
    assert "HEADLINES-SIGN-V1\n" + RequestLine(p)
        == "HEADLINES-SIGN-V1\n" + p.httpMethod + "\n" + p.path + "\n" + p.query;
  }

  predicate OneLine(p: SignedRequestParts) {
    '\n' !in p.httpMethod && '\n' !in p.path && '\n' !in p.query
  }

  /** Requests whose method, path and query are single lines have the same text exactly when every
      signed field is the same. */
  lemma CanonicalIsInjective(p: SignedRequestParts, q: SignedRequestParts)
    requires OneLine(p) && OneLine(q)
    ensures Canonical(p) == Canonical(q) <==>
            SameSignedFields(p, q) && p.httpMethod == q.httpMethod && p.path == q.path && p.query == q.query
  {
    CanonicalDetermines(p, q);
    hide Canonical;
    if RequestLine(p) == RequestLine(q) {
      CutBack(p.httpMethod + "\n" + p.path, q.httpMethod + "\n" + q.path, p.query, q.query, '\n');
      CutBack(p.httpMethod, q.httpMethod, p.path, q.path, '\n');
    }
  }

  /** With line breaks the boundary between path and query can move under the same signature. */
  lemma LineBreaksCollide(p: SignedRequestParts)
    ensures var q, r := p.(path := "/a\n", query := "b"), p.(path := "/a", query := "\nb");
            q != r && Canonical(q) == Canonical(r)
  {
    var q, r := p.(path := "/a\n", query := "b"), p.(path := "/a", query := "\nb");
    assert "/a\n" != "/a";
    assert RequestLine(q) == p.httpMethod + "\n" + "/a\n\nb";
    assert RequestLine(r) == p.httpMethod + "\n" + "/a\n\nb";
    CanonicalDetermines(q, r);
  }
}
