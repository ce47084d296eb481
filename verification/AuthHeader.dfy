/** The strict parser of the `Signature` authorization header. */
module AuthHeader {
  import opened Core
  import opened Tso
  import opened Text
  import opened Codecs

  datatype ParsedAuthHeader = ParsedAuthHeader(
    keyId: Uuid, algo: string, ts: U64, nonce: seq<Byte>, signature: seq<Byte>)

  datatype ParseError =
    | NonUtf8
    | MissingScheme
    | MalformedPair(pair: string)
    | UnknownField(name: string)
    | MissingField(field: string)
    | MalformedKeyId(text: string)
    | MalformedTs(text: string)
    | MalformedBase64(field: string)

  /** The value of one `name=value` piece. */
  datatype Field =
    | KeyIdField(keyId: Uuid)
    | AlgoField(algo: string)
    | TsField(ts: U64)
    | NonceField(nonce: seq<Byte>)
    | SigField(signature: seq<Byte>)

  const SCHEME := "Signature "

  predicate IsAscii(s: string) {
    forall c :: c in s ==> c as int < 128
  }

  // ----- One piece -----------------------------------------------------------------------------------

  function Interpret(k: string, v: string): Result<Field, ParseError> {
    if k == "key_id" then
      match ParseUuid(v) case Some(id) => Ok(KeyIdField(id)) case None => Err(MalformedKeyId(v))
    else if k == "algo" then Ok(AlgoField(v))
    else if k == "ts" then
      match ParseU64(v) case Some(ts) => Ok(TsField(ts)) case None => Err(MalformedTs(v))
    else if k == "nonce" then
      match FromBase64(v) case Some(bytes) => Ok(NonceField(bytes)) case None => Err(MalformedBase64(k))
    else if k == "sig" then
      match FromBase64(v) case Some(bytes) => Ok(SigField(bytes)) case None => Err(MalformedBase64(k))
    else Err(UnknownField(k))
  }

  function ReadField(raw: string): Result<Field, ParseError> {
    var pair := Trim(raw);
    if pair == "" then Err(MalformedPair("empty pair"))
    else
      match SplitOnce(pair, '=')
      case None => Err(MalformedPair(pair))
      case Some((k, v)) => Interpret(Trim(k), Trim(v))
  }

  // ----- The header, said without the loop -----------------------------------------------------------

  function KeyIdOf(f: Field): Option<Uuid> { if f.KeyIdField? then Some(f.keyId) else None }
  function AlgoOf(f: Field): Option<string> { if f.AlgoField? then Some(f.algo) else None }
  function TsOf(f: Field): Option<U64> { if f.TsField? then Some(f.ts) else None }
  function NonceOf(f: Field): Option<seq<Byte>> { if f.NonceField? then Some(f.nonce) else None }
  function SigOf(f: Field): Option<seq<Byte>> { if f.SigField? then Some(f.signature) else None }

  /** `value` stands in some piece of its kind, and no later piece is of that kind. */
  ghost predicate IsLast<T>(pieces: seq<string>, of: Field -> Option<T>, value: T) {
    exists i :: 0 <= i < |pieces| && ReadField(pieces[i]).Ok? && of(ReadField(pieces[i]).value) == Some(value)
                && NoneFrom(pieces, i + 1, of)
  }

  ghost predicate NoneFrom<T>(pieces: seq<string>, from: nat, of: Field -> Option<T>) {
    forall j :: from <= j < |pieces| && ReadField(pieces[j]).Ok? ==> of(ReadField(pieces[j]).value).None?
  }

  ghost predicate AllRead(pieces: seq<string>) {
    forall i :: 0 <= i < |pieces| ==> ReadField(pieces[i]).Ok?
  }

  /** What acceptance means: ASCII, the scheme, every piece well formed, and each of the five fields
      given, the last piece of a kind deciding. */
  ghost predicate Says(value: string, h: ParsedAuthHeader) {
    && IsAscii(value) && SCHEME <= value
    && var pieces := SplitOn(value[|SCHEME|..], ',');
       && AllRead(pieces)
       && IsLast(pieces, KeyIdOf, h.keyId) && IsLast(pieces, AlgoOf, h.algo) && IsLast(pieces, TsOf, h.ts)
       && IsLast(pieces, NonceOf, h.nonce) && IsLast(pieces, SigOf, h.signature)
  }

  /** What each error means. */
  ghost predicate Refuses(value: string, e: ParseError) {
    if !IsAscii(value) then e == NonUtf8
    else if !(SCHEME <= value) then e == MissingScheme
    else
      var pieces := SplitOn(value[|SCHEME|..], ',');
      if AllRead(pieces) then
        e == MissingField(
          if NoneFrom(pieces, 0, KeyIdOf) then "key_id"
          else if NoneFrom(pieces, 0, AlgoOf) then "algo"
          else if NoneFrom(pieces, 0, TsOf) then "ts"
          else if NoneFrom(pieces, 0, NonceOf) then "nonce"
          else "sig")
        && (NoneFrom(pieces, 0, KeyIdOf) || NoneFrom(pieces, 0, AlgoOf) || NoneFrom(pieces, 0, TsOf)
            || NoneFrom(pieces, 0, NonceOf) || NoneFrom(pieces, 0, SigOf))
      else
        exists i :: 0 <= i < |pieces| && AllRead(pieces[..i]) && ReadField(pieces[i]) == Err(e)
  }

  /** One accumulator of the loop after the first `n` pieces. */
  ghost predicate Tracks<T>(acc: Option<T>, pieces: seq<string>, n: nat, of: Field -> Option<T>)
    requires n <= |pieces|
  {
    if acc.Some? then IsLast(pieces[..n], of, acc.value) else NoneFrom(pieces[..n], 0, of)
  }

  lemma TracksNext<T>(acc: Option<T>, pieces: seq<string>, n: nat, of: Field -> Option<T>)
    requires n < |pieces| && ReadField(pieces[n]).Ok? && Tracks(acc, pieces, n, of)
    ensures Tracks(of(ReadField(pieces[n]).value).Or(acc), pieces, n + 1, of)
  {
    hide ReadField;
    var before, after := pieces[..n], pieces[..n + 1];
    var f := ReadField(pieces[n]).value;
    assert after[n] == pieces[n];
    if of(f).Some? {
      assert NoneFrom(after, n + 1, of);
    } else if acc.Some? {
      var i :| 0 <= i < |before| && ReadField(before[i]).Ok? && of(ReadField(before[i]).value) == acc
               && NoneFrom(before, i + 1, of);
      forall j | i + 1 <= j < |after| && ReadField(after[j]).Ok? ensures of(ReadField(after[j]).value).None? {
        if j < n {
          assert after[j] == before[j];
        }
      }
      assert after[i] == before[i];
      assert NoneFrom(after, i + 1, of);
    } else {
      forall j | 0 <= j < |after| && ReadField(after[j]).Ok? ensures of(ReadField(after[j]).value).None? {
        if j < n {
          assert after[j] == before[j];
        }
      }
    }
  }

  method ParseAuthorizationHeader(value: string) returns (r: Result<ParsedAuthHeader, ParseError>)
    ensures r.Ok? ==> Says(value, r.value)
    ensures r.Err? ==> Refuses(value, r.error)
  {
    hide ReadField, NoneFrom, IsLast;
    if !(forall c | c in value :: c as int < 128) {
      return Err(NonUtf8);
    }
    if !(SCHEME <= value) {
      return Err(MissingScheme);
    }
    var pieces := SplitOn(value[|SCHEME|..], ',');
    var keyId: Option<Uuid> := None;
    var algo: Option<string> := None;
    var ts: Option<U64> := None;
    var nonce: Option<seq<Byte>> := None;
    var sig: Option<seq<Byte>> := None;
    NothingTracked(pieces);
    for i := 0 to |pieces|
      invariant AllRead(pieces[..i])
      invariant Tracks(keyId, pieces, i, KeyIdOf) && Tracks(algo, pieces, i, AlgoOf) && Tracks(ts, pieces, i, TsOf)
      invariant Tracks(nonce, pieces, i, NonceOf) && Tracks(sig, pieces, i, SigOf)
    {
      var field := ReadField(pieces[i]);
      if field.Err? {
        return Err(field.error);
      }
      assert pieces[..i + 1] == pieces[..i] + [pieces[i]];
      TracksNext(keyId, pieces, i, KeyIdOf);
      TracksNext(algo, pieces, i, AlgoOf);
      TracksNext(ts, pieces, i, TsOf);
      TracksNext(nonce, pieces, i, NonceOf);
      TracksNext(sig, pieces, i, SigOf);
      match field.value {
        case KeyIdField(v) => keyId := Some(v);
        case AlgoField(v) => algo := Some(v);
        case TsField(v) => ts := Some(v);
        case NonceField(v) => nonce := Some(v);
        case SigField(v) => sig := Some(v);
      }
    }
    assert pieces[..|pieces|] == pieces;
    TrackedAll(keyId, pieces, KeyIdOf);
    TrackedAll(algo, pieces, AlgoOf);
    TrackedAll(ts, pieces, TsOf);
    TrackedAll(nonce, pieces, NonceOf);
    TrackedAll(sig, pieces, SigOf);
    if keyId.None? { return Err(MissingField("key_id")); }
    if algo.None? { return Err(MissingField("algo")); }
    if ts.None? { return Err(MissingField("ts")); }
    if nonce.None? { return Err(MissingField("nonce")); }
    if sig.None? { return Err(MissingField("sig")); }
    return Ok(ParsedAuthHeader(keyId.value, algo.value, ts.value, nonce.value, sig.value));
  }

  lemma NothingTracked(pieces: seq<string>)
    ensures Tracks(None, pieces, 0, KeyIdOf) && Tracks(None, pieces, 0, AlgoOf) && Tracks(None, pieces, 0, TsOf)
    ensures Tracks(None, pieces, 0, NonceOf) && Tracks(None, pieces, 0, SigOf)
  {
  }

  lemma TrackedAll<T>(acc: Option<T>, pieces: seq<string>, of: Field -> Option<T>)
    requires Tracks(acc, pieces, |pieces|, of)
    ensures acc.None? <==> NoneFrom(pieces, 0, of)
    ensures acc.Some? ==> IsLast(pieces, of, acc.value)
  {
    hide ReadField;
    assert pieces[..|pieces|] == pieces;
  }

  // ----- The parser's answer is the only one ---------------------------------------------------------

  lemma LastIsUnique<T>(pieces: seq<string>, of: Field -> Option<T>, x: T, y: T)
    requires IsLast(pieces, of, x) && IsLast(pieces, of, y)
    ensures x == y
  {
    hide ReadField;
  }

  lemma LastExcludesNone<T>(pieces: seq<string>, of: Field -> Option<T>, x: T)
    requires IsLast(pieces, of, x)
    ensures !NoneFrom(pieces, 0, of)
  {
    hide ReadField;
  }

  /** A header says at most one thing, and then it is not refused: acceptance and its value are exactly
      what `Says` states. */
  lemma AnswerIsUnique(value: string, h: ParsedAuthHeader)
    requires Says(value, h)
    ensures forall e :: !Refuses(value, e)
    ensures forall other :: Says(value, other) ==> other == h
  {
    hide ReadField, NoneFrom, IsLast;
    var pieces := SplitOn(value[|SCHEME|..], ',');
    LastExcludesNone(pieces, KeyIdOf, h.keyId);
    LastExcludesNone(pieces, AlgoOf, h.algo);
    LastExcludesNone(pieces, TsOf, h.ts);
    LastExcludesNone(pieces, NonceOf, h.nonce);
    LastExcludesNone(pieces, SigOf, h.signature);
    forall other | Says(value, other) ensures other == h {
      LastIsUnique(pieces, KeyIdOf, h.keyId, other.keyId);
      LastIsUnique(pieces, AlgoOf, h.algo, other.algo);
      LastIsUnique(pieces, TsOf, h.ts, other.ts);
      LastIsUnique(pieces, NonceOf, h.nonce, other.nonce);
      LastIsUnique(pieces, SigOf, h.signature, other.signature);
    }
  }

  // ----- Printing ------------------------------------------------------------------------------------

  function Pair(lead: string, k: string, v: string): string {
    lead + k + "=" + v
  }

  function PrintedPieces(h: ParsedAuthHeader): seq<string> {
    [Pair("", "key_id", UuidText(h.keyId)), Pair(" ", "algo", h.algo), Pair(" ", "ts", Decimal(h.ts)),
     Pair(" ", "nonce", Base64(h.nonce)), Pair(" ", "sig", Base64(h.signature))]
  }

  /** The client's format string. */
  function Print(h: ParsedAuthHeader): string {
    SCHEME + Pair("", "key_id", UuidText(h.keyId)) + "," + Pair(" ", "algo", h.algo) + ","
    + Pair(" ", "ts", Decimal(h.ts)) + "," + Pair(" ", "nonce", Base64(h.nonce)) + ","
    + Pair(" ", "sig", Base64(h.signature))
  }

  /** Text that can stand as an algorithm name in a header. */
  predicate Plain(s: string) {
    IsAscii(s) && ',' !in s && Trimmed(s)
  }

  lemma TokenIsPlain(s: string)
    requires Token(s)
    ensures Plain(s)
  {
    if s != "" {
      assert s[0] in s && s[|s| - 1] in s;
    }
  }

  /** Whatever stands around the separators, an accepted algorithm name is plain. */
  lemma AcceptedAlgoIsPlain(value: string, h: ParsedAuthHeader)
    requires Says(value, h)
    ensures Plain(h.algo)
  {
    hide NoneFrom, Interpret;
    var body := value[|SCHEME|..];
    var pieces := SplitOn(body, ',');
    var i :| 0 <= i < |pieces| && ReadField(pieces[i]).Ok? && AlgoOf(ReadField(pieces[i]).value) == Some(h.algo);
    JoinOfSplit(body, ',');
    assert pieces[i] in pieces;
    PieceInText(pieces, ',', i);
    assert forall c :: c in pieces[i] ==> c in value;
    AlgoInPiece(pieces[i], h.algo);
  }

  lemma {:induction false} PieceInText(pieces: seq<string>, sep: char, i: nat)
    requires i < |pieces|
    ensures forall c :: c in pieces[i] ==> c in JoinWith(pieces, sep)
  {
    if i > 0 {
      PieceInText(pieces[1..], sep, i - 1);
    }
  }

  lemma AlgoInPiece(raw: string, algo: string)
    requires ReadField(raw) == Ok(AlgoField(algo))
    ensures Trimmed(algo) && forall c :: c in algo ==> c in raw
  {
    var pair := Trim(raw);
    TrimTrims(raw);
    SplitOnceParts(pair, '=');
    var (k, v) := SplitOnce(pair, '=').value;
    TrimTrims(v);
    assert algo == Trim(v);
    forall c | c in algo ensures c in raw {
      assert c in v;
      assert c in pair;
    }
  }

  predicate Name(k: string) {
    k != "" && Trimmed(k) && '=' !in k && ',' !in k && IsAscii(k)
  }

  lemma FieldNames()
    ensures Name("key_id") && Name("algo") && Name("ts") && Name("nonce") && Name("sig")
  {
  }

  lemma ReadPrinted(lead: string, k: string, v: string)
    requires lead == "" || lead == " "
    requires Name(k) && Plain(v)
    ensures ReadField(Pair(lead, k, v)) == Interpret(k, v)
  {
    hide Interpret, IsAscii;
    var pair := k + "=" + v;
    var raw := Pair(lead, k, v);
    assert raw == lead + pair;
    assert Trimmed(pair);
    TrimTrims(pair);
    if lead == " " {
      assert raw[1..] == pair;
    } else {
      assert raw == pair;
    }
    assert Trim(raw) == Trim(pair) == pair;
    SplitOnceAt(k, v, '=');
    TrimTrims(k);
    TrimTrims(v);
  }

  /** What each piece means and which error its value makes, name by name; what is not one of the five names, has no
      `=` or is blank is an error of its own. */
  lemma PieceMeans(k: string, v: string)
    requires Name(k) && Plain(v)
    ensures var r := ReadField(k + "=" + v);
            && (k == "key_id" ==>
                  r == if ParseUuid(v).Some? then Ok(KeyIdField(ParseUuid(v).value)) else Err(MalformedKeyId(v)))
            && (k == "algo" ==> r == Ok(AlgoField(v)))
            && (k == "ts" ==> r == if ParseU64(v).Some? then Ok(TsField(ParseU64(v).value)) else Err(MalformedTs(v)))
            && (k == "nonce" ==>
                  r == if FromBase64(v).Some? then Ok(NonceField(FromBase64(v).value)) else Err(MalformedBase64("nonce")))
            && (k == "sig" ==>
                  r == if FromBase64(v).Some? then Ok(SigField(FromBase64(v).value)) else Err(MalformedBase64("sig")))
            && (k !in {"key_id", "algo", "ts", "nonce", "sig"} ==> r == Err(UnknownField(k)))
    ensures ReadField(k) == Err(MalformedPair(k)) && ReadField("") == Err(MalformedPair("empty pair"))
  {
    NoPair(k);
    hide ReadField, ParseUuid, ParseU64, FromBase64, Name, Plain;
    ReadPrinted("", k, v);
    assert "" + k == k;
    assert Pair("", k, v) == k + "=" + v;
  }

  lemma NoPair(k: string)
    requires Name(k)
    ensures ReadField(k) == Err(MalformedPair(k)) && ReadField("") == Err(MalformedPair("empty pair"))
  {
    TrimTrims(k);
    SplitOnceParts(k, '=');
  }

  lemma PairIsPlain(lead: string, k: string, v: string)
    requires lead == "" || lead == " "
    requires Name(k) && Plain(v)
    ensures IsAscii(Pair(lead, k, v)) && ',' !in Pair(lead, k, v)
  {
  }

  lemma JoinFive(s: string, a: string, b: string, c: string, d: string, e: string)
    ensures s + a + "," + b + "," + c + "," + d + "," + e == s + JoinWith([a, b, c, d, e], ',')
  {
    var p := [a, b, c, d, e];
    assert p[1..] == [b, c, d, e] && p[1..][1..] == [c, d, e] && p[1..][1..][1..] == [d, e];
    assert [d, e][1..] == [e];
    assert JoinWith([d, e], ',') == d + "," + e;
    assert JoinWith([c, d, e], ',') == c + "," + JoinWith([d, e], ',');
    assert JoinWith([b, c, d, e], ',') == b + "," + JoinWith([c, d, e], ',');
  }

  lemma PrintedFields(h: ParsedAuthHeader)
    requires Plain(h.algo)
    ensures var p := PrintedPieces(h);
            && ReadField(p[0]) == Ok(KeyIdField(h.keyId)) && ReadField(p[1]) == Ok(AlgoField(h.algo))
            && ReadField(p[2]) == Ok(TsField(h.ts)) && ReadField(p[3]) == Ok(NonceField(h.nonce))
            && ReadField(p[4]) == Ok(SigField(h.signature))
  {
    FieldNames();
    hide ReadField, UuidText, Decimal, Base64, ParseUuid, ParseU64, FromBase64, Pair, Name, Plain;
    UuidTextParses(h.keyId);
    DecimalParses(h.ts);
    Base64Decodes(h.nonce);
    Base64Decodes(h.signature);
    PrintedTokens(h);
    ReadPrinted("", "key_id", UuidText(h.keyId));
    ReadPrinted(" ", "algo", h.algo);
    ReadPrinted(" ", "ts", Decimal(h.ts));
    ReadPrinted(" ", "nonce", Base64(h.nonce));
    ReadPrinted(" ", "sig", Base64(h.signature));
  }

  lemma PrintedTokens(h: ParsedAuthHeader)
    ensures Plain(UuidText(h.keyId)) && Plain(Decimal(h.ts)) && Plain(Base64(h.nonce)) && Plain(Base64(h.signature))
  {
    UuidTextParses(h.keyId);
    DecimalParses(h.ts);
    Base64IsToken(h.nonce);
    Base64IsToken(h.signature);
    hide UuidText, Decimal, Base64, Plain;
    TokenIsPlain(UuidText(h.keyId));
    TokenIsPlain(Decimal(h.ts));
    TokenIsPlain(Base64(h.nonce));
    TokenIsPlain(Base64(h.signature));
  }

  lemma PiecesArePlain(h: ParsedAuthHeader)
    requires Plain(h.algo)
    ensures forall p :: p in PrintedPieces(h) ==> IsAscii(p) && ',' !in p
  {
    PrintedTokens(h);
    FieldNames();
    hide UuidText, Decimal, Base64, Plain, Pair, Name, IsAscii;
    PairIsPlain("", "key_id", UuidText(h.keyId));
    PairIsPlain(" ", "algo", h.algo);
    PairIsPlain(" ", "ts", Decimal(h.ts));
    PairIsPlain(" ", "nonce", Base64(h.nonce));
    PairIsPlain(" ", "sig", Base64(h.signature));
  }

  lemma AsciiFive(s: string, a: string, b: string, c: string, d: string, e: string)
    requires IsAscii(s) && IsAscii(a) && IsAscii(b) && IsAscii(c) && IsAscii(d) && IsAscii(e)
    ensures IsAscii(s + a + "," + b + "," + c + "," + d + "," + e)
  {
  }

  lemma PrintSplits(h: ParsedAuthHeader)
    requires Plain(h.algo)
    ensures IsAscii(Print(h)) && SCHEME <= Print(h)
    ensures SplitOn(Print(h)[|SCHEME|..], ',') == PrintedPieces(h)
  {
    PiecesArePlain(h);
    assert IsAscii(SCHEME);
    hide UuidText, Decimal, Base64, Plain, Pair, IsAscii;
    var p := PrintedPieces(h);
    assert p[0] in p && p[1] in p && p[2] in p && p[3] in p && p[4] in p;
    AsciiFive(SCHEME, p[0], p[1], p[2], p[3], p[4]);
    JoinFive(SCHEME, p[0], p[1], p[2], p[3], p[4]);
    assert p == [p[0], p[1], p[2], p[3], p[4]];
    assert Print(h) == SCHEME + JoinWith(p, ',');
    assert Print(h)[|SCHEME|..] == JoinWith(p, ',');
    SplitOfJoin(p, ',');
  }

  lemma LastHere<T>(pieces: seq<string>, i: nat, of: Field -> Option<T>, value: T)
    requires i < |pieces| && AllRead(pieces) && of(ReadField(pieces[i]).value) == Some(value)
    requires NoneFrom(pieces, i + 1, of)
    ensures IsLast(pieces, of, value)
  {
  }

  /** A printed header parses back to exactly its fields if and only if its algorithm name is plain. */
  lemma PrintedHeaderParsesIff(h: ParsedAuthHeader)
    ensures Says(Print(h), h) <==> Plain(h.algo)
  {
    hide ReadField, UuidText, Decimal, Base64, Print, Pair, Plain, IsLast, IsAscii;
    if Says(Print(h), h) {
      AcceptedAlgoIsPlain(Print(h), h);
    }
    if Plain(h.algo) {
      PrintSplits(h);
      PrintedFields(h);
      var p := PrintedPieces(h);
      LastHere(p, 0, KeyIdOf, h.keyId);
      LastHere(p, 1, AlgoOf, h.algo);
      LastHere(p, 2, TsOf, h.ts);
      LastHere(p, 3, NonceOf, h.nonce);
      LastHere(p, 4, SigOf, h.signature);
    }
  }
}
