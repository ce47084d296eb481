/** Authentication of signed requests: the strategy, the interceptor before it, and the client it must
    agree with. */
module SignedRequests {
  import opened Core
  import opened Tso
  import opened TsoProcess
  import opened NonceStore
  import opened ReplayProtection
  import opened Text
  import opened Codecs
  import opened CanonicalString
  import opened AuthHeader
  import opened QueryCanon

  datatype Subject = Anonymous | Principal(id: Uuid, keyId: Uuid)

  datatype ResolvedKey = ResolvedKey(algo: string, publicKey: seq<Byte>, subject: Subject)

  datatype ResolveError = NotFound | Revoked | Internal(message: string)

  datatype VerifyError = BadSignature | MalformedKey | MalformedSignature

  datatype AuthError =
    | UnknownKey | KeyRevoked | ResolverFailed(message: string) | AlgoMismatch | UnsupportedAlgo
    | SignatureRefused(reason: VerifyError) | Expired | FutureTs | Replayed | NonceStoreFull

  /** A signature algorithm: public key, signed text, signature. */
  type Verifier = (seq<Byte>, string, seq<Byte>) -> Result<(), VerifyError>

  type Resolver = Uuid -> Result<ResolvedKey, ResolveError>

  // ----- The strategy ----------------------------------------------------------------------------------

  /** The key is known and in force, its algorithm is the one named and is supported, and the signature
      over the canonical text verifies. */
  predicate SignatureGood(resolve: Resolver, algos: map<string, Verifier>, parts: SignedRequestParts) {
    && resolve(parts.keyId).Ok?
    && var key := resolve(parts.keyId).value;
       && parts.algo == key.algo && parts.algo in algos
       && algos[parts.algo](key.publicKey, Canonical(parts), parts.signature).Ok?
  }

  datatype TimeSource = Oracle(tso: InProcessTso) | LocalClock(horizonMs: U64)

  function Horizon(source: TimeSource): U64 {
    if source.Oracle? then source.tso.horizonMs else source.horizonMs
  }

  /** The window the time source applies, beside the cache it protects. */
  function GuardOf(source: TimeSource, nonces: InMemoryNonceStore): Guard {
    Guard(nonces.capacity, nonces.horizonMs, Horizon(source), if source.Oracle? then 0 else source.horizonMs)
  }

  function Reading(source: TimeSource, wall: U64): U64
    reads if source.Oracle? then {source.tso} else {}
  {
    if source.Oracle? then Max(wall, PhysicalMs(source.tso.last)) else wall
  }

  class SignedRequestStrategy {
    const algos: map<string, Verifier>
    const timeSource: TimeSource
    const nonces: InMemoryNonceStore

    constructor (algos: map<string, Verifier>, timeSource: TimeSource, nonces: InMemoryNonceStore)
      ensures this.algos == algos && this.timeSource == timeSource && this.nonces == nonces
    {
      this.algos, this.timeSource, this.nonces := algos, timeSource, nonces;
    }

    /** The attempt that `parts` is for the replay cache. */
    function AttemptOf(resolve: Resolver, wall: U64, parts: SignedRequestParts): Attempt
      reads if timeSource.Oracle? then {timeSource.tso} else {}
    {
      Attempt(NonceKey(parts.keyId, parts.nonce), parts.ts, Reading(timeSource, wall),
              SignatureGood(resolve, algos, parts))
    }

    method AuthenticateInner(resolve: Resolver, wall: U64, parts: SignedRequestParts)
      returns (r: Result<Subject, AuthError>)
      requires nonces.Valid()
      modifies nonces`entries
      ensures nonces.Valid()
      ensures var (admitted, cache) :=
                Admit(GuardOf(timeSource, nonces), View(old(nonces.entries)), AttemptOf(resolve, wall, parts));
              r.Ok? == admitted && View(nonces.entries) == cache
      ensures r.Ok? ==> && SignatureGood(resolve, algos, parts) && r.value == resolve(parts.keyId).value.subject
                        && NonceKey(parts.keyId, parts.nonce) in View(nonces.entries)
                        && View(nonces.entries)[NonceKey(parts.keyId, parts.nonce)] == parts.ts
      ensures var key := resolve(parts.keyId);
              && (r == Err(UnknownKey) <==> key == Err(NotFound))
              && (r == Err(KeyRevoked) <==> key == Err(Revoked))
              && (forall m :: r == Err(ResolverFailed(m)) <==> key == Err(ResolveError.Internal(m)))
              && (r == Err(AlgoMismatch) <==> key.Ok? && parts.algo != key.value.algo)
              && (r == Err(UnsupportedAlgo) <==> key.Ok? && parts.algo == key.value.algo && parts.algo !in algos)
              && (forall e :: r == Err(SignatureRefused(e)) <==>
                    && key.Ok? && parts.algo == key.value.algo && parts.algo in algos
                    && algos[parts.algo](key.value.publicKey, Canonical(parts), parts.signature) == Err(e))
      ensures r.Ok? || r.error.Expired? || r.error.FutureTs? || r.error.Replayed? || r.error.NonceStoreFull?
              <==> SignatureGood(resolve, algos, parts)
      ensures r.Err? && (r.error.Replayed? || r.error.NonceStoreFull?) ==>
                && InWindow(GuardOf(timeSource, nonces), Reading(timeSource, wall), parts.ts)
                && (r.error.Replayed? <==> NonceKey(parts.keyId, parts.nonce) in View(nonces.entries))
      ensures r.Err? && (r.error.Expired? || r.error.FutureTs?) ==>
                && (r.error.FutureTs? <==>
                    PhysicalMs(parts.ts) > Reading(timeSource, wall) + GuardOf(timeSource, nonces).slack)
                && (r.error.Expired? ==> Reading(timeSource, wall) - PhysicalMs(parts.ts) > Horizon(timeSource))
      ensures r.Err? && !r.error.Replayed? && !r.error.NonceStoreFull? ==> nonces.entries == old(nonces.entries)
    {
      hide Canonical, InWindow, Unexpired, View, PhysicalMs;
      var resolved := resolve(parts.keyId);
      if resolved.Err? {
        match resolved.error {
          case NotFound => return Err(UnknownKey);
          case Revoked => return Err(KeyRevoked);
          case Internal(e) => return Err(ResolverFailed(e));
        }
      }
      var key := resolved.value;
      if parts.algo != key.algo {
        return Err(AlgoMismatch);
      }
      if parts.algo !in algos {
        return Err(UnsupportedAlgo);
      }
      var canonical := BuildCanonicalString(parts);
      var verified := algos[parts.algo](key.publicKey, canonical, parts.signature);
      if verified.Err? {
        return Err(SignatureRefused(verified.error));
      }
      var timely := CheckTime(wall, parts.ts);
      if timely.Err? {
        match timely.error {
          case OutsideHorizon => return Err(Expired);
          case NonMonotonic => return Err(FutureTs);
        }
      }
      var verdict := nonces.Record(NonceKey(parts.keyId, parts.nonce), parts.ts);
      match verdict {
        case Replay => return Err(Replayed);
        case Capacity => return Err(NonceStoreFull);
        case Accepted => return Ok(key.subject);
      }
    }

    method CheckTime(wall: U64, ts: U64) returns (r: Result<(), TimeError>)
      ensures r.Ok? <==> InWindow(GuardOf(timeSource, nonces), Reading(timeSource, wall), ts)
      ensures r.Err? ==>
                && (r.error.NonMonotonic? <==>
                    PhysicalMs(ts) > Reading(timeSource, wall) + GuardOf(timeSource, nonces).slack)
                && (r.error.OutsideHorizon? ==> Reading(timeSource, wall) - PhysicalMs(ts) > Horizon(timeSource))
    {
      match timeSource {
        case Oracle(tso) =>
          r := tso.Validate(wall, ts);
          OracleIsWindow(GuardOf(timeSource, nonces), tso.last, wall, ts);
        case LocalClock(horizonMs) =>
          r := ValidateLocal(wall, horizonMs, ts);
          LocalClockIsWindow(GuardOf(timeSource, nonces), wall, ts);
      }
    }
  }

  // ----- Accepted at most once ---------------------------------------------------------------------------

  /** The run of attempts that a run of requests makes. */
  ghost predicate RunOf(requests: seq<SignedRequestParts>, run: seq<Attempt>) {
    && |requests| == |run|
    && forall i :: 0 <= i < |run| ==> run[i].key == NonceKey(requests[i].keyId, requests[i].nonce)
                                      && run[i].ts == requests[i].ts
  }

  /** On a clock that never goes back and with a safe configuration, no two accepted requests of a run have
      the same signed text, whatever their methods, paths and queries hold. */
  lemma SignedTextIsAcceptedOnce(g: Guard, requests: seq<SignedRequestParts>, run: seq<Attempt>, i: nat, j: nat)
    requires RunOf(requests, run) && ClockNeverGoesBack(run) && i < j < |run| && g.capacity >= 1
    requires g.nonceHorizon >= Spread(g) || g.capacity == 1
    requires AcceptedAt(g, run, i) && AcceptedAt(g, run, j)
    ensures Canonical(requests[i]) != Canonical(requests[j])
  {
    hide Canonical, AcceptedAt, PhysicalMs, Spread;
    CanonicalDetermines(requests[i], requests[j]);
    if Canonical(requests[i]) == Canonical(requests[j]) {
      assert run[i].key == run[j].key && run[i].ts == run[j].ts;
      AcceptedAgainIsLater(g, run, i, j);
    }
  }

  // ----- The interceptor -----------------------------------------------------------------------------------

  const AUTHORIZATION := "authorization"
  const TRUSTED_SUBJECT_HEADER := "x-headlines-trusted-subject"

  /** `body` is `None` when reading it fails; `subject` is the request extension. */
  datatype Request = Request(
    httpMethod: string, path: string, query: Option<string>, headers: map<string, seq<Byte>>,
    body: Option<seq<Byte>>, subject: Option<Subject>)

  datatype Response = Forwarded(request: Request) | Unauthenticated(reason: Refusal)

  datatype Refusal = MalformedAuthorizationHeader | BodyReadFailed | CompressedFrameNotSupported | Refused(error: AuthError)

  type Digest = seq<Byte> -> Hash

  /** `HeaderValue::to_str`: visible ASCII, space and tab only. */
  function ToStr(bytes: seq<Byte>): Option<string> {
    if bytes == [] then Some("")
    else if !(32 <= bytes[0] < 127 || bytes[0] == 9) then None
    else
      match ToStr(bytes[1..])
      case None => None
      case Some(rest) => Some([bytes[0] as char] + rest)
  }

  function HeaderText(req: Request): Option<string> {
    if AUTHORIZATION in req.headers then ToStr(req.headers[AUTHORIZATION]) else None
  }

  /** The digest of the message inside a gRPC frame; `None` for a compressed frame. A body too short for
      a frame is hashed as it is. */
  function BodyHash(digest: Digest, body: seq<Byte>): Option<Hash> {
    if |body| < 5 then Some(digest(body))
    else if body[0] == 0 then Some(digest(body[5..]))
    else None
  }

  /** A header value is text if and only if every byte is visible ASCII, a space or a tab; then it is those
      characters. */
  lemma {:induction false} ToStrIff(bytes: seq<Byte>)
    ensures ToStr(bytes).Some? <==> forall i :: 0 <= i < |bytes| ==> bytes[i] == 9 || ' ' as int <= bytes[i] <= '~' as int
    ensures ToStr(bytes).Some? ==>
              |ToStr(bytes).value| == |bytes| && forall i :: 0 <= i < |bytes| ==> ToStr(bytes).value[i] as int == bytes[i]
  {
    if bytes != [] {
      ToStrIff(bytes[1..]);
      assert forall i :: 1 <= i < |bytes| ==> bytes[i] == bytes[1..][i - 1];
    }
  }

  /** The hash is that of the message behind an uncompressed frame's five bytes, whatever length they name. */
  lemma FramedBodyHash(digest: Digest, flag: Byte, length: seq<Byte>, message: seq<Byte>)
    requires |length| == 4
    ensures BodyHash(digest, [flag] + length + message) == if flag == 0 then Some(digest(message)) else None
    ensures |message| < 5 ==> BodyHash(digest, message) == Some(digest(message))
  {
    assert ([flag] + length + message)[5..] == message;
  }

  function Rebuilt(req: Request, h: ParsedAuthHeader, hash: Hash): SignedRequestParts {
    SignedRequestParts(req.httpMethod, req.path, Canon(req.query.GetOr("")), hash,
                       h.keyId, h.algo, h.ts, h.nonce, h.signature)
  }

  class AuthInterceptorService {
    const strategy: SignedRequestStrategy
    const digest: Digest

    constructor (strategy: SignedRequestStrategy, digest: Digest)
      ensures this.strategy == strategy && this.digest == digest
    {
      this.strategy, this.digest := strategy, digest;
    }

    /** What forwards a request with an authorization header: its header says `h`, its body hashes, and the
        strategy admits the request rebuilt from both. */
    ghost predicate Admits(resolve: Resolver, wall: U64, req: Request, cache: map<NonceKey, U64>,
                           h: ParsedAuthHeader, subject: Subject)
      reads if strategy.timeSource.Oracle? then {strategy.timeSource.tso} else {}
    {
      && HeaderText(req).Some? && Says(HeaderText(req).value, h)
      && req.body.Some? && BodyHash(digest, req.body.value).Some?
      && var parts := Rebuilt(req, h, BodyHash(digest, req.body.value).value);
         && Admit(GuardOf(strategy.timeSource, strategy.nonces), cache,
                  strategy.AttemptOf(resolve, wall, parts)).0
         && resolve(h.keyId).Ok? && subject == resolve(h.keyId).value.subject
    }

    method Call(resolve: Resolver, wall: U64, request: Request) returns (r: Response)
      requires strategy.nonces.Valid()
      modifies strategy.nonces`entries
      ensures strategy.nonces.Valid()
      ensures r.Forwarded? ==>
                var stripped := request.(headers := request.headers - {TRUSTED_SUBJECT_HEADER});
                && r.request.subject.Some? && r.request == stripped.(subject := r.request.subject)
                && if HeaderText(request).None?
                   then r.request.subject.value == Anonymous && strategy.nonces.entries == old(strategy.nonces.entries)
                   else exists h :: Admits(resolve, wall, request, View(old(strategy.nonces.entries)), h,
                                           r.request.subject.value)
      ensures r.Unauthenticated? ==>
                HeaderText(request).Some?
                && (forall h, s :: !Admits(resolve, wall, request, View(old(strategy.nonces.entries)), h, s))
                && (r.reason == MalformedAuthorizationHeader <==> forall h :: !Says(HeaderText(request).value, h))
                && (r.reason == BodyReadFailed <==>
                    (exists h :: Says(HeaderText(request).value, h)) && request.body.None?)
                && (r.reason == CompressedFrameNotSupported <==>
                    && (exists h :: Says(HeaderText(request).value, h)) && request.body.Some?
                    && |request.body.value| >= 5 && request.body.value[0] != 0)
    {
      hide Admit, Says, Refuses, Canon, Canonical, SignatureGood;
      var req := request.(headers := request.headers - {TRUSTED_SUBJECT_HEADER});
      ghost var cache := View(strategy.nonces.entries);
      assert HeaderText(req) == HeaderText(request);
      var headerVal := HeaderText(req);
      if headerVal.None? {
        return Forwarded(req.(subject := Some(Anonymous)));
      }
      var query := CanonicalizeQuery(req.query.GetOr(""));
      var parsed := ParseAuthorizationHeader(headerVal.value);
      if parsed.Err? {
        RefusedSaysNothing(headerVal.value, parsed.error);
        return Unauthenticated(MalformedAuthorizationHeader);
      }
      var h := parsed.value;
      AnswerIsUnique(headerVal.value, h);
      if req.body.None? {
        return Unauthenticated(BodyReadFailed);
      }
      var hash := BodyHash(digest, req.body.value);
      if hash.None? {
        return Unauthenticated(CompressedFrameNotSupported);
      }
      var signedParts := SignedRequestParts(req.httpMethod, req.path, query, hash.value,
                                            h.keyId, h.algo, h.ts, h.nonce, h.signature);
      assert signedParts == Rebuilt(request, h, hash.value);
      var answer := strategy.AuthenticateInner(resolve, wall, signedParts);
      match answer {
        case Ok(subject) =>
          GoodSignatureResolves(resolve, strategy.algos, signedParts);
          assert Admits(resolve, wall, request, cache, h, subject);
          return Forwarded(req.(subject := Some(subject)));
        case Err(e) =>
          return Unauthenticated(Refused(e));
      }
    }
  }

  lemma RefusedSaysNothing(value: string, e: ParseError)
    requires Refuses(value, e)
    ensures forall h :: !Says(value, h)
  {
    hide Says, Refuses;
    forall h ensures !Says(value, h) {
      if Says(value, h) {
        AnswerIsUnique(value, h);
      }
    }
  }

  lemma GoodSignatureResolves(resolve: Resolver, algos: map<string, Verifier>, parts: SignedRequestParts)
    requires SignatureGood(resolve, algos, parts)
    ensures resolve(parts.keyId).Ok?
  {
  }

  // ----- The client -----------------------------------------------------------------------------------------

  /** The gRPC frame of an uncompressed message: flag 0 and the big-endian length. */
  function Frame(message: seq<Byte>): seq<Byte> {
    var n := |message|;
    [0, n / 0x100_0000 % 0x100, n / 0x1_0000 % 0x100, n / 0x100 % 0x100, n % 0x100] + message
  }

  /** The four bytes after the flag are the length of the message, the highest first. */
  lemma FrameLength(message: seq<Byte>)
    requires |message| < 0x1_0000_0000
    ensures var f := Frame(message);
            && f[0] == 0 && f[5..] == message
            && (f[1] as int) * 0x100_0000 + (f[2] as int) * 0x1_0000 + (f[3] as int) * 0x100 + f[4] as int == |message|
  {
    var n := |message|;
    assert n / 0x100_0000 < 0x100;
    assert n / 0x1_0000 == n / 0x100_0000 * 256 + n / 0x1_0000 % 256;
    assert n / 0x100 == n / 0x1_0000 * 256 + n / 0x100 % 256;
  }

  type Signer = string -> seq<Byte>

  /** What a client signs: a POST of the message to the RPC path, with the canonical text of its query. The
      demo client has no query. */
  function ClientParts(digest: Digest, message: seq<Byte>, keyId: Uuid, path: string, query: string, ms: U64,
                       nonce: seq<Byte>): SignedRequestParts
  {
    SignedRequestParts("POST", path, query, digest(message), keyId, "ed25519", FromParts(ms, 0), nonce, [])
  }

  function ClientHeader(sign: Signer, parts: SignedRequestParts): ParsedAuthHeader {
    ParsedAuthHeader(parts.keyId, parts.algo, parts.ts, parts.nonce, sign(Canonical(parts)))
  }

  method SignedRequest(digest: Digest, sign: Signer, message: seq<Byte>, keyId: Uuid, path: string, ms: U64,
                       nonce: seq<Byte>)
    returns (header: string)
    ensures header == Print(ClientHeader(sign, ClientParts(digest, message, keyId, path, "", ms, nonce)))
  {
    hide Hex, UuidText, Decimal, Base64;
    var hex := HexEncode(digest(message));
    var ts := FromParts(ms, 0);
    var canonical := "HEADLINES-SIGN-V1\nPOST\n" + path + "\n\n" + hex + "\n" + UuidText(keyId) + "\n"
                     + Decimal(ts) + "\n" + Base64(nonce);
    PostLayout(ClientParts(digest, message, keyId, path, "", ms, nonce));
    var sig := sign(canonical);
    header := "Signature key_id=" + UuidText(keyId) + ", algo=ed25519, ts=" + Decimal(ts)
              + ", nonce=" + Base64(nonce) + ", sig=" + Base64(sig);
    PrintLayout(ClientHeader(sign, ClientParts(digest, message, keyId, path, "", ms, nonce)));
  }

  lemma PostLayout(p: SignedRequestParts)
    requires p.httpMethod == "POST" && p.query == ""
    ensures Canonical(p) == "HEADLINES-SIGN-V1\nPOST\n" + p.path + "\n\n" + Hex(p.requestHash) + "\n"
                            + UuidText(p.keyId) + "\n" + Decimal(p.ts) + "\n" + Base64(p.nonce)
  {
    hide Hex, UuidText, Decimal, Base64;
    assert "HEADLINES-SIGN-V1\n" + "POST" + "\n" == "HEADLINES-SIGN-V1\nPOST\n";
    assert "HEADLINES-SIGN-V1\n" + "POST" + "\n" + p.path + "\n" + "" + "\n"
        == "HEADLINES-SIGN-V1\nPOST\n" + p.path + "\n\n";
  }

  lemma PrintLayout(h: ParsedAuthHeader)
    requires h.algo == "ed25519"
    ensures Print(h) == "Signature key_id=" + UuidText(h.keyId) + ", algo=ed25519, ts=" + Decimal(h.ts)
                        + ", nonce=" + Base64(h.nonce) + ", sig=" + Base64(h.signature)
  {
    hide UuidText, Decimal, Base64;
    var u, t, n, s := UuidText(h.keyId), Decimal(h.ts), Base64(h.nonce), Base64(h.signature);
    var a := SCHEME + Pair("", "key_id", u);
    assert a == "Signature key_id=" + u;
    assert "," + Pair(" ", "algo", "ed25519") == ", algo=ed25519";
    assert "," + Pair(" ", "ts", t) == ", ts=" + t;
    var b := a + "," + Pair(" ", "algo", h.algo) + "," + Pair(" ", "ts", t);
    assert b == "Signature key_id=" + u + ", algo=ed25519, ts=" + t;
    assert "," + Pair(" ", "nonce", n) == ", nonce=" + n;
    assert "," + Pair(" ", "sig", s) == ", sig=" + s;
  }

  predicate Visible(s: string) {
    forall i :: 0 <= i < |s| ==> ' ' <= s[i] <= '~'
  }

  function ToBytes(s: string): seq<Byte>
    requires Visible(s)
  {
    if s == "" then [] else [s[0] as int] + ToBytes(s[1..])
  }

  lemma {:induction false} ToStrOfToBytes(s: string)
    requires Visible(s)
    ensures ToStr(ToBytes(s)) == Some(s)
  {
    if s != "" {
      ToStrOfToBytes(s[1..]);
      assert ToBytes(s)[1..] == ToBytes(s[1..]);
      assert [s[0]] + s[1..] == s;
    }
  }

  lemma VisibleFive(s: string, a: string, b: string, c: string, d: string, e: string)
    requires Visible(s) && Visible(a) && Visible(b) && Visible(c) && Visible(d) && Visible(e)
    ensures Visible(s + a + "," + b + "," + c + "," + d + "," + e)
  {
  }

  lemma PairIsVisible(lead: string, k: string, v: string)
    requires Visible(lead) && Visible(k) && Token(v)
    ensures Visible(Pair(lead, k, v))
  {
    assert forall i :: 0 <= i < |v| ==> v[i] in v;
  }

  lemma PrintIsVisible(h: ParsedAuthHeader)
    requires Token(h.algo)
    ensures Visible(Print(h))
  {
    UuidTextParses(h.keyId);
    DecimalParses(h.ts);
    Base64IsToken(h.nonce);
    Base64IsToken(h.signature);
    hide UuidText, Decimal, Base64, Token, Pair, Visible;
    VisibleParts();
    PairIsVisible("", "key_id", UuidText(h.keyId));
    PairIsVisible(" ", "algo", h.algo);
    PairIsVisible(" ", "ts", Decimal(h.ts));
    PairIsVisible(" ", "nonce", Base64(h.nonce));
    PairIsVisible(" ", "sig", Base64(h.signature));
    VisibleFive(SCHEME, Pair("", "key_id", UuidText(h.keyId)), Pair(" ", "algo", h.algo),
                Pair(" ", "ts", Decimal(h.ts)), Pair(" ", "nonce", Base64(h.nonce)), Pair(" ", "sig", Base64(h.signature)));
  }

  lemma VisibleParts()
    ensures Visible(SCHEME) && Visible("") && Visible(" ") && Visible("key_id") && Visible("algo") && Visible("ts")
            && Visible("nonce") && Visible("sig")
  {
  }

  /** The request of the client as it arrives, whatever other headers it carries. */
  predicate Arrives(req: Request, header: string, path: string, message: seq<Byte>) {
    && Visible(header) && AUTHORIZATION in req.headers && req.headers[AUTHORIZATION] == ToBytes(header)
    && req.httpMethod == "POST" && req.path == path && req.body == Some(Frame(message))
  }

  /** For every message, key, path, query, clock and nonce: when the client signs the canonical text of the query
      its request arrives with, the server reads from its header exactly its fields, hashes the message inside the
      frame, and rebuilds the very text that was signed. */
  lemma ServerRebuildsSignedText(digest: Digest, sign: Signer, message: seq<Byte>, keyId: Uuid, path: string,
                                 ms: U64, nonce: seq<Byte>, req: Request)
    requires var h := ClientHeader(sign, ClientParts(digest, message, keyId, path, Canon(req.query.GetOr("")), ms, nonce));
             Arrives(req, Print(h), path, message)
    ensures var parts := ClientParts(digest, message, keyId, path, Canon(req.query.GetOr("")), ms, nonce);
            var h := ClientHeader(sign, parts);
            && HeaderText(req) == Some(Print(h)) && Says(Print(h), h)
            && (forall other :: Says(Print(h), other) ==> other == h)
            && BodyHash(digest, Frame(message)) == Some(digest(message))
            && var rebuilt := Rebuilt(req, h, digest(message));
               Canonical(rebuilt) == Canonical(parts) && rebuilt.signature == sign(Canonical(parts))
  {
    hide Canonical, Says, Print, Canon;
    var parts := ClientParts(digest, message, keyId, path, Canon(req.query.GetOr("")), ms, nonce);
    var h := ClientHeader(sign, parts);
    assert Token(h.algo);
    TokenIsPlain(h.algo);
    PrintedHeaderParsesIff(h);
    PrintIsVisible(h);
    AnswerIsUnique(Print(h), h);
    ToStrOfToBytes(Print(h));
    assert Frame(message)[5..] == message;
    CanonicalDetermines(Rebuilt(req, h, digest(message)), parts);
  }

  /** So a client whose key is registered and whose signatures verify passes every signature check, with any query;
      without a query it need not know the canonical form. */
  lemma ClientSignatureIsGood(resolve: Resolver, algos: map<string, Verifier>, digest: Digest, sign: Signer,
                              message: seq<Byte>, keyId: Uuid, path: string, signed: string, ms: U64,
                              nonce: seq<Byte>, req: Request)
    requires signed == Canon(req.query.GetOr("")) || signed == req.query.GetOr("") == ""
    requires var h := ClientHeader(sign, ClientParts(digest, message, keyId, path, signed, ms, nonce));
             Arrives(req, Print(h), path, message)
    requires resolve(keyId).Ok? && resolve(keyId).value.algo == "ed25519" && "ed25519" in algos
    requires forall text :: algos["ed25519"](resolve(keyId).value.publicKey, text, sign(text)).Ok?
    ensures var h := ClientHeader(sign, ClientParts(digest, message, keyId, path, signed, ms, nonce));
            SignatureGood(resolve, algos, Rebuilt(req, h, digest(message)))
  {
    hide Canonical, Says, Print, Canon;
    EmptyCanon();
    ServerRebuildsSignedText(digest, sign, message, keyId, path, ms, nonce, req);
  }

  /** The request line and the query as HTTP has them: on one line. */
  predicate OneLineRequest(req: Request) {
    '\n' !in req.httpMethod && '\n' !in req.path && '\n' !in req.query.GetOr("")
  }

  /** What one signed text pins down of a request: two requests have the same signed text if and only if they agree
      on method, path, body hash, key, timestamp and nonce, and give every key of the query the same values in the
      same order. */
  lemma SignedTextPinsQuery(p: Request, q: Request, h: ParsedAuthHeader, g: ParsedAuthHeader, a: Hash, b: Hash)
    requires OneLineRequest(p) && OneLineRequest(q)
    ensures Canonical(Rebuilt(p, h, a)) == Canonical(Rebuilt(q, g, b)) <==>
            && p.httpMethod == q.httpMethod && p.path == q.path
            && SameValues(Pairs(p.query.GetOr("")), Pairs(q.query.GetOr("")))
            && a == b && h.keyId == g.keyId && h.ts == g.ts && h.nonce == g.nonce
  {
    hide Canonical, Canon, SameValues;
    CanonAddsSeparatorsOnly(p.query.GetOr(""), '\n');
    CanonAddsSeparatorsOnly(q.query.GetOr(""), '\n');
    CanonicalIsInjective(Rebuilt(p, h, a), Rebuilt(q, g, b));
    CanonEqualIff(p.query.GetOr(""), q.query.GetOr(""));
  }
}
