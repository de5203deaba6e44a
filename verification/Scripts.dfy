/** Verification of a script package, against a list of keys and with a fetch of missing ones. */
module Scripts {
  import opened Wrappers
  import opened Bytes
  import opened SdkErrors
  import opened Text
  import opened Base64
  import opened Pem
  import opened Messages
  import opened Jwks
  import opened Signatures

  datatype Package = Package(
    versionCode: int, sha256: string, contentBase64: string, signature: string, signatureKid: string,
    signatureAlg: string, expiresAt: Option<int>)

  function Validate(p: Package): Result<(), SdkError> {
    if p.versionCode <= 0 then Err(InvalidUpdateInfo("version_code"))
    else if p.signatureAlg != "Ed25519" then Err(UnsupportedSignatureAlg(p.signatureAlg))
    else if IsBlank(p.signature) then Err(InvalidUpdateInfo("signature"))
    else if IsBlank(p.signatureKid) then Err(InvalidUpdateInfo("signature_kid"))
    else if !LooksLikeSha256(p.sha256) then Err(InvalidUpdateInfo("sha256"))
    else Ok(())
  }

  /** Seconds since 1970 as the clock gives them, cast to a signed word; none before 1970. */
  type Clock = Option<nat>

  function AsI64(n: nat): int {
    var low := n % 0x1_0000_0000_0000_0000;
    if low < 0x8000_0000_0000_0000 then low else low - 0x1_0000_0000_0000_0000
  }

  function CheckExpiry(p: Package, clock: Clock): Result<(), SdkError> {
    if p.expiresAt.None? then Ok(())
    else if clock.None? || p.expiresAt.value <= AsI64(clock.value) then Err(ExpiredScript)
    else Ok(())
  }

  function VerifySignatureWithKey(crypto: Crypto, p: Package, publicKey: string): Result<(), SdkError> {
    VerifyEd25519(crypto, publicKey, ScriptPayload(Lower(p.sha256), p.versionCode), p.signature)
  }

  function VerifySignature(crypto: Crypto, p: Package, keys: seq<JwksKey>): Result<(), SdkError> {
    var _ :- Validate(p);
    var publicKey :- RequireEddsaPublicKey(keys, p.signatureKid);
    VerifySignatureWithKey(crypto, p, publicKey)
  }

  function DecodeContent(crypto: Crypto, p: Package): Result<seq<byte>, SdkError> {
    var content := Decode(Standard, Trim(p.contentBase64));
    if content.None? then Err(Base64Invalid)
    else if crypto.Digest(content.value) != Lower(p.sha256) then Err(HashMismatch)
    else Ok(content.value)
  }

  function VerifyAndDecode(crypto: Crypto, p: Package, clock: Clock, keys: seq<JwksKey>): Result<seq<byte>, SdkError> {
    var _ :- Validate(p);
    var _ :- CheckExpiry(p, clock);
    var _ :- VerifySignature(crypto, p, keys);
    DecodeContent(crypto, p)
  }

  /** A package is valid exactly when its version code is positive, its algorithm is Ed25519, it has a
      signature and a key id, and its hash looks like one. */
  lemma ValidIff(p: Package)
    ensures Validate(p).Ok? <==>
      && p.versionCode > 0 && p.signatureAlg == "Ed25519"
      && Trim(p.signature) != "" && Trim(p.signatureKid) != "" && LooksLikeSha256(p.sha256)
  {
    TrimsToNothing(p.signature);
    TrimsToNothing(p.signatureKid);
  }

  /** Each error names a field that is at fault. */
  lemma FaultIsNamed(p: Package)
    requires Validate(p).Err?
    ensures match Validate(p).error
      case UnsupportedSignatureAlg(alg) => alg == p.signatureAlg != "Ed25519"
      case InvalidUpdateInfo(field) =>
        || (field == "version_code" && p.versionCode <= 0)
        || (field == "signature" && IsBlank(p.signature)) || (field == "signature_kid" && IsBlank(p.signatureKid))
        || (field == "sha256" && !LooksLikeSha256(p.sha256))
      case _ => false
  {
  }

  /** The cast keeps the number up to whole turns of 64 bits. */
  lemma AsI64Wraps(n: nat)
    ensures -9223372036854775808 <= AsI64(n) <= 9223372036854775807
    ensures (n - AsI64(n)) % 18446744073709551616 == 0
  {
  }

  /** A package without expiry is always fresh; any other one as long as there is a clock that is before
      its expiry. */
  lemma FreshIff(p: Package, clock: Clock)
    ensures CheckExpiry(p, clock) == match (p.expiresAt, clock)
      case (None, _) => Ok(())
      case (Some(expiry), Some(now)) => if AsI64(now) < expiry then Ok(()) else Err(ExpiredScript)
      case (Some(_), None) => Err(ExpiredScript)
  {
  }

  // ---- what acceptance means --------------------------------------------------------------------

  /** An accepted script is fresh, and what was signed, under a key of the list, is the hash of the
      very content that is returned, with the version of the package. */
  lemma AcceptedScriptIsSigned(crypto: Crypto, p: Package, clock: Clock, keys: seq<JwksKey>)
    requires VerifyAndDecode(crypto, p, clock, keys).Ok?
    ensures var content := VerifyAndDecode(crypto, p, clock, keys).value;
      && p.versionCode > 0 && p.signatureAlg == "Ed25519"
      && (p.expiresAt.Some? ==> clock.Some? && AsI64(clock.value) < p.expiresAt.value)
      && Decode(Standard, Trim(p.contentBase64)) == Some(content)
      && p.signatureKid in View(keys) && View(keys)[p.signatureKid].alg == "EdDSA"
      && Signed(crypto, View(keys)[p.signatureKid].publicKeyPem,
                ScriptPayload(crypto.Digest(content), p.versionCode), p.signature)
  {
    FindIsLookup(keys, p.signatureKid);
    VerifiedIffSigned(
      crypto, Find(keys, p.signatureKid).value.publicKeyPem, ScriptPayload(Lower(p.sha256), p.versionCode),
      p.signature);
  }

  /** A package that is not valid or not fresh is refused for that; a fresh one with a bad signature for the
      signature; a signed one for content that is no base64 or has another hash, and for nothing else. */
  lemma OutcomeByChecks(crypto: Crypto, p: Package, clock: Clock, keys: seq<JwksKey>)
    ensures var outcome, content := VerifyAndDecode(crypto, p, clock, keys), Decode(Standard, Trim(p.contentBase64));
      if Validate(p).Err? then outcome == Err(Validate(p).error)
      else if CheckExpiry(p, clock).Err? then outcome == Err(ExpiredScript)
      else if p.signatureKid !in View(keys) then outcome == Err(InvalidSignature)
      else if View(keys)[p.signatureKid].alg != "EdDSA"
      then outcome == Err(UnsupportedSignatureAlg(View(keys)[p.signatureKid].alg))
      else
        var publicKey := View(keys)[p.signatureKid].publicKeyPem;
        if !Signed(crypto, publicKey, ScriptPayload(Lower(p.sha256), p.versionCode), p.signature)
        then outcome == Err(if ParsePublicKey(publicKey).Err? then InvalidPublicKey else InvalidSignature)
        else outcome == match content
          case None => Err(Base64Invalid)
          case Some(data) => if crypto.Digest(data) == Lower(p.sha256) then Ok(data) else Err(HashMismatch)
  {
    RequireIsLookup(keys, p.signatureKid);
    if p.signatureKid in View(keys) {
      VerifiedIffSigned(
        crypto, View(keys)[p.signatureKid].publicKeyPem, ScriptPayload(Lower(p.sha256), p.versionCode), p.signature);
    }
  }

  /** What a publisher makes of a content and a signature of its hash and version. */
  function Published(
    crypto: Crypto, content: seq<byte>, versionCode: int, kid: string, signature: seq<byte>,
    expiresAt: Option<int>): Package
  {
    Package(
      versionCode, crypto.Digest(content), Encode(Standard, content), Encode(UrlSafeNoPad, signature), kid, "Ed25519",
      expiresAt)
  }

  /** Conversely, every published package is accepted while it is fresh, and gives back its content,
      once the list holds the published key. */
  lemma PublishedScriptIsAccepted(
    crypto: Crypto, content: seq<byte>, versionCode: int, kid: string, signature: seq<byte>, expiresAt: Option<int>,
    key: seq<byte>, clock: Clock, keys: seq<JwksKey>)
    requires versionCode > 0 && !IsBlank(kid) && signature != [] && IsDigest(crypto.Digest(content))
    requires kid in View(keys) && View(keys)[kid] == JwksKey(kid, "EdDSA", WrappedPem(key))
    requires crypto.verifies(key, ScriptPayload(crypto.Digest(content), versionCode), signature)
    requires expiresAt.Some? ==> clock.Some? && AsI64(clock.value) < expiresAt.value
    ensures var p := Published(crypto, content, versionCode, kid, signature, expiresAt);
      VerifyAndDecode(crypto, p, clock, keys) == Ok(content)
  {
    var hash, text := crypto.Digest(content), Encode(Standard, content);
    DigestsAreAccepted(hash);
    EncodingIsNotBlank(UrlSafeNoPad, signature);
    FindIsLookup(keys, kid);
    PublishedSignatureIsVerified(crypto, key, ScriptPayload(hash, versionCode), UrlSafeNoPad, signature);
    EncodingsAreSpaceFree(Standard, content);
    TrimKeeps(text);
    DecodesWhatItEncodes(Standard, content);
    var p := Published(crypto, content, versionCode, kid, signature, expiresAt);
    AcceptedByParts(crypto, p, clock, keys, WrappedPem(key), content);
  }

  lemma AcceptedByParts(
    crypto: Crypto, p: Package, clock: Clock, keys: seq<JwksKey>, publicKey: string, content: seq<byte>)
    requires Validate(p).Ok? && CheckExpiry(p, clock).Ok?
    requires RequireEddsaPublicKey(keys, p.signatureKid) == Ok(publicKey)
    requires VerifyEd25519(crypto, publicKey, ScriptPayload(Lower(p.sha256), p.versionCode), p.signature).Ok?
    requires Decode(Standard, Trim(p.contentBase64)) == Some(content) && crypto.Digest(content) == Lower(p.sha256)
    ensures VerifyAndDecode(crypto, p, clock, keys) == Ok(content)
  {
  }

  /** One signed text stands for one script: two accepted packages with equal signed texts carry the
      same version and contents of the same hash. */
  lemma SignedTextFixesScript(crypto: Crypto, a: Package, b: Package, clockA: Clock, clockB: Clock, keys: seq<JwksKey>)
    requires VerifyAndDecode(crypto, a, clockA, keys).Ok? && VerifyAndDecode(crypto, b, clockB, keys).Ok?
    requires ScriptPayload(Lower(a.sha256), a.versionCode) == ScriptPayload(Lower(b.sha256), b.versionCode)
    ensures a.versionCode == b.versionCode
    ensures crypto.Digest(VerifyAndDecode(crypto, a, clockA, keys).value)
         == crypto.Digest(VerifyAndDecode(crypto, b, clockB, keys).value)
  {
    ScriptPayloadsEqualIff(Lower(a.sha256), a.versionCode, Lower(b.sha256), b.versionCode);
  }

  /** White space around the hash passes validation, */
  lemma PaddingPassesValidation(p: Package, front: string, back: string)
    requires Validate(p).Ok? && IsDigest(p.sha256) && IsBlank(front) && IsBlank(back)
    ensures Validate(p.(sha256 := front + p.sha256 + back)).Ok?
  {
    PaddedDigest(front, p.sha256, back);
  }

  /** but a valid, fresh, signed package that names the digest of its content up to white space and case
      is accepted exactly when there is no white space. */
  lemma PaddedHashAcceptedIff(crypto: Crypto, p: Package, clock: Clock, keys: seq<JwksKey>, content: seq<byte>)
    requires Validate(p).Ok? && CheckExpiry(p, clock).Ok? && VerifySignature(crypto, p, keys).Ok?
    requires Decode(Standard, Trim(p.contentBase64)) == Some(content)
    requires |crypto.Digest(content)| == 64 && crypto.Digest(content) == Lower(Trim(p.sha256))
    ensures VerifyAndDecode(crypto, p, clock, keys) == if |p.sha256| == 64 then Ok(content) else Err(HashMismatch)
  {
    UntrimmedIff(p.sha256, crypto.Digest(content));
  }

  /** Whatever else the package holds, padding is refused. */
  lemma PaddedHashIsRefused(crypto: Crypto, p: Package, clock: Clock, keys: seq<JwksKey>)
    requires forall data: seq<byte> :: |crypto.Digest(data)| == 64
    requires |p.sha256| != 64
    ensures VerifyAndDecode(crypto, p, clock, keys).Err?
  {
    var content := Decode(Standard, Trim(p.contentBase64));
    if content.Some? {
      assert |crypto.Digest(content.value)| != |Lower(p.sha256)|;
    }
  }

  // ---- with a fetch of missing keys ----------------------------------------------------------------

  /** Whether the keys are fetched: only for a package that is valid and fresh and names an unknown key. */
  predicate Asks(p: Package, clock: Clock, keys: seq<JwksKey>) {
    Validate(p).Ok? && CheckExpiry(p, clock).Ok? && p.signatureKid !in View(keys)
  }

  method VerifySignatureRefreshing(crypto: Crypto, p: Package, cache: JwksCache, source: JwksSource)
    returns (r: Result<(), SdkError>)
    modifies cache, source
    ensures var asked := Validate(p).Ok? && p.signatureKid !in View(old(cache.keys));
      var fetched := ReadReply(source.replies(old(source.calls)));
      && source.calls == old(source.calls) + (if asked then 1 else 0)
      && cache.keys == (if asked && fetched.Ok? then UpsertedAll(old(cache.keys), fetched.value) else old(cache.keys))
      && r == if asked && fetched.Err? then Err(fetched.error) else VerifySignature(crypto, p, cache.keys)
  {
    FindIsLookup(cache.keys, p.signatureKid);
    var _ :- Validate(p);
    var publicKey :- cache.RequireWithRefresh(p.signatureKid, source);
    return VerifySignatureWithKey(crypto, p, publicKey);
  }

  /** Unless a fetch is needed and fails, the outcome is that of plain verification against the keys
      held afterwards. The fetch happens at most once; without it, or when it fails, no key changes. */
  method VerifyAndDecodeRefreshing(crypto: Crypto, p: Package, clock: Clock, cache: JwksCache, source: JwksSource)
    returns (r: Result<seq<byte>, SdkError>)
    modifies cache, source
    ensures var asked := Asks(p, clock, old(cache.keys));
      var fetched := ReadReply(source.replies(old(source.calls)));
      && source.calls == old(source.calls) + (if asked then 1 else 0)
      && cache.keys == (if asked && fetched.Ok? then UpsertedAll(old(cache.keys), fetched.value) else old(cache.keys))
      && r == if asked && fetched.Err? then Err(fetched.error) else VerifyAndDecode(crypto, p, clock, cache.keys)
  {
    var _ :- Validate(p);
    var _ :- CheckExpiry(p, clock);
    var _ :- VerifySignatureRefreshing(crypto, p, cache, source);
    return DecodeContent(crypto, p);
  }
}
