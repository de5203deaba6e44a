/** Verification of a signed access token: three base64 parts joined by dots. */
module AccessTokens {
  import opened Wrappers
  import opened Bytes
  import opened SdkErrors
  import opened Text
  import opened Base64
  import opened Jwks
  import opened Signatures

  datatype Header = Header(alg: string, kid: string)

  datatype Claims = Claims(iss: string, aud: string, exp: int, sessionId: string, deviceId: string)

  /** The JSON readers, as given functions. */
  datatype Json = Json(header: seq<byte> -> Option<Header>, claims: seq<byte> -> Option<Claims>)

  datatype Parts = Parts(header: string, claims: string, signature: string) {
    function SigningInput(): string {
      header + "." + claims
    }

    function Token(): string {
      SigningInput() + "." + signature
    }

    predicate Valid() {
      && header != "" && claims != "" && signature != ""
      && Lacks(header, '.') && Lacks(claims, '.') && Lacks(signature, '.')
    }
  }

  function TokenParts(token: string): Result<Parts, SdkError> {
    var parts := Split(token, '.');
    if |parts| != 3 || parts[0] == "" || parts[1] == "" || parts[2] == "" then Err(InvalidAccessToken)
    else Ok(Parts(parts[0], parts[1], parts[2]))
  }

  function DecodeHeader(json: Json, token: string): Result<Header, SdkError> {
    var parts :- TokenParts(token);
    var bytes := Decode(UrlSafeNoPad, parts.header);
    if bytes.None? then Err(InvalidAccessToken)
    else
      var header := json.header(bytes.value);
      if header.None? || header.value.alg != "EdDSA" || IsBlank(header.value.kid) then Err(InvalidAccessToken)
      else Ok(header.value)
  }

  function VerifyWithKey(
    crypto: Crypto, json: Json, token: string, publicKey: string, issuer: string, audience: string, now: int)
    : Result<Claims, SdkError>
  {
    var parts :- TokenParts(token);
    if VerifyEd25519(crypto, publicKey, parts.SigningInput(), parts.signature).Err? then Err(InvalidAccessToken)
    else
      var bytes := Decode(UrlSafeNoPad, parts.claims);
      if bytes.None? then Err(InvalidAccessToken)
      else
        var claims := json.claims(bytes.value);
        if claims.None? || claims.value.iss != issuer || claims.value.aud != audience then Err(InvalidAccessToken)
        else if claims.value.exp <= now then Err(ExpiredAccessToken)
        else Ok(claims.value)
  }

  function Verify(
    crypto: Crypto, json: Json, token: string, keys: seq<JwksKey>, issuer: string, audience: string, now: int)
    : Result<Claims, SdkError>
  {
    var header :- DecodeHeader(json, token);
    var publicKey :- RequireEddsaPublicKey(keys, header.kid);
    VerifyWithKey(crypto, json, token, publicKey, issuer, audience, now)
  }

  // ---- splitting -----------------------------------------------------------------------------------

  lemma JoinThree(a: string, b: string, c: string, separator: char)
    ensures Join([a, b, c], separator) == a + [separator] + b + [separator] + c
  {
    assert [a, b, c][1..] == [b, c] && [b, c][1..] == [c];
    assert Join([b, c], separator) == b + [separator] + c;
    assert a + [separator] + (b + [separator] + c) == a + [separator] + b + [separator] + c;
  }

  /** The parts read are those written, and nothing but a written token has parts. */
  lemma PartsAreOfTheToken(token: string, parts: Parts)
    ensures TokenParts(token) == Ok(parts) <==> parts.Valid() && parts.Token() == token
  {
    var three := [parts.header, parts.claims, parts.signature];
    JoinThree(parts.header, parts.claims, parts.signature, '.');
    assert parts.Token() == Join(three, '.');
    if parts.Valid() && parts.Token() == token {
      SplitUndoesJoin(three, '.');
      assert Split(token, '.') == three;
    }
    if TokenParts(token) == Ok(parts) {
      JoinUndoesSplit(token, '.');
      assert Split(token, '.') == three;
      assert Lacks(three[0], '.') && Lacks(three[1], '.') && Lacks(three[2], '.');
    }
  }

  /** An accepted token is one text: its claims are inside what was signed, under the key that its
      header names, for the expected parties and not yet over. */
  lemma AcceptedTokenIsSigned(
    crypto: Crypto, json: Json, token: string, keys: seq<JwksKey>, issuer: string, audience: string, now: int)
    returns (parts: Parts, kid: string)
    requires Verify(crypto, json, token, keys, issuer, audience, now).Ok?
    ensures var claims := Verify(crypto, json, token, keys, issuer, audience, now).value;
      && parts.Valid() && token == parts.Token()
      && Decode(UrlSafeNoPad, parts.header).Some?
      && json.header(Decode(UrlSafeNoPad, parts.header).value) == Some(Header("EdDSA", kid)) && Trim(kid) != ""
      && kid in View(keys) && View(keys)[kid].alg == "EdDSA"
      && Signed(crypto, View(keys)[kid].publicKeyPem, parts.SigningInput(), parts.signature)
      && Decode(UrlSafeNoPad, parts.claims).Some?
      && json.claims(Decode(UrlSafeNoPad, parts.claims).value) == Some(claims)
      && claims.iss == issuer && claims.aud == audience && now < claims.exp
  {
    parts := TokenParts(token).value;
    kid := DecodeHeader(json, token).value.kid;
    PartsAreOfTheToken(token, parts);
    TrimsToNothing(kid);
    FindIsLookup(keys, kid);
    VerifiedIffSigned(crypto, Find(keys, kid).value.publicKeyPem, parts.SigningInput(), parts.signature);
  }

  /** Conversely, a token of those parts is accepted. */
  lemma SignedTokenIsAccepted(
    crypto: Crypto, json: Json, parts: Parts, header: Header, claims: Claims, keys: seq<JwksKey>, now: int)
    requires parts.Valid() && header.alg == "EdDSA" && !IsBlank(header.kid)
    requires Decode(UrlSafeNoPad, parts.header).Some?
    requires json.header(Decode(UrlSafeNoPad, parts.header).value) == Some(header)
    requires Decode(UrlSafeNoPad, parts.claims).Some?
    requires json.claims(Decode(UrlSafeNoPad, parts.claims).value) == Some(claims)
    requires header.kid in View(keys) && View(keys)[header.kid].alg == "EdDSA"
    requires Signed(crypto, View(keys)[header.kid].publicKeyPem, parts.SigningInput(), parts.signature)
    requires now < claims.exp
    ensures Verify(crypto, json, parts.Token(), keys, claims.iss, claims.aud, now) == Ok(claims)
  {
    PartsAreOfTheToken(parts.Token(), parts);
    FindIsLookup(keys, header.kid);
    VerifiedIffSigned(crypto, View(keys)[header.kid].publicKeyPem, parts.SigningInput(), parts.signature);
  }

  /** A token that would be accepted at some other time is refused as expired from its expiry on; a token whose
      key is missing or of another algorithm, with the error of the lookup; every other one as invalid. */
  lemma RefusedTokens(
    crypto: Crypto, json: Json, token: string, keys: seq<JwksKey>, issuer: string, audience: string, now: int,
    other: int)
    ensures Verify(crypto, json, token, keys, issuer, audience, other).Ok? ==>
      Verify(crypto, json, token, keys, issuer, audience, now)
      == (var claims := Verify(crypto, json, token, keys, issuer, audience, other).value;
          if now < claims.exp then Ok(claims) else Err(ExpiredAccessToken))
    ensures DecodeHeader(json, token).Err? ==>
      Verify(crypto, json, token, keys, issuer, audience, now) == Err(InvalidAccessToken)
    ensures DecodeHeader(json, token).Ok? && RequireEddsaPublicKey(keys, DecodeHeader(json, token).value.kid).Err? ==>
      Verify(crypto, json, token, keys, issuer, audience, now)
      == Err(RequireEddsaPublicKey(keys, DecodeHeader(json, token).value.kid).error)
    ensures DecodeHeader(json, token).Ok? && RequireEddsaPublicKey(keys, DecodeHeader(json, token).value.kid).Ok? ==>
      Verify(crypto, json, token, keys, issuer, audience, now).Ok?
      || Verify(crypto, json, token, keys, issuer, audience, now).error in {InvalidAccessToken, ExpiredAccessToken}
  {
  }

  // ---- with a fetch of missing keys ----------------------------------------------------------------

  /** Unless a fetch is needed and fails, the outcome is that of plain verification against the keys
      held afterwards; the fetch happens at most once, and only for a readable header with an unknown key. */
  method VerifyRefreshing(
    crypto: Crypto, json: Json, token: string, cache: JwksCache, issuer: string, audience: string, now: int,
    source: JwksSource)
    returns (r: Result<Claims, SdkError>)
    modifies cache, source
    ensures var header := DecodeHeader(json, token);
      var asked := header.Ok? && header.value.kid !in View(old(cache.keys));
      var fetched := ReadReply(source.replies(old(source.calls)));
      && source.calls == old(source.calls) + (if asked then 1 else 0)
      && cache.keys == (if asked && fetched.Ok? then UpsertedAll(old(cache.keys), fetched.value) else old(cache.keys))
      && r == if asked && fetched.Err? then Err(fetched.error)
              else Verify(crypto, json, token, cache.keys, issuer, audience, now)
  {
    var header :- DecodeHeader(json, token);
    FindIsLookup(cache.keys, header.kid);
    var publicKey :- cache.RequireWithRefresh(header.kid, source);
    return VerifyWithKey(crypto, json, token, publicKey, issuer, audience, now);
  }
}
