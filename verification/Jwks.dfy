/** The client's cache of signing keys: an association list that behaves as a map, and the lookup
    that fetches the published keys when a key is missing. */
module Jwks {
  import opened Wrappers
  import opened Bytes
  import opened SdkErrors
  import opened Text
  import opened Base64
  import opened Pem

  datatype JwksKey = JwksKey(kid: string, alg: string, publicKeyPem: string)

  /** One entry of a published key document. */
  datatype Jwk = Jwk(kid: string, kty: string, crv: string, alg: string, use: Option<string>, x: string)

  /** What the fetch gives: an error, or a text that is a key document or is none. */
  type Reply = Result<Option<seq<Jwk>>, SdkError>

  function Find(keys: seq<JwksKey>, kid: string): Option<JwksKey> {
    if keys == [] then None
    else if keys[0].kid == kid then Some(keys[0])
    else Find(keys[1..], kid)
  }

  /** The first entry of the same kid is overwritten; without one, the key goes to the end. */
  function Upserted(keys: seq<JwksKey>, key: JwksKey): seq<JwksKey> {
    if keys == [] then [key]
    else if keys[0].kid == key.kid then [key] + keys[1..]
    else [keys[0]] + Upserted(keys[1..], key)
  }

  function UpsertedAll(keys: seq<JwksKey>, added: seq<JwksKey>): seq<JwksKey>
    decreases |added|
  {
    if added == [] then keys else UpsertedAll(Upserted(keys, added[0]), added[1..])
  }

  function RequireEddsaPublicKey(keys: seq<JwksKey>, kid: string): Result<string, SdkError> {
    match Find(keys, kid)
    case None => Err(InvalidSignature)
    case Some(key) => if key.alg != "EdDSA" then Err(UnsupportedSignatureAlg(key.alg)) else Ok(key.publicKeyPem)
  }

  function KeyFromJwk(jwk: Jwk): Result<JwksKey, SdkError> {
    if IsBlank(jwk.kid) || jwk.kty != "OKP" || jwk.crv != "Ed25519" || jwk.alg != "EdDSA"
       || (jwk.use.Some? && jwk.use.value != "sig")
    then Err(InvalidJwks)
    else
      var raw := Decode(UrlSafeNoPad, Trim(jwk.x));
      if raw.None? || |raw.value| != 32 then Err(InvalidJwks)
      else Ok(JwksKey(jwk.kid, jwk.alg, WrappedPem(raw.value)))
  }

  /** One entry that cannot be read spoils the document. */
  function KeysFromJwks(jwks: seq<Jwk>): Result<seq<JwksKey>, SdkError> {
    if jwks == [] then Ok([])
    else
      var key :- KeyFromJwk(jwks[0]);
      var rest :- KeysFromJwks(jwks[1..]);
      Ok([key] + rest)
  }

  function ReadReply(reply: Reply): Result<seq<JwksKey>, SdkError> {
    match reply
    case Err(error) => Err(error)
    case Ok(None) => Err(InvalidJwks)
    case Ok(Some(jwks)) => KeysFromJwks(jwks)
  }

  /** The answer for `kid` and the keys held afterwards; `reply` is looked at only if `kid` is missing. */
  function Refreshed(keys: seq<JwksKey>, kid: string, reply: Reply): (Result<string, SdkError>, seq<JwksKey>) {
    if Find(keys, kid).Some? then (RequireEddsaPublicKey(keys, kid), keys)
    else
      match ReadReply(reply)
      case Err(error) => (Err(error), keys)
      case Ok(added) => var after := UpsertedAll(keys, added); (RequireEddsaPublicKey(after, kid), after)
  }

  // ---- the list as a map -----------------------------------------------------------------------

  /** The map a list stands for: of several entries with one kid, the first counts. */
  function View(keys: seq<JwksKey>): map<string, JwksKey> {
    if keys == [] then map[] else View(keys[1..])[keys[0].kid := keys[0]]
  }

  /** The map that a list of updates amounts to: of several with one kid, the last counts. */
  function Updates(added: seq<JwksKey>): map<string, JwksKey> {
    if added == [] then map[] else map[added[0].kid := added[0]] + Updates(added[1..])
  }

  lemma {:induction false} FindIsLookup(keys: seq<JwksKey>, kid: string)
    ensures Find(keys, kid) == if kid in View(keys) then Some(View(keys)[kid]) else None
  {
    if keys != [] {
      FindIsLookup(keys[1..], kid);
    }
  }

  lemma {:induction false} UpsertIsMapUpdate(keys: seq<JwksKey>, key: JwksKey)
    ensures View(Upserted(keys, key)) == View(keys)[key.kid := key]
  {
    if keys == [] {
      assert [key][1..] == [];
    } else if keys[0].kid == key.kid {
      assert ([key] + keys[1..])[1..] == keys[1..];
    } else {
      UpsertIsMapUpdate(keys[1..], key);
      assert ([keys[0]] + Upserted(keys[1..], key))[1..] == Upserted(keys[1..], key);
    }
  }

  /** A batch of keys is one map merge, whatever repetitions either list holds. */
  lemma {:induction false} UpsertAllIsMapMerge(keys: seq<JwksKey>, added: seq<JwksKey>)
    ensures View(UpsertedAll(keys, added)) == View(keys) + Updates(added)
    decreases |added|
  {
    if added != [] {
      UpsertIsMapUpdate(keys, added[0]);
      UpsertAllIsMapMerge(Upserted(keys, added[0]), added[1..]);
    }
  }

  /** Hence a lookup after a batch finds the last update of that kid, and else what was there before. */
  lemma FindAfterUpsertAll(keys: seq<JwksKey>, added: seq<JwksKey>, kid: string)
    ensures Find(UpsertedAll(keys, added), kid)
         == if kid in Updates(added) then Some(Updates(added)[kid]) else Find(keys, kid)
  {
    UpsertAllIsMapMerge(keys, added);
    FindIsLookup(UpsertedAll(keys, added), kid);
    FindIsLookup(keys, kid);
  }

  predicate DistinctKids(keys: seq<JwksKey>) {
    forall i, j | 0 <= i < j < |keys| :: keys[i].kid != keys[j].kid
  }

  /** Entries keep their places: only the one overwritten, or the one added at the end, differs. */
  lemma {:induction false} UpsertKeepsPlaces(keys: seq<JwksKey>, key: JwksKey)
    ensures var after := Upserted(keys, key);
      && |keys| <= |after| <= |keys| + 1
      && (forall i | 0 <= i < |keys| :: after[i].kid == keys[i].kid && (keys[i].kid != key.kid ==> after[i] == keys[i]))
      && (|after| > |keys| ==> after[|keys|] == key && forall i | 0 <= i < |keys| :: keys[i].kid != key.kid)
  {
    if keys != [] && keys[0].kid != key.kid {
      UpsertKeepsPlaces(keys[1..], key);
    }
  }

  /** A cache filled by batches never holds two entries of one kid. */
  lemma {:induction false} UpsertAllKeepsDistinct(keys: seq<JwksKey>, added: seq<JwksKey>)
    requires DistinctKids(keys)
    ensures DistinctKids(UpsertedAll(keys, added))
    decreases |added|
  {
    if added != [] {
      UpsertKeepsPlaces(keys, added[0]);
      UpsertAllKeepsDistinct(Upserted(keys, added[0]), added[1..]);
    }
  }

  // ---- what published keys become ----------------------------------------------------------------

  /** A published key is accepted exactly when it is an Ed25519 signing key with a name, and the text
      kept for it is read back as the very bytes that were published. */
  lemma PublishedKeyIsRead(jwk: Jwk)
    ensures KeyFromJwk(jwk).Ok?
       <==> !IsBlank(jwk.kid) && (jwk.kty, jwk.crv, jwk.alg) == ("OKP", "Ed25519", "EdDSA")
            && jwk.use in {None, Some("sig")}
            && Decode(UrlSafeNoPad, Trim(jwk.x)).Some? && |Decode(UrlSafeNoPad, Trim(jwk.x)).value| == 32
    ensures KeyFromJwk(jwk).Ok? ==>
      var key := KeyFromJwk(jwk).value;
      && key.kid == jwk.kid && key.alg == "EdDSA"
      && ParsePublicKey(key.publicKeyPem) == Ok(Decode(UrlSafeNoPad, Trim(jwk.x)).value)
    ensures KeyFromJwk(jwk).Err? ==> KeyFromJwk(jwk) == Err(InvalidJwks)
  {
    if KeyFromJwk(jwk).Ok? {
      WrappedPemIsRead(Decode(UrlSafeNoPad, Trim(jwk.x)).value);
    }
  }

  /** In particular every key of 32 bytes survives publication and fetching. */
  lemma PublicationRoundTrips(kid: string, raw: seq<byte>)
    requires !IsBlank(kid) && |raw| == 32
    ensures var key := KeyFromJwk(Jwk(kid, "OKP", "Ed25519", "EdDSA", Some("sig"), Encode(UrlSafeNoPad, raw)));
      key.Ok? && key.value.kid == kid && ParsePublicKey(key.value.publicKeyPem) == Ok(raw)
  {
    var x := Encode(UrlSafeNoPad, raw);
    EncodingsAreSpaceFree(UrlSafeNoPad, raw);
    TrimKeeps(x);
    DecodesWhatItEncodes(UrlSafeNoPad, raw);
    PublishedKeyIsRead(Jwk(kid, "OKP", "Ed25519", "EdDSA", Some("sig"), x));
  }

  /** A document is accepted exactly when each of its entries is. */
  lemma {:induction false} DocumentAcceptedIff(jwks: seq<Jwk>)
    ensures KeysFromJwks(jwks).Ok? <==> forall i | 0 <= i < |jwks| :: KeyFromJwk(jwks[i]).Ok?
    ensures KeysFromJwks(jwks).Err? ==> KeysFromJwks(jwks) == Err(InvalidJwks)
  {
    if jwks != [] {
      PublishedKeyIsRead(jwks[0]);
      DocumentAcceptedIff(jwks[1..]);
      if KeysFromJwks(jwks).Ok? {
        forall i | 0 <= i < |jwks| ensures KeyFromJwk(jwks[i]).Ok? {
          assert i > 0 ==> jwks[i] == jwks[1..][i - 1];
        }
      } else if KeyFromJwk(jwks[0]).Ok? {
        var i :| 0 <= i < |jwks[1..]| && KeyFromJwk(jwks[1..][i]).Err?;
        assert jwks[i + 1] == jwks[1..][i];
      }
    }
  }

  /** `key` is what `jwk` publishes: under its name, with its own bytes. */
  predicate Publishes(jwk: Jwk, key: JwksKey) {
    && key.kid == jwk.kid && key.alg == "EdDSA"
    && Decode(UrlSafeNoPad, Trim(jwk.x)).Some?
    && ParsePublicKey(key.publicKeyPem) == Ok(Decode(UrlSafeNoPad, Trim(jwk.x)).value)
  }

  /** Every entry of an accepted document becomes its own key, in its own place. */
  lemma {:induction false} DocumentKeysAreTheEntries(jwks: seq<Jwk>, i: nat)
    requires KeysFromJwks(jwks).Ok? && i < |jwks|
    ensures var keys := KeysFromJwks(jwks).value;
      |keys| == |jwks| && Publishes(jwks[i], keys[i]) && KeyFromJwk(jwks[i]) == Ok(keys[i])
  {
    if i == 0 {
      PublishedKeyIsRead(jwks[0]);
      DocumentLength(jwks);
    } else {
      DocumentKeysAreTheEntries(jwks[1..], i - 1);
    }
  }

  lemma {:induction false} DocumentLength(jwks: seq<Jwk>)
    requires KeysFromJwks(jwks).Ok?
    ensures |KeysFromJwks(jwks).value| == |jwks|
  {
    if jwks != [] {
      DocumentLength(jwks[1..]);
    }
  }

  lemma {:induction false} UpdateComesFromTheList(added: seq<JwksKey>, kid: string) returns (i: nat)
    requires kid in Updates(added)
    ensures i < |added| && added[i] == Updates(added)[kid] && added[i].kid == kid
  {
    if kid in Updates(added[1..]) {
      i := UpdateComesFromTheList(added[1..], kid);
      i := i + 1;
    } else {
      i := 0;
    }
  }

  lemma {:induction false} UnlistedKidIsNotUpdated(added: seq<JwksKey>, kid: string)
    requires forall k | 0 <= k < |added| :: added[k].kid != kid
    ensures kid !in Updates(added)
  {
    if added != [] {
      UnlistedKidIsNotUpdated(added[1..], kid);
    }
  }

  /** The last entry of a kid is the one that counts. */
  lemma {:induction false} LastUpdateCounts(added: seq<JwksKey>, i: nat)
    requires i < |added| && forall k | i < k < |added| :: added[k].kid != added[i].kid
    ensures added[i].kid in Updates(added) && Updates(added)[added[i].kid] == added[i]
  {
    if i > 0 {
      LastUpdateCounts(added[1..], i - 1);
    } else {
      UnlistedKidIsNotUpdated(added[1..], added[0].kid);
    }
  }

  /** After a batch, a kid is answered with the last key of that kid in it. */
  lemma LastOfKidIsAnswered(keys: seq<JwksKey>, added: seq<JwksKey>, i: nat)
    requires i < |added| && forall k | i < k < |added| :: added[k].kid != added[i].kid
    requires added[i].alg == "EdDSA"
    ensures RequireEddsaPublicKey(UpsertedAll(keys, added), added[i].kid) == Ok(added[i].publicKeyPem)
  {
    LastUpdateCounts(added, i);
    FindAfterUpsertAll(keys, added, added[i].kid);
  }

  lemma DocumentKeepsKids(jwks: seq<Jwk>, i: nat)
    requires KeysFromJwks(jwks).Ok? && i < |jwks|
    ensures |KeysFromJwks(jwks).value| == |jwks| && KeysFromJwks(jwks).value[i].kid == jwks[i].kid
  {
    DocumentKeysAreTheEntries(jwks, i);
  }

  lemma AnswerAfterFetch(keys: seq<JwksKey>, kid: string, jwks: seq<Jwk>)
    requires KeysFromJwks(jwks).Ok? && Find(keys, kid).None?
    ensures Refreshed(keys, kid, Ok(Some(jwks))).0
         == RequireEddsaPublicKey(UpsertedAll(keys, KeysFromJwks(jwks).value), kid)
  {
  }

  /** After a fetch that succeeds, a missing kid that the document names is answered with the bytes that
      the document's last entry of that kid publishes. */
  lemma NamedKidIsAnswered(keys: seq<JwksKey>, jwks: seq<Jwk>, i: nat)
    requires KeysFromJwks(jwks).Ok? && i < |jwks| && Find(keys, jwks[i].kid).None?
    requires forall k | i < k < |jwks| :: jwks[k].kid != jwks[i].kid
    ensures var answer := Refreshed(keys, jwks[i].kid, Ok(Some(jwks))).0;
      && answer.Ok? && Decode(UrlSafeNoPad, Trim(jwks[i].x)).Some?
      && ParsePublicKey(answer.value) == Ok(Decode(UrlSafeNoPad, Trim(jwks[i].x)).value)
  {
    var added := KeysFromJwks(jwks).value;
    DocumentKeysAreTheEntries(jwks, i);
    forall k | i <= k < |jwks| ensures added[k].kid == jwks[k].kid {
      DocumentKeepsKids(jwks, k);
    }
    LastOfKidIsAnswered(keys, added, i);
    AnswerAfterFetch(keys, jwks[i].kid, jwks);
  }

  /** A kid that is held is answered from the map alone: unknown kids and other algorithms are errors. */
  lemma RequireIsLookup(keys: seq<JwksKey>, kid: string)
    ensures RequireEddsaPublicKey(keys, kid) ==
      if kid !in View(keys) then Err(InvalidSignature)
      else if View(keys)[kid].alg == "EdDSA" then Ok(View(keys)[kid].publicKeyPem)
      else Err(UnsupportedSignatureAlg(View(keys)[kid].alg))
  {
    FindIsLookup(keys, kid);
  }

  /** A fetch fails with the error of the source, and otherwise exactly when its text is no document or an
      entry is not accepted. */
  lemma FetchFailsIff(reply: Reply)
    ensures reply.Err? ==> ReadReply(reply) == Err(reply.error)
    ensures reply.Ok? ==>
      (ReadReply(reply) == Err(InvalidJwks) <==>
       reply.value.None? || exists i | 0 <= i < |reply.value.value| :: KeyFromJwk(reply.value.value[i]).Err?)
    ensures reply.Ok? && ReadReply(reply).Err? ==> ReadReply(reply) == Err(InvalidJwks)
  {
    if reply.Ok? && reply.value.Some? {
      DocumentAcceptedIff(reply.value.value);
    }
  }

  /** One that it does not name is answered as an invalid signature. */
  lemma UnnamedKidIsRefused(keys: seq<JwksKey>, kid: string, jwks: seq<Jwk>)
    requires KeysFromJwks(jwks).Ok? && Find(keys, kid).None?
    requires forall i | 0 <= i < |jwks| :: jwks[i].kid != kid
    ensures Refreshed(keys, kid, Ok(Some(jwks))).0 == Err(InvalidSignature)
  {
    var added := KeysFromJwks(jwks).value;
    FindAfterUpsertAll(keys, added, kid);
    if kid in Updates(added) {
      var last := UpdateComesFromTheList(added, kid);
      DocumentLength(jwks);
      DocumentKeysAreTheEntries(jwks, last);
      assert false;
    }
  }

  /** Unless the fetch is needed and fails, the answer is the plain answer for the keys held
      afterwards; a fetch that fails changes nothing. */
  lemma RefreshIsPlainLookup(keys: seq<JwksKey>, kid: string, reply: Reply)
    ensures var (answer, after) := Refreshed(keys, kid, reply);
      if Find(keys, kid).None? && ReadReply(reply).Err?
      then answer == Err(ReadReply(reply).error) && after == keys
      else answer == RequireEddsaPublicKey(after, kid)
  {
  }

  // ---- the cache -----------------------------------------------------------------------------------

  /** The function that fetches the document: each call may answer differently. */
  class JwksSource {
    const replies: nat -> Reply
    var calls: nat

    constructor (replies: nat -> Reply)
      ensures this.replies == replies && calls == 0
    {
      this.replies := replies;
      calls := 0;
    }

    method Fetch() returns (reply: Reply)
      modifies this
      ensures calls == old(calls) + 1 && reply == replies(old(calls))
    {
      reply := replies(calls);
      calls := calls + 1;
    }
  }

  /** One step of the search: on, or done. */
  lemma UpsertedFrom(keys: seq<JwksKey>, key: JwksKey, i: nat)
    requires i <= |keys|
    ensures i == |keys| ==> keys[..i] + Upserted(keys[i..], key) == keys + [key]
    ensures i < |keys| && keys[i].kid == key.kid ==> keys[..i] + Upserted(keys[i..], key) == keys[i := key]
    ensures i < |keys| && keys[i].kid != key.kid ==>
      keys[..i] + Upserted(keys[i..], key) == keys[..i + 1] + Upserted(keys[i + 1..], key)
  {
    if i < |keys| {
      assert keys[i..][1..] == keys[i + 1..];
    }
  }

  class JwksCache {
    var keys: seq<JwksKey>

    constructor FromKeys(added: seq<JwksKey>)
      ensures keys == UpsertedAll([], added) && DistinctKids(keys)
    {
      keys := [];
      new;
      UpsertAllKeepsDistinct([], added);
      UpsertAll(added);
    }

    /** Overwrites in place the first entry with the kid of `key`, or pushes `key`. */
    method Upsert(key: JwksKey)
      modifies this
      ensures keys == Upserted(old(keys), key)
    {
      var i := 0;
      while i < |keys| && keys[i].kid != key.kid
        invariant i <= |keys| && keys == old(keys)
        invariant Upserted(keys, key) == keys[..i] + Upserted(keys[i..], key)
      {
        UpsertedFrom(keys, key, i);
        i := i + 1;
      }
      UpsertedFrom(keys, key, i);
      if i < |keys| {
        keys := keys[i := key];
      } else {
        keys := keys + [key];
      }
    }

    method UpsertAll(added: seq<JwksKey>)
      modifies this
      ensures keys == UpsertedAll(old(keys), added)
    {
      for n := 0 to |added|
        invariant UpsertedAll(keys, added[n..]) == UpsertedAll(old(keys), added)
      {
        assert added[n..][1..] == added[n + 1..];
        Upsert(added[n]);
      }
    }

    /** The source is asked once if `kid` is missing, and not at all otherwise. */
    method RequireWithRefresh(kid: string, source: JwksSource) returns (r: Result<string, SdkError>)
      modifies this, source
      ensures (r, keys) == Refreshed(old(keys), kid, source.replies(old(source.calls)))
      ensures source.calls == old(source.calls) + if Find(old(keys), kid).None? then 1 else 0
      ensures var fetched := ReadReply(source.replies(old(source.calls)));
        r == if Find(old(keys), kid).None? && fetched.Err? then Err(fetched.error) else RequireEddsaPublicKey(keys, kid)
    {
      RefreshIsPlainLookup(keys, kid, source.replies(source.calls));
      if Find(keys, kid).None? {
        var reply := source.Fetch();
        var added :- ReadReply(reply);
        UpsertAll(added);
      }
      return RequireEddsaPublicKey(keys, kid);
    }
  }
}
