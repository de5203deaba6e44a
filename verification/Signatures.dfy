/** Checking an Ed25519 signature, and the two primitives that every check is built on. */
module Signatures {
  import opened Wrappers
  import opened Bytes
  import opened SdkErrors
  import opened Text
  import opened Base64
  import opened Pem

  /** What a hash function carries from one byte to the next; its form does not matter here. */
  type HashState = seq<int>

  /** Ed25519 and SHA-256 as given functions. The hash takes bytes one at a time, so that hashing by
      chunks and hashing at once are different ways to run the same function. */
  datatype Crypto = Crypto(
    verifies: (seq<byte>, string, seq<byte>) -> bool,
    start: HashState, absorb: (HashState, byte) -> HashState, hex: HashState -> string)
  {
    function Update(state: HashState, chunk: seq<byte>): HashState
      decreases |chunk|
    {
      if chunk == [] then state else Update(absorb(state, chunk[0]), chunk[1..])
    }

    /** The hash of a whole byte string, in hexadecimal. */
    function Digest(data: seq<byte>): string {
      hex(Update(start, data))
    }
  }

  /** Hashing two pieces in turn is hashing them joined. */
  lemma {:induction false} UpdateAppends(crypto: Crypto, state: HashState, a: seq<byte>, b: seq<byte>)
    ensures crypto.Update(crypto.Update(state, a), b) == crypto.Update(state, a + b)
    decreases |a|
  {
    if a == [] {
      assert a + b == b;
    } else {
      UpdateAppends(crypto, crypto.absorb(state, a[0]), a[1..], b);
      assert (a + b)[1..] == a[1..] + b;
    }
  }

  function VerifyEd25519(crypto: Crypto, publicKey: string, message: string, signature: string): Result<(), SdkError> {
    var key :- ParsePublicKey(publicKey);
    var bytes := DecodeText(signature);
    if bytes.None? || !crypto.verifies(key, message, bytes.value) then Err(InvalidSignature) else Ok(())
  }

  /** `signature` is a signature of `message` under the key that `publicKey` spells. */
  ghost predicate Signed(crypto: Crypto, publicKey: string, message: string, signature: string) {
    exists key: seq<byte>, bytes: seq<byte> ::
      && ParsePublicKey(publicKey) == Ok(key) && DecodeText(signature) == Some(bytes)
      && crypto.verifies(key, message, bytes)
  }

  lemma VerifiedIffSigned(crypto: Crypto, publicKey: string, message: string, signature: string)
    ensures VerifyEd25519(crypto, publicKey, message, signature).Ok? <==> Signed(crypto, publicKey, message, signature)
    ensures VerifyEd25519(crypto, publicKey, message, signature).Err? ==>
      VerifyEd25519(crypto, publicKey, message, signature)
      == Err(if ParsePublicKey(publicKey).Err? then InvalidPublicKey else InvalidSignature)
  {
    ReadsKeyIff(publicKey, []);
    if Signed(crypto, publicKey, message, signature) {
      var key: seq<byte>, bytes: seq<byte> :|
        && ParsePublicKey(publicKey) == Ok(key) && DecodeText(signature) == Some(bytes)
        && crypto.verifies(key, message, bytes);
    }
  }

  /** A signature under a published key is verified, in whichever base64 form it comes. */
  lemma PublishedSignatureIsVerified(crypto: Crypto, key: seq<byte>, message: string, v: Variant, bytes: seq<byte>)
    requires crypto.verifies(key, message, bytes)
    ensures VerifyEd25519(crypto, WrappedPem(key), message, Encode(v, bytes)) == Ok(())
  {
    WrappedPemIsRead(key);
    EitherVariantIsRead(v, bytes);
  }

  lemma EncodingIsNotBlank(v: Variant, bytes: seq<byte>)
    requires bytes != []
    ensures !IsBlank(Encode(v, bytes)) && Trim(Encode(v, bytes)) == Encode(v, bytes)
  {
    var text := Encode(v, bytes);
    EncodingsAreSpaceFree(v, bytes);
    assert text != "";
    TrimKeeps(text);
    assert !IsWhitespace(text[0]);
  }

  /** The digest that a publisher writes down: 64 hexadecimal digits in lower case. */
  predicate IsDigest(text: string) {
    |text| == 64 && forall i | 0 <= i < |text| :: '0' <= text[i] <= '9' || 'a' <= text[i] <= 'f'
  }

  lemma DigestsAreAccepted(text: string)
    requires IsDigest(text)
    ensures LooksLikeSha256(text) && Lower(text) == text
  {
    TrimKeeps(text);
  }

  /** Surrounding white space is overlooked. */
  predicate LooksLikeSha256(text: string) {
    var hash := Trim(text);
    && |hash| == 64
    && forall i | 0 <= i < |hash| :: '0' <= hash[i] <= '9' || 'a' <= hash[i] <= 'f' || 'A' <= hash[i] <= 'F'
  }

  /** That is: 64 hexadecimal digits of either case, once trimmed. */
  lemma HashesAreHex(text: string)
    ensures LooksLikeSha256(text)
       <==> |Trim(text)| == 64 && forall i | 0 <= i < |Trim(text)| :: Trim(text)[i] in "0123456789abcdefABCDEF"
  {
    var hash := Trim(text);
    forall i | 0 <= i < |hash|
      ensures hash[i] in "0123456789abcdefABCDEF"
         <==> '0' <= hash[i] <= '9' || 'a' <= hash[i] <= 'f' || 'A' <= hash[i] <= 'F'
    {
      IsHex(hash[i]);
    }
  }

  lemma IsHex(c: char)
    ensures c in "0123456789abcdefABCDEF" <==> '0' <= c <= '9' || 'a' <= c <= 'f' || 'A' <= c <= 'F'
  {
    var digits := "0123456789abcdefABCDEF";
    if '0' <= c <= '9' {
      assert digits[c as int - '0' as int] == c;
    } else if 'a' <= c <= 'f' {
      assert digits[c as int - 'a' as int + 10] == c;
    } else if 'A' <= c <= 'F' {
      assert digits[c as int - 'A' as int + 16] == c;
    }
  }

  /** A digest with white space around it still looks like one, but is no longer the digest. */
  lemma PaddedDigest(front: string, digest: string, back: string)
    requires IsDigest(digest) && IsBlank(front) && IsBlank(back)
    ensures LooksLikeSha256(front + digest + back) && Trim(front + digest + back) == digest
    ensures |front + digest + back| == 64 <==> front == "" && back == ""
  {
    TrimKeeps(digest);
    TrimDropsPadding(front, digest, back);
  }

  /** A text whose trimmed form is the digest, letters in either case, is equal to it in lower case exactly
      when nothing had to be trimmed. */
  lemma UntrimmedIff(text: string, digest: string)
    requires |digest| == 64 && digest == Lower(Trim(text))
    ensures digest == Lower(text) <==> |text| == 64
  {
    if |text| == 64 {
      TrimOfSameLength(text);
    }
  }
}
