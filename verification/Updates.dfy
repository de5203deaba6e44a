/** Verification of an update, and its download through a temporary file. */
module Updates {
  import opened Wrappers
  import opened Bytes
  import opened SdkErrors
  import opened Text
  import opened Pem
  import opened Messages
  import opened Jwks
  import opened Signatures
  import opened Files

  datatype UpdateInfo = UpdateInfo(
    appId: string, version: string, versionCode: int, fileSize: int, sha256: string, publishedAt: int,
    signatureKid: string, signature: string, signatureAlg: string)

  function Validate(u: UpdateInfo): Result<(), SdkError> {
    if IsBlank(u.appId) then Err(InvalidUpdateInfo("app_id"))
    else if IsBlank(u.version) then Err(InvalidUpdateInfo("version"))
    else if u.versionCode <= 0 then Err(InvalidUpdateInfo("version_code"))
    else if u.fileSize <= 0 then Err(InvalidUpdateInfo("file_size"))
    else if u.publishedAt <= 0 then Err(InvalidUpdateInfo("published_at_unix"))
    else if u.signatureAlg != "Ed25519" then Err(UnsupportedSignatureAlg(u.signatureAlg))
    else if IsBlank(u.signature) then Err(InvalidUpdateInfo("signature"))
    else if IsBlank(u.signatureKid) then Err(InvalidUpdateInfo("signature_kid"))
    else if !LooksLikeSha256(u.sha256) then Err(InvalidUpdateInfo("sha256"))
    else Ok(())
  }

  function EnsureNotDowngrade(u: UpdateInfo, current: int): Result<(), SdkError> {
    var _ :- Validate(u);
    if current < 0 then Err(InvalidUpdateInfo("current_version_code"))
    else if u.versionCode < current then Err(DowngradeNotAllowed)
    else Ok(())
  }

  function SignedRelease(u: UpdateInfo): Release {
    Release(u.appId, u.version, u.versionCode, Lower(u.sha256), u.fileSize, u.publishedAt)
  }

  function VerifySignatureWithKey(crypto: Crypto, u: UpdateInfo, publicKey: string): Result<(), SdkError> {
    VerifyEd25519(crypto, publicKey, SignedRelease(u).Payload(), u.signature)
  }

  function VerifySignature(crypto: Crypto, u: UpdateInfo, keys: seq<JwksKey>): Result<(), SdkError> {
    var _ :- Validate(u);
    var publicKey :- RequireEddsaPublicKey(keys, u.signatureKid);
    VerifySignatureWithKey(crypto, u, publicKey)
  }

  /** Verification of a file that holds `data`. */
  function VerifyContents(crypto: Crypto, u: UpdateInfo, data: seq<byte>, keys: seq<JwksKey>): Result<(), SdkError> {
    var _ :- Validate(u);
    if crypto.Digest(data) != Lower(u.sha256) then Err(HashMismatch) else VerifySignature(crypto, u, keys)
  }

  /** An update is valid exactly when it names application, version, signature and key, its three numbers are
      positive, its hash looks like one and its algorithm is Ed25519. */
  lemma ValidIff(u: UpdateInfo)
    ensures Validate(u).Ok? <==>
      && Trim(u.appId) != "" && Trim(u.version) != "" && Trim(u.signature) != "" && Trim(u.signatureKid) != ""
      && u.versionCode > 0 && u.fileSize > 0 && u.publishedAt > 0
      && u.signatureAlg == "Ed25519" && LooksLikeSha256(u.sha256)
  {
    TrimsToNothing(u.appId);
    TrimsToNothing(u.version);
    TrimsToNothing(u.signature);
    TrimsToNothing(u.signatureKid);
  }

  /** Each error names a field that is at fault. */
  lemma FaultIsNamed(u: UpdateInfo)
    requires Validate(u).Err?
    ensures match Validate(u).error
      case UnsupportedSignatureAlg(alg) => alg == u.signatureAlg != "Ed25519"
      case InvalidUpdateInfo(field) =>
        || (field == "app_id" && IsBlank(u.appId)) || (field == "version" && IsBlank(u.version))
        || (field == "version_code" && u.versionCode <= 0) || (field == "file_size" && u.fileSize <= 0)
        || (field == "published_at_unix" && u.publishedAt <= 0)
        || (field == "signature" && IsBlank(u.signature)) || (field == "signature_kid" && IsBlank(u.signatureKid))
        || (field == "sha256" && !LooksLikeSha256(u.sha256))
      case _ => false
  {
  }

  /** An update is no downgrade exactly when it is valid and its version code is at least the current one,
      which must not be negative. */
  lemma NoDowngradeIff(u: UpdateInfo, current: int)
    ensures EnsureNotDowngrade(u, current).Ok? <==> Validate(u).Ok? && 0 <= current <= u.versionCode
    ensures Validate(u).Ok? && current > u.versionCode ==> EnsureNotDowngrade(u, current) == Err(DowngradeNotAllowed)
    ensures Validate(u).Ok? && current < 0 ==>
      EnsureNotDowngrade(u, current) == Err(InvalidUpdateInfo("current_version_code"))
    ensures Validate(u).Err? ==> EnsureNotDowngrade(u, current) == Validate(u)
  {
  }

  /** The text that is signed, line by line. */
  lemma SignedTextIs(u: UpdateInfo)
    ensures SignedRelease(u).Payload() == Join(
      [u.appId, u.version, Decimal(u.versionCode), Lower(u.sha256), Decimal(u.fileSize), Decimal(u.publishedAt)], '\n')
  {
    ReleaseLines(SignedRelease(u));
  }

  /** What was signed, under a key of the list, is the release with the hash of the very bytes verified. */
  lemma AcceptedUpdateIsSigned(crypto: Crypto, u: UpdateInfo, data: seq<byte>, keys: seq<JwksKey>)
    requires VerifyContents(crypto, u, data, keys).Ok?
    ensures u.versionCode > 0 && u.fileSize > 0 && u.publishedAt > 0 && u.signatureAlg == "Ed25519"
    ensures crypto.Digest(data) == Lower(u.sha256)
    ensures u.signatureKid in View(keys) && View(keys)[u.signatureKid].alg == "EdDSA"
    ensures Signed(crypto, View(keys)[u.signatureKid].publicKeyPem,
                   SignedRelease(u).(hash := crypto.Digest(data)).Payload(),
                   u.signature)
  {
    FindIsLookup(keys, u.signatureKid);
    VerifiedIffSigned(crypto, Find(keys, u.signatureKid).value.publicKeyPem, SignedRelease(u).Payload(), u.signature);
  }

  /** Conversely, a valid update signed under a key of the list is accepted with the file of its hash. */
  lemma SignedUpdateIsAccepted(crypto: Crypto, u: UpdateInfo, data: seq<byte>, keys: seq<JwksKey>)
    requires Validate(u).Ok? && crypto.Digest(data) == Lower(u.sha256)
    requires u.signatureKid in View(keys) && View(keys)[u.signatureKid].alg == "EdDSA"
    requires Signed(crypto, View(keys)[u.signatureKid].publicKeyPem, SignedRelease(u).Payload(), u.signature)
    ensures VerifyContents(crypto, u, data, keys) == Ok(())
  {
    FindIsLookup(keys, u.signatureKid);
    VerifiedIffSigned(crypto, View(keys)[u.signatureKid].publicKeyPem, SignedRelease(u).Payload(), u.signature);
  }

  /** An update that is not valid is refused for that; a valid one for a file of another hash; and one with the
      right file for its key or signature, and for nothing else. */
  lemma OutcomeByChecks(crypto: Crypto, u: UpdateInfo, data: seq<byte>, keys: seq<JwksKey>)
    ensures var outcome := VerifyContents(crypto, u, data, keys);
      if Validate(u).Err? then outcome == Err(Validate(u).error)
      else if crypto.Digest(data) != Lower(u.sha256) then outcome == Err(HashMismatch)
      else if u.signatureKid !in View(keys) then outcome == Err(InvalidSignature)
      else if View(keys)[u.signatureKid].alg != "EdDSA"
      then outcome == Err(UnsupportedSignatureAlg(View(keys)[u.signatureKid].alg))
      else
        var publicKey := View(keys)[u.signatureKid].publicKeyPem;
        outcome
        == if Signed(crypto, publicKey, SignedRelease(u).Payload(), u.signature) then Ok(())
           else Err(if ParsePublicKey(publicKey).Err? then InvalidPublicKey else InvalidSignature)
  {
    RequireIsLookup(keys, u.signatureKid);
    if u.signatureKid in View(keys) {
      VerifiedIffSigned(
        crypto, View(keys)[u.signatureKid].publicKeyPem, SignedRelease(u).Payload(), u.signature);
    }
  }

  /** One signed text stands for one release file: accepted updates with equal signed texts agree on the
      version code, size and time, their files have equal hashes, and so do the names as far as a
      newline inside them lets them be told apart. */
  lemma SignedTextFixesUpdate(
    crypto: Crypto, a: UpdateInfo, dataA: seq<byte>, b: UpdateInfo, dataB: seq<byte>, keys: seq<JwksKey>)
    requires VerifyContents(crypto, a, dataA, keys).Ok? && VerifyContents(crypto, b, dataB, keys).Ok?
    requires NewlineFree(crypto.Digest(dataA)) && NewlineFree(crypto.Digest(dataB))
    requires SignedRelease(a).Payload() == SignedRelease(b).Payload()
    ensures a.versionCode == b.versionCode && crypto.Digest(dataA) == crypto.Digest(dataB)
    ensures a.fileSize == b.fileSize && a.publishedAt == b.publishedAt
    ensures SignedRelease(a).Name() == SignedRelease(b).Name()
    ensures NewlineFree(a.appId) && NewlineFree(b.appId) ==> a.appId == b.appId && a.version == b.version
  {
    ReleasePayloadsEqualIff(SignedRelease(a), SignedRelease(b));
  }

  /** White space around the hash passes validation, */
  lemma PaddingPassesValidation(u: UpdateInfo, front: string, back: string)
    requires Validate(u).Ok? && IsDigest(u.sha256) && IsBlank(front) && IsBlank(back)
    ensures Validate(u.(sha256 := front + u.sha256 + back)).Ok?
  {
    PaddedDigest(front, u.sha256, back);
  }

  /** but a valid, signed update that names the digest of the file up to white space and case is accepted
      exactly when there is no white space. */
  lemma PaddedHashAcceptedIff(crypto: Crypto, u: UpdateInfo, data: seq<byte>, keys: seq<JwksKey>)
    requires Validate(u).Ok? && VerifySignature(crypto, u, keys).Ok?
    requires |crypto.Digest(data)| == 64 && crypto.Digest(data) == Lower(Trim(u.sha256))
    ensures VerifyContents(crypto, u, data, keys) == if |u.sha256| == 64 then Ok(()) else Err(HashMismatch)
  {
    UntrimmedIff(u.sha256, crypto.Digest(data));
  }

  // ---- the file's hash ---------------------------------------------------------------------------

  method Sha256HexFile(crypto: Crypto, fs: FileSystem, path: Path) returns (r: Result<string, SdkError>)
    modifies fs`ops
    ensures r.Ok? ==> path in fs.files && r.value == crypto.Digest(fs.files[path])
    ensures fs.NeverFails() && path in fs.files ==> r.Ok?
  {
    var _ :- fs.Open(path);
    var state, offset := crypto.start, 0;
    ghost var data := fs.files[path];
    while true
      invariant offset <= |data| && state == crypto.Update(crypto.start, data[..offset])
      decreases |data| - offset
    {
      var chunk :- fs.Read(path, offset);
      if chunk == [] {
        break;
      }
      UpdateAppends(crypto, crypto.start, data[..offset], chunk);
      assert data[..offset + |chunk|] == data[..offset] + chunk;
      state := crypto.Update(state, chunk);
      offset := offset + |chunk|;
    }
    assert data[..offset] == data;
    return Ok(crypto.hex(state));
  }

  method VerifyDownloaded(crypto: Crypto, u: UpdateInfo, fs: FileSystem, path: Path, keys: seq<JwksKey>)
    returns (r: Result<(), SdkError>)
    modifies fs`ops
    ensures r.Ok? ==> path in fs.files && VerifyContents(crypto, u, fs.files[path], keys).Ok?
    ensures fs.NeverFails() && path in fs.files ==> r == VerifyContents(crypto, u, fs.files[path], keys)
  {
    var _ :- Validate(u);
    var hash :- Sha256HexFile(crypto, fs, path);
    if hash != Lower(u.sha256) {
      return Err(HashMismatch);
    }
    return VerifySignature(crypto, u, keys);
  }

  method VerifySignatureRefreshing(crypto: Crypto, u: UpdateInfo, cache: JwksCache, source: JwksSource)
    returns (r: Result<(), SdkError>)
    modifies cache, source
    ensures var asked := Validate(u).Ok? && u.signatureKid !in View(old(cache.keys));
      var fetched := ReadReply(source.replies(old(source.calls)));
      && source.calls == old(source.calls) + (if asked then 1 else 0)
      && cache.keys == (if asked && fetched.Ok? then UpsertedAll(old(cache.keys), fetched.value) else old(cache.keys))
      && r == if asked && fetched.Err? then Err(fetched.error) else VerifySignature(crypto, u, cache.keys)
  {
    FindIsLookup(cache.keys, u.signatureKid);
    var _ :- Validate(u);
    var publicKey :- cache.RequireWithRefresh(u.signatureKid, source);
    return VerifySignatureWithKey(crypto, u, publicKey);
  }

  /** As verification of a script: one fetch at most, only for a valid update whose file has the right
      hash and whose key is unknown, and then the outcome of plain verification. */
  method VerifyDownloadedRefreshing(
    crypto: Crypto, u: UpdateInfo, fs: FileSystem, path: Path, cache: JwksCache, source: JwksSource)
    returns (r: Result<(), SdkError>)
    modifies fs`ops, cache, source
    ensures r.Ok? ==> path in fs.files && VerifyContents(crypto, u, fs.files[path], cache.keys).Ok?
    ensures source.calls in {old(source.calls), old(source.calls) + 1}
    ensures source.calls == old(source.calls) ==> cache.keys == old(cache.keys)
    ensures source.calls > old(source.calls) ==>
      && Validate(u).Ok? && path in fs.files && crypto.Digest(fs.files[path]) == Lower(u.sha256)
      && u.signatureKid !in View(old(cache.keys))
    ensures fs.NeverFails() && path in fs.files ==>
      var asked := Validate(u).Ok? && crypto.Digest(fs.files[path]) == Lower(u.sha256)
                   && u.signatureKid !in View(old(cache.keys));
      var fetched := ReadReply(source.replies(old(source.calls)));
      && source.calls == old(source.calls) + (if asked then 1 else 0)
      && cache.keys == (if asked && fetched.Ok? then UpsertedAll(old(cache.keys), fetched.value) else old(cache.keys))
      && r == if asked && fetched.Err? then Err(fetched.error)
              else VerifyContents(crypto, u, fs.files[path], cache.keys)
  {
    var _ :- Validate(u);
    var hash :- Sha256HexFile(crypto, fs, path);
    if hash != Lower(u.sha256) {
      return Err(HashMismatch);
    }
    r := VerifySignatureRefreshing(crypto, u, cache, source);
  }

  // ---- download ------------------------------------------------------------------------------------

  function TempPath(target: Path): Result<Path, SdkError> {
    if target.name.None? then Err(InvalidUpdateInfo("target_path"))
    else Ok(target.(name := Some("." + target.name.value + ".download")))
  }

  /** The temporary file is hidden, next to the target; a target without a file name has none. */
  lemma TempPathIs(parent: string, name: Option<string>)
    ensures TempPath(Path(parent, name))
         == if name == None then Err(InvalidUpdateInfo("target_path"))
            else Ok(Path(parent, Some(Join(["", name.value, "download"], '.'))))
  {
    if name.Some? {
      var parts := ["", name.value, "download"];
      assert parts[1..] == [name.value, "download"] && parts[1..][1..] == ["download"];
      assert Join(parts[1..], '.') == name.value + "." + "download" == name.value + ".download";
      assert "" + "." + (name.value + ".download") == "." + name.value + ".download";
    }
  }

  /** The temporary file is another file of the same directory, and different targets have different
      temporary files. */
  lemma TempPathIsOther(target: Path, other: Path)
    requires TempPath(target).Ok?
    ensures TempPath(target).value != target && TempPath(target).value.parent == target.parent
    ensures TempPath(other) == TempPath(target) <==> other == target
  {
    var name := target.name.value;
    var dotted := "." + name + ".download";
    assert |dotted| == |name| + 10 && dotted[1..|dotted| - 9] == name;
    if TempPath(other) == TempPath(target) {
      var otherDotted := "." + other.name.value + ".download";
      assert otherDotted[1..|otherDotted| - 9] == other.name.value;
    }
  }

  function Prepend(data: seq<byte>, reply: Chunk): Chunk {
    if reply.Ok? then Ok(data + reply.value) else reply
  }

  lemma StreamGoesOn(data: seq<byte>, replies: seq<Chunk>)
    requires replies != [] && replies[0].Ok? && replies[0] != Ok([])
    ensures Prepend(data, Streamed(replies)) == Prepend(data + replies[0].value, Streamed(replies[1..]))
  {
    var rest := Streamed(replies[1..]);
    if rest.Ok? {
      assert data + (replies[0].value + rest.value) == data + replies[0].value + rest.value;
    }
  }

  method StreamToFile(reader: Reader, fs: FileSystem, path: Path) returns (r: Result<(), SdkError>)
    modifies reader, fs
    ensures fs.files - {path} == old(fs.files) - {path}
    ensures r.Ok? ==>
      path in fs.files && Streamed(old(reader.replies)) == Ok(fs.files[path])
    ensures fs.NeverFails() ==> path in fs.files
    ensures fs.NeverFails() && r.Err? ==> Streamed(old(reader.replies)) == Err(r.error)
  {
    var _ :- fs.Create(path);
    assert Streamed(reader.replies) == Prepend([], Streamed(reader.replies)) by {
      if Streamed(reader.replies).Ok? {
        assert [] + Streamed(reader.replies).value == Streamed(reader.replies).value;
      }
    }
    while true
      invariant path in fs.files && fs.files - {path} == old(fs.files) - {path}
      invariant Streamed(old(reader.replies)) == Prepend(fs.files[path], Streamed(reader.replies))
      decreases |reader.replies|
    {
      ghost var replies := reader.replies;
      var chunk :- reader.Read();
      if chunk == [] {
        assert fs.files[path] + [] == fs.files[path];
        break;
      }
      StreamGoesOn(fs.files[path], replies);
      var _ :- fs.Append(path, chunk);
    }
    var _ :- fs.Flush();
    return Ok(());
  }

  /** The outcome of a download on a file system that never fails. */
  function DownloadOutcome(
    crypto: Crypto, u: UpdateInfo, replies: seq<Chunk>, target: Path, keys: seq<JwksKey>): Result<(), SdkError>
  {
    var _ :- Validate(u);
    var _ :- TempPath(target);
    match Streamed(replies)
    case Err(error) => Err(error)
    case Ok(data) => VerifyContents(crypto, u, data, keys)
  }

  /** Whatever the chunks and wherever the file system fails: on success the target holds exactly the
      stream, which was verified, and the temporary file is gone; on failure every file but the
      temporary one, the target included, is as before. Without failures of the file system the
      outcome depends on the stream alone, and the temporary file is gone in either case. */
  method DownloadFromReader(
    crypto: Crypto, u: UpdateInfo, reader: Reader, target: Path, fs: FileSystem, keys: seq<JwksKey>)
    returns (r: Result<(), SdkError>)
    modifies reader, fs
    ensures r.Ok? ==>
      var data := Streamed(old(reader.replies));
      && TempPath(target).Ok? && data.Ok? && VerifyContents(crypto, u, data.value, keys).Ok?
      && fs.files == (old(fs.files) - {TempPath(target).value})[target := data.value]
    ensures r.Err? ==>
      if Validate(u).Err? || TempPath(target).Err? then fs.files == old(fs.files)
      else
        && fs.files - {TempPath(target).value} == old(fs.files) - {TempPath(target).value}
        && (target in fs.files <==> target in old(fs.files))
        && (target in fs.files ==> fs.files[target] == old(fs.files)[target])
    ensures fs.NeverFails() ==>
      && r == DownloadOutcome(crypto, u, old(reader.replies), target, keys)
      && (Validate(u).Ok? && TempPath(target).Ok? ==> TempPath(target).value !in fs.files)
  {
    var _ :- Validate(u);
    var temp :- TempPath(target);
    TempPathIsOther(target, target);
    r := StreamVerifyRename(crypto, u, reader, target, temp, fs, keys);
    if r.Err? {
      var _ := fs.Remove(temp);
      assert target in fs.files <==> target in fs.files - {temp};
      assert target in old(fs.files) <==> target in old(fs.files) - {temp};
    }
  }

  /** The closure whose failure makes the caller remove the temporary file. */
  method StreamVerifyRename(
    crypto: Crypto, u: UpdateInfo, reader: Reader, target: Path, temp: Path, fs: FileSystem, keys: seq<JwksKey>)
    returns (r: Result<(), SdkError>)
    requires temp != target
    modifies reader, fs
    ensures r.Ok? ==>
      var data := Streamed(old(reader.replies));
      && data.Ok? && VerifyContents(crypto, u, data.value, keys).Ok?
      && fs.files == (old(fs.files) - {temp})[target := data.value]
    ensures r.Err? ==> fs.files - {temp} == old(fs.files) - {temp}
    ensures fs.NeverFails() ==>
      r == match Streamed(old(reader.replies))
           case Err(error) => Err(error)
           case Ok(data) => VerifyContents(crypto, u, data, keys)
  {
    var _ :- StreamToFile(reader, fs, temp);
    var _ :- VerifyDownloaded(crypto, u, fs, temp, keys);
    var _ :- fs.Rename(temp, target);
    return Ok(());
  }

  method DownloadForCurrentVersion(
    crypto: Crypto, u: UpdateInfo, current: int, reader: Reader, target: Path, fs: FileSystem, keys: seq<JwksKey>)
    returns (r: Result<(), SdkError>)
    modifies reader, fs
    ensures r.Ok? ==>
      && 0 <= current <= u.versionCode && target in fs.files
      && Streamed(old(reader.replies)) == Ok(fs.files[target]) && VerifyContents(crypto, u, fs.files[target], keys).Ok?
    ensures EnsureNotDowngrade(u, current).Err? ==> fs.files == old(fs.files) && reader.replies == old(reader.replies)
    ensures r.Err? ==>
      && (target in fs.files <==> target in old(fs.files))
      && (target in fs.files ==> fs.files[target] == old(fs.files)[target])
  {
    var _ :- EnsureNotDowngrade(u, current);
    r := DownloadFromReader(crypto, u, reader, target, fs, keys);
  }
}
