/** One-shot upload sessions. A session is granted, then any number of requests race through four
    separate statements: find the session, put the bytes, consume the session, insert the asset. */
module Uploads {
  import opened Text
  import opened Wrappers

  type Id = int
  type Time = int
  type Body = seq<int>

  const MAX_UPLOAD_BYTES := 512 * 1024 * 1024
  const TOKEN_TTL := 15 * 60

  datatype AssetType = Image | Video | Audio | File

  /** What the caller of the grant fixes, together with the hash of the token and the expiry. */
  datatype Grant = Grant(
    tenant: Id, app: Id, customer: Id, folder: Option<Id>, serverKey: Id, tokenHash: string,
    fileName: string, assetType: AssetType, assetRole: string, mime: Option<string>, size: Option<int>,
    metadata: map<string, string>, expiresAt: Time)

  datatype Session = Session(grant: Grant, consumedAt: Option<Time>)

  datatype StorageKey = StorageKey(tenant: Id, customer: Id, upload: Id, extension: string)

  /** The checksum column is represented by the bytes it was computed from. */
  datatype Asset = Asset(
    tenant: Id, app: Id, customer: Id, folder: Option<Id>, serverKey: Id,
    name: string, assetType: AssetType, assetRole: string, processing: bool, storageKey: StorageKey,
    mime: string, size: nat, checksumOf: Body, metadata: map<string, string>)

  /** Where a request stands. `Holding` is the record that the consuming update returned. */
  datatype Phase = Found | Stored | Holding(record: Grant) | Done(asset: Id) | Failed

  datatype Request = Request(upload: Id, tokenHash: string, mime: string, key: StorageKey, body: Body, phase: Phase)

  datatype Store = Store(
    now: Time, sessions: map<Id, Session>, objects: map<StorageKey, Body>,
    assets: map<Id, Asset>, requests: map<Id, Request>)

  datatype Event =
    | Tick(seconds: nat)
    | CreateGrant(upload: Id, grant: Grant)
    | Find(request: Id, upload: Id, tokenHash: string, body: Body, contentType: Option<string>)
    | Put(request: Id)
    | Consume(request: Id)
    | Insert(request: Id, newAsset: Id)
    | Fail(request: Id)

  predicate MimeMatches(assetType: AssetType, mime: string) {
    match assetType
    case Image => StartsWith(mime, "image/")
    case Video => StartsWith(mime, "video/")
    case Audio => StartsWith(mime, "audio/")
    case File => true
  }

  function ExtensionForMime(mime: string): string {
    if mime in {"image/jpeg", "image/jpg"} then "jpg"
    else if mime == "image/png" then "png"
    else if mime == "image/webp" then "webp"
    else if mime == "image/gif" then "gif"
    else if mime == "video/mp4" then "mp4"
    else if mime == "video/webm" then "webm"
    else if mime == "video/quicktime" then "mov"
    else if mime == "video/mpeg" then "mpeg"
    else if mime == "video/x-msvideo" then "avi"
    else if mime == "video/x-matroska" then "mkv"
    else if mime == "audio/mpeg" then "mp3"
    else if mime in {"audio/wav", "audio/x-wav"} then "wav"
    else if mime == "audio/mp4" then "m4a"
    else if mime == "audio/webm" then "weba"
    else "bin"
  }

  function ResolveMime(grant: Grant, contentType: Option<string>): string {
    if grant.mime.Some? then grant.mime.value
    else if contentType.Some? then contentType.value
    else "application/octet-stream"
  }

  /** `ensure_upload_is_usable`. */
  predicate Usable(s: Store, session: Session) {
    session.consumedAt.None? && session.grant.expiresAt > s.now
  }

  /** Everything a request checks before it writes any bytes. */
  predicate Admitted(s: Store, e: Event)
    requires e.Find?
  {
    && 0 < |e.body| <= MAX_UPLOAD_BYTES
    && e.upload in s.sessions
    && var session := s.sessions[e.upload];
      && session.grant.tokenHash == e.tokenHash
      && Usable(s, session)
      && (session.grant.size.Some? ==> session.grant.size.value == |e.body|)
      && MimeMatches(session.grant.assetType, ResolveMime(session.grant, e.contentType))
  }

  function Admit(s: Store, e: Event): Request
    requires e.Find? && Admitted(s, e)
  {
    var grant := s.sessions[e.upload].grant;
    var mime := ResolveMime(grant, e.contentType);
    var key := StorageKey(grant.tenant, grant.customer, e.upload, ExtensionForMime(mime));
    Request(e.upload, e.tokenHash, mime, key, e.body, Found)
  }

  /** The media type that is recorded: the granted one, else that of the header, else that of plain bytes. */
  function MediaType(granted: Option<string>, header: Option<string>): string {
    match (granted, header)
    case (Some(mime), _) => mime
    case (None, Some(mime)) => mime
    case (None, None) => "application/octet-stream"
  }

  /** The first six characters of a media type decide for which types of asset it is accepted. */
  predicate TypeFits(assetType: AssetType, mime: string) {
    assetType == File
    || (|mime| >= 6 && mime[..6] == match assetType case Image => "image/" case Video => "video/" case _ => "audio/")
  }

  /** The extensions of the known media types; every other one has "bin". */
  const EXTENSIONS := map[
    "image/jpeg" := "jpg", "image/jpg" := "jpg", "image/png" := "png", "image/webp" := "webp", "image/gif" := "gif",
    "video/mp4" := "mp4", "video/webm" := "webm", "video/quicktime" := "mov", "video/mpeg" := "mpeg",
    "video/x-msvideo" := "avi", "video/x-matroska" := "mkv",
    "audio/mpeg" := "mp3", "audio/wav" := "wav", "audio/x-wav" := "wav", "audio/mp4" := "m4a", "audio/webm" := "weba"]

  lemma ExtensionIsListed(mime: string)
    ensures ExtensionForMime(mime) == if mime in EXTENSIONS then EXTENSIONS[mime] else "bin"
  {
  }

  lemma TypeFitsIff(assetType: AssetType, mime: string)
    ensures MimeMatches(assetType, mime) <==> TypeFits(assetType, mime)
  {
  }

  /** A request is admitted exactly with a body of 1 to 512 MiB, of the declared size if there is one, for
      a session that exists, is neither consumed nor over, and has its token and a fitting media type. */
  lemma AdmittedIff(s: Store, e: Event)
    requires e.Find?
    ensures Admitted(s, e) <==>
      && 1 <= |e.body| <= 536870912
      && e.upload in s.sessions
      && var session, grant := s.sessions[e.upload], s.sessions[e.upload].grant;
        && grant.tokenHash == e.tokenHash && session.consumedAt == None && s.now < grant.expiresAt
        && grant.size in {None, Some(|e.body|)}
        && TypeFits(grant.assetType, MediaType(grant.mime, e.contentType))
  {
    if e.upload in s.sessions {
      TypeFitsIff(s.sessions[e.upload].grant.assetType, ResolveMime(s.sessions[e.upload].grant, e.contentType));
    }
  }

  /** The condition of the consuming update. */
  predicate Consumable(s: Store, r: Request) {
    && r.upload in s.sessions
    && s.sessions[r.upload].grant.tokenHash == r.tokenHash
    && s.sessions[r.upload].consumedAt.None?
    && s.sessions[r.upload].grant.expiresAt > s.now
  }

  function NewAsset(g: Grant, r: Request): Asset {
    Asset(g.tenant, g.app, g.customer, g.folder, g.serverKey, g.fileName, g.assetType, g.assetRole,
          g.assetType == Video, r.key, r.mime, |r.body|, r.body, g.metadata)
  }

  predicate At(s: Store, request: Id, phase: Phase) {
    request in s.requests && s.requests[request].phase == phase
  }

  function SetPhase(s: Store, request: Id, phase: Phase): Store
    requires request in s.requests
  {
    s.(requests := s.requests[request := s.requests[request].(phase := phase)])
  }

  /** One statement of one request, or of the grant handler. Steps that do not apply change nothing. */
  function Step(s: Store, e: Event): Store {
    match e
    case Tick(seconds) => s.(now := s.now + seconds)
    case CreateGrant(upload, grant) =>
      if upload in s.sessions then s
      else s.(sessions := s.sessions[upload := Session(grant.(expiresAt := s.now + TOKEN_TTL), None)])
    case Find(request, _, _, _, _) =>
      if request in s.requests || !Admitted(s, e) then s
      else s.(requests := s.requests[request := Admit(s, e)])
    case Put(request) =>
      if !At(s, request, Found) then s
      else
        var r := s.requests[request];
        SetPhase(s, request, Stored).(objects := s.objects[r.key := r.body])
    case Consume(request) =>
      if !At(s, request, Stored) then s
      else
        var r := s.requests[request];
        if !Consumable(s, r) then SetPhase(s, request, Failed)
        else
          var session := s.sessions[r.upload];
          SetPhase(s, request, Holding(session.grant)).(
            sessions := s.sessions[r.upload := session.(consumedAt := Some(s.now))])
    case Insert(request, newAsset) =>
      if request !in s.requests || !s.requests[request].phase.Holding? then s
      else if newAsset in s.assets then SetPhase(s, request, Failed)
      else
        var r := s.requests[request];
        SetPhase(s, request, Done(newAsset)).(
          assets := s.assets[newAsset := NewAsset(r.phase.record, r)])
    case Fail(request) =>
      if request !in s.requests || s.requests[request].phase.Done? then s
      else SetPhase(s, request, Failed)
  }

  function Run(s: Store, events: seq<Event>): Store
    decreases |events|
  {
    if events == [] then s else Run(Step(s, events[0]), events[1..])
  }

  predicate Initial(s: Store) {
    s.sessions == map[] && s.objects == map[] && s.assets == map[] && s.requests == map[]
  }

  // ---- the invariant -----------------------------------------------------------------------

  /** A request that won its session: it holds the consumed record or has inserted the asset. */
  predicate Won(s: Store, request: Id) {
    request in s.requests && (s.requests[request].phase.Holding? || s.requests[request].phase.Done?)
  }

  /** What a request keeps of its admission. */
  ghost predicate Fits(grant: Grant, r: Request) {
    && r.tokenHash == grant.tokenHash
    && 1 <= |r.body| <= 536870912 && grant.size in {None, Some(|r.body|)}
    && grant.mime in {None, Some(r.mime)} && TypeFits(grant.assetType, r.mime)
    && r.key == StorageKey(grant.tenant, grant.customer, r.upload,
                           if r.mime in EXTENSIONS then EXTENSIONS[r.mime] else "bin")
  }

  ghost predicate Knows(s: Store, r: Request) {
    && r.upload in s.sessions && Fits(s.sessions[r.upload].grant, r)
    && (r.phase.Holding? ==> r.phase.record == s.sessions[r.upload].grant)
  }

  ghost predicate RequestsKnowTheirSession(s: Store) {
    forall r | r in s.requests :: Knows(s, s.requests[r])
  }

  ghost predicate WinnersConsumed(s: Store) {
    forall r | Won(s, r) ::
      s.requests[r].upload in s.sessions && s.sessions[s.requests[r].upload].consumedAt.Some?
  }

  ghost predicate OneWinnerEach(s: Store) {
    forall r1, r2 | Won(s, r1) && Won(s, r2) && s.requests[r1].upload == s.requests[r2].upload :: r1 == r2
  }

  ghost predicate ConsumedInTime(s: Store) {
    forall u | u in s.sessions && s.sessions[u].consumedAt.Some? ::
      s.sessions[u].consumedAt.value < s.sessions[u].grant.expiresAt
      && s.sessions[u].consumedAt.value <= s.now
  }

  ghost predicate InsertedBy(s: Store, a: Id, r: Id) {
    At(s, r, Done(a))
  }

  ghost predicate AssetsHaveWinners(s: Store) {
    forall a | a in s.assets :: exists r :: InsertedBy(s, a, r)
  }

  /** What the invariant says of one asset and the request that inserted it. */
  ghost predicate Made(s: Store, a: Id, r: Id)
    requires r in s.requests
  {
    && a in s.assets && s.requests[r].upload in s.sessions
    && s.assets[a] == NewAsset(s.sessions[s.requests[r].upload].grant, s.requests[r])
  }

  ghost predicate WinnersMadeAssets(s: Store) {
    forall a, r | InsertedBy(s, a, r) :: Made(s, a, r)
  }

  ghost predicate Inv(s: Store) {
    && RequestsKnowTheirSession(s)
    && WinnersConsumed(s)
    && OneWinnerEach(s)
    && ConsumedInTime(s)
    && AssetsHaveWinners(s)
    && WinnersMadeAssets(s)
  }

  /** A request enters as it was sent, with the media type that is recorded. */
  lemma AdmittedRequestFits(s: Store, e: Event)
    requires e.Find? && Admitted(s, e)
    ensures var grant, r := s.sessions[e.upload].grant, Admit(s, e);
      && Fits(grant, r) && r.mime == MediaType(grant.mime, e.contentType)
      && r.upload == e.upload && r.tokenHash == e.tokenHash && r.body == e.body && r.phase == Found
  {
    AdmittedIff(s, e);
    ExtensionIsListed(Admit(s, e).mime);
  }

  /** A request that was there changes in its phase alone, and its grant not at all. */
  lemma StepKeepsRequest(s: Store, e: Event, r: Id)
    requires r in s.requests && s.requests[r].upload in s.sessions
    ensures var after := Step(s, e);
      && r in after.requests && after.requests[r] == s.requests[r].(phase := after.requests[r].phase)
      && s.requests[r].upload in after.sessions
      && after.sessions[s.requests[r].upload].grant == s.sessions[s.requests[r].upload].grant
      && (after.requests[r].phase.Holding? ==>
            after.requests[r].phase in {s.requests[r].phase, Holding(s.sessions[s.requests[r].upload].grant)})
  {
  }

  lemma FitsInEachPhase(grant: Grant, r: Request, phase: Phase)
    ensures Fits(grant, r.(phase := phase)) <==> Fits(grant, r)
  {
  }

  lemma StepKeepsRequests(s: Store, e: Event)
    requires RequestsKnowTheirSession(s)
    ensures RequestsKnowTheirSession(Step(s, e))
  {
    var after := Step(s, e);
    forall r | r in after.requests ensures Knows(after, after.requests[r]) {
      if r in s.requests {
        assert Knows(s, s.requests[r]);
        StepKeepsRequest(s, e, r);
        FitsInEachPhase(s.sessions[s.requests[r].upload].grant, s.requests[r], after.requests[r].phase);
      } else {
        AdmittedRequestFits(s, e);
      }
    }
  }

  /** Only a consuming update makes a winner. */
  lemma NewWinnerConsumes(s: Store, e: Event, r: Id)
    requires Won(Step(s, e), r) && !Won(s, r)
    ensures e.Consume? && r == e.request && r in s.requests && Consumable(s, s.requests[r])
    ensures Step(s, e).requests[r].upload == s.requests[r].upload
    ensures Step(s, e).sessions[s.requests[r].upload].consumedAt.Some?
  {
  }

  lemma OldWinnerStays(s: Store, e: Event, r: Id)
    requires WinnersConsumed(s) && Won(s, r)
    ensures r in Step(s, e).requests && Step(s, e).requests[r].upload == s.requests[r].upload
    ensures var upload := s.requests[r].upload;
      upload in Step(s, e).sessions && Step(s, e).sessions[upload].consumedAt.Some?
  {
  }

  lemma StepKeepsWinners(s: Store, e: Event)
    requires WinnersConsumed(s) && OneWinnerEach(s)
    ensures WinnersConsumed(Step(s, e)) && OneWinnerEach(Step(s, e))
  {
    forall r | Won(Step(s, e), r)
      ensures var upload := Step(s, e).requests[r].upload;
        upload in Step(s, e).sessions && Step(s, e).sessions[upload].consumedAt.Some?
    {
      if Won(s, r) {
        OldWinnerStays(s, e, r);
      } else {
        NewWinnerConsumes(s, e, r);
      }
    }
    forall r1, r2 | Won(Step(s, e), r1) && Won(Step(s, e), r2)
      && Step(s, e).requests[r1].upload == Step(s, e).requests[r2].upload
      ensures r1 == r2
    {
      TwoWinners(s, e, r1, r2);
    }
  }

  lemma TwoWinners(s: Store, e: Event, r1: Id, r2: Id)
    requires WinnersConsumed(s) && OneWinnerEach(s)
    requires Won(Step(s, e), r1) && Won(Step(s, e), r2)
    requires Step(s, e).requests[r1].upload == Step(s, e).requests[r2].upload
    ensures r1 == r2
  {
    if Won(s, r1) {
      OldWinnerStays(s, e, r1);
    } else {
      NewWinnerConsumes(s, e, r1);
    }
    if Won(s, r2) {
      OldWinnerStays(s, e, r2);
    } else {
      NewWinnerConsumes(s, e, r2);
    }
  }

  lemma StepKeepsAssetWinners(s: Store, e: Event)
    requires AssetsHaveWinners(s)
    ensures AssetsHaveWinners(Step(s, e))
  {
    var after := Step(s, e);
    forall a | a in after.assets
      ensures exists r :: InsertedBy(after, a, r)
    {
      if a in s.assets {
        var r :| InsertedBy(s, a, r);
        assert InsertedBy(after, a, r);
      } else {
        assert InsertedBy(after, a, e.request);
      }
    }
  }

  lemma StepKeepsMade(s: Store, e: Event, a: Id, r: Id)
    requires InsertedBy(s, a, r) && Made(s, a, r)
    ensures InsertedBy(Step(s, e), a, r) && Made(Step(s, e), a, r)
  {
  }

  lemma InsertMakes(s: Store, e: Event, a: Id, r: Id)
    requires RequestsKnowTheirSession(s) && InsertedBy(Step(s, e), a, r) && !InsertedBy(s, a, r)
    ensures Made(Step(s, e), a, r)
  {
    assert e.Insert? && r == e.request && s.requests[r].phase.Holding?;
  }

  lemma StepKeepsMadeAssets(s: Store, e: Event)
    requires RequestsKnowTheirSession(s) && WinnersMadeAssets(s)
    ensures WinnersMadeAssets(Step(s, e))
  {
    forall a, r | InsertedBy(Step(s, e), a, r) ensures Made(Step(s, e), a, r) {
      if InsertedBy(s, a, r) {
        StepKeepsMade(s, e, a, r);
      } else {
        InsertMakes(s, e, a, r);
      }
    }
  }

  lemma StepKeepsInv(s: Store, e: Event)
    requires Inv(s)
    ensures Inv(Step(s, e))
  {
    StepKeepsRequests(s, e);
    StepKeepsWinners(s, e);
    StepKeepsAssetWinners(s, e);
    StepKeepsMadeAssets(s, e);
    StepKeepsTimes(s, e);
  }

  lemma StepKeepsTimes(s: Store, e: Event)
    requires ConsumedInTime(s)
    ensures ConsumedInTime(Step(s, e))
  {
  }

  /** Grants never change once made, and a consumption is never undone. */
  lemma StepKeepsGrants(s: Store, e: Event)
    ensures forall u | u in s.sessions ::
      && u in Step(s, e).sessions && Step(s, e).sessions[u].grant == s.sessions[u].grant
      && (s.sessions[u].consumedAt.Some? && Inv(s) ==> Step(s, e).sessions[u] == s.sessions[u])
  {
  }

  lemma {:induction false} RunKeepsInv(s: Store, events: seq<Event>)
    requires Inv(s)
    ensures Inv(Run(s, events))
    ensures forall u | u in s.sessions ::
      u in Run(s, events).sessions && Run(s, events).sessions[u].grant == s.sessions[u].grant
    decreases |events|
  {
    if events != [] {
      StepKeepsInv(s, events[0]);
      StepKeepsGrants(s, events[0]);
      RunKeepsInv(Step(s, events[0]), events[1..]);
    }
  }

  // ---- what every interleaving guarantees ----------------------------------------------------

  /** However many requests race on a session, at most one asset comes of it. */
  lemma OneAssetPerSession(s: Store, events: seq<Event>, a1: Id, a2: Id)
    requires Initial(s)
    requires a1 in Run(s, events).assets && a2 in Run(s, events).assets
    requires Run(s, events).assets[a1].storageKey.upload == Run(s, events).assets[a2].storageKey.upload
    ensures a1 == a2
  {
    RunKeepsInv(s, events);
    var end := Run(s, events);
    var r1 :| InsertedBy(end, a1, r1);
    var r2 :| InsertedBy(end, a2, r2);
    assert Won(end, r1) && Won(end, r2);
  }

  /** An asset carries the tenant, application, customer, folder, name, type, role and metadata of
      the grant, a media type that fits, and its session was consumed strictly before it expired. */
  lemma AssetCarriesItsGrant(s: Store, granted: seq<Event>, events: seq<Event>, a: Id)
    requires Initial(s)
    requires a in Run(Run(s, granted), events).assets
    requires Run(Run(s, granted), events).assets[a].storageKey.upload in Run(s, granted).sessions
    ensures var asset := Run(Run(s, granted), events).assets[a];
      var grant := Run(s, granted).sessions[asset.storageKey.upload].grant;
      var sessions := Run(Run(s, granted), events).sessions;
      && asset.storageKey.upload in sessions
      && var session := sessions[asset.storageKey.upload];
      && asset.tenant == grant.tenant && asset.app == grant.app && asset.customer == grant.customer
      && asset.folder == grant.folder && asset.name == grant.fileName && asset.metadata == grant.metadata
      && asset.assetType == grant.assetType && asset.assetRole == grant.assetRole
      && asset.serverKey == grant.serverKey && TypeFits(grant.assetType, asset.mime)
      && session.consumedAt.Some? && session.consumedAt.value < grant.expiresAt
  {
    RunKeepsInv(s, granted);
    RunKeepsInv(Run(s, granted), events);
    var end := Run(Run(s, granted), events);
    var r :| InsertedBy(end, a, r);
    assert Won(end, r);
  }

  /** Its recorded size is that of the bytes it was made of, within the limits, and as declared if the grant
      declared one; its media type is the granted one if there is one; it lies under the tenant and the
      customer of the grant; and exactly videos await processing. */
  lemma AssetFitsItsGrant(s: Store, events: seq<Event>, a: Id)
    requires Initial(s) && a in Run(s, events).assets
    ensures var asset, sessions := Run(s, events).assets[a], Run(s, events).sessions;
      && asset.storageKey.upload in sessions
      && var grant := sessions[asset.storageKey.upload].grant;
      && asset.size == |asset.checksumOf| && 1 <= asset.size <= 536870912
      && grant.size in {None, Some(asset.size)} && grant.mime in {None, Some(asset.mime)}
      && asset.storageKey.tenant == grant.tenant && asset.storageKey.customer == grant.customer
      && asset.storageKey.extension == (if asset.mime in EXTENSIONS then EXTENSIONS[asset.mime] else "bin")
      && (asset.processing <==> grant.assetType == Video)
  {
    RunKeepsInv(s, events);
    var r :| InsertedBy(Run(s, events), a, r);
  }

  /** A new session can be used for 15 minutes from its creation. */
  lemma GrantLastsFifteenMinutes(s: Store, upload: Id, grant: Grant, events: seq<Event>)
    requires Inv(s) && upload !in s.sessions
    ensures var granted := Step(s, CreateGrant(upload, grant));
      && granted == s.(sessions := s.sessions[upload := granted.sessions[upload]])
      && granted.sessions[upload].consumedAt == None
      && granted.sessions[upload].grant == grant.(expiresAt := s.now + 900)
    ensures var sessions := Run(Step(s, CreateGrant(upload, grant)), events).sessions;
      && upload in sessions
      && (sessions[upload].consumedAt.Some? ==> s.now <= sessions[upload].consumedAt.value < s.now + 900)
  {
    StepKeepsInv(s, CreateGrant(upload, grant));
    var granted := Step(s, CreateGrant(upload, grant));
    RunKeepsInv(granted, events);
    ConsumedAfterGrant(granted, upload, s.now, events);
  }

  /** Left alone, it can be used exactly for less than 15 minutes. */
  lemma GrantUsableIff(s: Store, upload: Id, grant: Grant, seconds: nat)
    requires upload !in s.sessions
    ensures var later := Step(Step(s, CreateGrant(upload, grant)), Tick(seconds));
      upload in later.sessions && (Usable(later, later.sessions[upload]) <==> seconds < 900)
  {
  }

  lemma {:induction false} ConsumedAfterGrant(s: Store, upload: Id, since: Time, events: seq<Event>)
    requires since <= s.now && upload in s.sessions
    requires s.sessions[upload].consumedAt.Some? ==> s.sessions[upload].consumedAt.value >= since
    ensures var sessions := Run(s, events).sessions;
      upload in sessions && (sessions[upload].consumedAt.Some? ==> sessions[upload].consumedAt.value >= since)
    decreases |events|
  {
    if events != [] {
      ConsumedAfterGrant(Step(s, events[0]), upload, since, events[1..]);
    }
  }

  /** A request that comes to consume its session gets it exactly if the session still has its token, is
      not consumed and is not over. */
  lemma ConsumesIff(s: Store, request: Id)
    requires At(s, request, Stored) && s.requests[request].upload in s.sessions
    ensures var r, after := s.requests[request], Step(s, Consume(request));
      var session := s.sessions[r.upload];
      && (after.requests[request].phase == Holding(session.grant) <==>
            session.grant.tokenHash == r.tokenHash && session.consumedAt == None && s.now < session.grant.expiresAt)
      && (after.requests[request].phase != Holding(session.grant) ==> after == SetPhase(s, request, Failed))
  {
  }

  // ---- stored bytes ------------------------------------------------------------------------

  /** The object under an asset's key is what its checksum was computed from. */
  predicate BytesMatch(s: Store) {
    forall a | a in s.assets ::
      s.assets[a].storageKey in s.objects && s.objects[s.assets[a].storageKey] == s.assets[a].checksumOf
  }

  /** The two steps that can part them: a put over an asset whose checksum is of other bytes, and an
      insert after another request has put over the winner's bytes. */
  predicate KeepsBytes(s: Store, e: Event) {
    match e
    case Put(request) => At(s, request, Found) ==>
      forall a | a in s.assets && s.assets[a].storageKey == s.requests[request].key ::
        s.assets[a].checksumOf == s.requests[request].body
    case Insert(request, newAsset) =>
      request in s.requests && s.requests[request].phase.Holding? && newAsset !in s.assets ==>
        var r := s.requests[request];
        r.key in s.objects && s.objects[r.key] == r.body
    case _ => true
  }

  lemma BytesMatchIff(s: Store, e: Event)
    requires BytesMatch(s)
    ensures BytesMatch(Step(s, e)) <==> KeepsBytes(s, e)
  {
    var after := Step(s, e);
    if e.Insert? && e.request in s.requests && s.requests[e.request].phase.Holding? && e.newAsset !in s.assets {
      assert after.assets[e.newAsset].storageKey == s.requests[e.request].key;
      assert forall a | a in s.assets :: after.assets[a] == s.assets[a];
    } else if e.Put? && At(s, e.request, Found) {
      assert after.assets == s.assets;
      assert after.objects[s.requests[e.request].key] == s.requests[e.request].body;
    }
  }

  lemma RunThree(s: Store, events: seq<Event>)
    requires |events| == 3
    ensures Run(s, events) == Step(Step(Step(s, events[0]), events[1]), events[2])
  {
    var s1 := Step(s, events[0]);
    var s2 := Step(s1, events[1]);
    assert Run(s2, events[1..][1..]) == Run(Step(s2, events[2]), events[1..][1..][1..]);
  }

  lemma RunFour(s: Store, events: seq<Event>)
    requires |events| == 4
    ensures Run(s, events) == Step(Step(Step(Step(s, events[0]), events[1]), events[2]), events[3])
  {
    RunThree(Step(s, events[0]), events[1..]);
  }

  lemma {:induction false} RunAppends(s: Store, first: seq<Event>, second: seq<Event>)
    ensures Run(s, first + second) == Run(Run(s, first), second)
    decreases |first|
  {
    if first == [] {
      assert first + second == second;
    } else {
      RunAppends(Step(s, first[0]), first[1..], second);
      assert (first + second)[1..] == first[1..] + second;
    }
  }

  // ---- requests one after another --------------------------------------------------------------

  predicate Unfinished(s: Store, request: Id) {
    request in s.requests && !s.requests[request].phase.Done? && !s.requests[request].phase.Failed?
  }

  /** No request enters a session while another is still at work on it. */
  predicate OneAtATime(s: Store, events: seq<Event>)
    decreases |events|
  {
    if events == [] then true
    else
      && (events[0].Find? ==> !Occupied(s, events[0].upload))
      && OneAtATime(Step(s, events[0]), events[1..])
  }

  predicate Occupied(s: Store, upload: Id) {
    exists r :: r in s.requests && Unfinished(s, r) && s.requests[r].upload == upload
  }

  /** Then a request that has not consumed its session finds it unconsumed, and the bytes it put are
      there as long as it is at work. */
  ghost predicate Alone(s: Store) {
    && (forall r1, r2 | Unfinished(s, r1) && Unfinished(s, r2) ::
          s.requests[r1].upload == s.requests[r2].upload ==> r1 == r2)
    && (forall r | At(s, r, Found) || At(s, r, Stored) ::
          s.requests[r].upload in s.sessions && s.sessions[s.requests[r].upload].consumedAt.None?)
    && (forall r | Unfinished(s, r) && !At(s, r, Found) ::
          s.requests[r].key in s.objects && s.objects[s.requests[r].key] == s.requests[r].body)
  }

  lemma SameKeySameUpload(s: Store, r1: Id, r2: Id)
    requires RequestsKnowTheirSession(s) && r1 in s.requests && r2 in s.requests
    requires s.requests[r1].key == s.requests[r2].key
    ensures s.requests[r1].upload == s.requests[r2].upload
  {
  }

  lemma PutKeepsAlone(s: Store, request: Id)
    requires RequestsKnowTheirSession(s) && Alone(s)
    ensures Alone(Step(s, Put(request)))
  {
    var after := Step(s, Put(request));
    if At(s, request, Found) {
      forall r | Unfinished(after, r) && !At(after, r, Found)
        ensures after.requests[r].key in after.objects && after.objects[after.requests[r].key] == after.requests[r].body
      {
        if r != request {
          assert Unfinished(s, r) && Unfinished(s, request);
          if s.requests[r].key == s.requests[request].key {
            SameKeySameUpload(s, r, request);
            assert false;
          }
        }
      }
    }
  }

  lemma ConsumeKeepsAlone(s: Store, request: Id)
    requires Alone(s)
    ensures Alone(Step(s, Consume(request)))
  {
    var after := Step(s, Consume(request));
    forall r | At(after, r, Found) || At(after, r, Stored)
      ensures after.requests[r].upload in after.sessions && after.sessions[after.requests[r].upload].consumedAt.None?
    {
      assert Unfinished(s, r) && after.requests[r] == s.requests[r];
      if At(s, request, Stored) {
        assert Unfinished(s, request) && r != request;
      }
    }
  }

  lemma FindKeepsAlone(s: Store, e: Event)
    requires e.Find? && Alone(s) && !Occupied(s, e.upload)
    ensures Alone(Step(s, e))
  {
  }

  lemma FinishKeepsAlone(s: Store, e: Event)
    requires (e.Insert? || e.Fail?) && Alone(s)
    ensures Alone(Step(s, e))
  {
    var after := Step(s, e);
    assert forall r | Unfinished(after, r) :: Unfinished(s, r) && after.requests[r] == s.requests[r];
  }

  lemma GrantKeepsAlone(s: Store, e: Event)
    requires (e.CreateGrant? || e.Tick?) && Alone(s)
    ensures Alone(Step(s, e))
  {
    var after := Step(s, e);
    assert after.requests == s.requests && after.objects == s.objects;
    assert forall u | u in s.sessions :: u in after.sessions && after.sessions[u] == s.sessions[u];
    assert forall r | At(after, r, Found) || At(after, r, Stored) :: At(s, r, Found) || At(s, r, Stored);
    assert forall r | Unfinished(after, r) :: Unfinished(s, r);
  }

  lemma StepKeepsAlone(s: Store, e: Event)
    requires RequestsKnowTheirSession(s) && Alone(s)
    requires e.Find? ==> !Occupied(s, e.upload)
    ensures Alone(Step(s, e))
  {
    match e {
      case Find(_, _, _, _, _) => FindKeepsAlone(s, e);
      case Put(request) => PutKeepsAlone(s, request);
      case Consume(request) => ConsumeKeepsAlone(s, request);
      case Insert(_, _) => FinishKeepsAlone(s, e);
      case Fail(_) => FinishKeepsAlone(s, e);
      case _ => GrantKeepsAlone(s, e);
    }
  }

  lemma FoundHasNoAsset(s: Store, request: Id, a: Id)
    requires Inv(s) && Alone(s) && At(s, request, Found) && a in s.assets
    ensures s.assets[a].storageKey != s.requests[request].key
  {
    var r :| InsertedBy(s, a, r);
    assert Won(s, r);
    if s.requests[r].key == s.requests[request].key {
      SameKeySameUpload(s, r, request);
      assert false;
    }
  }

  lemma AloneKeepsBytes(s: Store, e: Event)
    requires Inv(s) && Alone(s)
    ensures KeepsBytes(s, e)
  {
    if e.Put? && At(s, e.request, Found) {
      forall a | a in s.assets ensures s.assets[a].storageKey != s.requests[e.request].key {
        FoundHasNoAsset(s, e.request, a);
      }
    } else if e.Insert? && e.request in s.requests && s.requests[e.request].phase.Holding? {
      assert Unfinished(s, e.request);
    }
  }

  /** As long as the requests on one session come one after another, retries included, every asset's
      bytes stay those of its checksum. */
  lemma {:induction false} SequentialRequestsKeepBytes(s: Store, events: seq<Event>)
    requires Inv(s) && Alone(s) && BytesMatch(s) && OneAtATime(s, events)
    ensures BytesMatch(Run(s, events))
    decreases |events|
  {
    if events != [] {
      AloneKeepsBytes(s, events[0]);
      BytesMatchIff(s, events[0]);
      StepKeepsAlone(s, events[0]);
      StepKeepsInv(s, events[0]);
      SequentialRequestsKeepBytes(Step(s, events[0]), events[1..]);
    }
  }

  // ---- exactly when requests at work can part bytes and checksums ---------------------------------

  /** The request has its asset, holds the session, or could still consume it. */
  predicate CanWin(s: Store, r: Id) {
    && r in s.requests
    && (s.requests[r].phase.Done? || s.requests[r].phase.Holding?
        || ((s.requests[r].phase.Found? || s.requests[r].phase.Stored?) && Consumable(s, s.requests[r])))
  }

  /** Another request of the same key and other bytes has not put them yet. */
  predicate Threatened(s: Store, r: Id, rival: Id)
    requires r in s.requests
  {
    At(s, rival, Found) && s.requests[rival].key == s.requests[r].key && s.requests[rival].body != s.requests[r].body
  }

  /** The request has put its bytes and they are no longer there. */
  predicate Overwritten(s: Store, r: Id)
    requires r in s.requests
  {
    && (s.requests[r].phase.Stored? || s.requests[r].phase.Holding?)
    && !(s.requests[r].key in s.objects && s.objects[s.requests[r].key] == s.requests[r].body)
  }

  ghost predicate Endangered(s: Store, r: Id) {
    CanWin(s, r) && (Overwritten(s, r) || exists rival :: Threatened(s, r, rival))
  }

  ghost predicate Breakable(s: Store) {
    exists r :: Endangered(s, r)
  }

  predicate NoNewRequests(events: seq<Event>) {
    forall i | 0 <= i < |events| :: !events[i].Find?
  }

  lemma StepKeepsCanWin(s: Store, e: Event, r: Id)
    requires !e.Find? && CanWin(Step(s, e), r)
    requires r in s.requests ==> s.requests[r].upload in s.sessions
    ensures CanWin(s, r) && Step(s, e).requests[r].key == s.requests[r].key
    ensures Step(s, e).requests[r].body == s.requests[r].body
  {
  }

  lemma StepKeepsThreat(s: Store, e: Event, r: Id, rival: Id)
    requires !e.Find? && r in s.requests && r in Step(s, e).requests && Threatened(Step(s, e), r, rival)
    ensures Threatened(s, r, rival)
  {
  }

  /** Bytes are overwritten by the put of a rival only. */
  lemma StepOverwrites(s: Store, e: Event, r: Id)
    requires RequestsKnowTheirSession(s) && !e.Find? && CanWin(Step(s, e), r) && CanWin(s, r)
    requires Overwritten(Step(s, e), r) && !Overwritten(s, r)
    ensures e.Put? && Threatened(s, r, e.request)
  {
  }

  lemma StepKeepsUnbreakable(s: Store, e: Event)
    requires RequestsKnowTheirSession(s) && !e.Find? && !Breakable(s)
    ensures !Breakable(Step(s, e))
  {
    if r :| Endangered(Step(s, e), r) {
      StepKeepsCanWin(s, e, r);
      assert !Endangered(s, r);
      if Overwritten(Step(s, e), r) {
        StepOverwrites(s, e, r);
      } else {
        var rival :| Threatened(Step(s, e), r, rival);
        StepKeepsThreat(s, e, r, rival);
      }
      assert false;
    }
  }

  lemma UnbreakableKeepsBytes(s: Store, e: Event)
    requires Inv(s) && BytesMatch(s) && !Breakable(s)
    ensures BytesMatch(Step(s, e))
  {
    BytesMatchIff(s, e);
    if e.Put? && At(s, e.request, Found) {
      forall a | a in s.assets && s.assets[a].storageKey == s.requests[e.request].key
        ensures s.assets[a].checksumOf == s.requests[e.request].body
      {
        var r :| InsertedBy(s, a, r);
        assert Made(s, a, r);
        assert !Endangered(s, r) && !Threatened(s, r, e.request);
      }
    } else if e.Insert? && e.request in s.requests && s.requests[e.request].phase.Holding? {
      assert !Endangered(s, e.request);
    }
  }

  lemma {:induction false} UnbreakableStaysMatched(s: Store, events: seq<Event>)
    requires Inv(s) && BytesMatch(s) && !Breakable(s) && NoNewRequests(events)
    ensures BytesMatch(Run(s, events))
    decreases |events|
  {
    if events != [] {
      UnbreakableKeepsBytes(s, events[0]);
      StepKeepsUnbreakable(s, events[0]);
      StepKeepsInv(s, events[0]);
      UnbreakableStaysMatched(Step(s, events[0]), events[1..]);
    }
  }

  lemma {:induction false} UnusedId(ids: set<Id>) returns (id: Id)
    ensures forall x | x in ids :: x < id
    decreases |ids|
  {
    id := 0;
    if ids != {} {
      assert (forall x :: x !in ids) ==> ids == {};
      var x: Id :| x in ids;
      var below := UnusedId(ids - {x});
      id := if x < below then below else x + 1;
      forall y | y in ids ensures y < id {
        assert y == x || y in ids - {x};
      }
    }
  }

  /** A request that holds its session and whose bytes are gone parts them by its insert. */
  lemma InsertBreaks(s: Store, r: Id) returns (events: seq<Event>)
    requires r in s.requests && s.requests[r].phase.Holding? && Overwritten(s, r)
    ensures NoNewRequests(events) && !BytesMatch(Run(s, events))
  {
    var a := UnusedId(s.assets.Keys);
    events := [Insert(r, a)];
    assert events[1..] == [];
    var after := Step(s, events[0]);
    assert Run(s, events) == after;
    assert after.assets[a].storageKey == s.requests[r].key && after.assets[a].checksumOf == s.requests[r].body;
  }

  lemma ConsumeBreaks(s: Store, r: Id) returns (events: seq<Event>)
    requires At(s, r, Stored) && Consumable(s, s.requests[r]) && Overwritten(s, r)
    ensures NoNewRequests(events) && !BytesMatch(Run(s, events))
  {
    var held := Step(s, Consume(r));
    var rest := InsertBreaks(held, r);
    events := [Consume(r)] + rest;
    RunFirst(s, Consume(r), rest);
  }

  lemma OverwrittenBreaks(s: Store, r: Id) returns (events: seq<Event>)
    requires CanWin(s, r) && Overwritten(s, r)
    ensures NoNewRequests(events) && !BytesMatch(Run(s, events))
  {
    if s.requests[r].phase.Holding? {
      events := InsertBreaks(s, r);
    } else {
      events := ConsumeBreaks(s, r);
    }
  }

  lemma RunFirst(s: Store, e: Event, rest: seq<Event>)
    ensures Run(s, [e] + rest) == Run(Step(s, e), rest)
  {
    assert ([e] + rest)[1..] == rest;
  }

  /** The put of a rival overwrites. */
  lemma RivalBreaks(s: Store, r: Id, rival: Id) returns (events: seq<Event>)
    requires CanWin(s, r) && (s.requests[r].phase.Stored? || s.requests[r].phase.Holding?) && Threatened(s, r, rival)
    ensures NoNewRequests(events) && !BytesMatch(Run(s, events))
  {
    var after := Step(s, Put(rival));
    assert after.requests[r] == s.requests[r];
    var rest := OverwrittenBreaks(after, r);
    events := [Put(rival)] + rest;
    RunFirst(s, Put(rival), rest);
  }

  lemma ThreatBreaks(s: Store, r: Id, rival: Id) returns (events: seq<Event>)
    requires Inv(s) && CanWin(s, r) && Threatened(s, r, rival)
    ensures NoNewRequests(events) && !BytesMatch(Run(s, events))
  {
    if s.requests[r].phase.Done? {
      var a := s.requests[r].phase.asset;
      assert InsertedBy(s, a, r) && Made(s, a, r);
      events := [Put(rival)];
      RunFirst(s, Put(rival), []);
      assert [Put(rival)] + [] == events;
      var after := Step(s, Put(rival));
      assert after.assets[a] == s.assets[a] && after.objects[s.requests[r].key] == s.requests[rival].body;
    } else if s.requests[r].phase.Found? {
      var after := Step(s, Put(r));
      assert r != rival && after.requests[rival] == s.requests[rival];
      var rest := RivalBreaks(after, r, rival);
      events := [Put(r)] + rest;
      RunFirst(s, Put(r), rest);
    } else {
      events := RivalBreaks(s, r, rival);
    }
  }

  /** From every state of the protocol in which bytes and checksums agree: the requests at work can part
      them, in some order of their steps, exactly when one that has won or can still win has lost its
      bytes already, or has a rival for its key that has yet to put other bytes. */
  lemma BytesBreakableIff(s: Store)
    requires Inv(s) && BytesMatch(s)
    ensures Breakable(s) <==> exists events :: NoNewRequests(events) && !BytesMatch(Run(s, events))
  {
    if Breakable(s) {
      var r :| Endangered(s, r);
      if Overwritten(s, r) {
        var events := OverwrittenBreaks(s, r);
      } else {
        var rival :| Threatened(s, r, rival);
        var events := ThreatBreaks(s, r, rival);
      }
    } else {
      forall events | NoNewRequests(events) ensures BytesMatch(Run(s, events)) {
        UnbreakableStaysMatched(s, events);
      }
    }
  }

  /** Any two requests that a session admits with different bytes for one key get it into that state. */
  lemma RacingRequestsAreBreakable(s: Store, first: Event, second: Event)
    requires first.Find? && second.Find? && first.request != second.request
    requires first.request !in s.requests && second.request !in s.requests
    requires Admitted(s, first) && Admitted(s, second) && Admit(s, first).key == Admit(s, second).key
    requires first.body != second.body
    ensures Breakable(Step(Step(s, first), second))
  {
    var both := Step(Step(s, first), second);
    assert both.requests[first.request] == Admit(s, first) && both.requests[second.request] == Admit(s, second);
    assert Threatened(both, first.request, second.request);
    assert Endangered(both, first.request);
  }

  /** From every state some run ends with other bytes than recorded: a new grant and two requests that find
      it before either consumes it are enough. */
  lemma RacingPutOverwrites(s: Store)
    requires Inv(s) && BytesMatch(s)
    ensures exists events :: !BytesMatch(Run(s, events))
  {
    var upload := UnusedId(s.sessions.Keys);
    var first := UnusedId(s.requests.Keys);
    var grant := Grant(1, 1, 1, None, 1, "hash", "f", File, "upload", None, None, map[], 0);
    var create := CreateGrant(upload, grant);
    var find1, find2 := Find(first, upload, "hash", [10], None), Find(first + 1, upload, "hash", [20], None);
    var granted := Step(s, create);
    assert granted.sessions[upload].grant == grant.(expiresAt := s.now + TOKEN_TTL);
    var found := Step(granted, find1);
    var both := Step(found, find2);
    RacingRequestsAreBreakable(granted, find1, find2);
    BytesStay(s, create);
    BytesStay(granted, find1);
    BytesStay(found, find2);
    BytesBreakableIff(both);
    var rest :| NoNewRequests(rest) && !BytesMatch(Run(both, rest));
    RunFirst(found, find2, rest);
    RunFirst(granted, find1, [find2] + rest);
    RunFirst(s, create, [find1] + ([find2] + rest));
  }

  lemma BytesStay(s: Store, e: Event)
    requires Inv(s) && BytesMatch(s) && (e.Find? || e.CreateGrant?)
    ensures Inv(Step(s, e)) && BytesMatch(Step(s, e))
  {
    StepKeepsInv(s, e);
    BytesMatchIff(s, e);
  }

  // ---- one request, undisturbed ------------------------------------------------------------------

  /** What finding the session and putting the bytes amount to, */
  lemma FindThenPut(s: Store, find: Event)
    requires find.Find? && find.request !in s.requests && Admitted(s, find)
    ensures var f, r := find.request, Admit(s, find);
      Step(Step(s, find), Put(f))
      == s.(requests := s.requests[f := r.(phase := Stored)], objects := s.objects[r.key := r.body])
  {
  }

  /** then consuming it and inserting the asset, */
  lemma ConsumeThenInsert(s: Store, f: Id, newAsset: Id)
    requires At(s, f, Stored) && Consumable(s, s.requests[f]) && newAsset !in s.assets
    ensures var r := s.requests[f];
      var session := s.sessions[r.upload];
      Step(Step(s, Consume(f)), Insert(f, newAsset)) ==
      s.(sessions := s.sessions[r.upload := session.(consumedAt := Some(s.now))],
         assets := s.assets[newAsset := NewAsset(session.grant, r)],
         requests := s.requests[f := r.(phase := Done(newAsset))])
  {
    var r := s.requests[f];
    var consumed := Step(s, Consume(f));
    assert consumed.requests == s.requests[f := r.(phase := Holding(s.sessions[r.upload].grant))];
    assert consumed.requests[f := r.(phase := Done(newAsset))] == s.requests[f := r.(phase := Done(newAsset))];
  }

  /** and what the four statements amount to. */
  lemma UndisturbedRun(s: Store, find: Event, newAsset: Id)
    requires find.Find? && find.request !in s.requests && newAsset !in s.assets
    ensures var f := find.request;
      Run(s, [find, Put(f), Consume(f), Insert(f, newAsset)]) ==
      if !Admitted(s, find) then s
      else
        var r, session := Admit(s, find), s.sessions[find.upload];
        Store(s.now, s.sessions[find.upload := session.(consumedAt := Some(s.now))], s.objects[r.key := r.body],
              s.assets[newAsset := NewAsset(session.grant, r)], s.requests[f := r.(phase := Done(newAsset))])
  {
    var f := find.request;
    RunFour(s, [find, Put(f), Consume(f), Insert(f, newAsset)]);
    if Admitted(s, find) {
      var r := Admit(s, find);
      FindThenPut(s, find);
      var stored := s.(requests := s.requests[f := r.(phase := Stored)], objects := s.objects[r.key := r.body]);
      ConsumeThenInsert(stored, f, newAsset);
      assert stored.requests[f := r.(phase := Done(newAsset))] == s.requests[f := r.(phase := Done(newAsset))];
      assert r.(phase := Stored).(phase := Done(newAsset)) == r.(phase := Done(newAsset));
    }
  }

  class UploadTables {
    var now: Time
    var sessions: map<Id, Session>
    var objects: map<StorageKey, Body>
    var assets: map<Id, Asset>
    ghost var requests: map<Id, Request>

    ghost function Contents(): Store
      reads this
    {
      Store(now, sessions, objects, assets, requests)
    }

    /** `newAsset` is the id drawn for the asset; `request` names the request in the ghost record. */
    method UploadCustomerAsset(
      ghost request: Id, newAsset: Id, upload: Id, tokenHash: string, body: Body, contentType: Option<string>)
      returns (ok: bool)
      requires request !in requests && newAsset !in assets
      modifies this
      ensures var find := Find(request, upload, tokenHash, body, contentType);
        && Contents() == Run(old(Contents()), [find, Put(request), Consume(request), Insert(request, newAsset)])
        && ok == Admitted(old(Contents()), find)
      ensures ok <==>
        && 1 <= |body| <= 536870912
        && upload in old(sessions)
        && var session, grant := old(sessions)[upload], old(sessions)[upload].grant;
          && grant.tokenHash == tokenHash && session.consumedAt == None && old(now) < grant.expiresAt
          && grant.size in {None, Some(|body|)}
          && TypeFits(grant.assetType, MediaType(grant.mime, contentType))
      ensures ok ==>
        && newAsset in assets && assets - {newAsset} == old(assets)
        && assets[newAsset].storageKey in objects && objects[assets[newAsset].storageKey] == body
        && upload in sessions && sessions[upload].consumedAt == Some(now)
      ensures !ok ==> Contents() == old(Contents())
    {
      UndisturbedRun(Contents(), Find(request, upload, tokenHash, body, contentType), newAsset);
      AdmittedIff(Contents(), Find(request, upload, tokenHash, body, contentType));
      if body == [] || |body| > MAX_UPLOAD_BYTES {
        return false;
      }
      if upload !in sessions || sessions[upload].grant.tokenHash != tokenHash {
        return false;
      }
      var session := sessions[upload];
      if session.consumedAt.Some? || session.grant.expiresAt <= now {
        return false;
      }
      if session.grant.size.Some? && session.grant.size.value != |body| {
        return false;
      }
      var mime := ResolveMime(session.grant, contentType);
      if !MimeMatches(session.grant.assetType, mime) {
        return false;
      }
      var key := StorageKey(session.grant.tenant, session.grant.customer, upload, ExtensionForMime(mime));
      objects := objects[key := body];
      sessions := sessions[upload := session.(consumedAt := Some(now))];
      var g := session.grant;
      assets := assets[newAsset := Asset(
        g.tenant, g.app, g.customer, g.folder, g.serverKey, g.fileName, g.assetType, g.assetRole,
        g.assetType == Video, key, mime, |body|, body, g.metadata)];
      requests := requests[request := Request(upload, tokenHash, mime, key, body, Done(newAsset))];
      return true;
    }
  }
}
