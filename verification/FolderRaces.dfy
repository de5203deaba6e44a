/** The handlers of the asset library when their statements interleave. A handler first runs its
    checks, one query each, and then its write, which looks at none of them again; anything may happen
    in between. A granted upload has its check in one request and its write in another. */
module FolderRaces {
  import opened Wrappers
  import opened Folders

  /** What a handler has in hand. A redeemed grant carries the folder that was checked for the grant. */
  datatype Job =
    | MakeFolder(scope: Scope, folder: Option<Id>, newId: Id)
    | MoveFolder(scope: Scope, id: Id, folder: Option<Id>)
    | RemoveFolder(scope: Scope, id: Id)
    | MakeGrant(scope: Scope, folder: Option<Id>, newId: Id)
    | MakeAsset(scope: Scope, folder: Option<Id>, newId: Id)
    | RefileAsset(scope: Scope, id: Id, folder: Option<Id>)
    | Redeem(scope: Scope, folder: Option<Id>, newId: Id)

  datatype Flight = Flight(job: Job, passed: nat)

  datatype Grant = Grant(scope: Scope, folder: Option<Id>)

  datatype Library = Library(folders: Table, assets: map<Id, Asset>, grants: map<Id, Grant>, flights: map<Id, Flight>)

  /** A write that the database refuses for other reasons is one with `written` false. */
  datatype Event =
    | Begin(flight: Id, job: Job)
    | Check(flight: Id)
    | Write(flight: Id, written: bool)
    | Consume(flight: Id, grant: Id, newId: Id)
    | DropAsset(key: Key, id: Id)
    | Abandon(flight: Id)

  predicate AssetFound(s: Library, key: Key, id: Id) {
    id in s.assets && !s.assets[id].deleted && s.assets[id].scope.key == key
  }

  // ---- checks --------------------------------------------------------------------------------

  function Checks(job: Job): nat {
    match job
    case MoveFolder(_, _, _) => 2
    case RemoveFolder(_, _) => 2
    case Redeem(_, _, _) => 0
    case _ => 1
  }

  /** The row that a handler loads first, which tells it the customer. */
  predicate Starts(s: Library, job: Job) {
    match job
    case MoveFolder(scope, id, _) => LiveIn(s.folders, scope, id)
    case RemoveFolder(scope, id) => LiveIn(s.folders, scope, id)
    case RefileAsset(scope, id, _) => AssetFound(s, scope.key, id) && s.assets[id].scope == scope
    case Redeem(_, _, _) => false
    case _ => true
  }

  ghost predicate Passes(s: Library, job: Job, check: nat) {
    match job
    case MoveFolder(scope, id, folder) =>
      if check == 0 then Belongs(s.folders, scope, folder) else CanMove(s.folders, id, folder)
    case RemoveFolder(scope, id) =>
      if check == 0 then Children(s.folders, scope, {id}) == {} else !HoldsAsset(s.assets, scope, id)
    case _ => Belongs(s.folders, job.scope, job.folder)
  }

  // ---- writes --------------------------------------------------------------------------------

  /** The write finds a row to change, or its new id is new. */
  predicate Effective(s: Library, job: Job) {
    match job
    case MakeFolder(_, _, newId) => newId !in s.folders
    case MoveFolder(scope, id, _) => Found(s.folders, scope.key, id)
    case RemoveFolder(scope, id) => Found(s.folders, scope.key, id)
    case MakeGrant(_, _, newId) => newId !in s.grants
    case RefileAsset(scope, id, _) => AssetFound(s, scope.key, id)
    case _ => job.newId !in s.assets
  }

  function Apply(s: Library, job: Job): Library
    requires Effective(s, job)
  {
    match job
    case MakeFolder(scope, folder, newId) => s.(folders := s.folders[newId := Folder(scope, folder, false)])
    case MoveFolder(_, id, folder) => s.(folders := SetParent(s.folders, id, folder))
    case RemoveFolder(_, id) => s.(folders := s.folders[id := s.folders[id].(deleted := true)])
    case MakeGrant(scope, folder, newId) => s.(grants := s.grants[newId := Grant(scope, folder)])
    case RefileAsset(_, id, folder) => s.(assets := s.assets[id := s.assets[id].(folder := folder)])
    case _ => s.(assets := s.assets[job.newId := Asset(job.scope, job.folder, false)])
  }

  /** A write is due when its flight has passed its checks, the database takes it and it has effect. */
  predicate Due(s: Library, e: Event) {
    && e.Write? && e.written && e.flight in s.flights
    && s.flights[e.flight].passed == Checks(s.flights[e.flight].job)
    && Effective(s, s.flights[e.flight].job)
  }

  function Land(s: Library, flight: Id): Library {
    s.(flights := s.flights - {flight})
  }

  ghost function Step(s: Library, e: Event): Library {
    match e
    case Begin(flight, job) =>
      if flight in s.flights || !Starts(s, job) then s else s.(flights := s.flights[flight := Flight(job, 0)])
    case Check(flight) =>
      if flight !in s.flights || s.flights[flight].passed >= Checks(s.flights[flight].job) then s
      else
        var f := s.flights[flight];
        if Passes(s, f.job, f.passed) then s.(flights := s.flights[flight := f.(passed := f.passed + 1)])
        else Land(s, flight)
    case Write(flight, _) =>
      if flight !in s.flights || s.flights[flight].passed != Checks(s.flights[flight].job) then s
      else Land(if Due(s, e) then Apply(s, s.flights[flight].job) else s, flight)
    case Consume(flight, grant, newId) =>
      if flight in s.flights || grant !in s.grants then s
      else
        var g := s.grants[grant];
        s.(grants := s.grants - {grant}, flights := s.flights[flight := Flight(Redeem(g.scope, g.folder, newId), 0)])
    case DropAsset(key, id) =>
      if AssetFound(s, key, id) then s.(assets := s.assets[id := s.assets[id].(deleted := true)]) else s
    case Abandon(flight) => Land(s, flight)
  }

  ghost function Run(s: Library, events: seq<Event>): Library
    decreases |events|
  {
    if events == [] then s else Run(Step(s, events[0]), events[1..])
  }

  /** The checks of each handler in their order: moves and removals have two, a redeemed grant has none. */
  ghost predicate Holds(s: Library, job: Job, check: nat) {
    match job
    case MoveFolder(scope, id, folder) =>
      folder.Some? ==>
        if check == 0
        then folder.value in s.folders && !s.folders[folder.value].deleted && s.folders[folder.value].scope == scope
        else folder.value != id && !StrictDescendant(s.folders, id, folder.value)
    case RemoveFolder(scope, id) =>
      if check == 0
      then forall child | child in s.folders && s.folders[child].parent == Some(id) ::
             s.folders[child].deleted || s.folders[child].scope != scope
      else forall asset | asset in s.assets && s.assets[asset].folder == Some(id) ::
             s.assets[asset].deleted || s.assets[asset].scope != scope
    case _ =>
      job.folder.Some? ==>
        && job.folder.value in s.folders && !s.folders[job.folder.value].deleted
        && s.folders[job.folder.value].scope == job.scope
  }

  lemma PassesIff(s: Library, job: Job, check: nat)
    ensures Passes(s, job, check) <==> Holds(s, job, check)
  {
    if job.RemoveFolder? {
      var children := Children(s.folders, job.scope, {job.id});
      assert children == {} <==> forall child | child in s.folders :: child !in children;
    }
  }

  /** A handler takes off once its row is found; a check that holds takes it on, one that fails ends it; its write
      ends it as well, without effect if the database refuses it or finds no row. No other table changes by then. */
  lemma HandlerGoesThrough(s: Library, flight: Id, job: Job, passed: nat, written: bool)
    requires passed == if job.MoveFolder? || job.RemoveFolder? then 2 else if job.Redeem? then 0 else 1
    ensures flight !in s.flights ==>
      Step(s, Begin(flight, job)) == if Starts(s, job) then s.(flights := s.flights[flight := Flight(job, 0)]) else s
    ensures flight in s.flights ==> Step(s, Begin(flight, job)) == s
    ensures flight in s.flights && s.flights[flight].job == job && s.flights[flight].passed < passed ==>
      var n := s.flights[flight].passed;
      && Step(s, Check(flight)) == s.(flights :=
           if Holds(s, job, n) then s.flights[flight := Flight(job, n + 1)] else s.flights - {flight})
      && Step(s, Write(flight, written)) == s
    ensures flight in s.flights && s.flights[flight] == Flight(job, passed) ==>
      && Step(s, Check(flight)) == s
      && var after := Step(s, Write(flight, written));
        if written && Effective(s, job)
        then after == Apply(s, job).(flights := s.flights - {flight})
        else after == s.(flights := s.flights - {flight})
  {
    if flight in s.flights {
      PassesIff(s, job, s.flights[flight].passed);
    }
  }

  /** A redeemed grant is used up and carries on as checked; a dropped asset is marked; an abandoned handler is gone. */
  lemma OthersGoThrough(s: Library, flight: Id, grant: Id, newId: Id, key: Key, id: Id)
    ensures var after := Step(s, Consume(flight, grant, newId));
      if flight !in s.flights && grant in s.grants then
        after == s.(grants := s.grants - {grant},
          flights := s.flights[flight := Flight(Redeem(s.grants[grant].scope, s.grants[grant].folder, newId), 0)])
      else after == s
    ensures var after := Step(s, DropAsset(key, id));
      if id in s.assets && !s.assets[id].deleted && s.assets[id].scope.key == key then
        && after == s.(assets := s.assets[id := after.assets[id]])
        && after.assets[id] == Asset(s.assets[id].scope, s.assets[id].folder, true)
      else after == s
    ensures Step(s, Abandon(flight)) == s.(flights := s.flights - {flight})
  {
  }

  // ---- soundness and exactly when a write keeps it -----------------------------------------------

  /** Every live asset lies at the root or in a live folder of its own scope. */
  predicate Housed(s: Library) {
    forall id | id in s.assets && !s.assets[id].deleted :: Belongs(s.folders, s.assets[id].scope, s.assets[id].folder)
  }

  /** What the checks of a folder handler were about still holds. */
  ghost predicate ForestStill(s: Library, job: Job)
    requires Effective(s, job)
  {
    match job
    case MakeFolder(scope, folder, _) => Belongs(s.folders, scope, folder)
    case MoveFolder(_, id, folder) => Belongs(s.folders, s.folders[id].scope, folder) && CanMove(s.folders, id, folder)
    case RemoveFolder(_, id) => Children(s.folders, s.folders[id].scope, {id}) == {}
    case _ => true
  }

  /** The folder that an asset is put into is still there; a folder that is removed still holds no asset. */
  predicate HousedStill(s: Library, job: Job)
    requires Effective(s, job)
  {
    match job
    case RemoveFolder(_, id) => !HoldsAsset(s.assets, s.folders[id].scope, id)
    case MakeAsset(scope, folder, _) => Belongs(s.folders, scope, folder)
    case Redeem(scope, folder, _) => Belongs(s.folders, scope, folder)
    case RefileAsset(_, id, folder) => Belongs(s.folders, s.assets[id].scope, folder)
    case _ => true
  }

  lemma WriteKeepsForestIff(s: Library, job: Job)
    requires Forest(s.folders) && Effective(s, job)
    ensures Forest(Apply(s, job).folders) <==> ForestStill(s, job)
  {
    match job
    case MakeFolder(scope, folder, newId) => CreateKeepsForestIff(s.folders, scope, folder, newId);
    case MoveFolder(_, id, folder) =>
      if folder.Some? {
        MoveKeepsForestIff(s.folders, id, folder.value);
      } else {
        var rank: map<Id, nat> :| Ranked(s.folders, rank);
        assert Ranked(SetParent(s.folders, id, None), rank);
      }
    case RemoveFolder(_, id) => DeleteKeepsForestIff(s.folders, id);
    case _ =>
  }

  lemma WriteKeepsHousedIff(s: Library, job: Job)
    requires Housed(s) && Effective(s, job)
    ensures Housed(Apply(s, job)) <==> HousedStill(s, job)
  {
    var after := Apply(s, job);
    match job
    case MakeAsset(_, _, newId) => assert after.assets[newId].folder == job.folder;
    case Redeem(_, _, newId) => assert after.assets[newId].folder == job.folder;
    case RefileAsset(_, id, _) => assert after.assets[id].folder == job.folder;
    case RemoveFolder(_, id) =>
      if !HousedStill(s, job) {
        var a :| a in s.assets && !s.assets[a].deleted && s.assets[a].scope == s.folders[id].scope
                 && s.assets[a].folder == Some(id);
        assert !Belongs(after.folders, after.assets[a].scope, after.assets[a].folder);
      } else {
        forall a | a in s.assets && !s.assets[a].deleted
          ensures Belongs(after.folders, s.assets[a].scope, s.assets[a].folder)
        {
          assert Belongs(s.folders, s.assets[a].scope, s.assets[a].folder);
        }
      }
    case _ =>
  }

  lemma StepKeepsForestIff(s: Library, e: Event)
    requires Forest(s.folders)
    ensures Forest(Step(s, e).folders) <==> (Due(s, e) ==> ForestStill(s, s.flights[e.flight].job))
  {
    if Due(s, e) {
      WriteKeepsForestIff(s, s.flights[e.flight].job);
    }
  }

  lemma StepKeepsHousedIff(s: Library, e: Event)
    requires Housed(s)
    ensures Housed(Step(s, e)) <==> (Due(s, e) ==> HousedStill(s, s.flights[e.flight].job))
  {
    if Due(s, e) {
      WriteKeepsHousedIff(s, s.flights[e.flight].job);
    }
  }

  // ---- over runs -------------------------------------------------------------------------------

  ghost predicate AlwaysForest(s: Library, events: seq<Event>)
    decreases |events|
  {
    Forest(s.folders) && (events != [] ==> AlwaysForest(Step(s, events[0]), events[1..]))
  }

  ghost predicate AlwaysHoused(s: Library, events: seq<Event>)
    decreases |events|
  {
    Housed(s) && (events != [] ==> AlwaysHoused(Step(s, events[0]), events[1..]))
  }

  /** Every write of a folder comes while what its handler checked still holds. */
  ghost predicate FoldersTimely(s: Library, events: seq<Event>)
    decreases |events|
  {
    events != [] ==>
      && (Due(s, events[0]) ==> ForestStill(s, s.flights[events[0].flight].job))
      && FoldersTimely(Step(s, events[0]), events[1..])
  }

  /** Every asset is put into a folder that is still there, and no folder is removed that has got an asset. */
  ghost predicate AssetsTimely(s: Library, events: seq<Event>)
    decreases |events|
  {
    events != [] ==>
      && (Due(s, events[0]) ==> HousedStill(s, s.flights[events[0].flight].job))
      && AssetsTimely(Step(s, events[0]), events[1..])
  }

  /** Over every interleaved run the live folders remain a forest throughout exactly when no folder is
      written after what was checked for it has ceased to hold. */
  lemma {:induction false} ForestThroughoutIff(s: Library, events: seq<Event>)
    requires Forest(s.folders)
    ensures AlwaysForest(s, events) <==> FoldersTimely(s, events)
    decreases |events|
  {
    if events != [] {
      StepKeepsForestIff(s, events[0]);
      if Forest(Step(s, events[0]).folders) {
        ForestThroughoutIff(Step(s, events[0]), events[1..]);
      }
    }
  }

  /** And likewise for the assets and the folders they lie in. */
  lemma {:induction false} HousedThroughoutIff(s: Library, events: seq<Event>)
    requires Housed(s)
    ensures AlwaysHoused(s, events) <==> AssetsTimely(s, events)
    decreases |events|
  {
    if events != [] {
      StepKeepsHousedIff(s, events[0]);
      if Housed(Step(s, events[0])) {
        HousedThroughoutIff(Step(s, events[0]), events[1..]);
      }
    }
  }

  /** A handler whose checks hold at the moment of its write does no harm. */
  lemma ChecksSuffice(s: Library, job: Job)
    requires Starts(s, job) && Effective(s, job)
    requires forall n: nat | n < Checks(job) :: Passes(s, job, n)
    ensures ForestStill(s, job) && HousedStill(s, job)
  {
    assert Passes(s, job, 0);
    if job.MoveFolder? || job.RemoveFolder? {
      assert Passes(s, job, 1);
    }
  }

  // ---- what no interleaving can break --------------------------------------------------------------

  /** A folder reference names a row of the same scope, though perhaps a deleted one. */
  predicate Known(t: Table, scope: Scope, folder: Option<Id>) {
    folder.Some? ==> folder.value in t && t[folder.value].scope == scope
  }

  /** The reference that a job is going to write has been checked. */
  predicate Vetted(f: Flight) {
    f.job.Redeem? || (f.passed > 0 && !f.job.RemoveFolder?)
  }

  predicate FlightKnown(s: Library, f: Flight) {
    && (f.job.MoveFolder? ==> f.job.id in s.folders && s.folders[f.job.id].scope == f.job.scope)
    && (f.job.RefileAsset? ==> f.job.id in s.assets && s.assets[f.job.id].scope == f.job.scope)
    && (Vetted(f) ==> Known(s.folders, f.job.scope, f.job.folder))
  }

  predicate RowsKnown(s: Library) {
    && (forall id | id in s.folders :: Known(s.folders, s.folders[id].scope, s.folders[id].parent))
    && (forall id | id in s.assets :: Known(s.folders, s.assets[id].scope, s.assets[id].folder))
    && (forall id | id in s.grants :: Known(s.folders, s.grants[id].scope, s.grants[id].folder))
  }

  predicate ReferencesKnown(s: Library) {
    RowsKnown(s) && forall id | id in s.flights :: FlightKnown(s, s.flights[id])
  }

  /** Rows stay, in their scope. */
  predicate Keeps(before: Library, after: Library) {
    && (forall id | id in before.folders :: id in after.folders && after.folders[id].scope == before.folders[id].scope)
    && (forall id | id in before.assets :: id in after.assets && after.assets[id].scope == before.assets[id].scope)
  }

  lemma FlightStaysKnown(before: Library, after: Library, f: Flight)
    requires Keeps(before, after) && FlightKnown(before, f)
    ensures FlightKnown(after, f)
  {
    if Vetted(f) && f.job.folder.Some? {
      var folder := f.job.folder.value;
      assert folder in before.folders;
      assert after.folders[folder].scope == before.folders[folder].scope;
    }
  }

  lemma ApplyKeepsKnown(s: Library, job: Job)
    requires RowsKnown(s) && Effective(s, job) && FlightKnown(s, Flight(job, Checks(job)))
    ensures RowsKnown(Apply(s, job)) && Keeps(s, Apply(s, job))
  {
  }

  lemma CheckKeepsKnown(s: Library, f: Flight)
    requires FlightKnown(s, f) && f.passed < Checks(f.job) && Passes(s, f.job, f.passed)
    ensures FlightKnown(s, f.(passed := f.passed + 1))
  {
  }

  lemma StepKeepsRows(s: Library, e: Event)
    requires ReferencesKnown(s)
    ensures RowsKnown(Step(s, e)) && Keeps(s, Step(s, e))
  {
    if Due(s, e) {
      ApplyKeepsKnown(s, s.flights[e.flight].job);
    }
  }

  /** A flight is one of before, one step further, or new. */
  lemma StepKeepsFlight(s: Library, e: Event, id: Id)
    requires ReferencesKnown(s) && id in Step(s, e).flights
    ensures FlightKnown(s, Step(s, e).flights[id])
  {
    if e.Check? && id == e.flight && id in s.flights && Step(s, e).flights[id] != s.flights[id] {
      CheckKeepsKnown(s, s.flights[id]);
    }
  }

  lemma StepKeepsKnown(s: Library, e: Event)
    requires ReferencesKnown(s)
    ensures ReferencesKnown(Step(s, e))
  {
    StepKeepsRows(s, e);
    forall id | id in Step(s, e).flights ensures FlightKnown(Step(s, e), Step(s, e).flights[id]) {
      StepKeepsFlight(s, e, id);
      FlightStaysKnown(s, Step(s, e), Step(s, e).flights[id]);
    }
  }

  /** Over every interleaving, no folder and no asset ever refers to a folder of another tenant,
      application or customer. */
  lemma {:induction false} RunKeepsKnown(s: Library, events: seq<Event>)
    requires ReferencesKnown(s)
    ensures ReferencesKnown(Run(s, events))
    decreases |events|
  {
    if events != [] {
      StepKeepsKnown(s, events[0]);
      RunKeepsKnown(Step(s, events[0]), events[1..]);
    }
  }

  /** The key in whose name a flight or grant writes. */
  predicate Absent(s: Library, key: Key) {
    && (forall id | id in s.flights :: s.flights[id].job.scope.key != key)
    && (forall id | id in s.grants :: s.grants[id].scope.key != key)
  }

  predicate ActsFor(e: Event, key: Key) {
    (e.Begin? && e.job.scope.key == key) || (e.DropAsset? && e.key == key)
  }

  predicate SameRows(before: Library, after: Library, key: Key) {
    && (forall id | id in before.folders && before.folders[id].scope.key == key ::
          id in after.folders && after.folders[id] == before.folders[id])
    && (forall id | id in before.assets && before.assets[id].scope.key == key ::
          id in after.assets && after.assets[id] == before.assets[id])
  }

  lemma StepSparesAbsent(s: Library, e: Event, key: Key)
    requires Absent(s, key) && !ActsFor(e, key)
    ensures Absent(Step(s, e), key) && SameRows(s, Step(s, e), key)
  {
    if Due(s, e) {
      assert s.flights[e.flight].job.scope.key != key;
    }
  }

  /** Over every interleaving, the folders and assets of a key in whose name nothing is done stay as they are. */
  lemma {:induction false} RunSparesAbsent(s: Library, events: seq<Event>, key: Key)
    requires Absent(s, key) && forall i | 0 <= i < |events| :: !ActsFor(events[i], key)
    ensures SameRows(s, Run(s, events), key)
    decreases |events|
  {
    if events != [] {
      StepSparesAbsent(s, events[0], key);
      RunSparesAbsent(Step(s, events[0]), events[1..], key);
    }
  }

  // ---- every check can be overtaken ------------------------------------------------------------------

  ghost predicate Reaches(s: Library, end: Library) {
    exists events :: Run(s, events) == end
  }

  lemma {:induction false} RunAppends(s: Library, first: seq<Event>, second: seq<Event>)
    ensures Run(s, first + second) == Run(Run(s, first), second)
    decreases |first|
  {
    if first == [] {
      assert first + second == second;
    } else {
      RunAppends(Step(s, first[0]), first[1..], second);
      assert (first + second)[1..] == first[1..] + second;
    }
  }

  lemma ReachesThrough(s: Library, middle: Library, end: Library)
    requires Reaches(s, middle) && Reaches(middle, end)
    ensures Reaches(s, end)
  {
    var first :| Run(s, first) == middle;
    var second :| Run(middle, second) == end;
    RunAppends(s, first, second);
  }

  lemma ReachesByOne(s: Library, e: Event)
    ensures Reaches(s, Step(s, e))
  {
    assert [e][1..] == [];
    assert Run(s, [e]) == Step(s, e);
  }

  ghost function Ready(s: Library, flight: Id, job: Job): Library {
    s.(flights := s.flights[flight := Flight(job, Checks(job))])
  }

  /** A handler whose checks pass now gets as far as its write. */
  lemma ReadyIsReached(s: Library, flight: Id, job: Job)
    requires flight !in s.flights && Starts(s, job)
    requires forall n: nat | n < Checks(job) :: Passes(s, job, n)
    ensures Reaches(s, Ready(s, flight, job))
  {
    var begun := Step(s, Begin(flight, job));
    ReachesByOne(s, Begin(flight, job));
    assert Passes(s, job, 0);
    var once := Step(begun, Check(flight));
    ReachesByOne(begun, Check(flight));
    ReachesThrough(s, begun, once);
    assert once.flights == s.flights[flight := Flight(job, 1)];
    if Checks(job) == 2 {
      assert Passes(s, job, 1);
      var twice := Step(once, Check(flight));
      ReachesByOne(once, Check(flight));
      ReachesThrough(s, once, twice);
      assert twice.flights == s.flights[flight := Flight(job, 2)];
    }
  }

  /** And then its write leaves the rest as it was. */
  lemma WriteIsReached(s: Library, flight: Id, job: Job)
    requires flight in s.flights && s.flights[flight] == Flight(job, Checks(job)) && Effective(s, job)
    ensures Reaches(s, Land(Apply(s, job), flight))
  {
    ReachesByOne(s, Write(flight, true));
  }

  predicate Empty(s: Library, scope: Scope, folder: Id) {
    && LiveIn(s.folders, scope, folder)
    && Children(s.folders, scope, {folder}) == {} && !HoldsAsset(s.assets, scope, folder)
  }

  function Without(s: Library, folder: Id): Library
    requires folder in s.folders
  {
    s.(folders := s.folders[folder := s.folders[folder].(deleted := true)])
  }

  lemma RemovalIsReached(s: Library, flight: Id, scope: Scope, folder: Id)
    requires flight !in s.flights && Empty(s, scope, folder)
    ensures Reaches(s, Without(s, folder))
  {
    var job := RemoveFolder(scope, folder);
    ReadyIsReached(s, flight, job);
    var ready := Ready(s, flight, job);
    WriteIsReached(ready, flight, job);
    assert Land(Apply(ready, job), flight).flights == s.flights;
    ReachesThrough(s, ready, Without(s, folder));
  }

  /** Whatever the library, a handler that is about to put a folder or an asset into an empty folder can
      be overtaken by the removal of that folder, and then breaks the forest or leaves the asset
      homeless. This goes for new folders, moves, direct uploads and moved assets alike. */
  lemma RemovalOvertakesWrite(s: Library, job: Job, flight: Id, other: Id) returns (end: Library)
    requires Forest(s.folders) && Housed(s) && flight !in s.flights && other !in s.flights && flight != other
    requires job.MakeFolder? || job.MoveFolder? || job.MakeAsset? || job.RefileAsset?
    requires Starts(s, job) && Effective(s, job) && forall n: nat | n < Checks(job) :: Passes(s, job, n)
    requires job.folder.Some? && Empty(s, job.scope, job.folder.value)
    ensures Reaches(s, end)
    ensures if job.MakeFolder? || job.MoveFolder? then !Forest(end.folders) else !Housed(end)
  {
    var ready := Ready(s, flight, job);
    ReadyIsReached(s, flight, job);
    RemovalIsReached(ready, other, job.scope, job.folder.value);
    var removed := Without(ready, job.folder.value);
    ReachesThrough(s, ready, removed);
    assert !Live(removed.folders, job.folder.value);
    if job.MoveFolder? {
      assert Passes(s, job, 1);
    }
    WriteKeepsForestIff(ready, RemoveFolder(job.scope, job.folder.value));
    WriteKeepsHousedIff(ready, RemoveFolder(job.scope, job.folder.value));
    WriteIsReached(removed, flight, job);
    end := Land(Apply(removed, job), flight);
    ReachesThrough(s, removed, end);
    WriteKeepsForestIff(removed, job);
    WriteKeepsHousedIff(removed, job);
  }

  /** A granted upload is overtaken in the same way, although its grant was checked: the folder is
      removed after the grant, and the upload that redeems it does not look again. */
  lemma AssetLeftInDeletedFolder(s: Library, scope: Scope, folder: Id, grant: Id, asset: Id, flight: Id)
    returns (end: Library)
    requires Forest(s.folders) && Housed(s) && flight !in s.flights
    requires Empty(s, scope, folder) && grant !in s.grants && asset !in s.assets
    ensures Reaches(s, end) && !Housed(end)
    ensures asset in end.assets && end.assets[asset] == Asset(scope, Some(folder), false) && !Live(end.folders, folder)
  {
    var job := MakeGrant(scope, Some(folder), grant);
    assert Passes(s, job, 0);
    ReadyIsReached(s, flight, job);
    WriteIsReached(Ready(s, flight, job), flight, job);
    var granted := s.(grants := s.grants[grant := Grant(scope, Some(folder))]);
    assert Land(Apply(Ready(s, flight, job), job), flight).flights == s.flights;
    ReachesThrough(s, Ready(s, flight, job), granted);
    RemovalIsReached(granted, flight, scope, folder);
    var removed := Without(granted, folder);
    ReachesThrough(s, granted, removed);
    var redeeming := Step(removed, Consume(flight, grant, asset));
    ReachesByOne(removed, Consume(flight, grant, asset));
    ReachesThrough(s, removed, redeeming);
    var redeem := Redeem(scope, Some(folder), asset);
    WriteIsReached(redeeming, flight, redeem);
    end := Land(Apply(redeeming, redeem), flight);
    ReachesThrough(s, redeeming, end);
    assert end.assets[asset].folder == Some(folder);
  }

  /** Any two live folders of one scope, neither below the other, can be moved into one another by two
      handlers that both check before either writes. */
  lemma InterleavedMovesMakeACircle(s: Library, scope: Scope, a: Id, b: Id, first: Id, second: Id)
    returns (end: Library)
    requires Forest(s.folders) && LiveIn(s.folders, scope, a) && LiveIn(s.folders, scope, b)
    requires !Within(s.folders, a, b) && !Within(s.folders, b, a)
    requires first !in s.flights && second !in s.flights && first != second
    ensures Reaches(s, end) && !Acyclic(end.folders)
  {
    var jobA, jobB := MoveFolder(scope, a, Some(b)), MoveFolder(scope, b, Some(a));
    ReadyIsReached(s, first, jobA);
    var s1 := Ready(s, first, jobA);
    ReadyIsReached(s1, second, jobB);
    var s2 := Ready(s1, second, jobB);
    ReachesThrough(s, s1, s2);
    WriteIsReached(s2, first, jobA);
    var s3 := Land(Apply(s2, jobA), first);
    ReachesThrough(s, s2, s3);
    WriteKeepsForestIff(s2, jobA);
    WriteIsReached(s3, second, jobB);
    end := Land(Apply(s3, jobB), second);
    ReachesThrough(s, s3, end);
    DescendantByParent(s3.folders, b, a);
    MoveKeepsForestIff(s3.folders, b, a);
  }

  /** A removal, too, can be overtaken: a folder created, or an asset put, under a folder between the
      checks of its removal and the write. */
  lemma WriteOvertakesRemoval(s: Library, job: Job, flight: Id, other: Id) returns (end: Library)
    requires Forest(s.folders) && Housed(s) && flight !in s.flights && other !in s.flights && flight != other
    requires job.MakeFolder? || job.MakeAsset?
    requires Effective(s, job) && job.folder.Some? && Empty(s, job.scope, job.folder.value)
    ensures Reaches(s, end)
    ensures if job.MakeFolder? then !Forest(end.folders) else !Housed(end)
  {
    var remove := RemoveFolder(job.scope, job.folder.value);
    ReadyIsReached(s, other, remove);
    var ready := Ready(s, other, remove);
    assert Passes(ready, job, 0);
    ReadyIsReached(ready, flight, job);
    var both := Ready(ready, flight, job);
    ReachesThrough(s, ready, both);
    WriteIsReached(both, flight, job);
    var put := Land(Apply(both, job), flight);
    ReachesThrough(s, both, put);
    WriteKeepsForestIff(both, job);
    WriteKeepsHousedIff(both, job);
    WriteIsReached(put, other, remove);
    end := Land(Apply(put, remove), other);
    ReachesThrough(s, put, end);
    WriteKeepsForestIff(put, remove);
    WriteKeepsHousedIff(put, remove);
    if job.MakeFolder? {
      assert job.newId in Children(put.folders, job.scope, {job.folder.value});
    } else {
      assert put.assets[job.newId].folder == job.folder;
    }
  }
}
