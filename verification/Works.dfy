/** Customer works and their publication: visibility is kept in one table, publication in another, and
    each reader looks at them differently. */
module Works {
  import opened Wrappers

  type WorkId = int
  type Customer = int

  /** The tenant and the application of a server key; every statement is confined to one. */
  datatype Scope = Scope(tenant: int, app: int)

  datatype Work = Work(scope: Scope, owner: Customer, asset: int, active: bool, public: bool, deleted: bool)

  /** A row of the publication table, by scope and work; true when its status is `published`. */
  datatype Key = Key(scope: Scope, work: WorkId)

  datatype Store = Store(works: map<WorkId, Work>, published: map<Key, bool>)

  const EMPTY := Store(map[], map[])

  datatype Kind = Publish | Unpublish | Delete

  datatype Request = Request(kind: Kind, scope: Scope, work: WorkId, customer: Customer)

  predicate IsPublished(s: Store, scope: Scope, id: WorkId) {
    Key(scope, id) in s.published && s.published[Key(scope, id)]
  }

  // ---- readers -----------------------------------------------------------------------------------

  predicate Readable(s: Store, scope: Scope, id: WorkId) {
    id in s.works && s.works[id].scope == scope && !s.works[id].deleted && s.works[id].active
  }

  /** The gallery without filter and paging. */
  function Gallery(s: Store, scope: Scope): set<WorkId> {
    set id | id in s.works && Readable(s, scope, id) && s.works[id].public && IsPublished(s, scope, id)
  }

  predicate VisibleTo(s: Store, scope: Scope, id: WorkId, customer: Customer) {
    Readable(s, scope, id) && (s.works[id].owner == customer || IsPublished(s, scope, id))
  }

  predicate OwnedBy(s: Store, scope: Scope, id: WorkId, customer: Customer) {
    Readable(s, scope, id) && s.works[id].owner == customer
  }

  // ---- statements --------------------------------------------------------------------------------

  /** Inserts a private work, unless a work that is not deleted already shows the asset. */
  function Create(s: Store, id: WorkId, scope: Scope, owner: Customer, asset: int): Store {
    if exists other :: other in s.works && s.works[other].scope == scope && s.works[other].asset == asset
                       && !s.works[other].deleted
    then s
    else s.(works := s.works[id := Work(scope, owner, asset, true, false, false)])
  }

  predicate Matches(s: Store, r: Request) {
    && r.work in s.works && s.works[r.work].scope == r.scope && s.works[r.work].owner == r.customer
    && !s.works[r.work].deleted
  }

  /** The first statement of each handler, on the works. */
  function First(s: Store, r: Request): Store {
    if !Matches(s, r) then s
    else
      var w := s.works[r.work];
      s.(works := s.works[r.work :=
        match r.kind
        case Publish => w.(public := true)
        case Unpublish => w.(public := false)
        case Delete => w.(active := false, public := false, deleted := true)])
  }

  /** The second statement, on the publications, does not look at the works again. */
  function Second(s: Store, r: Request): Store {
    var key := Key(r.scope, r.work);
    match r.kind
    case Publish => s.(published := s.published[key := true])
    case Unpublish => if key in s.published then s.(published := s.published[key := false]) else s
    case Delete => if IsPublished(s, r.scope, r.work) then s.(published := s.published[key := false]) else s
  }

  /** A handler that nothing interrupts. */
  function Handle(s: Store, r: Request): Store {
    if OwnedBy(s, r.scope, r.work, r.customer) then Second(First(s, r), r) else s
  }

  // ---- agreement ---------------------------------------------------------------------------------

  predicate Agrees(s: Store, id: WorkId)
    requires id in s.works
  {
    s.works[id].public <==> IsPublished(s, s.works[id].scope, id)
  }

  predicate IsSound(w: Work) {
    w.active == !w.deleted && (w.deleted ==> !w.public)
  }

  /** Public works are the published ones, deleted works are neither, publications belong to works,
      and no asset is shown by two works. */
  ghost predicate Inv(s: Store) {
    && (forall id | id in s.works :: Agrees(s, id) && IsSound(s.works[id]))
    && PublicationsBelong(s) && AssetsShownOnce(s)
  }

  ghost predicate PublicationsBelong(s: Store) {
    forall key | key in s.published :: key.work in s.works && s.works[key.work].scope == key.scope
  }

  ghost predicate AssetsShownOnce(s: Store) {
    forall a, b | a in s.works && b in s.works && !s.works[a].deleted && !s.works[b].deleted ::
      s.works[a].scope == s.works[b].scope && s.works[a].asset == s.works[b].asset ==> a == b
  }

  datatype Event = Created(id: WorkId, scope: Scope, owner: Customer, asset: int) | Handled(request: Request)

  function Step(s: Store, e: Event): Store {
    match e
    case Created(id, scope, owner, asset) => if id in s.works then s else Create(s, id, scope, owner, asset)
    case Handled(request) => Handle(s, request)
  }

  function Run(s: Store, events: seq<Event>): Store
    decreases |events|
  {
    if events == [] then s else Run(Step(s, events[0]), events[1..])
  }

  lemma CreateKeepsInv(s: Store, id: WorkId, scope: Scope, owner: Customer, asset: int)
    requires Inv(s) && id !in s.works
    ensures Inv(Create(s, id, scope, owner, asset))
  {
    var after := Create(s, id, scope, owner, asset);
    assert IsPublished(s, scope, id) ==> Key(scope, id).work in s.works;
    if after != s {
      forall other | other in after.works ensures Agrees(after, other) {
        assert other in s.works ==> Agrees(s, other);
      }
    }
  }

  lemma DeletingKeepsAssetsShownOnce(before: Store, after: Store)
    requires AssetsShownOnce(before) && before.works.Keys == after.works.Keys
    requires forall id | id in before.works ::
      && after.works[id].scope == before.works[id].scope && after.works[id].asset == before.works[id].asset
      && (before.works[id].deleted ==> after.works[id].deleted)
    ensures AssetsShownOnce(after)
  {
  }

  lemma HandledWork(s: Store, r: Request, id: WorkId)
    requires id in s.works && Agrees(s, id) && IsSound(s.works[id])
    ensures var after := Handle(s, r);
      && after.works.Keys == s.works.Keys && Agrees(after, id) && IsSound(after.works[id])
      && after.works[id].scope == s.works[id].scope && after.works[id].asset == s.works[id].asset
      && (s.works[id].deleted ==> after.works[id].deleted)
  {
  }

  lemma HandledPublications(s: Store, r: Request)
    requires PublicationsBelong(s)
    ensures PublicationsBelong(Handle(s, r))
  {
  }

  lemma HandlerKeepsInv(s: Store, r: Request)
    requires Inv(s)
    ensures Inv(Handle(s, r))
  {
    var after := Handle(s, r);
    HandledPublications(s, r);
    forall id | id in s.works
      ensures after.works.Keys == s.works.Keys && Agrees(after, id) && IsSound(after.works[id])
      ensures after.works[id].scope == s.works[id].scope && after.works[id].asset == s.works[id].asset
      ensures s.works[id].deleted ==> after.works[id].deleted
    {
      HandledWork(s, r, id);
    }
    assert after.works.Keys == s.works.Keys;
    DeletingKeepsAssetsShownOnce(s, after);
  }

  /** Over every run of handlers, public and published agree and deleted works are neither. */
  lemma {:induction false} RunKeepsInv(s: Store, events: seq<Event>)
    requires Inv(s)
    ensures Inv(Run(s, events))
    decreases |events|
  {
    if events != [] {
      match events[0] {
        case Created(id, scope, owner, asset) =>
          if id !in s.works {
            CreateKeepsInv(s, id, scope, owner, asset);
          }
        case Handled(request) => HandlerKeepsInv(s, request);
      }
      RunKeepsInv(Step(s, events[0]), events[1..]);
    }
  }

  /** Where the tables agree, the gallery is exactly what customers see of the works of others. */
  lemma GalleryIsWhatOthersSee(s: Store, scope: Scope, id: WorkId, customer: Customer)
    requires id in s.works && (Readable(s, scope, id) ==> Agrees(s, id))
    requires s.works[id].owner != customer
    ensures id in Gallery(s, scope) <==> VisibleTo(s, scope, id, customer)
  {
  }

  /** So it is from the empty tables on, for every run of uninterrupted handlers. */
  lemma GalleryAfterRun(events: seq<Event>, scope: Scope, id: WorkId, customer: Customer)
    requires var s := Run(EMPTY, events); id in s.works && s.works[id].owner != customer
    ensures var s := Run(EMPTY, events); id in Gallery(s, scope) <==> VisibleTo(s, scope, id, customer)
  {
    RunKeepsInv(EMPTY, events);
    GalleryIsWhatOthersSee(Run(EMPTY, events), scope, id, customer);
  }

  // ---- what is read and what is written ------------------------------------------------------------

  /** A caller reads the works of its own tenant and application that are active and not deleted: in the gallery
      those that are public and published, one by one its own and the published ones. */
  lemma ReadersSee(s: Store, scope: Scope, id: WorkId, customer: Customer)
    ensures var mine, published := id in s.works && s.works[id].owner == customer,
                                   Key(scope, id) in s.published && s.published[Key(scope, id)];
      var there := id in s.works && s.works[id].scope == scope && s.works[id].active && !s.works[id].deleted;
      && (id in Gallery(s, scope) <==> there && s.works[id].public && published)
      && (VisibleTo(s, scope, id, customer) <==> there && (mine || published))
      && (OwnedBy(s, scope, id, customer) <==> there && mine)
  {
  }

  /** A new work is its owner's, active, private and shows the asset; no other row changes. */
  lemma CreateWrites(s: Store, id: WorkId, scope: Scope, owner: Customer, asset: int)
    requires id !in s.works
    ensures var after := Step(s, Created(id, scope, owner, asset));
      && after.published == s.published
      && (id in after.works <==> forall other | other in s.works ::
            !(s.works[other].scope == scope && s.works[other].asset == asset && !s.works[other].deleted))
      && (id !in after.works ==> after == s)
      && (id in after.works ==>
            && after.works - {id} == s.works
            && var work := after.works[id];
              && work.scope == scope && work.owner == owner && work.asset == asset
              && work.active && !work.public && !work.deleted)
  {
  }

  /** A first statement changes the row of the work if it is the requester's and not deleted, and there the
      visibility alone, or all three marks of a deletion. */
  lemma FirstWrites(s: Store, r: Request)
    ensures var after := First(s, r);
      && after.published == s.published
      && if r.work in s.works && s.works[r.work].scope == r.scope && s.works[r.work].owner == r.customer
            && !s.works[r.work].deleted
         then
           var work := after.works[r.work];
           && after.works == s.works[r.work := work]
           && work.public == (r.kind == Publish) && work.deleted == (r.kind == Delete)
           && work.active == (s.works[r.work].active && r.kind != Delete)
           && work.scope == r.scope && work.owner == r.customer && work.asset == s.works[r.work].asset
         else after.works == s.works
  {
  }

  /** A second statement changes the publication of its work in its scope: to published for a publication, which
      makes a row where there is none, and to withdrawn for the others, which do not. */
  lemma SecondWrites(s: Store, r: Request, scope: Scope, id: WorkId)
    ensures var after, key := Second(s, r), Key(scope, id);
      && after.works == s.works
      && (key in after.published <==> key in s.published || (r.kind == Publish && (r.scope, r.work) == (scope, id)))
      && (key in after.published ==>
            after.published[key] == if (r.scope, r.work) == (scope, id) then r.kind == Publish else s.published[key])
  {
  }

  /** A request that is not made in the name of the owner and the scope of a work. */
  predicate Spares(e: Event, w: Work) {
    e.Handled? ==> e.request.scope != w.scope || e.request.customer != w.owner
  }

  /** Over every run a work and its publication stay as they are unless its owner asks within its scope. */
  lemma {:induction false} RunSparesForeignWorks(s: Store, events: seq<Event>, id: WorkId)
    requires id in s.works && forall i | 0 <= i < |events| :: Spares(events[i], s.works[id])
    ensures id in Run(s, events).works && Run(s, events).works[id] == s.works[id]
    ensures IsPublished(Run(s, events), s.works[id].scope, id) <==> IsPublished(s, s.works[id].scope, id)
    decreases |events|
  {
    if events != [] {
      assert Spares(events[0], s.works[id]);
      RunSparesForeignWorks(Step(s, events[0]), events[1..], id);
    }
  }

  // ---- handlers whose statements interleave --------------------------------------------------------

  /** A request in flight: it has found the work, and perhaps run its first statement. */
  datatype Flight = Flight(request: Request, half: bool)

  datatype Busy = Busy(store: Store, flights: map<int, Flight>)

  datatype Tick =
    | Begin(flight: int, request: Request)
    | RunFirst(flight: int)
    | RunSecond(flight: int)
    | Generate(id: WorkId, scope: Scope, owner: Customer, asset: int)

  function Go(b: Busy, t: Tick): Busy {
    match t
    case Begin(f, r) =>
      if f in b.flights || !OwnedBy(b.store, r.scope, r.work, r.customer) then b
      else b.(flights := b.flights[f := Flight(r, false)])
    case RunFirst(f) =>
      if f !in b.flights || b.flights[f].half then b
      else Busy(First(b.store, b.flights[f].request), b.flights[f := b.flights[f].(half := true)])
    case RunSecond(f) =>
      if f !in b.flights || !b.flights[f].half then b
      else Busy(Second(b.store, b.flights[f].request), b.flights - {f})
    case Generate(id, scope, owner, asset) =>
      if id in b.store.works then b else b.(store := Create(b.store, id, scope, owner, asset))
  }

  /** A request takes off exactly if it finds the work its own; works are created as before. */
  lemma TickWrites(b: Busy, f: int, r: Request, id: WorkId, scope: Scope, owner: Customer, asset: int)
    requires f !in b.flights && id !in b.store.works
    ensures Go(b, Begin(f, r))
         == if OwnedBy(b.store, r.scope, r.work, r.customer)
            then Busy(b.store, b.flights[f := Flight(r, false)]) else b
    ensures Go(b, Generate(id, scope, owner, asset)) == Busy(Step(b.store, Created(id, scope, owner, asset)), b.flights)
  {
  }

  function GoAll(b: Busy, ticks: seq<Tick>): Busy
    decreases |ticks|
  {
    if ticks == [] then b else GoAll(Go(b, ticks[0]), ticks[1..])
  }

  /** Some request on the work is between its two statements. */
  predicate HalfWay(b: Busy, work: WorkId) {
    exists f :: f in b.flights && b.flights[f].half && b.flights[f].request.work == work
  }

  /** No request on a work starts its statements while another is between its own. */
  predicate Apart(b: Busy, ticks: seq<Tick>)
    decreases |ticks|
  {
    if ticks == [] then true
    else
      var t := ticks[0];
      && (t.RunFirst? && t.flight in b.flights && !b.flights[t.flight].half
          ==> !HalfWay(b, b.flights[t.flight].request.work))
      && Apart(Go(b, t), ticks[1..])
  }

  /** A flight is about a work of its own scope and owner, and one that is half-way has left its mark. */
  ghost predicate FlightOk(b: Busy, f: int)
    requires f in b.flights
  {
    var r := b.flights[f].request;
    && r.work in b.store.works && b.store.works[r.work].scope == r.scope && b.store.works[r.work].owner == r.customer
    && (b.flights[f].half && !b.store.works[r.work].deleted ==>
          r.kind != Delete && b.store.works[r.work].public == r.kind.Publish?)
  }

  ghost predicate BusyInv(b: Busy) {
    && (forall f | f in b.flights :: FlightOk(b, f))
    && (forall f, g | f in b.flights && g in b.flights && b.flights[f].half && b.flights[g].half ::
          b.flights[f].request.work == b.flights[g].request.work ==> f == g)
    && PublicationsBelong(b.store)
    && (forall id | id in b.store.works && !b.store.works[id].deleted && !HalfWay(b, id) :: Agrees(b.store, id))
  }

  lemma BeginKeeps(b: Busy, f: int, r: Request)
    requires BusyInv(b)
    ensures BusyInv(Go(b, Begin(f, r)))
  {
    var after := Go(b, Begin(f, r));
    forall id | HalfWay(b, id) ensures HalfWay(after, id) {
      var g :| g in b.flights && b.flights[g].half && b.flights[g].request.work == id;
      assert g in after.flights && after.flights[g].half && after.flights[g].request.work == id;
    }
    forall id | id in after.store.works && !after.store.works[id].deleted && !HalfWay(after, id)
      ensures Agrees(after.store, id)
    {
      assert !HalfWay(b, id);
    }
    forall g | g in after.flights ensures FlightOk(after, g) {
      assert g in b.flights ==> FlightOk(b, g);
    }
  }

  lemma FirstKeeps(b: Busy, f: int)
    requires BusyInv(b) && f in b.flights && !b.flights[f].half && !HalfWay(b, b.flights[f].request.work)
    ensures BusyInv(Go(b, RunFirst(f)))
  {
    var r, after := b.flights[f].request, Go(b, RunFirst(f));
    assert FlightOk(b, f);
    assert f in after.flights && after.flights[f].half && after.flights[f].request.work == r.work;
    forall id | HalfWay(b, id) ensures HalfWay(after, id) {
      var g :| g in b.flights && b.flights[g].half && b.flights[g].request.work == id;
      assert g in after.flights && after.flights[g].half && after.flights[g].request.work == id;
    }
    forall id | id in after.store.works && !after.store.works[id].deleted && !HalfWay(after, id)
      ensures Agrees(after.store, id)
    {
      assert id != r.work;
    }
    forall g | g in after.flights ensures FlightOk(after, g) {
      assert FlightOk(b, g);
    }
  }

  lemma SecondKeeps(b: Busy, f: int)
    requires BusyInv(b) && f in b.flights && b.flights[f].half
    ensures BusyInv(Go(b, RunSecond(f)))
  {
    var r, after := b.flights[f].request, Go(b, RunSecond(f));
    assert FlightOk(b, f);
    forall id | HalfWay(b, id) && id != r.work ensures HalfWay(after, id) {
      var g :| g in b.flights && b.flights[g].half && b.flights[g].request.work == id;
      assert g in after.flights && after.flights[g].half && after.flights[g].request.work == id;
    }
    forall id | id in after.store.works && !after.store.works[id].deleted && !HalfWay(after, id)
      ensures Agrees(after.store, id)
    {
      assert id != r.work ==> !HalfWay(b, id);
    }
    forall g | g in after.flights ensures FlightOk(after, g) {
      assert FlightOk(b, g);
    }
  }

  lemma GenerateKeeps(b: Busy, id: WorkId, scope: Scope, owner: Customer, asset: int)
    requires BusyInv(b)
    ensures BusyInv(Go(b, Generate(id, scope, owner, asset)))
  {
    var after := Go(b, Generate(id, scope, owner, asset));
    assert IsPublished(b.store, scope, id) ==> Key(scope, id).work in b.store.works;
    forall other | other in after.store.works && !after.store.works[other].deleted && !HalfWay(after, other)
      ensures Agrees(after.store, other)
    {
      assert HalfWay(b, other) ==> HalfWay(after, other);
    }
    forall g | g in after.flights ensures FlightOk(after, g) {
      assert FlightOk(b, g);
    }
  }

  /** Requests may interleave at every statement, and may stop anywhere: as long as those on one work
      do not overlap between their two statements, the tables agree on every work that is not deleted
      and not half-way. */
  lemma {:induction false} InterleavedRunAgrees(b: Busy, ticks: seq<Tick>)
    requires BusyInv(b) && Apart(b, ticks)
    ensures BusyInv(GoAll(b, ticks))
    decreases |ticks|
  {
    if ticks != [] {
      match ticks[0] {
        case Begin(f, r) => BeginKeeps(b, f, r);
        case RunFirst(f) => if f in b.flights && !b.flights[f].half { FirstKeeps(b, f); }
        case RunSecond(f) => if f in b.flights && b.flights[f].half { SecondKeeps(b, f); }
        case Generate(id, scope, owner, asset) => GenerateKeeps(b, id, scope, owner, asset);
      }
      InterleavedRunAgrees(Go(b, ticks[0]), ticks[1..]);
    }
  }

  /** Then, once no request is half-way, the gallery is again what customers see of the works of others. */
  lemma GalleryAfterInterleavedRun(ticks: seq<Tick>, scope: Scope, id: WorkId, customer: Customer)
    requires Apart(Busy(EMPTY, map[]), ticks)
    requires var b := GoAll(Busy(EMPTY, map[]), ticks);
      id in b.store.works && b.store.works[id].owner != customer && !HalfWay(b, id)
    ensures var s := GoAll(Busy(EMPTY, map[]), ticks).store;
      id in Gallery(s, scope) <==> VisibleTo(s, scope, id, customer)
  {
    InterleavedRunAgrees(Busy(EMPTY, map[]), ticks);
    GalleryIsWhatOthersSee(GoAll(Busy(EMPTY, map[]), ticks).store, scope, id, customer);
  }

  // ---- what every interleaving leaves -------------------------------------------------------------

  /** The kind of the first statement that a tick runs with effect on a work. */
  function FirstAt(b: Busy, t: Tick, work: WorkId): Option<Kind> {
    if t.RunFirst? && t.flight in b.flights && !b.flights[t.flight].half
       && b.flights[t.flight].request.work == work && Matches(b.store, b.flights[t.flight].request)
    then Some(b.flights[t.flight].request.kind) else None
  }

  /** The kind of the second statement that a tick runs for a work. */
  function SecondAt(b: Busy, t: Tick, key: Key): Option<Kind> {
    if t.RunSecond? && t.flight in b.flights && b.flights[t.flight].half
       && Key(b.flights[t.flight].request.scope, b.flights[t.flight].request.work) == key
    then Some(b.flights[t.flight].request.kind) else None
  }

  function LastFirst(b: Busy, ticks: seq<Tick>, work: WorkId): Option<Kind>
    decreases |ticks|
  {
    if ticks == [] then None
    else
      var later := LastFirst(Go(b, ticks[0]), ticks[1..], work);
      if later.Some? then later else FirstAt(b, ticks[0], work)
  }

  function LastSecond(b: Busy, ticks: seq<Tick>, key: Key): Option<Kind>
    decreases |ticks|
  {
    if ticks == [] then None
    else
      var later := LastSecond(Go(b, ticks[0]), ticks[1..], key);
      if later.Some? then later else SecondAt(b, ticks[0], key)
  }

  predicate IsPublic(s: Store, work: WorkId) {
    work in s.works && s.works[work].public
  }

  lemma SecondDecides(b: Busy, t: Tick, key: Key)
    ensures var at := SecondAt(b, t, key);
      IsPublished(Go(b, t).store, key.scope, key.work) <==>
      if at.Some? then at == Some(Publish) else IsPublished(b.store, key.scope, key.work)
  {
  }

  lemma FirstDecides(b: Busy, t: Tick, work: WorkId)
    ensures var at := FirstAt(b, t, work);
      IsPublic(Go(b, t).store, work) <==> if at.Some? then at == Some(Publish) else IsPublic(b.store, work)
  {
  }

  /** Whatever the interleaving, the last second statement on a work decides whether it ends published,
      deleted works included. */
  lemma {:induction false} PublishedIff(b: Busy, ticks: seq<Tick>, key: Key)
    ensures var last := LastSecond(b, ticks, key);
      IsPublished(GoAll(b, ticks).store, key.scope, key.work) <==>
      if last.Some? then last == Some(Publish) else IsPublished(b.store, key.scope, key.work)
    decreases |ticks|
  {
    if ticks != [] {
      SecondDecides(b, ticks[0], key);
      PublishedIff(Go(b, ticks[0]), ticks[1..], key);
    }
  }

  /** And the last first statement with effect decides whether it ends public. */
  lemma {:induction false} PublicIff(b: Busy, ticks: seq<Tick>, work: WorkId)
    ensures var last := LastFirst(b, ticks, work);
      IsPublic(GoAll(b, ticks).store, work) <==>
      if last.Some? then last == Some(Publish) else IsPublic(b.store, work)
    decreases |ticks|
  {
    if ticks != [] {
      FirstDecides(b, ticks[0], work);
      PublicIff(Go(b, ticks[0]), ticks[1..], work);
    }
  }

  /** Over every interleaved run from empty tables the two tables agree on a work exactly when its last
      first statement and its last second statement are both of publications, or neither is. */
  lemma AgreementAfterRunIff(ticks: seq<Tick>, id: WorkId)
    requires id in GoAll(Busy(EMPTY, map[]), ticks).store.works
    ensures var b, start := GoAll(Busy(EMPTY, map[]), ticks), Busy(EMPTY, map[]);
      Agrees(b.store, id) <==>
      (LastFirst(start, ticks, id) == Some(Publish) <==>
       LastSecond(start, ticks, Key(b.store.works[id].scope, id)) == Some(Publish))
  {
    var b, start := GoAll(Busy(EMPTY, map[]), ticks), Busy(EMPTY, map[]);
    PublicIff(start, ticks, id);
    PublishedIff(start, ticks, Key(b.store.works[id].scope, id));
  }

  /** When two requests on a work do overlap, the readers agree in the end exactly if the work was
      deleted, both requests wanted the same, or their second statements ran in the order of the first. */
  lemma OverlapAgreesIff(s: Store, a: Request, b: Request, inOrder: bool)
    requires OwnedBy(s, a.scope, a.work, a.customer) && (a.scope, a.work, a.customer) == (b.scope, b.work, b.customer)
    requires Agrees(s, a.work)
    ensures var half := First(First(s, a), b);
      var end := if inOrder then Second(Second(half, a), b) else Second(Second(half, b), a);
      (Readable(end, a.scope, a.work) ==> Agrees(end, a.work))
      <==> a.kind == Delete || b.kind == Delete || a.kind == b.kind || inOrder
  {
  }

  /** If one of the two deletes, the work ends deleted, seen by no reader, and its row stays published
      exactly when the request whose second statement runs last is a publication. */
  lemma DeletedWorkStaysPublishedIff(s: Store, a: Request, b: Request, inOrder: bool)
    requires Inv(s)
    requires OwnedBy(s, a.scope, a.work, a.customer) && (a.scope, a.work, a.customer) == (b.scope, b.work, b.customer)
    requires a.kind == Delete || b.kind == Delete
    ensures var half := First(First(s, a), b);
      var end := if inOrder then Second(Second(half, a), b) else Second(Second(half, b), a);
      && end.works[a.work].deleted && !Readable(end, a.scope, a.work)
      && (IsPublished(end, a.scope, a.work) <==> (if inOrder then b else a).kind == Publish)
  {
  }

  /** A deletion between the check and the statements of a publication leaves a deleted work published
      in the second table; no reader sees it. */
  lemma DeletedWorkMayStayPublished(s: Store, publish: Request)
    requires Inv(s) && publish.kind == Publish && OwnedBy(s, publish.scope, publish.work, publish.customer)
    ensures var deleted := Handle(s, publish.(kind := Delete));
      var end := Second(First(deleted, publish), publish);
      && end.works[publish.work].deleted && IsPublished(end, publish.scope, publish.work)
      && !Readable(end, publish.scope, publish.work)
  {
  }

  // ---- the tables ----------------------------------------------------------------------------------

  class WorkTables {
    var works: map<WorkId, Work>
    var published: map<Key, bool>

    ghost function Contents(): Store
      reads this
    {
      Store(works, published)
    }

    /** `drawn` is the id that the database draws. */
    method CreateWorkForGeneratedAsset(drawn: WorkId, scope: Scope, owner: Customer, asset: int)
      returns (r: Option<WorkId>)
      requires drawn !in works
      modifies this
      ensures Contents() == Create(old(Contents()), drawn, scope, owner, asset)
      ensures old(Inv(Contents())) ==> Inv(Contents())
      ensures old(Inv(Contents())) && r.Some? ==>
        forall customer :: VisibleTo(Contents(), scope, drawn, customer) <==> customer == owner
      ensures r == Some(drawn) || r == None
      ensures r.Some? <==> forall id | id in old(works) ::
        old(works)[id].scope == scope && old(works)[id].asset == asset ==> old(works)[id].deleted
    {
      if Inv(Contents()) {
        CreateKeepsInv(Contents(), drawn, scope, owner, asset);
        assert IsPublished(Contents(), scope, drawn) ==> Key(scope, drawn).work in works;
      }
      if exists id :: id in works && works[id].scope == scope && works[id].asset == asset && !works[id].deleted {
        return None;
      }
      works := works[drawn := Work(scope, owner, asset, true, false, false)];
      return Some(drawn);
    }

    method PublishWork(scope: Scope, work: WorkId, customer: Customer) returns (ok: bool)
      modifies this
      ensures ok == old(OwnedBy(Contents(), scope, work, customer))
      ensures Contents() == Handle(old(Contents()), Request(Publish, scope, work, customer))
      ensures old(Inv(Contents())) ==> Inv(Contents()) && (ok ==> work in Gallery(Contents(), scope))
    {
      if Inv(Contents()) {
        HandlerKeepsInv(Contents(), Request(Publish, scope, work, customer));
      }
      if !OwnedBy(Store(works, published), scope, work, customer) {
        return false;
      }
      works := works[work := works[work].(public := true)];
      published := published[Key(scope, work) := true];
      return true;
    }

    method UnpublishWork(scope: Scope, work: WorkId, customer: Customer) returns (ok: bool)
      modifies this
      ensures ok == old(OwnedBy(Contents(), scope, work, customer))
      ensures Contents() == Handle(old(Contents()), Request(Unpublish, scope, work, customer))
      ensures old(Inv(Contents())) ==> Inv(Contents())
      ensures ok ==> forall other :: VisibleTo(Contents(), scope, work, other) <==> other == customer
    {
      if Inv(Contents()) {
        HandlerKeepsInv(Contents(), Request(Unpublish, scope, work, customer));
      }
      if !OwnedBy(Store(works, published), scope, work, customer) {
        return false;
      }
      works := works[work := works[work].(public := false)];
      if Key(scope, work) in published {
        published := published[Key(scope, work) := false];
      }
      return true;
    }

    method DeleteWork(scope: Scope, work: WorkId, customer: Customer) returns (ok: bool)
      modifies this
      ensures ok == old(OwnedBy(Contents(), scope, work, customer))
      ensures Contents() == Handle(old(Contents()), Request(Delete, scope, work, customer))
      ensures old(Inv(Contents())) ==> Inv(Contents())
      ensures ok ==> forall other :: !VisibleTo(Contents(), scope, work, other)
    {
      if Inv(Contents()) {
        HandlerKeepsInv(Contents(), Request(Delete, scope, work, customer));
      }
      if !OwnedBy(Store(works, published), scope, work, customer) {
        return false;
      }
      works := works[work := works[work].(active := false, public := false, deleted := true)];
      if Key(scope, work) in published && published[Key(scope, work)] {
        published := published[Key(scope, work) := false];
      }
      return true;
    }
  }
}
