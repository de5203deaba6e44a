/** The folder tree of the asset library. One row per folder; a row is soft-deleted, never removed. */
module Folders {
  import opened Wrappers

  /** Identifiers are only compared. */
  type Id = int

  /** The tenant and application come from the caller's key, the customer from the row or request. */
  datatype Key = Key(tenant: Id, app: Id)
  datatype Scope = Scope(key: Key, customer: Id)
  datatype Folder = Folder(scope: Scope, parent: Option<Id>, deleted: bool)
  datatype Asset = Asset(scope: Scope, folder: Option<Id>, deleted: bool)

  type Table = map<Id, Folder>

  datatype Error =
    | CustomerDisabled | NotFound | Invalid | IntoItself | IntoChild | NotEmpty | Database

  // ---- queries -----------------------------------------------------------------------------

  predicate Live(t: Table, id: Id) {
    id in t && !t[id].deleted
  }

  predicate LiveIn(t: Table, scope: Scope, id: Id) {
    Live(t, id) && t[id].scope == scope
  }

  /** `ensure_folder_belongs`: the root is always allowed. */
  predicate Belongs(t: Table, scope: Scope, folder: Option<Id>) {
    folder.Some? ==> LiveIn(t, scope, folder.value)
  }

  function Children(t: Table, scope: Scope, parents: set<Id>): set<Id> {
    set id | id in t && LiveIn(t, scope, id) && t[id].parent.Some? && t[id].parent.value in parents
  }

  function SetParent(t: Table, id: Id, parent: Option<Id>): Table
    requires id in t
  {
    t[id := t[id].(parent := parent)]
  }

  // ---- what the tree means -----------------------------------------------------------------

  /** The folder reached by following `n` parent links from `id` through live rows. */
  ghost function Up(t: Table, id: Id, n: nat): Option<Id>
    decreases n
  {
    if n == 0 then Some(id)
    else if Live(t, id) && t[id].parent.Some? then Up(t, t[id].parent.value, n - 1)
    else None
  }

  ghost predicate StrictDescendant(t: Table, ancestor: Id, id: Id) {
    exists n: nat :: n > 0 && Up(t, id, n) == Some(ancestor)
  }

  ghost predicate Within(t: Table, ancestor: Id, id: Id) {
    id == ancestor || StrictDescendant(t, ancestor, id)
  }

  ghost predicate Acyclic(t: Table) {
    forall id :: !StrictDescendant(t, id, id)
  }

  /** Every live folder's parent is live and belongs to the same tenant, application and customer. */
  predicate ParentsBelong(t: Table) {
    forall id | id in t && Live(t, id) :: Belongs(t, t[id].scope, t[id].parent)
  }

  ghost predicate Ranked(t: Table, rank: map<Id, nat>) {
    forall id | id in t && Live(t, id) && t[id].parent.Some? ::
      id in rank && t[id].parent.value in rank && rank[t[id].parent.value] < rank[id]
  }

  /** The invariant. A rank witnesses that parent links cannot run in a circle. */
  ghost predicate Forest(t: Table) {
    ParentsBelong(t) && exists rank: map<Id, nat> :: Ranked(t, rank)
  }

  lemma {:induction false} UpDescendsInRank(t: Table, rank: map<Id, nat>, id: Id, n: nat)
    requires Ranked(t, rank) && n > 0 && Up(t, id, n).Some?
    ensures var top := Up(t, id, n).value; id in rank && top in rank && rank[top] < rank[id]
    decreases n
  {
    if n > 1 {
      UpDescendsInRank(t, rank, t[id].parent.value, n - 1);
    }
  }

  lemma RankedIsAcyclic(t: Table, rank: map<Id, nat>)
    requires Ranked(t, rank)
    ensures Acyclic(t)
  {
    forall id
      ensures !StrictDescendant(t, id, id)
    {
      if StrictDescendant(t, id, id) {
        var n: nat :| n > 0 && Up(t, id, n) == Some(id);
        UpDescendsInRank(t, rank, id, n);
      }
    }
  }

  lemma ForestIsAcyclic(t: Table)
    requires Forest(t)
    ensures Acyclic(t)
  {
    var rank: map<Id, nat> :| Ranked(t, rank);
    RankedIsAcyclic(t, rank);
  }

  /** One link at a time: a folder is below `ancestor` exactly when its parent is at or below it. */
  lemma DescendantByParent(t: Table, ancestor: Id, id: Id)
    ensures StrictDescendant(t, ancestor, id)
       <==> Live(t, id) && t[id].parent.Some? && Within(t, ancestor, t[id].parent.value)
  {
    if StrictDescendant(t, ancestor, id) {
      var n: nat :| n > 0 && Up(t, id, n) == Some(ancestor);
      assert Up(t, t[id].parent.value, n - 1) == Some(ancestor);
    }
    if Live(t, id) && t[id].parent.Some? && Within(t, ancestor, t[id].parent.value) {
      var parent := t[id].parent.value;
      var n: nat :| Up(t, parent, n) == Some(ancestor) by {
        if parent == ancestor {
          assert Up(t, parent, 0) == Some(ancestor);
        }
      }
      assert Up(t, id, n + 1) == Some(ancestor);
    }
  }

  lemma {:induction false} DescendantsShareScope(t: Table, ancestor: Id, id: Id, n: nat)
    requires ParentsBelong(t) && n > 0 && Up(t, id, n) == Some(ancestor) && Live(t, ancestor)
    ensures Live(t, id) && t[id].scope == t[ancestor].scope
    decreases n
  {
    if n > 1 {
      DescendantsShareScope(t, ancestor, t[id].parent.value, n - 1);
    }
  }

  // ---- moving a folder ---------------------------------------------------------------------

  lemma {:induction false} StaysWithin(t: Table, id: Id, parent: Option<Id>, x: Id, n: nat)
    requires id in t && Up(t, x, n) == Some(id)
    ensures Within(SetParent(t, id, parent), id, x)
    decreases n
  {
    var moved := SetParent(t, id, parent);
    if x != id {
      StaysWithin(t, id, parent, t[x].parent.value, n - 1);
      DescendantByParent(moved, id, x);
    }
  }

  lemma RankedAfterMove(t: Table, id: Id, parent: Id)
    requires Forest(t) && Live(t, id) && !Within(t, id, parent)
    ensures exists rank: map<Id, nat> :: Ranked(SetParent(t, id, Some(parent)), rank)
  {
    var moved := SetParent(t, id, Some(parent));
    var rank: map<Id, nat> :| Ranked(t, rank);
    var base := if parent in rank then rank[parent] else 0;
    var raised := map x | x in t.Keys + rank.Keys + {parent} ::
      (if x in rank then rank[x] else 0) + (if Within(t, id, x) then base + 1 else 0);
    forall x | x in moved && Live(moved, x) && moved[x].parent.Some?
      ensures x in raised && moved[x].parent.value in raised && raised[moved[x].parent.value] < raised[x]
    {
      if x != id {
        DescendantByParent(t, id, x);
      }
    }
    assert Ranked(moved, raised);
  }

  lemma CircleAfterMove(t: Table, id: Id, parent: Id)
    requires Live(t, id) && Within(t, id, parent)
    ensures !Acyclic(SetParent(t, id, Some(parent)))
  {
    var moved := SetParent(t, id, Some(parent));
    var n: nat :| Up(t, parent, n) == Some(id) by {
      if parent == id {
        assert Up(t, parent, 0) == Some(id);
      }
    }
    StaysWithin(t, id, Some(parent), parent, n);
    DescendantByParent(moved, id, id);
  }

  /** Writing a parent, whatever it is by then, makes a circle exactly when it is the folder itself or
      below it at that moment, and keeps the forest exactly when it is also still live and in scope. */
  lemma MoveKeepsForestIff(t: Table, id: Id, parent: Id)
    requires Forest(t) && Live(t, id)
    ensures var moved := SetParent(t, id, Some(parent));
      && (Acyclic(moved) <==> !Within(t, id, parent))
      && (Forest(moved) <==> LiveIn(t, t[id].scope, parent) && !Within(t, id, parent))
  {
    var moved := SetParent(t, id, Some(parent));
    if Within(t, id, parent) {
      CircleAfterMove(t, id, parent);
      if Forest(moved) {
        ForestIsAcyclic(moved);
      }
    } else {
      RankedAfterMove(t, id, parent);
      var rank: map<Id, nat> :| Ranked(moved, rank);
      RankedIsAcyclic(moved, rank);
      assert Live(moved, id) && moved[id].parent == Some(parent);
    }
  }

  /** A new folder keeps the forest exactly when its parent is live and in scope at that moment. */
  lemma CreateKeepsForestIff(t: Table, scope: Scope, parent: Option<Id>, newId: Id)
    requires Forest(t) && newId !in t
    ensures Forest(t[newId := Folder(scope, parent, false)]) <==> Belongs(t, scope, parent)
  {
    var after := t[newId := Folder(scope, parent, false)];
    if Belongs(t, scope, parent) {
      var rank: map<Id, nat> :| Ranked(t, rank);
      var defaulted := map x | x in t.Keys + rank.Keys :: if x in rank then rank[x] else 0;
      var top := if parent.Some? then defaulted[parent.value] + 1 else 0;
      assert Ranked(after, defaulted[newId := top]) by {
        assert forall id | id in t && Live(t, id) && t[id].parent.Some? :: t[id].parent.value != newId;
      }
    } else {
      assert Live(after, newId) && after[newId].parent == parent;
    }
  }

  /** Deleting a folder keeps the forest exactly when it has no live child at that moment. */
  lemma DeleteKeepsForestIff(t: Table, id: Id)
    requires Forest(t) && Live(t, id)
    ensures Forest(t[id := t[id].(deleted := true)]) <==> Children(t, t[id].scope, {id}) == {}
  {
    var after := t[id := t[id].(deleted := true)];
    var rank: map<Id, nat> :| Ranked(t, rank);
    assert Ranked(after, rank);
    if Children(t, t[id].scope, {id}) == {} {
      forall x | x in after && Live(after, x)
        ensures Belongs(after, after[x].scope, after[x].parent)
      {
        assert x in Children(t, t[id].scope, {id}) <==> t[x].parent == Some(id);
      }
    } else {
      var child :| child in Children(t, t[id].scope, {id});
      assert t[child].parent == Some(id) && after[child].parent == Some(id);
    }
  }

  // ---- the handlers as steps on the tables --------------------------------------------------

  datatype Store = Store(folders: Table, assets: map<Id, Asset>)

  /** Each folder handler is one step here; assets may change in any way at any time. */
  datatype Event =
    | CreateFolder(scope: Scope, customerActive: bool, parent: Option<Id>, inputValid: bool, newId: Id, written: bool)
    | UpdateFolder(key: Key, id: Id, nameValid: bool, move: Option<Option<Id>>, metadataValid: bool, written: bool)
    | DeleteFolder(key: Key, id: Id, written: bool)
    | ChangeAssets(assets: map<Id, Asset>)

  predicate Found(t: Table, key: Key, id: Id) {
    Live(t, id) && t[id].scope.key == key
  }

  /** `ensure_folder_can_move`. */
  ghost predicate CanMove(t: Table, id: Id, parent: Option<Id>) {
    parent.Some? ==> !Within(t, id, parent.value)
  }

  predicate HoldsAsset(assets: map<Id, Asset>, scope: Scope, folder: Id) {
    exists id | id in assets :: !assets[id].deleted && assets[id].scope == scope && assets[id].folder == Some(folder)
  }

  ghost function Update(s: Store, e: Event): Result<Table, Error>
    requires e.UpdateFolder?
  {
    var t := s.folders;
    if !Found(t, e.key, e.id) then Err(NotFound)
    else if !e.nameValid then Err(Invalid)
    else if e.move.Some? && !Belongs(t, t[e.id].scope, e.move.value) then Err(NotFound)
    else if e.move.Some? && e.move.value == Some(e.id) then Err(IntoItself)
    else if e.move.Some? && !CanMove(t, e.id, e.move.value) then Err(IntoChild)
    else if !e.metadataValid then Err(Invalid)
    else if !e.written then Err(Database)
    else Ok(if e.move.Some? then SetParent(t, e.id, e.move.value) else t)
  }

  function Create(t: Table, e: Event): Result<Table, Error>
    requires e.CreateFolder?
  {
    if !e.customerActive then Err(CustomerDisabled)
    else if !Belongs(t, e.scope, e.parent) then Err(NotFound)
    else if !e.inputValid then Err(Invalid)
    else if e.newId in t || !e.written then Err(Database)
    else Ok(t[e.newId := Folder(e.scope, e.parent, false)])
  }

  function Delete(s: Store, e: Event): Result<Table, Error>
    requires e.DeleteFolder?
  {
    var t := s.folders;
    if !Found(t, e.key, e.id) then Err(NotFound)
    else if Children(t, t[e.id].scope, {e.id}) != {} || HoldsAsset(s.assets, t[e.id].scope, e.id) then Err(NotEmpty)
    else if !e.written then Err(Database)
    else Ok(t[e.id := t[e.id].(deleted := true)])
  }

  ghost function Step(s: Store, e: Event): Store {
    match e
    case CreateFolder(_, _, _, _, _, _) =>
      var r := Create(s.folders, e);
      if r.Ok? then s.(folders := r.value) else s
    case UpdateFolder(_, _, _, _, _, _) =>
      var r := Update(s, e);
      if r.Ok? then s.(folders := r.value) else s
    case DeleteFolder(_, _, _) =>
      var r := Delete(s, e);
      if r.Ok? then s.(folders := r.value) else s
    case ChangeAssets(assets) => s.(assets := assets)
  }

  ghost function Run(s: Store, events: seq<Event>): Store
    decreases |events|
  {
    if events == [] then s else Run(Step(s, events[0]), events[1..])
  }

  lemma CreateKeepsForest(t: Table, e: Event)
    requires Forest(t) && e.CreateFolder? && Create(t, e).Ok?
    ensures Forest(Create(t, e).value)
  {
    CreateKeepsForestIff(t, e.scope, e.parent, e.newId);
  }

  lemma DeleteKeepsForest(s: Store, e: Event)
    requires Forest(s.folders) && e.DeleteFolder? && Delete(s, e).Ok?
    ensures Forest(Delete(s, e).value)
  {
    DeleteKeepsForestIff(s.folders, e.id);
  }

  lemma UpdateKeepsForest(s: Store, e: Event)
    requires Forest(s.folders) && e.UpdateFolder? && Update(s, e).Ok?
    ensures Forest(Update(s, e).value)
  {
    if e.move.Some? {
      if e.move.value.Some? {
        MoveKeepsForestIff(s.folders, e.id, e.move.value.value);
      } else {
        var rank: map<Id, nat> :| Ranked(s.folders, rank);
        assert Ranked(Update(s, e).value, rank);
      }
    }
  }

  /** Folder handlers leave the assets alone, and changes of assets the folders. */
  lemma TablesChangeApart(s: Store, e: Event)
    ensures !e.ChangeAssets? ==> Step(s, e).assets == s.assets
    ensures e.ChangeAssets? ==> Step(s, e).folders == s.folders && Step(s, e).assets == e.assets
  {
  }

  lemma StepKeepsForest(s: Store, e: Event)
    requires Forest(s.folders)
    ensures Forest(Step(s, e).folders)
  {
    if e.CreateFolder? && Create(s.folders, e).Ok? {
      CreateKeepsForest(s.folders, e);
    } else if e.DeleteFolder? && Delete(s, e).Ok? {
      DeleteKeepsForest(s, e);
    } else if e.UpdateFolder? && Update(s, e).Ok? {
      UpdateKeepsForest(s, e);
    }
  }

  /** Every sequence of handler calls keeps the live folders an acyclic forest whose parents are
      live and in scope. */
  lemma {:induction false} RunKeepsForest(s: Store, events: seq<Event>)
    requires Forest(s.folders)
    ensures Forest(Run(s, events).folders) && Acyclic(Run(s, events).folders)
    decreases |events|
  {
    if events == [] {
      ForestIsAcyclic(s.folders);
    } else {
      StepKeepsForest(s, events[0]);
      RunKeepsForest(Step(s, events[0]), events[1..]);
    }
  }

  /** On every forest, a move to a live parent of the same scope is refused for its place in the
      tree exactly when performing it would close a circle. */
  lemma MoveAcceptedIffAcyclic(s: Store, e: Event)
    requires Forest(s.folders) && e.UpdateFolder? && e.nameValid && e.metadataValid && e.written
    requires Found(s.folders, e.key, e.id) && e.move.Some? && e.move.value.Some?
    requires LiveIn(s.folders, s.folders[e.id].scope, e.move.value.value)
    ensures Update(s, e).Ok? <==> Acyclic(SetParent(s.folders, e.id, e.move.value))
  {
    MoveKeepsForestIff(s.folders, e.id, e.move.value.value);
  }

  // ---- what the handlers accept and write ------------------------------------------------------

  /** The row that a key may load: there, not deleted, of that tenant and application. */
  lemma FoundIff(t: Table, key: Key, id: Id)
    ensures Found(t, key, id) <==>
      id in t && !t[id].deleted && t[id].scope.key.tenant == key.tenant && t[id].scope.key.app == key.app
  {
  }

  lemma ForeignFolderIsNotFound(s: Store, e: Event)
    requires e.UpdateFolder? || e.DeleteFolder?
    requires e.id !in s.folders || s.folders[e.id].deleted || s.folders[e.id].scope.key != e.key
    ensures e.UpdateFolder? ==> Update(s, e) == Err(NotFound)
    ensures e.DeleteFolder? ==> Delete(s, e) == Err(NotFound)
    ensures Step(s, e) == s
  {
  }

  /** The key in whose name an event acts on a folder. */
  function Actor(e: Event): Option<Key> {
    match e
    case CreateFolder(scope, _, _, _, _, _) => Some(scope.key)
    case UpdateFolder(key, _, _, _, _, _) => Some(key)
    case DeleteFolder(key, _, _) => Some(key)
    case ChangeAssets(_) => None
  }

  /** Over every run, the folders of a key that takes no part stay as they are. */
  lemma {:induction false} RunSparesForeignFolders(s: Store, events: seq<Event>, id: Id)
    requires id in s.folders
    requires forall i | 0 <= i < |events| :: Actor(events[i]) != Some(s.folders[id].scope.key)
    ensures id in Run(s, events).folders && Run(s, events).folders[id] == s.folders[id]
    decreases |events|
  {
    if events != [] {
      var after := Step(s, events[0]);
      assert Actor(events[0]) != Some(s.folders[id].scope.key);
      assert id in after.folders && after.folders[id] == s.folders[id];
      RunSparesForeignFolders(after, events[1..], id);
    }
  }

  /** A folder is created exactly for an active customer, with valid input, at the root or under a live
      folder of the same tenant, application and customer, and as asked. */
  lemma CreateAcceptedIff(t: Table, e: Event)
    requires e.CreateFolder?
    ensures Create(t, e).Ok? <==>
      && e.customerActive && e.inputValid && e.written && e.newId !in t
      && (e.parent.Some? ==>
            e.parent.value in t && !t[e.parent.value].deleted && t[e.parent.value].scope == e.scope)
    ensures Create(t, e).Ok? ==>
      var after := Create(t, e).value;
      && after.Keys == t.Keys + {e.newId} && (forall id | id in t :: after[id] == t[id])
      && after[e.newId].scope == e.scope && after[e.newId].parent == e.parent && !after[e.newId].deleted
    ensures !e.customerActive ==> Create(t, e) == Err(CustomerDisabled)
  {
  }

  /** A folder is deleted exactly when it is the caller's, no live folder of its scope is directly in it and
      no live asset either; nothing but its mark changes. */
  lemma DeleteAcceptedIff(s: Store, e: Event)
    requires e.DeleteFolder?
    ensures Delete(s, e).Ok? <==>
      && e.id in s.folders && !s.folders[e.id].deleted && s.folders[e.id].scope.key == e.key && e.written
      && (forall id | id in s.folders :: !(
            && !s.folders[id].deleted && s.folders[id].scope == s.folders[e.id].scope
            && s.folders[id].parent == Some(e.id)))
      && (forall id | id in s.assets :: !(
            !s.assets[id].deleted && s.assets[id].scope == s.folders[e.id].scope && s.assets[id].folder == Some(e.id)))
    ensures Delete(s, e).Ok? ==>
      var after := Delete(s, e).value;
      && after.Keys == s.folders.Keys && (forall id | id in s.folders && id != e.id :: after[id] == s.folders[id])
      && after[e.id].deleted
      && after[e.id].scope == s.folders[e.id].scope && after[e.id].parent == s.folders[e.id].parent
    ensures Delete(s, e) == Err(NotEmpty) ==> e.id in s.folders && s.folders[e.id].scope.key == e.key
  {
    if e.id in s.folders {
      var children := Children(s.folders, s.folders[e.id].scope, {e.id});
      assert children == {} <==> forall id | id in s.folders :: id !in children;
    }
  }

  /** A folder is updated exactly when it is the caller's, the input is valid, and the new parent, if one is
      given, is a live folder of the same scope that is neither the folder nor below it; nothing but the
      parent changes, and that only if asked for. */
  lemma UpdateAcceptedIff(s: Store, e: Event)
    requires e.UpdateFolder?
    ensures Update(s, e).Ok? <==>
      && e.id in s.folders && !s.folders[e.id].deleted && s.folders[e.id].scope.key == e.key
      && e.nameValid && e.metadataValid && e.written
      && (e.move.Some? && e.move.value.Some? ==>
            var parent := e.move.value.value;
            && parent in s.folders && !s.folders[parent].deleted && s.folders[parent].scope == s.folders[e.id].scope
            && parent != e.id && !StrictDescendant(s.folders, e.id, parent))
    ensures Update(s, e).Ok? ==>
      var after := Update(s, e).value;
      && after.Keys == s.folders.Keys && (forall id | id in s.folders && id != e.id :: after[id] == s.folders[id])
      && after[e.id].scope == s.folders[e.id].scope && !after[e.id].deleted
      && after[e.id].parent == if e.move.Some? then e.move.value else s.folders[e.id].parent
    ensures Update(s, e) == Err(IntoItself) ==> e.move == Some(Some(e.id))
    ensures Update(s, e) == Err(IntoChild) ==>
      e.move.Some? && e.move.value.Some? && StrictDescendant(s.folders, e.id, e.move.value.value)
  {
  }

  // ---- the handlers on the mutable table -----------------------------------------------------

  class AssetLibrary {
    var folders: Table
    var assets: map<Id, Asset>

    ghost predicate Valid()
      reads this
    {
      Forest(folders)
    }

    ghost function Contents(): Store
      reads this
    {
      Store(folders, assets)
    }

    constructor ()
      ensures Valid() && folders == map[] && assets == map[]
    {
      folders := map[];
      assets := map[];
      new;
      var none: map<Id, nat> := map[];
      assert Ranked(folders, none);
    }

    /** The recursive query: each round joins the last round's rows with their children. A row has one
        parent, so a round without repeats has none in the next, and sets lose nothing. The loop ends
        because no folder is met twice, and it finds the strict descendants and nothing else. */
    method Descendants(id: Id) returns (found: set<Id>)
      requires Valid() && Live(folders, id)
      ensures forall x :: x in found <==> StrictDescendant(folders, id, x)
    {
      var t, scope := folders, folders[id].scope;
      ghost var rank: map<Id, nat> :| Ranked(t, rank);
      var level := Children(t, scope, {id});
      found := level;
      forall x | x in level
        ensures StrictDescendant(t, id, x)
      {
        DescendantByParent(t, id, x);
      }
      while level != {}
        invariant level <= found <= t.Keys
        invariant forall x | x in found :: StrictDescendant(t, id, x)
        invariant forall x | x in found :: t[x].parent.Some? && t[x].parent.value in (found - level) + {id}
        invariant Children(t, scope, (found - level) + {id}) <= found
        decreases t.Keys - found, level
      {
        var next := Children(t, scope, level);
        NewRoundIsNew(t, rank, id, found, level);
        forall x | x in next
          ensures StrictDescendant(t, id, x)
        {
          DescendantByParent(t, id, x);
        }
        found := found + next;
        level := next;
      }
      forall x | StrictDescendant(t, id, x)
        ensures x in found
      {
        var n: nat :| n > 0 && Up(t, x, n) == Some(id);
        ClosedContainsDescendants(t, scope, id, found, x, n);
      }
    }

    /** `ensure_folder_can_move`. */
    method CanBeMoved(id: Id, parent: Option<Id>) returns (r: Result<(), Error>)
      requires Valid() && Live(folders, id)
      ensures r.Ok? <==> CanMove(folders, id, parent)
      ensures r.Err? ==> r.error == if parent == Some(id) then IntoItself else IntoChild
    {
      if parent.None? {
        return Ok(());
      }
      if parent.value == id {
        return Err(IntoItself);
      }
      var descendants := Descendants(id);
      if parent.value in descendants {
        return Err(IntoChild);
      }
      return Ok(());
    }

    method CreateFolder(e: Event) returns (r: Result<Id, Error>)
      requires Valid() && e.CreateFolder?
      modifies this
      ensures Valid() && Contents() == Step(old(Contents()), e)
      ensures r.Ok? <==> Create(old(folders), e).Ok?
      ensures r.Ok? ==> r.value == e.newId && LiveIn(folders, e.scope, e.newId)
      ensures r.Err? ==> r.error == Create(old(folders), e).error
    {
      StepKeepsForest(Contents(), e);
      if !e.customerActive {
        return Err(CustomerDisabled);
      }
      if !Belongs(folders, e.scope, e.parent) {
        return Err(NotFound);
      }
      if !e.inputValid {
        return Err(Invalid);
      }
      if e.newId in folders || !e.written {
        return Err(Database);
      }
      folders := folders[e.newId := Folder(e.scope, e.parent, false)];
      return Ok(e.newId);
    }

    method UpdateFolder(e: Event) returns (r: Result<(), Error>)
      requires Valid() && e.UpdateFolder?
      modifies this
      ensures Valid() && Contents() == Step(old(Contents()), e)
      ensures r.Ok? <==> Update(old(Contents()), e).Ok?
      ensures e.id !in old(folders) || old(folders)[e.id].deleted || old(folders)[e.id].scope.key != e.key ==>
        r == Err(NotFound) && Contents() == old(Contents())
      ensures r.Err? ==> r.error == Update(old(Contents()), e).error
    {
      StepKeepsForest(Contents(), e);
      if !Found(folders, e.key, e.id) {
        return Err(NotFound);
      }
      if !e.nameValid {
        return Err(Invalid);
      }
      if e.move.Some? {
        if !Belongs(folders, folders[e.id].scope, e.move.value) {
          return Err(NotFound);
        }
        var _ :- CanBeMoved(e.id, e.move.value);
      }
      if !e.metadataValid {
        return Err(Invalid);
      }
      if !e.written {
        return Err(Database);
      }
      if e.move.Some? {
        folders := folders[e.id := folders[e.id].(parent := e.move.value)];
      }
      return Ok(());
    }

    method DeleteFolder(e: Event) returns (r: Result<(), Error>)
      requires Valid() && e.DeleteFolder?
      modifies this
      ensures Valid() && Contents() == Step(old(Contents()), e)
      ensures r.Ok? <==> Delete(old(Contents()), e).Ok?
      ensures e.id !in old(folders) || old(folders)[e.id].deleted || old(folders)[e.id].scope.key != e.key ==>
        r == Err(NotFound) && Contents() == old(Contents())
      ensures r.Err? ==> r.error == Delete(old(Contents()), e).error
      ensures r.Ok? ==> !Live(folders, e.id)
    {
      StepKeepsForest(Contents(), e);
      if !Found(folders, e.key, e.id) {
        return Err(NotFound);
      }
      var scope := folders[e.id].scope;
      if Children(folders, scope, {e.id}) != {} {
        return Err(NotEmpty);
      }
      if HoldsAsset(assets, scope, e.id) {
        return Err(NotEmpty);
      }
      if !e.written {
        return Err(Database);
      }
      folders := folders[e.id := folders[e.id].(deleted := true)];
      return Ok(());
    }
  }

  /** A round's rows were not met before, so the recursion cannot return to where it has been. */
  lemma NewRoundIsNew(t: Table, rank: map<Id, nat>, id: Id, found: set<Id>, level: set<Id>)
    requires Ranked(t, rank) && Live(t, id) && level <= found <= t.Keys
    requires forall x | x in found :: StrictDescendant(t, id, x)
    requires forall x | x in found :: t[x].parent.Some? && t[x].parent.value in (found - level) + {id}
    ensures Children(t, t[id].scope, level) !! found
  {
    forall x | x in Children(t, t[id].scope, level)
      ensures x !in found
    {
      if x in found {
        assert t[x].parent.value == id && id in found;
        var n: nat :| n > 0 && Up(t, id, n) == Some(id);
        UpDescendsInRank(t, rank, id, n);
      }
    }
  }

  lemma {:induction false} ClosedContainsDescendants(t: Table, scope: Scope, id: Id, found: set<Id>, x: Id, n: nat)
    requires ParentsBelong(t) && LiveIn(t, scope, id)
    requires Children(t, scope, found + {id}) <= found
    requires n > 0 && Up(t, x, n) == Some(id)
    ensures x in found
    decreases n
  {
    DescendantsShareScope(t, id, x, n);
    if n > 1 {
      ClosedContainsDescendants(t, scope, id, found, t[x].parent.value, n - 1);
    }
    assert x in Children(t, scope, found + {id});
  }
}
