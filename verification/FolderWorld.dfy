/**
 The local folder operations over the table and the published records together:
 what one call leaves behind at every point where a publish can fail, and what
 every run of calls keeps.
 */
module FolderWorld {
  import opened Common
  import opened FolderTree
  import opened FolderOps

  /** The vault's own root keys, used while the root folder is not in the table. */
  datatype Vault = Vault(rootFolderKey: array<byte>, rootIpnsPrivateKey: array<byte>)

  /** The published children of each folder; what another device would load. */
  type Records = map<Id, seq<FolderChild>>

  datatype World = World(folders: Table, published: Records)

  datatype Item = Item(id: Id, kind: Kind)

  datatype FolderError =
    | ParentNotFound
    | ItemNotFound
    | NameTaken
    | DuplicateName
    | TooDeep
    | IntoItself
    | NoKeypair
    | PublishFailed

  datatype Outcome = Outcome(world: World, error: Option<FolderError>)

  function RootState(vault: Option<Vault>, t: Table): Option<FolderNode> {
    if vault.None? then None
    else if ROOT in t then Some(t[ROOT])
    else Some(FolderNode(ROOT, None, [], false, vault.value.rootFolderKey, vault.value.rootIpnsPrivateKey))
  }

  function StateFor(vault: Option<Vault>, t: Table, id: Id): Option<FolderNode> {
    if id == ROOT then RootState(vault, t)
    else if id in t then Some(t[id])
    else None
  }

  /** `children.find(c => c.type === kind && c.id === id)` */
  function Find(cs: seq<FolderChild>, kind: Kind, id: Id): (r: Option<FolderChild>)
    ensures r.Some? <==> exists c :: c in cs && c.kind == kind && c.id == id
    ensures r.Some? ==> r.value in cs && r.value.kind == kind && r.value.id == id
  {
    if cs == [] then None
    else if cs[0].kind == kind && cs[0].id == id then Some(cs[0])
    else
      assert cs == [cs[0]] + cs[1..];
      Find(cs[1..], kind, id)
  }

  ghost function DepthOf(t: Table, id: Id): nat
    requires Tree(t)
  {
    WalkEnds(t, Some(id));
    Depth(t, Some(id))
  }

  function Ids(items: seq<Item>): set<Id> {
    set it | it in items :: it.id
  }

  // ---------------------------------------------------------------- move

  /** The add-then-remove protocol; either publish may fail. */
  function MovePublished(
    published: Records, source: FolderNode, dest: FolderNode, ids: set<Id>, addOk: bool, removeOk: bool)
    : Records
  {
    if !addOk then published
    else
      var added := published[dest.id := dest.children + Select(source.children, ids)];
      if !removeOk then added else added[source.id := Without(source.children, ids)]
  }

  /** The checks made for one moved child, in the order a single move makes them. */
  ghost function MoveCheck(t: Table, dest: FolderNode, child: FolderChild): Option<FolderError>
    requires Tree(t)
  {
    if HasName(dest.children, child.name) then Some(NameTaken)
    else if child.kind == Folder && DepthOf(t, dest.id) + 1 + SubtreeDepth(t, child.id) > MAX_FOLDER_DEPTH
      then Some(TooDeep)
    else if child.kind == Folder && IsBelow(t, dest.id, child.id) then Some(IntoItself)
    else None
  }

  ghost function MoveOutcome(
    w: World, vault: Option<Vault>, item: Item, sourceId: Id, destId: Id, addOk: bool, removeOk: bool): Outcome
    requires Tree(w.folders)
  {
    var source, dest := StateFor(vault, w.folders, sourceId), StateFor(vault, w.folders, destId);
    if source.None? || dest.None? then Outcome(w, Some(ParentNotFound))
    else
      var child := Find(source.value.children, item.kind, item.id);
      if child.None? then Outcome(w, Some(ItemNotFound))
      else
        var refused := MoveCheck(w.folders, dest.value, child.value);
        if refused.Some? then Outcome(w, refused)
        else MoveTried(w, source.value, dest.value, {item.id}, addOk, removeOk)
  }

  /** After the checks: nothing local changes unless both publishes succeed. */
  function MoveTried(
    w: World, source: FolderNode, dest: FolderNode, ids: set<Id>, addOk: bool, removeOk: bool)
    : Outcome
  {
    var published := MovePublished(w.published, source, dest, ids, addOk, removeOk);
    if addOk && removeOk then Outcome(World(Moved(w.folders, source, dest, ids), published), None)
    else Outcome(World(w.folders, published), Some(PublishFailed))
  }

  /** The checks a batch move makes; the first failing child decides. */
  ghost function BatchCheck(t: Table, dest: FolderNode, moved: seq<FolderChild>): (e: Option<FolderError>)
    requires Tree(t)
  {
    if moved == [] then None
    else
      var init, last := moved[..|moved| - 1], moved[|moved| - 1];
      var earlier := BatchCheck(t, dest, init);
      if earlier.Some? then earlier
      else if HasName(init, last.name) then Some(DuplicateName)
      else if HasName(dest.children, last.name) then Some(NameTaken)
      else if last.kind == Folder && IsBelow(t, dest.id, last.id) then Some(IntoItself)
      else if last.kind == Folder && DepthOf(t, dest.id) + 1 + SubtreeDepth(t, last.id) > MAX_FOLDER_DEPTH
        then Some(TooDeep)
      else None
  }

  /** The documented use of a batch: every item is a child of the one folder, under its own type. */
  ghost predicate ItemsOf(items: seq<Item>, folder: Option<FolderNode>) {
    folder.Some? ==>
      forall it | it in items :: exists c :: c in folder.value.children && c.id == it.id && c.kind == it.kind
  }

  /** Both child lists updated, no parent pointer yet. */
  function ListsMoved(t: Table, source: FolderNode, dest: FolderNode, ids: set<Id>): Table {
    SetChildren(
      SetChildren(t, source.id, Without(source.children, ids)),
      dest.id,
      dest.children + Select(source.children, ids))
  }

  /** `setFolder({ ...folders[item.id], parentId })` for each folder item, from the table read at the start. */
  function ParentsSet(t: Table, before: Table, items: seq<Item>, destId: Id): Table {
    if items == [] then t
    else
      var rest, last := ParentsSet(t, before, items[..|items| - 1], destId), items[|items| - 1];
      if last.kind == Folder && last.id in before
      then rest[last.id := before[last.id].(parentId := Some(destId))]
      else rest
  }

  ghost function BatchMoveOutcome(
    w: World, vault: Option<Vault>, items: seq<Item>, sourceId: Id, destId: Id, addOk: bool, removeOk: bool): Outcome
    requires Tree(w.folders)
  {
    var source, dest := StateFor(vault, w.folders, sourceId), StateFor(vault, w.folders, destId);
    if source.None? || dest.None? then Outcome(w, Some(ParentNotFound))
    else
      var refused := BatchCheck(w.folders, dest.value, Select(source.value.children, Ids(items)));
      if refused.Some? then Outcome(w, refused)
      else
        var published := MovePublished(w.published, source.value, dest.value, Ids(items), addOk, removeOk);
        if addOk && removeOk
        then Outcome(World(BatchMoved(w.folders, source.value, dest.value, items), published), None)
        else Outcome(World(w.folders, published), Some(PublishFailed))
  }

  function BatchMoved(t: Table, source: FolderNode, dest: FolderNode, items: seq<Item>): Table {
    ParentsSet(ListsMoved(t, source, dest, Ids(items)), t, items, dest.id)
  }

  // ---------------------------------------------------------------- delete

  function DeleteTried(w: World, parent: FolderNode, ids: set<Id>, gone: set<Id>, ok: bool): Outcome {
    if ok
    then Outcome(World(Removed(w.folders, parent, ids, gone),
      w.published[parent.id := Without(parent.children, ids)]), None)
    else Outcome(w, Some(PublishFailed))
  }

  /** A single delete drops the one folder; its loaded descendants stay in the table. */
  function DeleteOutcome(w: World, vault: Option<Vault>, item: Item, parentId: Id, ok: bool): Outcome {
    var parent := StateFor(vault, w.folders, parentId);
    if parent.None? then Outcome(w, Some(ParentNotFound))
    else if Find(parent.value.children, item.kind, item.id).None? then Outcome(w, Some(ItemNotFound))
    else DeleteTried(w, parent.value, {item.id}, if item.kind == Folder then {item.id} else {}, ok)
  }

  /** The loaded folders at or below a selected folder. */
  ghost function Selected(t: Table, items: seq<Item>): set<Id> {
    set k, it | it in items && it.kind == Folder && it.id in t && k in Below(t, it.id) :: k
  }

  ghost function BatchDeleteOutcome(w: World, vault: Option<Vault>, items: seq<Item>, parentId: Id, ok: bool): Outcome {
    var parent := StateFor(vault, w.folders, parentId);
    if parent.None? then Outcome(w, Some(ParentNotFound))
    else DeleteTried(w, parent.value, Ids(items), Selected(w.folders, items), ok)
  }

  // ---------------------------------------------------------------- create

  /** The folder a new child lands in: the root when the given parent is absent. */
  function CreateParent(vault: Option<Vault>, t: Table, parentId: Option<Id>): Option<FolderNode> {
    if parentId.Some? && parentId.value in t then Some(t[parentId.value]) else RootState(vault, t)
  }

  ghost function CreateOutcome(
    w: World, vault: Option<Vault>, hasKeypair: bool, parentId: Option<Id>, child: FolderChild, node: FolderNode,
    parentOk: bool, ownOk: bool): Outcome
    requires Tree(w.folders)
  {
    WalkEnds(w.folders, parentId);
    var parent := CreateParent(vault, w.folders, parentId);
    if Depth(w.folders, parentId) >= MAX_FOLDER_DEPTH then Outcome(w, Some(TooDeep))
    else if !hasKeypair then Outcome(w, Some(NoKeypair))
    else if parent.None? then Outcome(w, Some(ParentNotFound))
    else if !parentOk then Outcome(w, Some(PublishFailed))
    else
      var listed := w.published[parent.value.id := parent.value.children + [child]];
      if !ownOk then Outcome(World(w.folders, listed), Some(PublishFailed))
      else Outcome(World(Created(w.folders, parent.value, child, node), listed[child.id := []]), None)
  }

  // ---------------------------------------------------------------- what a move keeps

  /** At every failure point each moved child is published in the source or in the destination. */
  lemma MoveNeverLoses(
    published: Records, source: FolderNode, dest: FolderNode, ids: set<Id>, addOk: bool, removeOk: bool,
    c: FolderChild)
    requires source.id in published && c in published[source.id]
    requires c in source.children && c.id in ids && source.id != dest.id
    ensures var after := MovePublished(published, source, dest, ids, addOk, removeOk);
      (source.id in after && c in after[source.id]) || (dest.id in after && c in after[dest.id])
  {
  }

  /** On success a child that only the source published is published by the destination alone. */
  lemma MoveEndsInOnePlace(published: Records, source: FolderNode, dest: FolderNode, ids: set<Id>, c: FolderChild)
    requires c in source.children && c.id in ids && source.id != dest.id
    requires forall f | f in published && c in published[f] :: f == source.id
    ensures var after := MovePublished(published, source, dest, ids, true, true);
      forall f :: f in after && c in after[f] <==> f == dest.id
  {
  }

  /** The local list an add-then-remove publishes folder f from, if it gets that far. */
  function MovePublishedFrom(source: FolderNode, dest: FolderNode, addOk: bool, removeOk: bool, f: Id)
    : Option<seq<FolderChild>>
  {
    if addOk && removeOk && f == source.id then Some(source.children)
    else if addOk && f == dest.id then Some(dest.children)
    else None
  }

  /** Any entry not moved: a republished folder has it exactly when its local list does, any other folder as before. */
  lemma MoveKeepsOthersIff(
    published: Records, source: FolderNode, dest: FolderNode, ids: set<Id>, addOk: bool, removeOk: bool, f: Id,
    x: FolderChild)
    requires x.id !in ids
    ensures var after, list := MovePublished(published, source, dest, ids, addOk, removeOk),
      MovePublishedFrom(source, dest, addOk, removeOk, f);
      (f in after && x in after[f]) <==> if list.Some? then x in list.value else f in published && x in published[f]
  {
  }

  // ---------------------------------------------------------------- checks give the guards

  lemma StatesAgree(vault: Option<Vault>, t: Table, id: Id)
    requires Keyed(t) && (ROOT in t ==> t[ROOT].parentId == None)
    ensures StateFor(vault, t, id).Some? ==>
      StateOf(t, StateFor(vault, t, id).value) && StateFor(vault, t, id).value.id == id
  {
    if id in t {
      assert t[id].id == id;
    }
  }

  lemma {:induction false} UniqueIdsSame(cs: seq<FolderChild>, c: FolderChild, d: FolderChild)
    requires UniqueIds(cs) && c in cs && d in cs && c.id == d.id
    ensures c == d
  {
    var init, last := cs[..|cs| - 1], cs[|cs| - 1];
    assert cs == init + [last];
    if c in init && d in init {
      UniqueIdsSame(init, c, d);
    } else {
      assert !HasId(init, last.id);
    }
  }

  lemma {:induction false} BatchCheckPassed(t: Table, dest: FolderNode, moved: seq<FolderChild>)
    requires Tree(t) && BatchCheck(t, dest, moved).None?
    ensures UniqueNames(moved)
    ensures forall c | c in moved :: !HasName(dest.children, c.name)
    ensures forall c | c in moved && c.kind == Folder ::
      !IsBelow(t, dest.id, c.id) && DepthOf(t, dest.id) + 1 + SubtreeDepth(t, c.id) <= MAX_FOLDER_DEPTH
  {
    if moved != [] {
      BatchCheckPassed(t, dest, moved[..|moved| - 1]);
      assert moved == moved[..|moved| - 1] + [moved[|moved| - 1]];
    }
  }

  /** What both kinds of move have established before their first publish. */
  ghost predicate MoveAllowed(t: Table, source: FolderNode, dest: FolderNode, ids: set<Id>)
    requires Tree(t)
  {
    && StateOf(t, source) && StateOf(t, dest)
    && UniqueNames(Select(source.children, ids))
    && (forall c | c in source.children && c.id in ids :: !HasName(dest.children, c.name))
    && NotIntoItself(t, source, dest, ids)
    && (forall c | c in source.children && c.id in ids && c.kind == Folder ::
          DepthOf(t, dest.id) + 1 + SubtreeDepth(t, c.id) <= MAX_FOLDER_DEPTH)
  }

  lemma OneMoveAllowed(t: Table, source: FolderNode, dest: FolderNode, child: FolderChild)
    requires Forest(t) && StateOf(t, source) && StateOf(t, dest)
    requires child in source.children && UniqueIds(source.children) && MoveCheck(t, dest, child).None?
    ensures MoveAllowed(t, source, dest, {child.id})
  {
    forall c | c in source.children && c.id in {child.id}
      ensures c == child
    {
      UniqueIdsSame(source.children, c, child);
    }
    SelectOne(source.children, child);
  }

  lemma MoveChecksAllow(w: World, vault: Option<Vault>, item: Item, sourceId: Id, destId: Id)
    requires Forest(w.folders) && MoveOutcome(w, vault, item, sourceId, destId, true, true).error.None?
    ensures MoveAllowed(w.folders, StateFor(vault, w.folders, sourceId).value,
      StateFor(vault, w.folders, destId).value, {item.id})
  {
    StatesAgree(vault, w.folders, sourceId);
    StatesAgree(vault, w.folders, destId);
    var source, dest := StateFor(vault, w.folders, sourceId).value, StateFor(vault, w.folders, destId).value;
    assert UniqueIds(source.children) by {
      if source.id in w.folders {
        assert UniqueIds(w.folders[source.id].children);
      }
    }
    OneMoveAllowed(w.folders, source, dest, Find(source.children, item.kind, item.id).value);
  }

  lemma {:induction false} SelectOne(cs: seq<FolderChild>, child: FolderChild)
    requires UniqueIds(cs) && child in cs
    ensures Select(cs, {child.id}) == [child]
  {
    var init, last := cs[..|cs| - 1], cs[|cs| - 1];
    assert cs == init + [last];
    if last.id == child.id {
      UniqueIdsSame(cs, child, last);
      SelectNone(init, child.id);
    } else {
      SelectOne(init, child);
    }
  }

  lemma {:induction false} SelectNone(cs: seq<FolderChild>, id: Id)
    requires !HasId(cs, id)
    ensures Select(cs, {id}) == [] && Without(cs, {id}) == cs
  {
    if cs != [] {
      assert cs == cs[..|cs| - 1] + [cs[|cs| - 1]];
      SelectNone(cs[..|cs| - 1], id);
    }
  }

  lemma BatchChecksAllow(w: World, vault: Option<Vault>, items: seq<Item>, sourceId: Id, destId: Id)
    requires Forest(w.folders) && BatchMoveOutcome(w, vault, items, sourceId, destId, true, true).error.None?
    ensures MoveAllowed(w.folders, StateFor(vault, w.folders, sourceId).value,
      StateFor(vault, w.folders, destId).value, Ids(items))
  {
    StatesAgree(vault, w.folders, sourceId);
    StatesAgree(vault, w.folders, destId);
    var source, dest := StateFor(vault, w.folders, sourceId).value, StateFor(vault, w.folders, destId).value;
    BatchCheckPassed(w.folders, dest, Select(source.children, Ids(items)));
  }

  /** A completed move keeps the forest, the depth limit and distinct names in the destination. */
  lemma MoveKeepsInvariants(t: Table, source: FolderNode, dest: FolderNode, ids: set<Id>)
    requires Forest(t) && MoveAllowed(t, source, dest, ids)
    ensures Forest(Moved(t, source, dest, ids))
    ensures DepthOk(t) ==> DepthOk(Moved(t, source, dest, ids))
    ensures UniqueNames(dest.children) ==> UniqueNames(dest.children + Select(source.children, ids))
  {
    WalkEnds(t, Some(dest.id));
    AppendKeepsUnique(dest.children, Select(source.children, ids));
    if DepthOk(t) {
      MovedKeepsDepth(t, source, dest, ids);
    }
    if source.id == dest.id {
      MoveToItself(t, source, ids);
    } else {
      MovedKeepsForest(t, source, dest, ids);
    }
  }

  /** A move whose source is its destination gets past the name check only with nothing selected. */
  lemma MoveToItself(t: Table, folder: FolderNode, ids: set<Id>)
    requires Forest(t) && MoveAllowed(t, folder, folder, ids)
    ensures (forall c | c in folder.children :: c.id !in ids) && Select(folder.children, ids) == []
    ensures Forest(Moved(t, folder, folder, ids))
  {
    forall c | c in folder.children
      ensures c.id !in ids
    {
      assert HasName(folder.children, c.name);
    }
    NothingSelected(folder.children, ids);
    assert folder.children + [] == folder.children;
    assert MovedFolders(t, folder, ids) == {};
    var t' := Moved(t, folder, folder, ids);
    forall k | k in t
      ensures SameFolder(t, t', k)
    {
    }
    SameShape(t, t');
  }

  lemma {:induction false} NothingSelected(cs: seq<FolderChild>, ids: set<Id>)
    requires forall c | c in cs :: c.id !in ids
    ensures Select(cs, ids) == [] && Without(cs, ids) == cs
  {
    if cs != [] {
      assert cs == cs[..|cs| - 1] + [cs[|cs| - 1]];
      NothingSelected(cs[..|cs| - 1], ids);
    }
  }

  ghost predicate Detached(t: Table, k: Id)
    requires k in t
  {
    t[k].parentId.None? || t[k].parentId.value !in t
  }

  /** The forest depends on child lists and on parent pointers to loaded folders only. */
  ghost predicate SameFolder(t: Table, t': Table, k: Id) {
    && k in t && k in t'
    && t'[k].id == t[k].id
    && t'[k].children == t[k].children
    && (t'[k].parentId == t[k].parentId || (Detached(t, k) && Detached(t', k)))
    && (k == ROOT ==> t'[k].parentId == None)
  }

  ghost predicate SameFolders(t: Table, t': Table) {
    && t'.Keys == t.Keys
    && forall k {:trigger SameFolder(t, t', k)} {:trigger t'[k]} | k in t :: SameFolder(t, t', k)
  }

  lemma {:induction false} SameFoldersEnd(t: Table, t': Table, c: Option<Id>, n: nat)
    requires SameFolders(t, t') && EndsAfter(t, c, n)
    ensures EndsAfter(t', c, n)
    decreases n
  {
    if c.Some? && c.value in t {
      assert SameFolder(t, t', c.value);
    }
    if c.Some? && c.value in t && !Detached(t, c.value) {
      SameFoldersEnd(t, t', t[c.value].parentId, n - 1);
    }
  }

  lemma SameShape(t: Table, t': Table)
    requires Forest(t) && SameFolders(t, t')
    ensures Forest(t')
    ensures DepthOk(t) ==> DepthOk(t')
  {
    forall k | k in t'
      ensures Ends(t', Some(k))
      ensures DepthOk(t) ==> forall n: nat :: EndsAfter(t', Some(k), n) ==> n <= MAX_FOLDER_DEPTH
    {
      WalkEnds(t, Some(k));
      SameFoldersEnd(t, t', Some(k), Depth(t, Some(k)));
      forall n: nat | EndsAfter(t', Some(k), n)
        ensures n == Depth(t, Some(k))
      {
        EndsOnce(t', Some(k), n, Depth(t, Some(k)));
      }
    }
    forall p, k | p in t' && k in t'
      ensures ListsFolder(t'[p].children, k) <==> t'[k].parentId == Some(p)
    {
      assert ListsFolder(t[p].children, k) <==> t[k].parentId == Some(p);
      assert SameFolder(t, t', p) && SameFolder(t, t', k);
    }
    assert forall p | p in t :: UniqueIds(t[p].children) == UniqueIds(t'[p].children);
  }
}
