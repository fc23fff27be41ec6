/**
 The folder store with its in-place actions, and the handlers of the folder hook that
 drive it. Each handler is proved to leave exactly the world its outcome function names.
 A handler runs from its first to its last step without another one in between.
 */
module FolderHandlers {
  import opened Common
  import opened FolderTree
  import opened FolderOps
  import opened FolderService
  import opened FolderWorld
  import opened FolderRuns

  function KeysOf(n: FolderNode): set<array<byte>> {
    {n.folderKey, n.ipnsPrivateKey}
  }

  function AllKeys(t: Table): set<array<byte>> {
    set k, a | k in t && a in KeysOf(t[k]) :: a
  }

  /** No key buffer belongs to two folders. */
  ghost predicate KeysApart(t: Table) {
    forall j, k {:trigger KeysOf(t[j]), KeysOf(t[k])} | j in t && k in t && j != k :: KeysOf(t[j]) !! KeysOf(t[k])
  }

  ghost predicate KeysZero(n: FolderNode)
    reads KeysOf(n)
  {
    AllZero(n.folderKey[..]) && AllZero(n.ipnsPrivateKey[..])
  }

  lemma SameKeys(t: Table, t': Table)
    requires KeysKept(t, t')
    ensures KeysApart(t) ==> KeysApart(t')
    ensures AllKeys(t') <= AllKeys(t)
  {
    forall a | a in AllKeys(t')
      ensures a in AllKeys(t)
    {
      var k :| k in t' && a in KeysOf(t'[k]);
      assert a in KeysOf(t[k]);
    }
    if KeysApart(t) {
      forall j, k | j in t' && k in t' && j != k
        ensures KeysOf(t'[j]) !! KeysOf(t'[k])
      {
        assert KeysOf(t[j]) !! KeysOf(t[k]);
      }
    }
  }

  lemma CreatedKeysApart(t: Table, parent: FolderNode, child: FolderChild, node: FolderNode)
    requires KeysApart(t) && KeysOf(node) !! AllKeys(t) && node.id !in t
    ensures KeysApart(Created(t, parent, child, node))
  {
    var t' := Created(t, parent, child, node);
    forall j, k | j in t' && k in t' && j != k
      ensures KeysOf(t'[j]) !! KeysOf(t'[k])
    {
      assert j in t ==> KeysOf(t[j]) <= AllKeys(t);
      assert k in t ==> KeysOf(t[k]) <= AllKeys(t);
      assert j in t && k in t ==> KeysOf(t[j]) !! KeysOf(t[k]);
    }
  }

  lemma BatchMovedKeys(t: Table, source: FolderNode, dest: FolderNode, items: seq<Item>)
    ensures KeysKept(t, BatchMoved(t, source, dest, items))
  {
    var lists := ListsMoved(t, source, dest, Ids(items));
    ParentsSetKeys(lists, t, items, dest.id);
    forall k | k in t
      ensures
        var n := BatchMoved(t, source, dest, items)[k];
        n.folderKey == t[k].folderKey && n.ipnsPrivateKey == t[k].ipnsPrivateKey
    {
      ParentsSetAt(lists, t, items, dest.id, k);
    }
  }

  ghost predicate KeysKept(t: Table, t': Table) {
    && t'.Keys <= t.Keys
    && forall k | k in t' :: t'[k].folderKey == t[k].folderKey && t'[k].ipnsPrivateKey == t[k].ipnsPrivateKey
  }

  lemma MovedKeys(t: Table, source: FolderNode, dest: FolderNode, ids: set<Id>)
    ensures KeysKept(t, Moved(t, source, dest, ids))
  {
  }

  lemma RemovedKeys(t: Table, parent: FolderNode, ids: set<Id>, gone: set<Id>)
    ensures KeysKept(t, Removed(t, parent, ids, gone))
  {
  }

  lemma MovesKeepKeys(w: World, vault: Option<Vault>, op: Op)
    requires Tree(w.folders) && (op.Move? || op.MoveItems?)
    ensures KeysKept(w.folders, Apply(w, vault, op).folders)
  {
    var source, dest := StateFor(vault, w.folders, op.sourceId), StateFor(vault, w.folders, op.destId);
    if source.Some? && dest.Some? {
      if op.Move? {
        MovedKeys(w.folders, source.value, dest.value, {op.item.id});
      } else {
        BatchMovedKeys(w.folders, source.value, dest.value, op.items);
      }
    }
  }

  lemma DeletesKeepKeys(w: World, vault: Option<Vault>, op: Op)
    requires Tree(w.folders) && (op.Delete? || op.DeleteItems?)
    ensures KeysKept(w.folders, Apply(w, vault, op).folders)
  {
    var parent := StateFor(vault, w.folders, op.folderId);
    if parent.Some? {
      if op.Delete? {
        RemovedKeys(w.folders, parent.value, {op.item.id}, if op.item.kind == Folder then {op.item.id} else {});
      } else {
        RemovedKeys(w.folders, parent.value, Ids(op.items), Selected(w.folders, op.items));
      }
    }
  }

  /** No operation lets two folders share a key buffer. */
  lemma ApplyKeepsKeysApart(w: World, vault: Option<Vault>, op: Op)
    requires Tree(w.folders) && KeysApart(w.folders) && Callable(w, vault, op)
    requires op.Create? ==> KeysOf(op.node) !! AllKeys(w.folders)
    ensures KeysApart(Apply(w, vault, op).folders)
  {
    if op.Create? {
      var parent := CreateParent(vault, w.folders, op.parentId);
      if parent.Some? {
        CreatedKeysApart(w.folders, parent.value, op.child, op.node);
      }
    } else {
      if op.Move? || op.MoveItems? {
        MovesKeepKeys(w, vault, op);
      } else {
        DeletesKeepKeys(w, vault, op);
      }
      SameKeys(w.folders, Apply(w, vault, op).folders);
    }
  }

  /** The buffers of the folders that left the table, and of none that stayed. */
  ghost predicate ExactlyGone(t: Table, t': Table, zeroed: set<array<byte>>) {
    && (forall k | k in t && k !in t' :: KeysOf(t[k]) <= zeroed)
    && (forall k | k in t && k in t' :: KeysOf(t[k]) !! zeroed)
  }

  lemma OneMoreGone(t: Table, t': Table, id: Id, zeroed: set<array<byte>>)
    requires ExactlyGone(t, t', zeroed) && KeysApart(t)
    ensures ExactlyGone(t, t' - {id}, if id in t then zeroed + KeysOf(t[id]) else zeroed)
  {
    assert id in t ==> forall k | k in t && k != id :: KeysOf(t[k]) !! KeysOf(t[id]);
  }

  class FolderStore {
    var folders: Table
    var published: Records
    const vault: Option<Vault>

    constructor (vault: Option<Vault>)
      ensures this.vault == vault && Contents() == World(map[], map[])
    {
      this.vault := vault;
      folders, published := map[], map[];
    }

    ghost function Contents(): World
      reads this
    {
      World(folders, published)
    }

    // ------------------------------------------------------------ store actions

    method SetFolder(folder: FolderNode)
      modifies this
      ensures published == old(published)
      ensures folders == old(folders)[folder.id := folder]
    {
      folders := folders[folder.id := folder];
    }

    method UpdateFolderChildren(folderId: Id, children: seq<FolderChild>)
      modifies this
      ensures published == old(published)
      ensures folders == SetChildren(old(folders), folderId, children)
    {
      if folderId in folders {
        folders := folders[folderId := folders[folderId].(children := children, isLoaded := true)];
      }
    }

    /** Zero the folder's keys in place, then drop it. */
    method RemoveFolder(folderId: Id)
      modifies this, if folderId in folders then KeysOf(folders[folderId]) else {}
      ensures published == old(published)
      ensures folders == old(folders) - {folderId}
      ensures folderId in old(folders) ==> KeysZero(old(folders)[folderId])
    {
      if folderId in folders {
        var folder := folders[folderId];
        FillZero(folder.folderKey);
        FillZero(folder.ipnsPrivateKey);
        folders := folders - {folderId};
      }
    }

    /** Encrypt, upload and publish a folder's children; the network decides whether it succeeds. */
    method UpdateFolderMetadata(folderId: Id, children: seq<FolderChild>, ok: bool) returns (done: bool)
      modifies this
      ensures folders == old(folders)
      ensures done == ok
      ensures published == if ok then old(published)[folderId := children] else old(published)
    {
      if ok {
        published := published[folderId := children];
      }
      done := ok;
    }

    // ------------------------------------------------------------ handlers

    method HandleCreate(
      name: string, parentId: Option<Id>, hasKeypair: bool, newId: Id, ipnsName: string, parentOk: bool, ownOk: bool)
      returns (error: Option<FolderError>, ghost node: FolderNode)
      requires Forest(folders) && FreshId(folders, newId)
      modifies this
      ensures fresh(KeysOf(node))
      ensures var parent := CreateParent(vault, old(folders), parentId);
        parent.Some? ==> NewFolder(old(folders), parent.value, FolderChild(Folder, newId, name, ipnsName), node)
      ensures var o := CreateOutcome(old(Contents()), vault, hasKeypair, parentId,
        FolderChild(Folder, newId, name, ipnsName), node, parentOk, ownOk);
        Contents() == o.world && error == o.error
    {
      var child := FolderChild(Folder, newId, name, ipnsName);
      var parentFolder := CreateParent(vault, folders, parentId);
      var newNode := NewNode(newId, if parentFolder.Some? then Some(parentFolder.value.id) else None);
      node := newNode;
      CreateParentState(vault, folders, parentId);
      var tooDeep := AtDepthLimit(parentId);
      if tooDeep {
        return Some(TooDeep), node;
      }
      if !hasKeypair {
        return Some(NoKeypair), node;
      }
      if parentFolder.None? {
        return Some(ParentNotFound), node;
      }
      var newChildren := parentFolder.value.children + [child];
      var done := UpdateFolderMetadata(parentFolder.value.id, newChildren, parentOk);
      if !done {
        return Some(PublishFailed), node;
      }
      done := UpdateFolderMetadata(newId, [], ownOk);
      if !done {
        return Some(PublishFailed), node;
      }
      UpdateFolderChildren(parentFolder.value.id, newChildren);
      SetFolder(newNode);
      return None, node;
    }

    method NewNode(newId: Id, parentId: Option<Id>) returns (node: FolderNode)
      ensures node.id == newId && node.parentId == parentId && node.children == []
      ensures fresh(KeysOf(node)) && node.folderKey != node.ipnsPrivateKey
    {
      var folderKey, ipnsPrivateKey := new byte[32](_ => 0), new byte[64](_ => 0);
      node := FolderNode(newId, parentId, [], true, folderKey, ipnsPrivateKey);
    }

    method AtDepthLimit(parentId: Option<Id>) returns (r: bool)
      requires Acyclic(folders)
      ensures Ends(folders, parentId) && r == (Depth(folders, parentId) >= MAX_FOLDER_DEPTH)
    {
      WalkEnds(folders, parentId);
      var parentDepth := GetDepth(parentId, folders);
      EndsOnce(folders, parentId, parentDepth, Depth(folders, parentId));
      return parentDepth >= MAX_FOLDER_DEPTH;
    }

    method HandleMove(
      item: Item, sourceId: Id, destId: Id, addOk: bool, removeOk: bool)
      returns (error: Option<FolderError>)
      requires Forest(folders)
      modifies this
      ensures var o := MoveOutcome(old(Contents()), vault, item, sourceId, destId, addOk, removeOk);
        Contents() == o.world && error == o.error
    {
      var source, dest := StateFor(vault, folders, sourceId), StateFor(vault, folders, destId);
      var found: FolderChild;
      error, found := PlanMove(item, sourceId, destId);
      if error.Some? {
        return;
      }
      MoveLists(Contents(), vault, item, sourceId, destId);
      var destChildren := dest.value.children + [found];
      var sourceChildren := WithoutItem(source.value.children, item);
      var done := PublishMove(dest.value.id, destChildren, source.value.id, sourceChildren, addOk, removeOk);
      if !done {
        return Some(PublishFailed);
      }
      if item.kind == Folder && item.id in folders {
        SetFolder(folders[item.id].(parentId := Some(destId)));
      }
      UpdateFolderChildren(sourceId, Without(source.value.children, {item.id}));
      UpdateFolderChildren(destId, destChildren);
    }

    /** Look up both folders and the item, and run the checks; nothing is written yet. */
    method PlanMove(item: Item, sourceId: Id, destId: Id) returns (error: Option<FolderError>, found: FolderChild)
      requires Tree(folders)
      ensures error == MoveOutcome(Contents(), vault, item, sourceId, destId, true, true).error
      ensures error.None? ==>
        Find(StateFor(vault, folders, sourceId).value.children, item.kind, item.id) == Some(found)
    {
      found := FolderChild(item.kind, item.id, "", "");
      var source, dest := StateFor(vault, folders, sourceId), StateFor(vault, folders, destId);
      if source.None? || dest.None? {
        return Some(ParentNotFound), found;
      }
      var child := Find(source.value.children, item.kind, item.id);
      if child.None? {
        return Some(ItemNotFound), found;
      }
      found := child.value;
      error := CheckMove(dest.value, found);
    }

    /** Add to the destination first, remove from the source once the add is published. */
    method PublishMove(
      destId: Id, destChildren: seq<FolderChild>, sourceId: Id, sourceChildren: seq<FolderChild>, addOk: bool,
      removeOk: bool)
      returns (done: bool)
      modifies this
      ensures folders == old(folders)
      ensures done == (addOk && removeOk)
      ensures published ==
        if !addOk then old(published)
        else if !removeOk then old(published)[destId := destChildren]
        else old(published)[destId := destChildren][sourceId := sourceChildren]
    {
      done := UpdateFolderMetadata(destId, destChildren, addOk);
      if done {
        done := UpdateFolderMetadata(sourceId, sourceChildren, removeOk);
      }
    }

    /** The checks of a single move, in its order. */
    method CheckMove(dest: FolderNode, child: FolderChild) returns (refused: Option<FolderError>)
      requires Tree(folders)
      ensures refused == MoveCheck(folders, dest, child)
    {
      if HasName(dest.children, child.name) {
        return Some(NameTaken);
      }
      if child.kind == Folder {
        var tooDeep := WouldBeTooDeep(dest, child.id);
        if tooDeep {
          return Some(TooDeep);
        }
        var cyclic := IsDescendantOf(dest.id, child.id, folders);
        if cyclic {
          return Some(IntoItself);
        }
      }
      return None;
    }

    method WouldBeTooDeep(dest: FolderNode, folderId: Id) returns (r: bool)
      requires Tree(folders)
      ensures r <==> DepthOf(folders, dest.id) + 1 + SubtreeDepth(folders, folderId) > MAX_FOLDER_DEPTH
    {
      WalkEnds(folders, Some(dest.id));
      var destDepth := GetDepth(Some(dest.id), folders);
      EndsOnce(folders, Some(dest.id), destDepth, Depth(folders, Some(dest.id)));
      var folderSubtreeDepth := CalculateSubtreeDepth(folderId, folders);
      return destDepth + 1 + folderSubtreeDepth > MAX_FOLDER_DEPTH;
    }

    method HandleMoveItems(
      items: seq<Item>, sourceId: Id, destId: Id, addOk: bool, removeOk: bool)
      returns (error: Option<FolderError>)
      requires Forest(folders)
      modifies this
      ensures var o := BatchMoveOutcome(old(Contents()), vault, items, sourceId, destId, addOk, removeOk);
        Contents() == o.world && error == o.error
    {
      var source, dest := StateFor(vault, folders, sourceId), StateFor(vault, folders, destId);
      StatesAgree(vault, folders, sourceId);
      StatesAgree(vault, folders, destId);
      if source.None? || dest.None? {
        return Some(ParentNotFound);
      }
      var movedChildren := Select(source.value.children, Ids(items));
      error := CheckBatch(dest.value, movedChildren);
      if error.Some? {
        return;
      }
      var destChildren := dest.value.children + movedChildren;
      var sourceChildren := Without(source.value.children, Ids(items));
      var done := PublishMove(dest.value.id, destChildren, source.value.id, sourceChildren, addOk, removeOk);
      if !done {
        return Some(PublishFailed);
      }
      var snapshot := folders;
      UpdateFolderChildren(sourceId, sourceChildren);
      UpdateFolderChildren(destId, destChildren);
      SetParents(snapshot, items, destId);
    }

    method SetParents(snapshot: Table, items: seq<Item>, destId: Id)
      requires Keyed(snapshot)
      modifies this
      ensures published == old(published)
      ensures folders == ParentsSet(old(folders), snapshot, items, destId)
    {
      for i := 0 to |items|
        invariant published == old(published)
        invariant folders == ParentsSet(old(folders), snapshot, items[..i], destId)
      {
        assert items[..i + 1][..i] == items[..i];
        if items[i].kind == Folder && items[i].id in snapshot {
          assert snapshot[items[i].id].id == items[i].id;
          SetFolder(snapshot[items[i].id].(parentId := Some(destId)));
        }
      }
      assert items[..|items|] == items;
    }

    /** The validation loop of a batch move. */
    method CheckBatch(dest: FolderNode, moved: seq<FolderChild>) returns (refused: Option<FolderError>)
      requires Tree(folders)
      ensures refused == BatchCheck(folders, dest, moved)
    {
      var batchNames: set<string> := {};
      for i := 0 to |moved|
        invariant BatchCheck(folders, dest, moved[..i]).None?
        invariant forall name :: name in batchNames <==> HasName(moved[..i], name)
      {
        var child := moved[i];
        assert moved[..i + 1] == moved[..i] + [child];
        assert moved[..i + 1][..i] == moved[..i];
        ghost var verdict := BatchCheck(folders, dest, moved[..i + 1]);
        refused := CheckBatchChild(dest, child, batchNames);
        assert refused == verdict;
        if refused.Some? {
          RefusalStands(folders, dest, moved, i + 1);
          return;
        }
        batchNames := batchNames + {child.name};
      }
      assert moved[..|moved|] == moved;
      refused := None;
    }

    method CheckBatchChild(
      dest: FolderNode, child: FolderChild, batchNames: set<string>)
      returns (refused: Option<FolderError>)
      requires Tree(folders)
      ensures refused ==
        if child.name in batchNames then Some(DuplicateName)
        else if HasName(dest.children, child.name) then Some(NameTaken)
        else if child.kind == Folder && IsBelow(folders, dest.id, child.id) then Some(IntoItself)
        else if
          child.kind == Folder && DepthOf(folders, dest.id) + 1 + SubtreeDepth(folders, child.id) > MAX_FOLDER_DEPTH
        then Some(TooDeep)
        else None
    {
      if child.name in batchNames {
        return Some(DuplicateName);
      }
      if HasName(dest.children, child.name) {
        return Some(NameTaken);
      }
      if child.kind == Folder {
        var cyclic := IsDescendantOf(dest.id, child.id, folders);
        if cyclic {
          return Some(IntoItself);
        }
        var tooDeep := WouldBeTooDeep(dest, child.id);
        if tooDeep {
          return Some(TooDeep);
        }
      }
      return None;
    }

    /** A single delete zeroes and drops the one folder; its descendants keep their keys. */
    method HandleDelete(item: Item, parentId: Id, ok: bool) returns (error: Option<FolderError>)
      requires Forest(folders)
      modifies this, if item.id in folders then KeysOf(folders[item.id]) else {}
      ensures var o := DeleteOutcome(old(Contents()), vault, item, parentId, ok);
        Contents() == o.world && error == o.error
      ensures item.id in old(folders) && item.id !in folders ==> KeysZero(old(folders)[item.id])
      ensures item.id in old(folders) && item.id in folders ==>
        && old(folders)[item.id].folderKey[..] == old(folders[item.id].folderKey[..])
        && old(folders)[item.id].ipnsPrivateKey[..] == old(folders[item.id].ipnsPrivateKey[..])
    {
      var parent := StateFor(vault, folders, parentId);
      if parent.None? {
        return Some(ParentNotFound);
      }
      if Find(parent.value.children, item.kind, item.id).None? {
        return Some(ItemNotFound);
      }
      DeleteLists(folders, vault, item, parentId);
      var done := UpdateFolderMetadata(parent.value.id, WithoutItem(parent.value.children, item), ok);
      if !done {
        return Some(PublishFailed);
      }
      if item.kind == Folder {
        RemoveFolder(item.id);
      }
      UpdateFolderChildren(parentId, Without(parent.value.children, {item.id}));
      return None;
    }

    /** A batch delete zeroes the keys of everything it removes and of nothing else. */
    method HandleDeleteItems(items: seq<Item>, parentId: Id, ok: bool, ghost keys: set<array<byte>>)
      returns (error: Option<FolderError>, ghost zeroed: set<array<byte>>)
      requires Tree(folders) && Keyed(folders) && KeysApart(folders)
      requires forall k | k in folders :: KeysOf(folders[k]) <= keys
      modifies this, keys
      ensures var o := BatchDeleteOutcome(old(Contents()), vault, items, parentId, ok);
        Contents() == o.world && error == o.error
      ensures ExactlyGone(old(folders), folders, zeroed)
      ensures forall a | a in zeroed :: AllZero(a[..])
      ensures forall a | a in keys - zeroed :: a[..] == old(a[..])
    {
      zeroed := {};
      var parent := StateFor(vault, folders, parentId);
      if parent.None? {
        return Some(ParentNotFound), zeroed;
      }
      assert parentId in folders ==> folders[parentId].id == parentId;
      var folderIdsToRemove := CollectSelected(items);
      var updatedChildren := Without(parent.value.children, Ids(items));
      var done := UpdateFolderMetadata(parent.value.id, updatedChildren, ok);
      if !done {
        return Some(PublishFailed), zeroed;
      }
      SameRemoval(SetChildren(folders, parentId, updatedChildren), folderIdsToRemove, Selected(folders, items));
      zeroed := UpdateStore(parentId, updatedChildren, folderIdsToRemove, keys);
      return None, zeroed;
    }

    method UpdateStore(parentId: Id, updatedChildren: seq<FolderChild>, ids: seq<Id>, ghost keys: set<array<byte>>)
      returns (ghost zeroed: set<array<byte>>)
      requires KeysApart(folders) && forall k | k in folders :: KeysOf(folders[k]) <= keys
      modifies this, keys
      ensures published == old(published)
      ensures folders == SetChildren(old(folders), parentId, updatedChildren) - IdSet(ids)
      ensures ExactlyGone(old(folders), folders, zeroed)
      ensures forall a | a in zeroed :: AllZero(a[..])
      ensures forall a | a in keys - zeroed :: a[..] == old(a[..])
    {
      ghost var snapshot := folders;
      UpdateFolderChildren(parentId, updatedChildren);
      SameKeys(snapshot, folders);
      zeroed := RemoveFolders(ids, keys);
      assert forall k | k in snapshot ::
        KeysOf(SetChildren(snapshot, parentId, updatedChildren)[k]) == KeysOf(snapshot[k]);
    }

    method RemoveFolders(ids: seq<Id>, ghost keys: set<array<byte>>) returns (ghost zeroed: set<array<byte>>)
      requires KeysApart(folders) && forall k | k in folders :: KeysOf(folders[k]) <= keys
      modifies this, keys
      ensures published == old(published)
      ensures folders == old(folders) - IdSet(ids)
      ensures ExactlyGone(old(folders), folders, zeroed)
      ensures forall a | a in zeroed :: AllZero(a[..])
      ensures forall a | a in keys - zeroed :: a[..] == old(a[..])
    {
      ghost var snapshot := folders;
      ghost var removed: set<Id> := {};
      zeroed := {};
      for i := 0 to |ids|
        invariant published == old(published)
        invariant removed == IdSet(ids[..i])
        invariant folders == snapshot - removed && zeroed <= keys
        invariant ExactlyGone(snapshot, folders, zeroed)
        invariant forall a | a in zeroed :: AllZero(a[..])
        invariant forall a | a in keys - zeroed :: a[..] == old(a[..])
      {
        var id := ids[i];
        assert ids[..i + 1] == ids[..i] + [id];
        RemoveFolder(id);
        removed := removed + {id};
        OneMoreGone(snapshot, snapshot - IdSet(ids[..i]), id, zeroed);
        if id in snapshot {
          zeroed := zeroed + KeysOf(snapshot[id]);
        }
      }
      assert ids[..|ids|] == ids;
    }

    method CollectSelected(items: seq<Item>) returns (ids: seq<Id>)
      requires Tree(folders)
      ensures SameIn(folders, ids, Selected(folders, items))
    {
      ids := [];
      for i := 0 to |items|
        invariant forall k | k in folders :: k in ids <==> k in Selected(folders, items[..i])
      {
        assert items[..i + 1] == items[..i] + [items[i]];
        if items[i].kind == Folder {
          ids := CollectFolderIds(items[i].id, folders, ids);
        }
      }
      assert items[..|items|] == items;
    }
  }

  // ---------------------------------------------------------------- list filters by item

  /** `children.filter(c => !(c.type === kind && c.id === id))` */
  function WithoutItem(cs: seq<FolderChild>, item: Item): seq<FolderChild> {
    if cs == [] then []
    else
      var rest := WithoutItem(cs[..|cs| - 1], item);
      if cs[|cs| - 1].kind == item.kind && cs[|cs| - 1].id == item.id then rest else rest + [cs[|cs| - 1]]
  }

  /** With unique ids, filtering by id alone and by type and id are the same. */
  lemma {:induction false} WithoutOne(cs: seq<FolderChild>, child: FolderChild)
    requires UniqueIds(cs) && child in cs
    ensures WithoutItem(cs, Item(child.id, child.kind)) == Without(cs, {child.id})
  {
    var init, last := cs[..|cs| - 1], cs[|cs| - 1];
    assert cs == init + [last];
    if last.id == child.id {
      UniqueIdsSame(cs, child, last);
      SelectNone(init, child.id);
      WithoutNone(init, Item(child.id, child.kind));
    } else {
      WithoutOne(init, child);
    }
  }

  lemma {:induction false} WithoutNone(cs: seq<FolderChild>, item: Item)
    requires !HasId(cs, item.id)
    ensures WithoutItem(cs, item) == cs
  {
    if cs != [] {
      assert cs == cs[..|cs| - 1] + [cs[|cs| - 1]];
      WithoutNone(cs[..|cs| - 1], item);
    }
  }

  lemma {:induction false} RefusalStands(t: Table, dest: FolderNode, moved: seq<FolderChild>, i: nat)
    requires Tree(t) && i <= |moved| && BatchCheck(t, dest, moved[..i]).Some?
    ensures BatchCheck(t, dest, moved) == BatchCheck(t, dest, moved[..i])
    decreases |moved| - i
  {
    if i == |moved| {
      assert moved[..i] == moved;
    } else {
      assert moved[..i + 1][..i] == moved[..i];
      RefusalStands(t, dest, moved, i + 1);
    }
  }

  function IdSet(ids: seq<Id>): set<Id> {
    set k | k in ids
  }

  /** Of the loaded folders, the list names exactly those in the set. */
  ghost predicate SameIn(t: Table, ids: seq<Id>, gone: set<Id>) {
    forall k {:trigger k in ids} | k in t :: k in ids <==> k in gone
  }

  lemma SameRemoval(t: Table, ids: seq<Id>, gone: set<Id>)
    requires SameIn(t, ids, gone)
    ensures t - IdSet(ids) == t - gone
  {
  }

  lemma CreateParentState(vault: Option<Vault>, t: Table, parentId: Option<Id>)
    requires Forest(t)
    ensures var parent := CreateParent(vault, t, parentId); parent.Some? ==> StateOf(t, parent.value)
  {
    if parentId.Some? && parentId.value in t {
      assert t[parentId.value].id == parentId.value;
    } else {
      StatesAgree(vault, t, ROOT);
    }
  }

  /** After the checks: the lists a single move publishes, and the table it sets, are those of the one-item move. */
  lemma MoveLists(w: World, vault: Option<Vault>, item: Item, sourceId: Id, destId: Id)
    requires Forest(w.folders) && MoveOutcome(w, vault, item, sourceId, destId, true, true).error.None?
    ensures
      var t, source, dest := w.folders, StateFor(vault, w.folders, sourceId).value,
        StateFor(vault, w.folders, destId).value;
      && source.id == sourceId && dest.id == destId
      && Select(source.children, {item.id}) == [Find(source.children, item.kind, item.id).value]
      && Without(source.children, {item.id}) == WithoutItem(source.children, item)
      && (item.kind == Folder && item.id in t ==> t[item.id].id == item.id)
      && Reparent(t, MovedFolders(t, source, {item.id}), dest.id)
      == if item.kind == Folder && item.id in t then t[item.id := t[item.id].(parentId := Some(dest.id))] else t
  {
    var t, source, dest := w.folders, StateFor(vault, w.folders, sourceId).value,
      StateFor(vault, w.folders, destId).value;
    StatesAgree(vault, t, sourceId);
    StatesAgree(vault, t, destId);
    var found := Find(source.children, item.kind, item.id).value;
    assert UniqueIds(t[source.id].children);
    SelectOne(source.children, found);
    WithoutOne(source.children, found);
    forall c | c in source.children && c.id == item.id
      ensures c == found
    {
      UniqueIdsSame(source.children, c, found);
    }
    assert MovedFolders(t, source, {item.id}) == if item.kind == Folder && item.id in t then {item.id} else {};
    if item.id in t {
      assert t[item.id].id == item.id;
    }
  }

  lemma DeleteLists(t: Table, vault: Option<Vault>, item: Item, parentId: Id)
    requires Forest(t) && StateFor(vault, t, parentId).Some?
    requires Find(StateFor(vault, t, parentId).value.children, item.kind, item.id).Some?
    ensures
      var parent := StateFor(vault, t, parentId).value;
      && parent.id == parentId && parentId in t
      && Without(parent.children, {item.id}) == WithoutItem(parent.children, item)
      && (item.kind == Folder && item.id in t ==> item.id != parentId)
  {
    StatesAgree(vault, t, parentId);
    var parent := StateFor(vault, t, parentId).value;
    assert UniqueIds(t[parent.id].children);
    WithoutOne(parent.children, Find(parent.children, item.kind, item.id).value);
    if item.kind == Folder && item.id == parentId {
      assert ListsFolder(t[parent.id].children, item.id);
      SelfParentIsCycle(t, item.id);
    }
  }
}
