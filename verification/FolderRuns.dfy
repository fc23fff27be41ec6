/** Every run of local folder operations. */
module FolderRuns {
  import opened Common
  import opened FolderTree
  import opened FolderOps
  import opened FolderWorld

  // ---------------------------------------------------------------- the batch move's item list

  /** The loaded folders a batch move re-parents: every folder item, wherever it is listed. */
  function FolderItems(t: Table, items: seq<Item>): set<Id> {
    set it | it in items && it.kind == Folder && it.id in t :: it.id
  }

  lemma {:induction false} ParentsSetAt(t: Table, before: Table, items: seq<Item>, destId: Id, k: Id)
    requires t.Keys == before.Keys && k in t
    ensures ParentsSet(t, before, items, destId).Keys == t.Keys
    ensures ParentsSet(t, before, items, destId)[k]
         == if k in FolderItems(before, items) then before[k].(parentId := Some(destId)) else t[k]
  {
    if items != [] {
      var init, last := items[..|items| - 1], items[|items| - 1];
      assert items == init + [last];
      ParentsSetAt(t, before, init, destId, k);
      assert FolderItems(before, items)
          == FolderItems(before, init) + (if last.kind == Folder && last.id in before then {last.id} else {});
    }
  }

  lemma ParentsSetKeys(t: Table, before: Table, items: seq<Item>, destId: Id)
    requires t.Keys == before.Keys
    ensures ParentsSet(t, before, items, destId).Keys == t.Keys
  {
    if t.Keys != {} {
      var k :| k in t.Keys;
      ParentsSetAt(t, before, items, destId, k);
    } else {
      assert t == map[];
      EmptyParentsSet(before, items, destId);
    }
  }

  lemma {:induction false} EmptyParentsSet(before: Table, items: seq<Item>, destId: Id)
    requires before == map[]
    ensures ParentsSet(map[], before, items, destId) == map[]
  {
    if items != [] {
      EmptyParentsSet(before, items[..|items| - 1], destId);
    }
  }

  /**
   The item lists under which pointers and lists change together: each loaded subfolder
   that changes lists is named as a folder, any other folder named already hangs below
   the destination (or below no loaded folder, when the destination is not loaded), and
   the source is not itself named unless nothing leaves it. With the source named and the
   destination not loaded, both lists are as before, so no pointer to a loaded folder may move.
   */
  ghost predicate PointersFollow(t: Table, source: FolderNode, dest: FolderNode, items: seq<Item>) {
    var relisted, pointed := MovedFolders(t, source, Ids(items)), FolderItems(t, items);
    if dest.id !in t && source.id in pointed then
      forall x | x in pointed :: Detached(t, x)
    else
      && relisted <= pointed
      && (forall x | x in pointed - relisted :: t[x].parentId == Some(dest.id) || (dest.id !in t && Detached(t, x)))
      && (source.id in pointed ==> Select(source.children, Ids(items)) == [])
  }

  /** The table after a batch move, folder by folder. */
  lemma BatchMovedAt(t: Table, source: FolderNode, dest: FolderNode, items: seq<Item>, k: Id)
    requires StateOf(t, source) && StateOf(t, dest) && k in t
    ensures BatchMoved(t, source, dest, items).Keys == t.Keys
    ensures BatchMoved(t, source, dest, items)[k]
         == if k in FolderItems(t, items) then t[k].(parentId := Some(dest.id))
           else ListsMoved(t, source, dest, Ids(items))[k]
  {
    ParentsSetAt(ListsMoved(t, source, dest, Ids(items)), t, items, dest.id, k);
  }

  lemma MovedFolderIsNeither(t: Table, source: FolderNode, dest: FolderNode, ids: set<Id>, k: Id)
    requires Forest(t) && MoveAllowed(t, source, dest, ids) && k in MovedFolders(t, source, ids)
    ensures k != source.id && k != dest.id && source.id in t
    ensures t[k].parentId == Some(source.id)
  {
    assert ListsFolder(t[source.id].children, k);
    assert t[k].parentId == Some(source.id);
    assert Up(t, Some(k), 0) == Some(k);
    if k == source.id {
      assert Up(t, Some(k), 1) == Some(k);
      NoReturn(t, k, 1);
    }
    assert IsBelow(t, k, k);
  }

  /** Items that are children of the source under their own type name exactly the folders that change lists. */
  lemma ItemsOfSource(t: Table, source: FolderNode, items: seq<Item>)
    requires Forest(t) && StateOf(t, source) && ItemsOf(items, Some(source))
    ensures FolderItems(t, items) == MovedFolders(t, source, Ids(items))
  {
    var relisted, pointed := MovedFolders(t, source, Ids(items)), FolderItems(t, items);
    assert source.id in t ==> UniqueIds(t[source.id].children);
    forall x | x in relisted
      ensures x in pointed
    {
      var c :| c in source.children && c.id in Ids(items) && c.kind == Folder && c.id == x;
      var it :| it in items && it.id == x;
      var d :| d in source.children && d.id == it.id && d.kind == it.kind;
      UniqueIdsSame(source.children, c, d);
    }
    forall x | x in pointed
      ensures x in relisted
    {
      var it :| it in items && it.kind == Folder && it.id == x;
      assert x in Ids(items);
    }
  }

  /** The documented use satisfies the exact condition. */
  lemma ItemsOfSourceFollow(t: Table, source: FolderNode, dest: FolderNode, items: seq<Item>)
    requires Forest(t) && MoveAllowed(t, source, dest, Ids(items)) && ItemsOf(items, Some(source))
    ensures PointersFollow(t, source, dest, items) && source.id !in FolderItems(t, items)
  {
    ItemsOfSource(t, source, items);
    if source.id in FolderItems(t, items) {
      MovedFolderIsNeither(t, source, dest, Ids(items), source.id);
    }
  }

  /** The table whose shape the result has: the lists as moved, or as they were. */
  function Shape(t: Table, source: FolderNode, dest: FolderNode, items: seq<Item>): Table {
    if dest.id !in t && source.id in FolderItems(t, items) then t else Moved(t, source, dest, Ids(items))
  }

  lemma BatchMovedShape(t: Table, source: FolderNode, dest: FolderNode, items: seq<Item>, k: Id)
    requires Forest(t) && MoveAllowed(t, source, dest, Ids(items)) && PointersFollow(t, source, dest, items) && k in t
    ensures SameFolder(Shape(t, source, dest, items), BatchMoved(t, source, dest, items), k)
  {
    BatchMovedAt(t, source, dest, items, k);
    if k in MovedFolders(t, source, Ids(items)) {
      MovedFolderIsNeither(t, source, dest, Ids(items), k);
    } else if k in FolderItems(t, items) {
      if k == source.id && Select(source.children, Ids(items)) == [] {
        assert forall c | c in source.children && c.id in Ids(items) :: c in Select(source.children, Ids(items));
        NothingSelected(source.children, Ids(items));
      }
      if k == dest.id && t[k].parentId == Some(k) {
        SelfParentIsCycle(t, k);
      }
    }
  }

  lemma BatchMovedSameFolders(t: Table, source: FolderNode, dest: FolderNode, items: seq<Item>)
    requires Forest(t) && MoveAllowed(t, source, dest, Ids(items)) && PointersFollow(t, source, dest, items)
    ensures SameFolders(Shape(t, source, dest, items), BatchMoved(t, source, dest, items))
  {
    ParentsSetKeys(ListsMoved(t, source, dest, Ids(items)), t, items, dest.id);
    forall k | k in t
      ensures SameFolder(Shape(t, source, dest, items), BatchMoved(t, source, dest, items), k)
    {
      BatchMovedShape(t, source, dest, items, k);
    }
  }

  lemma BatchMoveKeepsForest(t: Table, source: FolderNode, dest: FolderNode, items: seq<Item>)
    requires Forest(t) && MoveAllowed(t, source, dest, Ids(items)) && PointersFollow(t, source, dest, items)
    ensures Forest(BatchMoved(t, source, dest, items))
    ensures DepthOk(t) ==> DepthOk(BatchMoved(t, source, dest, items))
  {
    MoveKeepsInvariants(t, source, dest, Ids(items));
    BatchMovedSameFolders(t, source, dest, items);
    SameShape(Shape(t, source, dest, items), BatchMoved(t, source, dest, items));
  }

  lemma SelfParentIsCycle(t: Table, k: Id)
    requires k in t && t[k].parentId == Some(k)
    ensures !Acyclic(t)
  {
    if Acyclic(t) {
      assert Up(t, Some(k), 1) == Up(t, Some(k), 0);
      NoReturn(t, k, 1);
    }
  }

  /** A table in which a loaded folder lists, or fails to list, against a loaded folder's pointer. */
  lemma Disagree(t: Table, p: Id, k: Id)
    requires p in t && k in t && (ListsFolder(t[p].children, k) <==> t[k].parentId != Some(p))
    ensures !Forest(t)
  {
  }

  lemma BatchMoveBreaksForest(t: Table, source: FolderNode, dest: FolderNode, items: seq<Item>)
    requires Forest(t) && MoveAllowed(t, source, dest, Ids(items)) && !PointersFollow(t, source, dest, items)
    ensures !Forest(BatchMoved(t, source, dest, items))
  {
    var t' := BatchMoved(t, source, dest, items);
    var relisted, pointed := MovedFolders(t, source, Ids(items)), FolderItems(t, items);
    ParentsSetKeys(ListsMoved(t, source, dest, Ids(items)), t, items, dest.id);
    if dest.id in pointed {
      BatchMovedAt(t, source, dest, items, dest.id);
      SelfParentIsCycle(t', dest.id);
    } else if dest.id !in t && source.id in pointed {
      var x :| x in pointed && !Detached(t, x);
      PointedAwayFromLoaded(t, source, dest, items, x);
    } else if !(relisted <= pointed) {
      var k :| k in relisted && k !in pointed;
      RelistedNotPointed(t, source, dest, items, k);
    } else if
      exists x :: x in pointed - relisted && !(t[x].parentId == Some(dest.id) || (dest.id !in t && Detached(t, x))) {
      var x :| x in pointed - relisted && !(t[x].parentId == Some(dest.id) || (dest.id !in t && Detached(t, x)));
      if dest.id in t {
        PointedNotRelisted(t, source, dest, items, x);
      } else {
        PointedAwayFromLoaded(t, source, dest, items, x);
      }
    } else {
      SourceRestored(t, source, dest, items);
    }
  }

  lemma RelistedNotPointed(t: Table, source: FolderNode, dest: FolderNode, items: seq<Item>, k: Id)
    requires Forest(t) && MoveAllowed(t, source, dest, Ids(items))
    requires k in MovedFolders(t, source, Ids(items)) && k !in FolderItems(t, items)
    requires dest.id !in FolderItems(t, items) && (dest.id in t || source.id !in FolderItems(t, items))
    ensures !Forest(BatchMoved(t, source, dest, items))
  {
    var t' := BatchMoved(t, source, dest, items);
    var ids := Ids(items);
    MovedFolderIsNeither(t, source, dest, ids, k);
    BatchMovedAt(t, source, dest, items, k);
    var c :| c in source.children && c.id in ids && c.kind == Folder && c.id == k;
    assert HasName(source.children, c.name);
    if dest.id in t {
      BatchMovedAt(t, source, dest, items, dest.id);
      assert t'[dest.id].children == dest.children + Select(source.children, ids);
      assert c in t'[dest.id].children;
      Disagree(t', dest.id, k);
    } else {
      BatchMovedAt(t, source, dest, items, source.id);
      assert t'[source.id].children == Without(source.children, ids);
      Disagree(t', source.id, k);
    }
  }

  lemma PointedNotRelisted(t: Table, source: FolderNode, dest: FolderNode, items: seq<Item>, x: Id)
    requires Forest(t) && MoveAllowed(t, source, dest, Ids(items))
    requires x in FolderItems(t, items) && x !in MovedFolders(t, source, Ids(items))
    requires dest.id in t && dest.id !in FolderItems(t, items) && t[x].parentId != Some(dest.id)
    ensures !Forest(BatchMoved(t, source, dest, items))
  {
    var t' := BatchMoved(t, source, dest, items);
    BatchMovedAt(t, source, dest, items, x);
    BatchMovedAt(t, source, dest, items, dest.id);
    assert t'[dest.id].children == dest.children + Select(source.children, Ids(items));
    assert ListsFolder(t[dest.id].children, x) <==> t[x].parentId == Some(dest.id);
    Disagree(t', dest.id, x);
  }

  /** Its loaded parent still lists the folder, which no longer points there. */
  lemma PointedAwayFromLoaded(t: Table, source: FolderNode, dest: FolderNode, items: seq<Item>, x: Id)
    requires Forest(t) && MoveAllowed(t, source, dest, Ids(items))
    requires x in FolderItems(t, items) && !Detached(t, x) && dest.id !in t
    requires source.id in FolderItems(t, items) || x !in MovedFolders(t, source, Ids(items))
    ensures !Forest(BatchMoved(t, source, dest, items))
  {
    var q := t[x].parentId.value;
    BatchMovedAt(t, source, dest, items, x);
    BatchMovedAt(t, source, dest, items, q);
    assert ListsFolder(t[q].children, x);
    assert x in Ids(items);
    Disagree(BatchMoved(t, source, dest, items), q, x);
  }

  /** The source gets its old list back, so what moved is listed twice. */
  lemma SourceRestored(t: Table, source: FolderNode, dest: FolderNode, items: seq<Item>)
    requires Forest(t) && MoveAllowed(t, source, dest, Ids(items))
    requires source.id in FolderItems(t, items) && dest.id in t && dest.id !in FolderItems(t, items)
    requires Select(source.children, Ids(items)) != []
    ensures !Forest(BatchMoved(t, source, dest, items))
  {
    var t', more := BatchMoved(t, source, dest, items), Select(source.children, Ids(items));
    BatchMovedAt(t, source, dest, items, source.id);
    BatchMovedAt(t, source, dest, items, dest.id);
    assert more[0] in more;
    assert t'[dest.id].children == dest.children + more;
    assert HasId(t'[dest.id].children, more[0].id) && HasId(t'[source.id].children, more[0].id);
  }

  /** A batch move that passed its checks keeps the forest exactly when its item list is such a list. */
  lemma BatchMoveForestIff(t: Table, source: FolderNode, dest: FolderNode, items: seq<Item>)
    requires Forest(t) && MoveAllowed(t, source, dest, Ids(items))
    ensures Forest(BatchMoved(t, source, dest, items)) <==> PointersFollow(t, source, dest, items)
  {
    if PointersFollow(t, source, dest, items) {
      BatchMoveKeepsForest(t, source, dest, items);
    } else {
      BatchMoveBreaksForest(t, source, dest, items);
    }
  }

  lemma StrayTableIsForest(t: Table, a: FolderNode, b: FolderNode, c: FolderNode)
    requires t == map["a" := a, "b" := b, "c" := c] && a.id == "a" && b.id == "b" && c.id == "c"
    requires a.parentId == b.parentId == None && c.parentId == Some("b")
    requires a.children == c.children == [] && b.children == [FolderChild(Folder, "c", "c", "")]
    ensures Forest(t)
  {
    assert EndsAfter(t, Some("a"), 1) && EndsAfter(t, Some("b"), 1) && EndsAfter(t, Some("c"), 2);
    assert b.children[0] in b.children && b.children[..0] == [];
    assert UniqueIds([]) && UniqueIds(b.children);
    assert forall p | p in t :: t[p].id == p && UniqueIds(t[p].children);
    assert forall p, id | p in t && HasId(t[p].children, id) :: p == "b";
    forall p, k | p in t && k in t
      ensures ListsFolder(t[p].children, k) <==> t[k].parentId == Some(p)
    {
    }
  }

  /** One stray item is enough for a cycle: moving b, listed elsewhere, into its own child c. */
  lemma StrayItemMakesCycle(vault: Option<Vault>, key: array<byte>, published: Records)
    ensures
      var c := FolderNode("c", Some("b"), [], true, key, key);
      var b := FolderNode("b", None, [FolderChild(Folder, "c", "c", "")], true, key, key);
      var a := FolderNode("a", None, [], true, key, key);
      var t: Table := map["a" := a, "b" := b, "c" := c];
      Forest(t) &&
      var after := BatchMoveOutcome(World(t, published), vault, [Item("b", Folder)], "a", "c", true, true);
      after.error.None? && !Acyclic(after.world.folders)
  {
    var c := FolderNode("c", Some("b"), [], true, key, key);
    var b := FolderNode("b", None, [FolderChild(Folder, "c", "c", "")], true, key, key);
    var a := FolderNode("a", None, [], true, key, key);
    var t: Table := map["a" := a, "b" := b, "c" := c];
    StrayTableIsForest(t, a, b, c);
    var items := [Item("b", Folder)];
    var t' := BatchMoved(t, a, c, items);
    BatchMovedAt(t, a, c, items, "b");
    BatchMovedAt(t, a, c, items, "c");
    assert items[0] in items && "b" in FolderItems(t, items);
    assert "c" !in FolderItems(t, items);
    if Acyclic(t') {
      assert Up(t', Some("b"), 2) == Up(t', Some("c"), 1) == Up(t', Some("b"), 0);
      NoReturn(t', "b", 2);
    }
    var after := BatchMoveOutcome(World(t, published), vault, items, "a", "c", true, true);
    assert StateFor(vault, t, "a") == Some(a) && StateFor(vault, t, "c") == Some(c);
    assert Select(a.children, Ids(items)) == [];
    assert after.world.folders == t';
  }

  // ---------------------------------------------------------------- batch delete

  /** A selected loaded folder is m parent steps above k, or k itself. */
  ghost predicate SelectedAbove(t: Table, items: seq<Item>, k: Id, it: Item, m: nat) {
    it in items && it.kind == Folder && it.id in t && Up(t, Some(k), m) == Some(it.id)
  }

  /**
   A batch delete removes a loaded folder exactly when a selected loaded folder is on its
   parent walk; every survivor's whole walk survives, and no survivor other than the
   parent is touched.
   */
  lemma BatchDeleteExact(t: Table, parent: FolderNode, items: seq<Item>, k: Id)
    requires k in t
    ensures var gone := Selected(t, items);
      && (k in gone <==> exists it, m: nat :: SelectedAbove(t, items, k, it, m))
      && (k !in gone ==> forall m: nat :: Up(t, Some(k), m).Some? ==> Up(t, Some(k), m).value !in gone)
      && (k !in gone && k != parent.id ==>
            k in Removed(t, parent, Ids(items), gone) && Removed(t, parent, Ids(items), gone)[k] == t[k])
  {
    var gone := Selected(t, items);
    if k in gone {
      var it :| it in items && it.kind == Folder && it.id in t && k in Below(t, it.id);
      var m: nat :| Up(t, Some(k), m) == Some(it.id);
      assert SelectedAbove(t, items, k, it, m);
    }
    forall m: nat | Up(t, Some(k), m).Some? && Up(t, Some(k), m).value in gone
      ensures k in gone
    {
      var x := Up(t, Some(k), m).value;
      var it :| it in items && it.kind == Folder && it.id in t && x in Below(t, it.id);
      var n: nat :| Up(t, Some(x), n) == Some(it.id);
      UpAdd(t, Some(k), m, n);
      assert IsBelow(t, k, it.id);
      assert k in Below(t, it.id);
    }
    forall it, m: nat | SelectedAbove(t, items, k, it, m)
      ensures k in gone
    {
      assert IsBelow(t, k, it.id);
      assert k in Below(t, it.id);
    }
  }

  /** A batch delete whose items carry the type their parent lists them under unlists no survivor. */
  lemma BatchDeleteUnlistsNone(t: Table, parent: FolderNode, items: seq<Item>)
    requires Forest(t) && StateOf(t, parent) && ItemsOf(items, Some(parent))
    ensures NoneUnlisted(t, parent, Ids(items), Selected(t, items))
  {
    if parent.id in t {
      assert UniqueIds(t[parent.id].children);
      forall k | k in t && k in Ids(items) && ListsFolder(parent.children, k)
        ensures k in Selected(t, items)
      {
        var c :| c in parent.children && c.kind == Folder && c.id == k;
        var it :| it in items && it.id == k;
        var d :| d in parent.children && d.id == it.id && d.kind == it.kind;
        UniqueIdsSame(parent.children, c, d);
        assert Up(t, Some(k), 0) == Some(k);
        assert k in Below(t, it.id);
      }
    }
  }

  /** A single delete finds its item, so the list entry and the folder go together. */
  lemma DeleteUnlistsNone(t: Table, parent: FolderNode, item: Item)
    requires Forest(t) && StateOf(t, parent) && Find(parent.children, item.kind, item.id).Some?
    ensures NoneUnlisted(t, parent, {item.id}, if item.kind == Folder then {item.id} else {})
  {
    var found := Find(parent.children, item.kind, item.id).value;
    if parent.id in t && item.kind == File && ListsFolder(parent.children, item.id) {
      assert UniqueIds(t[parent.id].children);
      var c :| c in parent.children && c.kind == Folder && c.id == item.id;
      UniqueIdsSame(parent.children, c, found);
    }
  }

  // ---------------------------------------------------------------- runs

  datatype Op =
    | Create(parentId: Option<Id>, child: FolderChild, node: FolderNode, hasKeypair: bool, parentOk: bool, ownOk: bool)
    | Move(item: Item, sourceId: Id, destId: Id, addOk: bool, removeOk: bool)
    | MoveItems(items: seq<Item>, sourceId: Id, destId: Id, addOk: bool, removeOk: bool)
    | Delete(item: Item, folderId: Id, ok: bool)
    | DeleteItems(items: seq<Item>, folderId: Id, ok: bool)

  ghost function Apply(w: World, vault: Option<Vault>, op: Op): World
    requires Tree(w.folders)
  {
    match op
    case Create(parentId, child, node, hasKeypair, parentOk, ownOk) =>
      CreateOutcome(w, vault, hasKeypair, parentId, child, node, parentOk, ownOk).world
    case Move(item, sourceId, destId, addOk, removeOk) =>
      MoveOutcome(w, vault, item, sourceId, destId, addOk, removeOk).world
    case MoveItems(items, sourceId, destId, addOk, removeOk) =>
      BatchMoveOutcome(w, vault, items, sourceId, destId, addOk, removeOk).world
    case Delete(item, parentId, ok) =>
      DeleteOutcome(w, vault, item, parentId, ok).world
    case DeleteItems(items, parentId, ok) =>
      BatchDeleteOutcome(w, vault, items, parentId, ok).world
  }

  /** A new folder's id is fresh, and a batch's items are children of the one folder it names. */
  ghost predicate Callable(w: World, vault: Option<Vault>, op: Op) {
    match op
    case Create(parentId, child, node, _, _, _) =>
      var parent := CreateParent(vault, w.folders, parentId);
      parent.Some? ==> NewFolder(w.folders, parent.value, child, node)
    case MoveItems(items, sourceId, _, _, _) => ItemsOf(items, StateFor(vault, w.folders, sourceId))
    case DeleteItems(items, parentId, _) => ItemsOf(items, StateFor(vault, w.folders, parentId))
    case _ => true
  }

  /** Everything the local table lists is published by the folder that lists it. */
  ghost predicate Backed(w: World) {
    forall k, c | k in w.folders && c in w.folders[k].children :: k in w.published && c in w.published[k]
  }

  ghost predicate Inv(w: World) {
    Forest(w.folders) && DepthOk(w.folders) && Backed(w)
  }

  /** A forest comes of it; the depth limit holds if it did, and what is listed is published if it was. */
  ghost predicate Kept(w: World, after: World) {
    && Forest(after.folders)
    && (DepthOk(w.folders) ==> DepthOk(after.folders))
    && (Backed(w) ==> Backed(after))
  }

  lemma CreateKeepsInv(w: World, vault: Option<Vault>, op: Op)
    requires Forest(w.folders) && op.Create? && Callable(w, vault, op)
    ensures Kept(w, Apply(w, vault, op))
  {
    var parent := CreateParent(vault, w.folders, op.parentId);
    if parent.Some? {
      CreatedKeepsForest(w.folders, parent.value, op.child, op.node);
      WalkEnds(w.folders, op.parentId);
      WalkEnds(w.folders, Some(parent.value.id));
      assert op.parentId.Some? && op.parentId.value in w.folders ==>
        w.folders[op.parentId.value].id == op.parentId.value;
      if Depth(w.folders, op.parentId) < MAX_FOLDER_DEPTH {
        RootIsShallow(w.folders);
        if DepthOk(w.folders) {
          CreatedKeepsDepth(w.folders, parent.value, op.child, op.node);
        }
      }
    }
  }

  lemma RootIsShallow(t: Table)
    requires Forest(t)
    ensures Ends(t, Some(ROOT)) && Depth(t, Some(ROOT)) <= 1
  {
    WalkEnds(t, Some(ROOT));
    if ROOT in t {
      assert EndsAfter(t, Some(ROOT), 1);
      EndsOnce(t, Some(ROOT), 1, Depth(t, Some(ROOT)));
    }
  }

  lemma MoveKeepsInv(w: World, vault: Option<Vault>, op: Op)
    requires Forest(w.folders) && op.Move?
    ensures Kept(w, Apply(w, vault, op))
  {
    var source, dest := StateFor(vault, w.folders, op.sourceId), StateFor(vault, w.folders, op.destId);
    StatesAgree(vault, w.folders, op.sourceId);
    StatesAgree(vault, w.folders, op.destId);
    if MoveOutcome(w, vault, op.item, op.sourceId, op.destId, true, true).error.None? {
      MoveChecksAllow(w, vault, op.item, op.sourceId, op.destId);
      MoveKeepsInvariants(w.folders, source.value, dest.value, {op.item.id});
      if Backed(w) {
        MoveKeepsBacked(w, source.value, dest.value, {op.item.id}, op.addOk, op.removeOk);
      }
    }
  }

  /** What is published after a failed or a finished move still covers what is listed locally. */
  lemma MoveKeepsBacked(w: World, source: FolderNode, dest: FolderNode, ids: set<Id>, addOk: bool, removeOk: bool)
    requires Forest(w.folders) && Backed(w) && MoveAllowed(w.folders, source, dest, ids)
    ensures Backed(MoveTried(w, source, dest, ids, addOk, removeOk).world)
    ensures Backed(World(w.folders, MovePublished(w.published, source, dest, ids, addOk, false)))
  {
    var after := MoveTried(w, source, dest, ids, addOk, removeOk).world;
    if source.id == dest.id {
      forall c | c in source.children
        ensures c.id !in ids
      {
        assert HasName(dest.children, c.name);
      }
    }
  }

  lemma MoveItemsKeepsInv(w: World, vault: Option<Vault>, op: Op)
    requires Forest(w.folders) && op.MoveItems? && Callable(w, vault, op)
    ensures Kept(w, Apply(w, vault, op))
  {
    var source, dest := StateFor(vault, w.folders, op.sourceId), StateFor(vault, w.folders, op.destId);
    StatesAgree(vault, w.folders, op.sourceId);
    StatesAgree(vault, w.folders, op.destId);
    if BatchMoveOutcome(w, vault, op.items, op.sourceId, op.destId, true, true).error.None? {
      BatchChecksAllow(w, vault, op.items, op.sourceId, op.destId);
      ItemsOfSourceFollow(w.folders, source.value, dest.value, op.items);
      BatchMoveKeepsForest(w.folders, source.value, dest.value, op.items);
      if Backed(w) {
        MoveKeepsBacked(w, source.value, dest.value, Ids(op.items), op.addOk, op.removeOk);
        forall k: Id {
          BatchMoveLists(w.folders, source.value, dest.value, op.items, k);
        }
      }
    }
  }

  /** The child lists after a batch move of the source's own children are those of a plain move. */
  lemma BatchMoveLists(t: Table, source: FolderNode, dest: FolderNode, items: seq<Item>, k: Id)
    requires Forest(t) && MoveAllowed(t, source, dest, Ids(items)) && ItemsOf(items, Some(source))
    ensures k in BatchMoved(t, source, dest, items) <==> k in t
    ensures k in t ==> BatchMoved(t, source, dest, items)[k].children == Moved(t, source, dest, Ids(items))[k].children
  {
    ItemsOfSourceFollow(t, source, dest, items);
    ParentsSetKeys(ListsMoved(t, source, dest, Ids(items)), t, items, dest.id);
    if k in t {
      BatchMovedShape(t, source, dest, items, k);
    }
  }

  lemma DeletesKeepInv(w: World, vault: Option<Vault>, op: Op)
    requires Forest(w.folders) && (op.Delete? || op.DeleteItems?) && Callable(w, vault, op)
    ensures Kept(w, Apply(w, vault, op))
  {
    var parent := StateFor(vault, w.folders, op.folderId);
    StatesAgree(vault, w.folders, op.folderId);
    if parent.Some? && op.DeleteItems? {
      BatchDeleteUnlistsNone(w.folders, parent.value, op.items);
      DeleteKeepsInv(w, parent.value, Ids(op.items), Selected(w.folders, op.items), op.ok);
    } else if parent.Some? && Find(parent.value.children, op.item.kind, op.item.id).Some? {
      DeleteUnlistsNone(w.folders, parent.value, op.item);
      DeleteKeepsInv(w, parent.value, {op.item.id}, if op.item.kind == Folder then {op.item.id} else {}, op.ok);
    }
  }

  lemma DeleteKeepsInv(w: World, parent: FolderNode, ids: set<Id>, gone: set<Id>, ok: bool)
    requires Forest(w.folders) && StateOf(w.folders, parent) && NoneUnlisted(w.folders, parent, ids, gone)
    ensures Kept(w, DeleteTried(w, parent, ids, gone, ok).world)
  {
    RemovedForestIff(w.folders, parent, ids, gone);
    RemovedKeepsDepth(w.folders, parent, ids, gone);
  }

  lemma StepKeepsInv(w: World, vault: Option<Vault>, op: Op)
    requires Forest(w.folders) && Callable(w, vault, op)
    ensures Kept(w, Apply(w, vault, op))
  {
    match op
    case Create(_, _, _, _, _, _) => CreateKeepsInv(w, vault, op);
    case Move(_, _, _, _, _) => MoveKeepsInv(w, vault, op);
    case MoveItems(_, _, _, _, _) => MoveItemsKeepsInv(w, vault, op);
    case _ => DeletesKeepInv(w, vault, op);
  }

  /** A run every call of which is made as documented, from a state that has the invariant. */
  ghost predicate RunOk(w: World, vault: Option<Vault>, ops: seq<Op>)
    decreases |ops|
  {
    ops == [] || (Tree(w.folders) && Callable(w, vault, ops[0]) && RunOk(Apply(w, vault, ops[0]), vault, ops[1..]))
  }

  ghost function Run(w: World, vault: Option<Vault>, ops: seq<Op>): World
    requires RunOk(w, vault, ops)
    decreases |ops|
  {
    if ops == [] then w else Run(Apply(w, vault, ops[0]), vault, ops[1..])
  }

  /**
   After any run of creates, moves, batch moves and deletes, with publishes failing anywhere, the table is
   a forest; it is within the depth limit if it was, and everything it lists is still published where it
   lists it if it was.
   */
  lemma {:induction false} RunKeepsInv(w: World, vault: Option<Vault>, ops: seq<Op>)
    requires Forest(w.folders) && RunOk(w, vault, ops)
    ensures Kept(w, Run(w, vault, ops))
    decreases |ops|
  {
    if ops != [] {
      StepKeepsInv(w, vault, ops[0]);
      RunKeepsInv(Apply(w, vault, ops[0]), vault, ops[1..]);
    }
  }
}
