/**
 What local folder operations keep and lose: published entries they do not name, entries of
 the table over whole runs, and the folders left below a deleted one.
 */
module FolderLosses {
  import opened Common
  import opened FolderTree
  import opened FolderOps
  import opened FolderService
  import opened FolderWorld
  import opened FolderRuns

  // ---------------------------------------------------------------- published entries

  /** The ids an operation is about. */
  function Named(op: Op): set<Id> {
    match op
    case Create(_, child, _, _, _, _) => {child.id}
    case Move(item, _, _, _, _) => {item.id}
    case MoveItems(items, _, _, _, _) => Ids(items)
    case Delete(item, _, _) => {item.id}
    case DeleteItems(items, _, _) => Ids(items)
  }

  /** Every check of the operation passes: it fails only if a publish does. */
  ghost predicate Accepted(w: World, vault: Option<Vault>, op: Op)
    requires Tree(w.folders)
  {
    match op
    case Create(parentId, child, node, hasKeypair, _, _) =>
      CreateOutcome(w, vault, hasKeypair, parentId, child, node, true, true).error.None?
    case Move(item, sourceId, destId, _, _) => MoveOutcome(w, vault, item, sourceId, destId, true, true).error.None?
    case MoveItems(items, sourceId, destId, _, _) =>
      BatchMoveOutcome(w, vault, items, sourceId, destId, true, true).error.None?
    case Delete(item, folderId, _) => DeleteOutcome(w, vault, item, folderId, true).error.None?
    case DeleteItems(items, folderId, _) => BatchDeleteOutcome(w, vault, items, folderId, true).error.None?
  }

  /** The local list the operation publishes folder f from; None when it does not publish f. */
  ghost function PublishedFrom(w: World, vault: Option<Vault>, op: Op, f: Id): Option<seq<FolderChild>>
    requires Tree(w.folders)
  {
    if !Accepted(w, vault, op) then None
    else
      match op
      case Create(parentId, child, _, _, parentOk, ownOk) =>
        var parent := CreateParent(vault, w.folders, parentId).value;
        if parentOk && ownOk && f == child.id then Some([])
        else if parentOk && f == parent.id then Some(parent.children)
        else None
      case Move(_, sourceId, destId, addOk, removeOk) =>
        MovePublishedFrom(StateFor(vault, w.folders, sourceId).value, StateFor(vault, w.folders, destId).value,
          addOk, removeOk, f)
      case MoveItems(_, sourceId, destId, addOk, removeOk) =>
        MovePublishedFrom(StateFor(vault, w.folders, sourceId).value, StateFor(vault, w.folders, destId).value,
          addOk, removeOk, f)
      case Delete(_, folderId, ok) =>
        var parent := StateFor(vault, w.folders, folderId).value;
        if ok && f == parent.id then Some(parent.children) else None
      case DeleteItems(_, folderId, ok) =>
        var parent := StateFor(vault, w.folders, folderId).value;
        if ok && f == parent.id then Some(parent.children) else None
  }

  ghost predicate Published(w: World, f: Id, x: FolderChild) {
    f in w.published && x in w.published[f]
  }

  /**
   Any entry the operation does not name, in any folder: a folder the operation publishes has it
   exactly when the local list it is published from does, and any other folder as before.
   */
  lemma OthersKeptIff(w: World, vault: Option<Vault>, op: Op, f: Id, x: FolderChild)
    requires Tree(w.folders) && x.id !in Named(op)
    ensures Published(Apply(w, vault, op), f, x) <==>
      var list := PublishedFrom(w, vault, op, f);
      if list.Some? then x in list.value else Published(w, f, x)
  {
    if op.Move? || op.MoveItems? {
      MovePublishes(w, vault, op);
      if Accepted(w, vault, op) {
        var source, dest := StateFor(vault, w.folders, op.sourceId).value, StateFor(vault, w.folders, op.destId).value;
        MoveKeepsOthersIff(w.published, source, dest, Named(op), op.addOk, op.removeOk, f, x);
      }
    }
  }

  lemma MovePublishes(w: World, vault: Option<Vault>, op: Op)
    requires Tree(w.folders) && (op.Move? || op.MoveItems?)
    ensures Apply(w, vault, op).published ==
      if !Accepted(w, vault, op) then w.published
      else
        var source, dest := StateFor(vault, w.folders, op.sourceId).value, StateFor(vault, w.folders, op.destId).value;
        MovePublished(w.published, source, dest, Named(op), op.addOk, op.removeOk)
  {
  }

  /** A root that is not loaded is published from an empty list: it loses all it had exactly when it is published. */
  lemma StandInRootIff(w: World, vault: Option<Vault>, op: Op, x: FolderChild)
    requires Tree(w.folders) && Keyed(w.folders) && ROOT !in w.folders
    requires Published(w, ROOT, x) && x.id !in Named(op)
    ensures Published(Apply(w, vault, op), ROOT, x) <==> PublishedFrom(w, vault, op, ROOT).None?
  {
    OthersKeptIff(w, vault, op, ROOT, x);
  }

  /** Three operations that publish the root while it is not loaded; each loses an entry it does not name. */
  lemma StandInRootLoses(vault: Vault, key: array<byte>, kept: FolderChild, parentOk: bool)
    requires kept.id !in {"d", "n"}
    ensures
      var d := FolderNode("d", Some(ROOT), [], true, key, key);
      var w := World(map["d" := d], map[ROOT := [kept, FolderChild(Folder, "d", "d", "")], "d" := []]);
      var n := FolderChild(Folder, "n", "n", "");
      && Inv(w)
      && !Published(Apply(w, Some(vault), MoveItems([], ROOT, "d", true, true)), ROOT, kept)
      && !Published(Apply(w, Some(vault), DeleteItems([], ROOT, true)), ROOT, kept)
      && !Published(Apply(w, Some(vault), Create(None, n, d.(id := "n"), true, true, true)), ROOT, kept)
  {
    var d := FolderNode("d", Some(ROOT), [], true, key, key);
    var t: Table := map["d" := d];
    var w := World(t, map[ROOT := [kept, FolderChild(Folder, "d", "d", "")], "d" := []]);
    assert EndsAfter(t, Some("d"), 1);
    forall n: nat | EndsAfter(t, Some("d"), n)
      ensures n == 1
    {
      EndsOnce(t, Some("d"), n, 1);
    }
    assert Inv(w);
    WalkEnds(t, None);
    EndsOnce(t, None, Depth(t, None), 0);
  }

  // ---------------------------------------------------------------- folders below a deleted one

  /** A single delete leaves no folder below the deleted one exactly when none of its listed subfolders is loaded. */
  lemma DeleteOrphansIff(t: Table, parent: FolderNode, id: Id)
    requires Tree(t) && id in t && StateOf(t, parent)
    ensures (forall k | k in Removed(t, parent, {id}, {id}) :: k !in Below(t, id)) <==>
      (forall c | c in t[id].children && c.kind == Folder :: c.id !in t)
  {
    var t' := Removed(t, parent, {id}, {id});
    forall c | c in t[id].children && c.kind == Folder && c.id in t
      ensures c.id in t' && c.id in Below(t, id)
    {
      assert Up(t, Some(c.id), 0) == Some(c.id);
      assert c.id in DownMeasure(t, c.id);
      BelowByChild(t, id, c.id);
      DownMeasureShrinks(t, id, c);
      if c.id == id {
        assert false;
      }
    }
    forall k | k in t' && k in Below(t, id)
      ensures exists c :: c in t[id].children && c.kind == Folder && c.id in t
    {
      BelowByChild(t, id, k);
    }
  }

  /** Deleting p, whose subfolder k is loaded, leaves k in the table with a parent that is gone. */
  lemma DeleteOrphans(vault: Option<Vault>, key: array<byte>, published: Records)
    ensures
      var k := FolderNode("k", Some("p"), [], true, key, key);
      var p := FolderNode("p", Some(ROOT), [FolderChild(Folder, "k", "k", "")], true, key, key);
      var root := FolderNode(ROOT, None, [FolderChild(Folder, "p", "p", "")], true, key, key);
      var t: Table := map[ROOT := root, "p" := p, "k" := k];
      Forest(t) &&
      (vault.Some? ==>
        var after := DeleteOutcome(World(t, published), vault, Item("p", Folder), ROOT, true);
        after.error.None? && "p" !in after.world.folders && "k" in after.world.folders && after.world.folders["k"] == k)
  {
    var k := FolderNode("k", Some("p"), [], true, key, key);
    var p := FolderNode("p", Some(ROOT), [FolderChild(Folder, "k", "k", "")], true, key, key);
    var root := FolderNode(ROOT, None, [FolderChild(Folder, "p", "p", "")], true, key, key);
    var t: Table := map[ROOT := root, "p" := p, "k" := k];
    assert EndsAfter(t, Some(ROOT), 1) && EndsAfter(t, Some("p"), 2) && EndsAfter(t, Some("k"), 3);
    assert root.children[0] in root.children && p.children[0] in p.children;
    assert p.children[..0] == [] && root.children[..0] == [];
  }

  // ---------------------------------------------------------------- entries of the table

  ghost predicate Lists(t: Table, c: FolderChild) {
    exists p :: p in t && c in t[p].children
  }

  /** The operation removes the entry: it, its folder or a folder above that is deleted. */
  ghost predicate Deletes(w: World, vault: Option<Vault>, op: Op, c: FolderChild)
    requires Tree(w.folders)
  {
    match op
    case Delete(item, _, ok) =>
      && ok && Accepted(w, vault, op)
      && (c.id == item.id || (item.kind == Folder && item.id in w.folders && c in w.folders[item.id].children))
    case DeleteItems(items, folderId, ok) =>
      && ok && Accepted(w, vault, op)
      && (c.id in Ids(items) || exists p :: p in Selected(w.folders, items) && c in w.folders[p].children)
    case _ => false
  }

  /** The operation moves the entry into the root while that is not loaded. */
  ghost predicate MovesAway(w: World, vault: Option<Vault>, op: Op, c: FolderChild)
    requires Tree(w.folders)
  {
    && ((op.Move? || op.MoveItems?) && op.addOk && op.removeOk && Accepted(w, vault, op))
    && op.destId == ROOT && ROOT !in w.folders
    && c.id in Named(op) && c in StateFor(vault, w.folders, op.sourceId).value.children
  }

  lemma MovedListsIff(t: Table, source: FolderNode, dest: FolderNode, ids: set<Id>, c: FolderChild)
    requires Forest(t) && MoveAllowed(t, source, dest, ids) && Lists(t, c)
    ensures Lists(Moved(t, source, dest, ids), c) <==> !(dest.id !in t && c in source.children && c.id in ids)
  {
    var t' := Moved(t, source, dest, ids);
    var p :| p in t && c in t[p].children;
    if source.id == dest.id {
      MoveToItself(t, source, ids);
      NothingSelected(source.children, ids);
      assert c in t'[p].children;
    } else if !(c in source.children && c.id in ids) {
      assert c in t'[p].children;
    } else if dest.id in t {
      assert c in Select(source.children, ids);
      assert c in t'[dest.id].children;
    } else {
      MovedOut(t, source, dest, ids, c);
    }
  }

  lemma MovedOut(t: Table, source: FolderNode, dest: FolderNode, ids: set<Id>, c: FolderChild)
    requires Forest(t) && StateOf(t, source) && c in source.children && c.id in ids && dest.id !in t
    ensures !Lists(Moved(t, source, dest, ids), c)
  {
    var t' := Moved(t, source, dest, ids);
    assert HasId(t[source.id].children, c.id);
    forall q | q in t'
      ensures c !in t'[q].children
    {
      if q != source.id && c in t[q].children {
        assert HasId(t[q].children, c.id);
      }
    }
  }

  lemma RemovedListsIff(t: Table, parent: FolderNode, ids: set<Id>, gone: set<Id>, c: FolderChild, p: Id)
    requires Forest(t) && StateOf(t, parent) && p in t && c in t[p].children
    ensures Lists(Removed(t, parent, ids, gone), c) <==> p !in gone && !(p == parent.id && c.id in ids)
  {
    var t' := Removed(t, parent, ids, gone);
    assert HasId(t[p].children, c.id);
    forall q | q in t' && c in t'[q].children
      ensures q == p
    {
      assert c in t[q].children;
      assert HasId(t[q].children, c.id);
    }
    if p !in gone && !(p == parent.id && c.id in ids) {
      assert c in t'[p].children;
    }
  }

  lemma MoveListsIff(w: World, vault: Option<Vault>, op: Op, c: FolderChild)
    requires Forest(w.folders) && Callable(w, vault, op) && (op.Move? || op.MoveItems?) && Lists(w.folders, c)
    ensures Lists(Apply(w, vault, op).folders, c) <==> !MovesAway(w, vault, op, c)
  {
    StatesAgree(vault, w.folders, op.sourceId);
    StatesAgree(vault, w.folders, op.destId);
    if Accepted(w, vault, op) && op.addOk && op.removeOk {
      var source := StateFor(vault, w.folders, op.sourceId).value;
      var dest := StateFor(vault, w.folders, op.destId).value;
      if op.Move? {
        MoveChecksAllow(w, vault, op.item, op.sourceId, op.destId);
        MovedListsIff(w.folders, source, dest, {op.item.id}, c);
      } else {
        BatchChecksAllow(w, vault, op.items, op.sourceId, op.destId);
        MovedListsIff(w.folders, source, dest, Ids(op.items), c);
        SameLists(w.folders, source, dest, op.items, c);
      }
    }
  }

  lemma SameLists(t: Table, source: FolderNode, dest: FolderNode, items: seq<Item>, c: FolderChild)
    requires Forest(t) && MoveAllowed(t, source, dest, Ids(items)) && ItemsOf(items, Some(source))
    ensures Lists(BatchMoved(t, source, dest, items), c) <==> Lists(Moved(t, source, dest, Ids(items)), c)
  {
    forall k: Id {
      BatchMoveLists(t, source, dest, items, k);
    }
  }

  lemma DeleteListsIff(w: World, vault: Option<Vault>, op: Op, c: FolderChild, p: Id)
    requires Forest(w.folders) && Callable(w, vault, op) && (op.Delete? || op.DeleteItems?)
    requires p in w.folders && c in w.folders[p].children
    ensures Lists(Apply(w, vault, op).folders, c) <==> !Deletes(w, vault, op, c)
  {
    StatesAgree(vault, w.folders, op.folderId);
    if op.ok && Accepted(w, vault, op) {
      var parent := StateFor(vault, w.folders, op.folderId).value;
      assert HasId(w.folders[p].children, c.id);
      var ids, gone := Named(op), if op.DeleteItems? then Selected(w.folders, op.items)
                                  else if op.item.kind == Folder then {op.item.id} else {};
      RemovedListsIff(w.folders, parent, ids, gone, c, p);
      if c.id in ids {
        NamedIsInParent(w, vault, op, c, p);
      }
      forall q | q in w.folders && c in w.folders[q].children
        ensures q == p
      {
        assert HasId(w.folders[q].children, c.id);
      }
    }
  }

  /** The one folder that lists a named entry is the folder the delete is about. */
  lemma NamedIsInParent(w: World, vault: Option<Vault>, op: Op, c: FolderChild, p: Id)
    requires Forest(w.folders) && Callable(w, vault, op) && (op.Delete? || op.DeleteItems?) && Accepted(w, vault, op)
    requires p in w.folders && c in w.folders[p].children && c.id in Named(op)
    ensures p == StateFor(vault, w.folders, op.folderId).value.id
  {
    StatesAgree(vault, w.folders, op.folderId);
    var parent := StateFor(vault, w.folders, op.folderId).value;
    assert HasId(parent.children, c.id);
    assert HasId(w.folders[p].children, c.id);
    assert parent.id in w.folders;
  }

  /** An operation keeps an entry of the table exactly when it neither deletes it nor moves it into an unloaded root. */
  lemma StepConservesIff(w: World, vault: Option<Vault>, op: Op, c: FolderChild)
    requires Forest(w.folders) && Callable(w, vault, op) && Lists(w.folders, c)
    ensures Lists(Apply(w, vault, op).folders, c) <==> !Deletes(w, vault, op, c) && !MovesAway(w, vault, op, c)
  {
    var p :| p in w.folders && c in w.folders[p].children;
    match op
    case Create(_, _, _, _, _, _) =>
      assert p in Apply(w, vault, op).folders && c in Apply(w, vault, op).folders[p].children;
    case Move(_, _, _, _, _) => MoveListsIff(w, vault, op, c);
    case MoveItems(_, _, _, _, _) => MoveListsIff(w, vault, op, c);
    case _ => DeleteListsIff(w, vault, op, c, p);
  }

  // ---------------------------------------------------------------- moved entries

  /** A move between one folder and itself selects nothing. */
  lemma AcceptedMoves(w: World, vault: Option<Vault>, op: Op, c: FolderChild)
    requires Forest(w.folders) && (op.Move? || op.MoveItems?) && Accepted(w, vault, op)
    ensures var source, dest := StateFor(vault, w.folders, op.sourceId), StateFor(vault, w.folders, op.destId);
      && source.Some? && source.value.id == op.sourceId && StateOf(w.folders, source.value)
      && dest.Some? && dest.value.id == op.destId && StateOf(w.folders, dest.value)
      && (c in source.value.children && c.id in Named(op) ==> op.sourceId != op.destId)
  {
    StatesAgree(vault, w.folders, op.sourceId);
    StatesAgree(vault, w.folders, op.destId);
    if op.Move? {
      MoveChecksAllow(w, vault, op.item, op.sourceId, op.destId);
    } else {
      BatchChecksAllow(w, vault, op.items, op.sourceId, op.destId);
    }
    var source := StateFor(vault, w.folders, op.sourceId).value;
    if op.sourceId == op.destId {
      MoveToItself(w.folders, source, Named(op));
    }
  }

  /**
   At every failure point of a move, an entry stays published in its folder, or it is named and published
   by the destination.
   */
  lemma MoveOpNeverLoses(w: World, vault: Option<Vault>, op: Op, c: FolderChild, p: Id)
    requires Forest(w.folders) && (op.Move? || op.MoveItems?)
    requires Published(w, p, c) && p in w.folders && c in w.folders[p].children
    ensures var after := Apply(w, vault, op);
      Published(after, p, c) || (c.id in Named(op) && Published(after, op.destId, c))
  {
    MovePublishes(w, vault, op);
    if Accepted(w, vault, op) {
      AcceptedMoves(w, vault, op, c);
      var source, dest := StateFor(vault, w.folders, op.sourceId).value, StateFor(vault, w.folders, op.destId).value;
      if p == source.id && c.id in Named(op) {
        MoveNeverLoses(w.published, source, dest, Named(op), op.addOk, op.removeOk, c);
      }
    }
  }

  /**
   A move that succeeds leaves a named entry, published by the source alone before, published by the
   destination alone.
   */
  lemma MoveOpEndsInOnePlace(w: World, vault: Option<Vault>, op: Op, c: FolderChild)
    requires Forest(w.folders) && (op.Move? || op.MoveItems?)
    ensures
      && Accepted(w, vault, op) && op.addOk && op.removeOk
      && c.id in Named(op) && c in StateFor(vault, w.folders, op.sourceId).value.children
      && (forall f :: Published(w, f, c) ==> f == op.sourceId)
      ==>
      && op.sourceId != op.destId
      && (forall f :: Published(Apply(w, vault, op), f, c) <==> f == op.destId)
  {
    if Accepted(w, vault, op) && op.addOk && op.removeOk {
      AcceptedMoves(w, vault, op, c);
      MovePublishes(w, vault, op);
      var source, dest := StateFor(vault, w.folders, op.sourceId).value, StateFor(vault, w.folders, op.destId).value;
      if c.id in Named(op) && c in source.children && forall f :: Published(w, f, c) ==> f == op.sourceId {
        assert forall f | f in w.published && c in w.published[f] :: Published(w, f, c);
        MoveEndsInOnePlace(w.published, source, dest, Named(op), c);
      }
    }
  }

  // ---------------------------------------------------------------- two moves into an unloaded root

  const X: FolderChild := FolderChild(File, "x", "x", "")
  const Y: FolderChild := FolderChild(File, "y", "y", "")

  function FolderA(children: seq<FolderChild>, key: array<byte>): FolderNode {
    FolderNode("a", Some(ROOT), children, true, key, key)
  }

  function WorldA(children: seq<FolderChild>, inRoot: seq<FolderChild>, key: array<byte>): World {
    World(map["a" := FolderA(children, key)], map[ROOT := inRoot, "a" := children])
  }

  function MoveToRoot(id: Id): Op {
    Move(Item(id, File), "a", ROOT, true, true)
  }

  lemma WorldAInv(children: seq<FolderChild>, inRoot: seq<FolderChild>, key: array<byte>)
    requires UniqueIds(children) && forall c | c in children :: c.kind == File
    ensures Inv(WorldA(children, inRoot, key))
  {
    var t := WorldA(children, inRoot, key).folders;
    assert EndsAfter(t, Some("a"), 1);
    forall n: nat | EndsAfter(t, Some("a"), n)
      ensures n == 1
    {
      EndsOnce(t, Some("a"), n, 1);
    }
  }

  /** Selecting the first entry by its id takes it alone. */
  predicate Takes(child: FolderChild, rest: seq<FolderChild>) {
    && !HasId(rest, child.id)
    && Select([child] + rest, {child.id}) == [child] && Without([child] + rest, {child.id}) == rest
  }

  lemma MovedToRoot(
    w: World, source: FolderNode, dest: FolderNode, child: FolderChild, rest: seq<FolderChild>,
    inRoot: seq<FolderChild>)
    requires source == FolderA([child] + rest, source.folderKey) && dest.id == ROOT && dest.children == []
    requires w == WorldA(source.children, inRoot, source.folderKey)
    requires Takes(child, rest) && forall c | c in source.children :: c.kind == File
    ensures MoveTried(w, source, dest, {child.id}, true, true) == Outcome(WorldA(rest, [child], source.folderKey), None)
  {
    MovedFilesTable(w.folders, source, dest, child, rest);
    assert [] + [child] == [child];
    assert MovePublished(w.published, source, dest, {child.id}, true, true)
        == WorldA(rest, [child], source.folderKey).published;
  }

  lemma MovedFilesTable(t: Table, source: FolderNode, dest: FolderNode, child: FolderChild, rest: seq<FolderChild>)
    requires source == FolderA([child] + rest, source.folderKey) && dest.id == ROOT && t == map["a" := source]
    requires Without(source.children, {child.id}) == rest && forall c | c in source.children :: c.kind == File
    ensures Moved(t, source, dest, {child.id}) == map["a" := FolderA(rest, source.folderKey)]
  {
    assert MovedFolders(t, source, {child.id}) == {};
    assert Reparent(t, {}, ROOT) == t;
  }

  lemma MoveToRootStep(
    vault: Vault, child: FolderChild, rest: seq<FolderChild>, inRoot: seq<FolderChild>, key: array<byte>)
    requires UniqueIds([child] + rest) && Takes(child, rest) && forall c | c in [child] + rest :: c.kind == File
    ensures Inv(WorldA([child] + rest, inRoot, key))
    ensures Apply(WorldA([child] + rest, inRoot, key), Some(vault), MoveToRoot(child.id)) == WorldA(rest, [child], key)
  {
    var w := WorldA([child] + rest, inRoot, key);
    WorldAInv([child] + rest, inRoot, key);
    var found := Find([child] + rest, File, child.id);
    assert found.Some? && found.value == child;
    var source, dest := FolderA([child] + rest, key), RootState(Some(vault), w.folders).value;
    assert StateFor(Some(vault), w.folders, "a") == Some(source);
    assert StateFor(Some(vault), w.folders, ROOT) == Some(dest);
    MovedToRoot(w, source, dest, child, rest, inRoot);
  }

  lemma FilterLast(init: seq<FolderChild>, last: FolderChild, ids: set<Id>)
    ensures Select(init + [last], ids) == if last.id in ids then Select(init, ids) + [last] else Select(init, ids)
    ensures Without(init + [last], ids) == if last.id in ids then Without(init, ids) else Without(init, ids) + [last]
  {
    var cs := init + [last];
    assert cs[..|cs| - 1] == init && cs[|cs| - 1] == last;
  }

  lemma TakesXThenY()
    ensures UniqueIds([X] + [Y]) && Takes(X, [Y])
    ensures UniqueIds([Y] + []) && Takes(Y, [])
  {
    assert [] + [X] == [X] && [] + [Y] == [Y] && [Y] + [] == [Y] && "x"[0] != "y"[0];
    FilterLast([], X, {"x"});
    FilterLast([X], Y, {"x"});
    FilterLast([], Y, {"y"});
    LastOf([], X);
    LastOf([X], Y);
    LastOf([], Y);
  }

  /** Two moves into a root that is not loaded: the second unpublishes what the first moved, and no folder lists it. */
  lemma TwoMovesLose(vault: Vault, key: array<byte>, a: FolderChild)
    ensures var w, first, second := WorldA([X, Y], [a], key), WorldA([Y], [X], key), WorldA([], [Y], key);
      && Inv(w) && Apply(w, Some(vault), MoveToRoot("x")) == first
      && Inv(first) && Apply(first, Some(vault), MoveToRoot("y")) == second
      && Lists(w.folders, X) && !Lists(second.folders, X) && forall f :: !Published(second, f, X)
  {
    TakesXThenY();
    assert [X] + [Y] == [X, Y] && [Y] + [] == [Y];
    MoveToRootStep(vault, X, [Y], [a], key);
    MoveToRootStep(vault, Y, [], [X], key);
    XIsGone(key, a);
  }

  lemma XIsGone(key: array<byte>, a: FolderChild)
    ensures Lists(WorldA([X, Y], [a], key).folders, X)
    ensures !Lists(WorldA([], [Y], key).folders, X)
    ensures forall f :: !Published(WorldA([], [Y], key), f, X)
  {
    var children := [X, Y];
    assert children[0] in WorldA(children, [a], key).folders["a"].children;
  }

  // ---------------------------------------------------------------- conservation over runs

  /** Folder q, and no other folder of the table, lists the entry, and publishes it. */
  ghost predicate LivesIn(w: World, c: FolderChild, q: Id) {
    && q in w.folders && c in w.folders[q].children && Published(w, q, c)
    && forall r | r in w.folders && HasId(w.folders[r].children, c.id) :: r == q
  }

  lemma ListedLives(w: World, c: FolderChild, q: Id)
    requires Forest(w.folders) && q in w.folders && c in w.folders[q].children && Published(w, q, c)
    ensures LivesIn(w, c, q)
  {
    assert HasId(w.folders[q].children, c.id);
  }

  /** The child lists a move leaves: those of a plain move once it is accepted and published. */
  lemma MoveListsAt(w: World, vault: Option<Vault>, op: Op, k: Id)
    requires Forest(w.folders) && Callable(w, vault, op) && (op.Move? || op.MoveItems?) && k in w.folders
    ensures var after := Apply(w, vault, op).folders;
      && k in after
      && after[k].children ==
           if !(Accepted(w, vault, op) && op.addOk && op.removeOk) then w.folders[k].children
           else
             var source, dest := StateFor(vault, w.folders, op.sourceId), StateFor(vault, w.folders, op.destId);
             Moved(w.folders, source.value, dest.value, Named(op))[k].children
  {
    if op.MoveItems? && Accepted(w, vault, op) && op.addOk && op.removeOk {
      StatesAgree(vault, w.folders, op.sourceId);
      StatesAgree(vault, w.folders, op.destId);
      var source, dest := StateFor(vault, w.folders, op.sourceId).value, StateFor(vault, w.folders, op.destId).value;
      BatchChecksAllow(w, vault, op.items, op.sourceId, op.destId);
      BatchMoveLists(w.folders, source, dest, op.items, k);
    }
  }

  lemma MovedChildren(t: Table, source: FolderNode, dest: FolderNode, ids: set<Id>, k: Id)
    requires StateOf(t, source) && StateOf(t, dest) && source.id != dest.id && k in t
    ensures Moved(t, source, dest, ids)[k].children ==
      if k == dest.id then t[k].children + Select(source.children, ids)
      else if k == source.id then Without(t[k].children, ids)
      else t[k].children
  {
  }

  /** An entry that is not named stays in the list it is in, unless its folder is deleted. */
  lemma UnnamedStaysListed(w: World, vault: Option<Vault>, op: Op, c: FolderChild, p: Id)
    requires Forest(w.folders) && Callable(w, vault, op) && c.id !in Named(op) && !Deletes(w, vault, op, c)
    requires p in w.folders && c in w.folders[p].children
    ensures p in Apply(w, vault, op).folders && c in Apply(w, vault, op).folders[p].children
  {
    match op
    case Create(_, _, _, _, _, _) =>
    case Move(_, _, _, _, _) => UnnamedStaysInMove(w, vault, op, c, p);
    case MoveItems(_, _, _, _, _) => UnnamedStaysInMove(w, vault, op, c, p);
    case Delete(_, folderId, _) => StatesAgree(vault, w.folders, folderId);
    case DeleteItems(_, folderId, _) => StatesAgree(vault, w.folders, folderId);
  }

  lemma UnnamedStaysInMove(w: World, vault: Option<Vault>, op: Op, c: FolderChild, p: Id)
    requires Forest(w.folders) && Callable(w, vault, op) && (op.Move? || op.MoveItems?) && c.id !in Named(op)
    requires p in w.folders && c in w.folders[p].children
    ensures p in Apply(w, vault, op).folders && c in Apply(w, vault, op).folders[p].children
  {
    MoveListsAt(w, vault, op, p);
    if Accepted(w, vault, op) && op.addOk && op.removeOk {
      AcceptedMoves(w, vault, op, c);
      var source, dest := StateFor(vault, w.folders, op.sourceId).value, StateFor(vault, w.folders, op.destId).value;
      if source.id == dest.id {
        MoveIsVoid(w, vault, op);
      } else {
        MovedChildren(w.folders, source, dest, Named(op), p);
      }
    }
  }

  /** A move within one folder leaves every list as it was. */
  lemma MoveIsVoid(w: World, vault: Option<Vault>, op: Op)
    requires Forest(w.folders) && (op.Move? || op.MoveItems?) && Accepted(w, vault, op) && op.sourceId == op.destId
    ensures var folder := StateFor(vault, w.folders, op.sourceId).value;
      forall k | k in w.folders :: Moved(w.folders, folder, folder, Named(op))[k].children == w.folders[k].children
  {
    StatesAgree(vault, w.folders, op.sourceId);
    var folder := StateFor(vault, w.folders, op.sourceId).value;
    if op.Move? {
      MoveChecksAllow(w, vault, op.item, op.sourceId, op.destId);
    } else {
      BatchChecksAllow(w, vault, op.items, op.sourceId, op.destId);
    }
    MoveToItself(w.folders, folder, Named(op));
    assert folder.children + [] == folder.children;
  }

  lemma UnnamedStays(w: World, vault: Option<Vault>, op: Op, c: FolderChild, p: Id)
    requires Forest(w.folders) && Callable(w, vault, op) && LivesIn(w, c, p) && c.id !in Named(op)
    requires !Deletes(w, vault, op, c)
    ensures LivesIn(Apply(w, vault, op), c, p)
  {
    StepKeepsInv(w, vault, op);
    UnnamedStaysListed(w, vault, op, c, p);
    UnnamedStaysPublished(w, vault, op, c, p);
    ListedLives(Apply(w, vault, op), c, p);
  }

  lemma UnnamedStaysPublished(w: World, vault: Option<Vault>, op: Op, c: FolderChild, p: Id)
    requires Forest(w.folders) && Callable(w, vault, op) && c.id !in Named(op)
    requires p in w.folders && c in w.folders[p].children && Published(w, p, c)
    ensures Published(Apply(w, vault, op), p, c)
  {
    OthersKeptIff(w, vault, op, p, c);
    PublishedFromOwnList(w, vault, op, p);
  }

  /** A loaded folder is published from its own list. */
  lemma PublishedFromOwnList(w: World, vault: Option<Vault>, op: Op, f: Id)
    requires Forest(w.folders) && Callable(w, vault, op) && f in w.folders
    ensures var list := PublishedFrom(w, vault, op, f); list.Some? ==> list.value == w.folders[f].children
  {
    match op
    case Create(_, _, _, _, _, _) =>
    case Move(_, sourceId, destId, _, _) =>
      StatesAgree(vault, w.folders, sourceId);
      StatesAgree(vault, w.folders, destId);
    case MoveItems(_, sourceId, destId, _, _) =>
      StatesAgree(vault, w.folders, sourceId);
      StatesAgree(vault, w.folders, destId);
    case Delete(_, folderId, _) => StatesAgree(vault, w.folders, folderId);
    case DeleteItems(_, folderId, _) => StatesAgree(vault, w.folders, folderId);
  }

  /** A named entry that a move leaves in the table is listed and published where the move leaves it. */
  lemma NamedMoves(w: World, vault: Option<Vault>, op: Op, c: FolderChild, p: Id)
    requires Forest(w.folders) && Callable(w, vault, op) && (op.Move? || op.MoveItems?) && LivesIn(w, c, p)
    requires c.id in Named(op) && !MovesAway(w, vault, op, c)
    ensures exists q :: LivesIn(Apply(w, vault, op), c, q)
  {
    StepKeepsInv(w, vault, op);
    MovePublishes(w, vault, op);
    var q := p;
    MoveListsAt(w, vault, op, p);
    if Accepted(w, vault, op) {
      AcceptedMoves(w, vault, op, c);
      q := if op.addOk && op.removeOk && p == op.sourceId then op.destId else p;
      NamedIsListedAt(w, vault, op, c, p, q);
    }
    ListedLives(Apply(w, vault, op), c, q);
  }

  lemma NamedIsListedAt(w: World, vault: Option<Vault>, op: Op, c: FolderChild, p: Id, q: Id)
    requires Forest(w.folders) && Callable(w, vault, op) && (op.Move? || op.MoveItems?) && LivesIn(w, c, p)
    requires Accepted(w, vault, op) && c.id in Named(op) && !MovesAway(w, vault, op, c)
    requires q == if op.addOk && op.removeOk && p == op.sourceId then op.destId else p
    ensures var after := Apply(w, vault, op);
      q in after.folders && c in after.folders[q].children && Published(after, q, c)
  {
    AcceptedMoves(w, vault, op, c);
    MovePublishes(w, vault, op);
    var source, dest := StateFor(vault, w.folders, op.sourceId).value, StateFor(vault, w.folders, op.destId).value;
    assert HasId(w.folders[p].children, c.id);
    assert p == op.sourceId ==> c in Select(source.children, Named(op));
    assert q in w.folders;
    MoveListsAt(w, vault, op, q);
    if source.id == dest.id {
      MoveIsVoid(w, vault, op);
    } else {
      MovedChildren(w.folders, source, dest, Named(op), q);
    }
  }

  /** One call leaves an entry that it does not lose with one folder that lists and publishes it. */
  lemma StepKeepsPlace(w: World, vault: Option<Vault>, op: Op, c: FolderChild, p: Id)
    requires Forest(w.folders) && Callable(w, vault, op) && LivesIn(w, c, p)
    requires !Deletes(w, vault, op, c) && !MovesAway(w, vault, op, c)
    ensures exists q :: LivesIn(Apply(w, vault, op), c, q)
  {
    if c.id !in Named(op) {
      UnnamedStays(w, vault, op, c, p);
    } else if op.Move? || op.MoveItems? {
      NamedMoves(w, vault, op, c, p);
    } else {
      assert HasId(w.folders[p].children, c.id);
      assert LivesIn(Apply(w, vault, op), c, p);
    }
  }

  lemma RootUnlisted(t: Table, parent: FolderNode)
    requires Forest(t) && StateOf(t, parent) && ROOT in t
    ensures Find(parent.children, Folder, ROOT).None?
  {
    assert ListsFolder(t[parent.id].children, ROOT) <==> t[ROOT].parentId == Some(parent.id);
    assert !ListsFolder(parent.children, ROOT);
  }

  lemma RootNotSelected(t: Table, parent: FolderNode, items: seq<Item>)
    requires Forest(t) && StateOf(t, parent) && ROOT in t && ItemsOf(items, Some(parent))
    ensures ROOT !in Selected(t, items)
  {
    RootUnlisted(t, parent);
    forall it | it in items && it.kind == Folder && it.id in t
      ensures ROOT !in Below(t, it.id)
    {
      assert it.id != ROOT;
      forall m: nat
        ensures Up(t, Some(ROOT), m) != Some(it.id)
      {
        if m > 0 {
          UpOfNone(t, m - 1);
        }
      }
    }
  }

  lemma UpOfNone(t: Table, n: nat)
    ensures Up(t, None, n) == None
  {
  }

  /** A loaded root is listed nowhere, so no delete removes it. */
  lemma RootStays(w: World, vault: Option<Vault>, op: Op)
    requires Forest(w.folders) && Callable(w, vault, op) && ROOT in w.folders
    ensures ROOT in Apply(w, vault, op).folders
  {
    match op
    case Delete(_, folderId, _) =>
      StatesAgree(vault, w.folders, folderId);
      if StateFor(vault, w.folders, folderId).Some? {
        RootUnlisted(w.folders, StateFor(vault, w.folders, folderId).value);
      }
    case DeleteItems(items, folderId, _) =>
      StatesAgree(vault, w.folders, folderId);
      if StateFor(vault, w.folders, folderId).Some? {
        RootUnlisted(w.folders, StateFor(vault, w.folders, folderId).value);
        RootNotSelected(w.folders, StateFor(vault, w.folders, folderId).value, items);
      }
    case MoveItems(_, _, _, _, _) => MoveListsAt(w, vault, op, ROOT);
    case _ =>
  }

  /** Whether some call of the run deletes the entry. */
  ghost predicate RunDeletes(w: World, vault: Option<Vault>, ops: seq<Op>, c: FolderChild)
    requires RunOk(w, vault, ops)
    decreases |ops|
  {
    ops != [] && (Deletes(w, vault, ops[0], c) || RunDeletes(Apply(w, vault, ops[0]), vault, ops[1..], c))
  }

  /** Whether some call of the run moves the entry into the root while that is not loaded. */
  ghost predicate RunMovesAway(w: World, vault: Option<Vault>, ops: seq<Op>, c: FolderChild)
    requires RunOk(w, vault, ops)
    decreases |ops|
  {
    ops != [] && (MovesAway(w, vault, ops[0], c) || RunMovesAway(Apply(w, vault, ops[0]), vault, ops[1..], c))
  }

  /**
   Conservation: an entry that a folder lists and publishes, and that no call of a run deletes or moves
   into an unloaded root, is at the end listed by exactly one folder of the table and published there,
   wherever publishes failed and whatever else was listed or published.
   */
  lemma {:induction false} RunConserves(w: World, vault: Option<Vault>, ops: seq<Op>, c: FolderChild, p: Id)
    requires Forest(w.folders) && RunOk(w, vault, ops) && LivesIn(w, c, p)
    requires !RunDeletes(w, vault, ops, c) && !RunMovesAway(w, vault, ops, c)
    ensures exists q :: LivesIn(Run(w, vault, ops), c, q)
    decreases |ops|
  {
    if ops == [] {
      assert Run(w, vault, ops) == w;
    } else {
      StepKeepsInv(w, vault, ops[0]);
      StepKeepsPlace(w, vault, ops[0], c, p);
      var q :| LivesIn(Apply(w, vault, ops[0]), c, q);
      RunConserves(Apply(w, vault, ops[0]), vault, ops[1..], c, q);
      assert Run(w, vault, ops) == Run(Apply(w, vault, ops[0]), vault, ops[1..]);
    }
  }

  /** With the root loaded at the start of a run nothing is moved away: only deletes lose entries. */
  lemma {:induction false} RootedRunMovesNothingAway(w: World, vault: Option<Vault>, ops: seq<Op>, c: FolderChild)
    requires Forest(w.folders) && RunOk(w, vault, ops) && ROOT in w.folders
    ensures !RunMovesAway(w, vault, ops, c)
    decreases |ops|
  {
    if ops != [] {
      StepKeepsInv(w, vault, ops[0]);
      RootStays(w, vault, ops[0]);
      RootedRunMovesNothingAway(Apply(w, vault, ops[0]), vault, ops[1..], c);
    }
  }
}
