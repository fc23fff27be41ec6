/**
 When the local folder operations are accepted, why they are refused and what they do when they succeed, said
 of the table itself: parent steps, list entries and names.
 */
module FolderAnswers {
  import opened Common
  import opened FolderTree
  import opened FolderOps
  import opened FolderWorld
  import opened FolderRuns
  import opened FolderLosses

  /** The child list of a folder as the handlers see it: empty while the folder is not in the table. */
  function ListOf(t: Table, id: Id): seq<FolderChild> {
    if id in t then t[id].children else []
  }

  /** The root is known once the vault is, any other folder once it is in the table. */
  lemma StateForIff(vault: Option<Vault>, t: Table, id: Id)
    ensures StateFor(vault, t, id).Some? <==> if id == ROOT then vault.Some? else id in t
    ensures StateFor(vault, t, id).Some? && id in t ==> StateFor(vault, t, id).value == t[id]
    ensures StateFor(vault, t, id).Some? && id !in t ==>
      StateFor(vault, t, id).value
      == FolderNode("root", None, [], false, vault.value.rootFolderKey, vault.value.rootIpnsPrivateKey)
  {
  }

  // ---------------------------------------------------------------- filters and names

  /** Filtering keeps the order; one entry more at the end goes to one side or the other. */
  lemma FiltersKeepOrder(init: seq<FolderChild>, last: FolderChild, ids: set<Id>)
    ensures Select([], ids) == [] && Without([], ids) == []
    ensures Select(init + [last], ids) == if last.id in ids then Select(init, ids) + [last] else Select(init, ids)
    ensures Without(init + [last], ids) == if last.id in ids then Without(init, ids) else Without(init, ids) + [last]
  {
    FilterLast(init, last, ids);
  }

  lemma {:induction false} UniqueNamesIff(cs: seq<FolderChild>, ids: set<Id>)
    ensures UniqueNames(Select(cs, ids)) <==>
      forall i, j | 0 <= i < j < |cs| && cs[i].id in ids && cs[j].id in ids :: cs[i].name != cs[j].name
  {
    if cs != [] {
      var init, last := cs[..|cs| - 1], cs[|cs| - 1];
      assert cs == init + [last];
      UniqueNamesIff(init, ids);
      FilterLast(init, last, ids);
      LastOf(Select(init, ids), last);
      LastIsApartIff(init, last, ids);
    }
  }

  lemma LastIsApartIff(init: seq<FolderChild>, last: FolderChild, ids: set<Id>)
    ensures (last.id in ids ==> !HasName(Select(init, ids), last.name)) <==>
      forall i | 0 <= i < |init| && init[i].id in ids && last.id in ids :: init[i].name != last.name
  {
    forall i | 0 <= i < |init| && init[i].id in ids
      ensures init[i] in Select(init, ids)
    {
    }
    forall c | c in Select(init, ids)
      ensures exists i :: 0 <= i < |init| && init[i] == c
    {
    }
  }

  // ---------------------------------------------------------------- batch moves

  lemma {:induction false} BatchCheckPasses(t: Table, dest: FolderNode, moved: seq<FolderChild>)
    requires Tree(t) && UniqueNames(moved)
    requires forall c | c in moved :: !HasName(dest.children, c.name)
    requires forall c | c in moved && c.kind == Folder ::
      !IsBelow(t, dest.id, c.id) && DepthOf(t, dest.id) + 1 + SubtreeDepth(t, c.id) <= MAX_FOLDER_DEPTH
    ensures BatchCheck(t, dest, moved).None?
  {
    if moved != [] {
      var init, last := moved[..|moved| - 1], moved[|moved| - 1];
      assert moved == init + [last];
      BatchCheckPasses(t, dest, init);
    }
  }

  /** What the checks of a move come to, said of the lists and of parent steps. */
  lemma MoveAllowedIff(t: Table, source: FolderNode, dest: FolderNode, ids: set<Id>)
    requires Forest(t) && StateOf(t, source) && StateOf(t, dest)
    ensures var from := source.children;
      MoveAllowed(t, source, dest, ids) <==>
        && (forall i, j | 0 <= i < j < |from| && from[i].id in ids && from[j].id in ids :: from[i].name != from[j].name)
        && (forall c, d | c in from && c.id in ids && d in dest.children :: c.name != d.name)
        && (forall c, n: nat | c in from && c.id in ids && c.kind == Folder :: Up(t, Some(dest.id), n) != Some(c.id))
        && (forall c, n: nat | c in from && c.id in ids && c.kind == Folder && EndsAfter(t, Some(dest.id), n) ::
              n + 1 + SubtreeDepth(t, c.id) <= 20)
  {
    UniqueNamesIff(source.children, ids);
    NamesFreeIff(source.children, dest.children, ids);
    StaysAboveIff(t, source.children, dest.id, ids);
    DepthFitsIff(t, source.children, dest.id, ids);
  }

  lemma NamesFreeIff(from: seq<FolderChild>, to: seq<FolderChild>, ids: set<Id>)
    ensures (forall c | c in from && c.id in ids :: !HasName(to, c.name)) <==>
      forall c, d | c in from && c.id in ids && d in to :: c.name != d.name
  {
  }

  lemma StaysAboveIff(t: Table, from: seq<FolderChild>, destId: Id, ids: set<Id>)
    ensures (forall c | c in from && c.id in ids && c.kind == Folder :: !IsBelow(t, destId, c.id)) <==>
      forall c, n: nat | c in from && c.id in ids && c.kind == Folder :: Up(t, Some(destId), n) != Some(c.id)
  {
    forall c, n: nat | c in from && c.id in ids && c.kind == Folder && Up(t, Some(destId), n) == Some(c.id)
      ensures IsBelow(t, destId, c.id)
    {
    }
    if c :| c in from && c.id in ids && c.kind == Folder && IsBelow(t, destId, c.id) {
      var n: nat :| Up(t, Some(destId), n) == Some(c.id);
      assert !(Up(t, Some(destId), n) != Some(c.id));
    }
  }

  lemma DepthFitsIff(t: Table, from: seq<FolderChild>, destId: Id, ids: set<Id>)
    requires Tree(t)
    ensures (forall c | c in from && c.id in ids && c.kind == Folder ::
               DepthOf(t, destId) + 1 + SubtreeDepth(t, c.id) <= MAX_FOLDER_DEPTH) <==>
      forall c, n: nat | c in from && c.id in ids && c.kind == Folder && EndsAfter(t, Some(destId), n) ::
        n + 1 + SubtreeDepth(t, c.id) <= 20
  {
    var d := DepthOf(t, destId);
    DepthIs(t, destId, d);
    forall n: nat | EndsAfter(t, Some(destId), n)
      ensures n == d
    {
      DepthIs(t, destId, n);
    }
  }

  /** The depth the checks use is the one number of folders after which the parent walk ends. */
  lemma DepthIs(t: Table, id: Id, n: nat)
    requires Tree(t)
    ensures EndsAfter(t, Some(id), n) <==> n == DepthOf(t, id)
  {
    WalkEnds(t, Some(id));
    if EndsAfter(t, Some(id), n) {
      EndsOnce(t, Some(id), n, DepthOf(t, id));
    }
  }

  /**
   A batch move passes its checks exactly when both folders are known, no two selected entries share a
   name, none has a name of the destination, and no selected folder is above the destination or would put
   a folder more than twenty deep.
   */
  lemma BatchAcceptedIff(w: World, vault: Option<Vault>, items: seq<Item>, sourceId: Id, destId: Id)
    requires Forest(w.folders)
    ensures var t, ids, from := w.folders, set it | it in items :: it.id, ListOf(w.folders, sourceId);
      BatchMoveOutcome(w, vault, items, sourceId, destId, true, true).error.None? <==>
        && (if sourceId == ROOT then vault.Some? else sourceId in t)
        && (if destId == ROOT then vault.Some? else destId in t)
        && (forall i, j | 0 <= i < j < |from| && from[i].id in ids && from[j].id in ids :: from[i].name != from[j].name)
        && (forall c, d | c in from && c.id in ids && d in ListOf(t, destId) :: c.name != d.name)
        && (forall c, n: nat | c in from && c.id in ids && c.kind == Folder :: Up(t, Some(destId), n) != Some(c.id))
        && (forall c, n: nat | c in from && c.id in ids && c.kind == Folder && EndsAfter(t, Some(destId), n) ::
              n + 1 + SubtreeDepth(t, c.id) <= 20)
  {
    StateForIff(vault, w.folders, sourceId);
    StateForIff(vault, w.folders, destId);
    if StateFor(vault, w.folders, sourceId).Some? && StateFor(vault, w.folders, destId).Some? {
      StatesAgree(vault, w.folders, sourceId);
      StatesAgree(vault, w.folders, destId);
      var source, dest := StateFor(vault, w.folders, sourceId).value, StateFor(vault, w.folders, destId).value;
      MoveAllowedIff(w.folders, source, dest, Ids(items));
      if BatchMoveOutcome(w, vault, items, sourceId, destId, true, true).error.None? {
        BatchChecksAllow(w, vault, items, sourceId, destId);
      } else if MoveAllowed(w.folders, source, dest, Ids(items)) {
        BatchCheckPasses(w.folders, dest, Select(source.children, Ids(items)));
      }
    }
  }

  // ---------------------------------------------------------------- single moves

  /** A single move passes its checks exactly when both folders are known and the source has the item, which may go. */
  lemma MoveAcceptedIff(w: World, vault: Option<Vault>, item: Item, sourceId: Id, destId: Id)
    requires Forest(w.folders)
    ensures var t, from := w.folders, ListOf(w.folders, sourceId);
      MoveOutcome(w, vault, item, sourceId, destId, true, true).error.None? <==>
        && (if sourceId == ROOT then vault.Some? else sourceId in t)
        && (if destId == ROOT then vault.Some? else destId in t)
        && (exists c :: c in from && c.id == item.id && c.kind == item.kind)
        && (forall c, d | c in from && c.id == item.id && d in ListOf(t, destId) :: c.name != d.name)
        && (item.kind == Folder ==> forall n: nat :: Up(t, Some(destId), n) != Some(item.id))
        && (item.kind == Folder ==>
              forall n: nat | EndsAfter(t, Some(destId), n) :: n + 1 + SubtreeDepth(t, item.id) <= 20)
  {
    var t := w.folders;
    StateForIff(vault, t, sourceId);
    StateForIff(vault, t, destId);
    if StateFor(vault, t, sourceId).Some? && StateFor(vault, t, destId).Some? {
      var source, dest := StateFor(vault, t, sourceId).value, StateFor(vault, t, destId).value;
      StatesAgree(vault, t, sourceId);
      StatesAgree(vault, t, destId);
      var found := Find(source.children, item.kind, item.id);
      if found.Some? {
        assert sourceId in t && UniqueIds(t[sourceId].children);
        ItemMayGoIff(t, source.children, dest.children, destId, found.value);
      }
    }
  }

  /** With one entry of each id, what is said of all entries of an id is said of the entry found. */
  lemma ItemMayGoIff(t: Table, from: seq<FolderChild>, to: seq<FolderChild>, destId: Id, child: FolderChild)
    requires Tree(t) && UniqueIds(from) && child in from
    ensures HasName(to, child.name) <==> !forall c, d | c in from && c.id == child.id && d in to :: c.name != d.name
    ensures IsBelow(t, destId, child.id) <==> !forall n: nat :: Up(t, Some(destId), n) != Some(child.id)
    ensures DepthOf(t, destId) + 1 + SubtreeDepth(t, child.id) <= 20 <==>
      forall n: nat | EndsAfter(t, Some(destId), n) :: n + 1 + SubtreeDepth(t, child.id) <= 20
  {
    forall c | c in from && c.id == child.id
      ensures c == child
    {
      UniqueIdsSame(from, c, child);
    }
    if IsBelow(t, destId, child.id) {
      var n: nat :| Up(t, Some(destId), n) == Some(child.id);
      assert !(Up(t, Some(destId), n) != Some(child.id));
    }
    var depth := DepthOf(t, destId);
    DepthIs(t, destId, depth);
    forall n: nat | EndsAfter(t, Some(destId), n)
      ensures n == depth
    {
      DepthIs(t, destId, n);
    }
  }

  // ---------------------------------------------------------------- what a move does

  /** The ids an operation names are those of its items. */
  lemma NamedIs(op: Op)
    ensures op.Move? ==> Named(op) == {op.item.id}
    ensures op.MoveItems? ==> Named(op) == set it | it in op.items :: it.id
  {
  }

  lemma MoveStates(w: World, vault: Option<Vault>, op: Op)
    requires Forest(w.folders) && (op.Move? || op.MoveItems?) && Accepted(w, vault, op)
    ensures var source, dest := StateFor(vault, w.folders, op.sourceId), StateFor(vault, w.folders, op.destId);
      && source.Some? && StateOf(w.folders, source.value) && source.value.id == op.sourceId
      && source.value.children == ListOf(w.folders, op.sourceId)
      && dest.Some? && StateOf(w.folders, dest.value) && dest.value.id == op.destId
      && dest.value.children == ListOf(w.folders, op.destId)
  {
    StatesAgree(vault, w.folders, op.sourceId);
    StatesAgree(vault, w.folders, op.destId);
    StateForIff(vault, w.folders, op.sourceId);
    StateForIff(vault, w.folders, op.destId);
  }

  /** A move that is accepted publishes the destination with the named entries last, then the source without them. */
  lemma MovePublishesBoth(w: World, vault: Option<Vault>, op: Op)
    requires Forest(w.folders) && (op.Move? || op.MoveItems?)
    ensures var ids, from, to := Named(op), ListOf(w.folders, op.sourceId), ListOf(w.folders, op.destId);
      Accepted(w, vault, op) ==>
        Apply(w, vault, op).published ==
          if !op.addOk then w.published
          else
            var added := w.published[op.destId := to + Select(from, ids)];
            if op.removeOk then added[op.sourceId := Without(from, ids)] else added
  {
    MovePublishes(w, vault, op);
    if Accepted(w, vault, op) {
      MoveStates(w, vault, op);
    }
  }

  /**
   A move that succeeds between two folders appends the named entries, in their order, to the destination
   and takes them from the source; named loaded folders point to the destination, and nothing else changes.
   */
  lemma MoveDoes(w: World, vault: Option<Vault>, op: Op, k: Id)
    requires Forest(w.folders) && Callable(w, vault, op) && (op.Move? || op.MoveItems?) && k in w.folders
    ensures var ids, from, after := Named(op), ListOf(w.folders, op.sourceId), Apply(w, vault, op).folders;
      Accepted(w, vault, op) && op.addOk && op.removeOk && op.sourceId != op.destId ==>
        && k in after
        && after[k].children == (
             if k == op.destId then w.folders[k].children + Select(from, ids)
             else if k == op.sourceId then Without(from, ids)
             else w.folders[k].children)
        && after[k].parentId == (
             if exists c :: c in from && c.id in ids && c.kind == Folder && c.id == k then Some(op.destId)
             else w.folders[k].parentId)
  {
    if Accepted(w, vault, op) && op.addOk && op.removeOk && op.sourceId != op.destId {
      MoveStates(w, vault, op);
      var source, dest := StateFor(vault, w.folders, op.sourceId).value, StateFor(vault, w.folders, op.destId).value;
      MoveListsAt(w, vault, op, k);
      MovedChildren(w.folders, source, dest, Named(op), k);
      MovedParent(w, vault, op, k);
    }
  }

  lemma MovedParent(w: World, vault: Option<Vault>, op: Op, k: Id)
    requires Forest(w.folders) && Callable(w, vault, op) && (op.Move? || op.MoveItems?) && k in w.folders
    requires Accepted(w, vault, op) && op.addOk && op.removeOk && op.sourceId != op.destId
    ensures k in Apply(w, vault, op).folders
    ensures Apply(w, vault, op).folders[k].parentId ==
      if k in MovedFolders(w.folders, StateFor(vault, w.folders, op.sourceId).value, Named(op)) then Some(op.destId)
      else w.folders[k].parentId
  {
    if op.Move? {
      MovedParentOfOne(w, vault, op, k);
    } else {
      MovedParentOfMany(w, vault, op, k);
    }
  }

  lemma MovedParentOfOne(w: World, vault: Option<Vault>, op: Op, k: Id)
    requires Forest(w.folders) && Callable(w, vault, op) && op.Move? && k in w.folders
    requires Accepted(w, vault, op) && op.addOk && op.removeOk && op.sourceId != op.destId
    ensures k in Apply(w, vault, op).folders
    ensures Apply(w, vault, op).folders[k].parentId ==
      if k in MovedFolders(w.folders, StateFor(vault, w.folders, op.sourceId).value, Named(op)) then Some(op.destId)
      else w.folders[k].parentId
  {
    StatesAgree(vault, w.folders, op.sourceId);
    StatesAgree(vault, w.folders, op.destId);
  }

  lemma MovedParentOfMany(w: World, vault: Option<Vault>, op: Op, k: Id)
    requires Forest(w.folders) && Callable(w, vault, op) && op.MoveItems? && k in w.folders
    requires Accepted(w, vault, op) && op.addOk && op.removeOk && op.sourceId != op.destId
    ensures k in Apply(w, vault, op).folders
    ensures Apply(w, vault, op).folders[k].parentId ==
      if k in MovedFolders(w.folders, StateFor(vault, w.folders, op.sourceId).value, Named(op)) then Some(op.destId)
      else w.folders[k].parentId
  {
    StatesAgree(vault, w.folders, op.sourceId);
    StatesAgree(vault, w.folders, op.destId);
    var source, dest := StateFor(vault, w.folders, op.sourceId).value, StateFor(vault, w.folders, op.destId).value;
    ItemsOfSource(w.folders, source, op.items);
    BatchMovedAt(w.folders, source, dest, op.items, k);
  }

  // ---------------------------------------------------------------- creates and deletes

  /** A create passes its checks exactly below a folder less than twenty deep, with a keypair and a known parent. */
  lemma CreateAcceptedIff(
    w: World, vault: Option<Vault>, hasKeypair: bool, parentId: Option<Id>, child: FolderChild, node: FolderNode)
    requires Forest(w.folders)
    ensures CreateOutcome(w, vault, hasKeypair, parentId, child, node, true, true).error.None? <==>
      && (forall n: nat | EndsAfter(w.folders, parentId, n) :: n < 20)
      && hasKeypair
      && ((parentId.Some? && parentId.value in w.folders) || vault.Some?)
  {
    WalkEnds(w.folders, parentId);
    var d := Depth(w.folders, parentId);
    WalkIs(w.folders, parentId, d);
    forall n: nat | EndsAfter(w.folders, parentId, n)
      ensures n == d
    {
      WalkIs(w.folders, parentId, n);
    }
  }

  lemma WalkIs(t: Table, c: Option<Id>, n: nat)
    requires Acyclic(t) && Ends(t, c)
    ensures EndsAfter(t, c, n) <==> n == Depth(t, c)
  {
    if EndsAfter(t, c, n) {
      EndsOnce(t, c, n, Depth(t, c));
    }
  }

  /** A create that succeeds adds the child last to its parent's list, here and published, and the node to the table. */
  lemma CreateDoes(
    w: World, vault: Option<Vault>, parentId: Option<Id>, child: FolderChild, node: FolderNode, k: Id)
    requires Forest(w.folders) && FreshId(w.folders, child.id) && node.id == child.id
    ensures var o := CreateOutcome(w, vault, true, parentId, child, node, true, true);
      var p := if parentId.Some? && parentId.value in w.folders then parentId.value else ROOT;
      o.error.None? ==>
        && o.world.folders.Keys == w.folders.Keys + {child.id} && o.world.folders[child.id] == node
        && (p in w.folders ==> o.world.folders[p].children == w.folders[p].children + [child])
        && (k in w.folders && k != p ==> o.world.folders[k] == w.folders[k])
        && o.world.published == w.published[p := ListOf(w.folders, p) + [child]][child.id := []]
  {
    var parent := CreateParent(vault, w.folders, parentId);
    assert parentId.Some? && parentId.value in w.folders ==> w.folders[parentId.value].id == parentId.value;
    assert ROOT in w.folders ==> w.folders[ROOT].id == ROOT;
  }

  /** A delete passes its checks exactly when the parent is known and has the item. */
  lemma DeleteAcceptedIff(w: World, vault: Option<Vault>, item: Item, parentId: Id)
    ensures DeleteOutcome(w, vault, item, parentId, true).error.None? <==>
      && (if parentId == ROOT then vault.Some? else parentId in w.folders)
      && exists c :: c in ListOf(w.folders, parentId) && c.id == item.id && c.kind == item.kind
  {
    StateForIff(vault, w.folders, parentId);
  }

  /** A delete that succeeds takes the item from its parent's list, here and published, and a folder from the table. */
  lemma DeleteDoes(w: World, vault: Option<Vault>, item: Item, parentId: Id, k: Id)
    requires Forest(w.folders)
    ensures var o := DeleteOutcome(w, vault, item, parentId, true);
      o.error.None? ==>
        && (k in o.world.folders <==> k in w.folders && !(item.kind == Folder && k == item.id))
        && (k in o.world.folders && k != parentId ==> o.world.folders[k] == w.folders[k])
        && (parentId in o.world.folders ==>
              o.world.folders[parentId].children == Without(w.folders[parentId].children, {item.id}))
        && o.world.published == w.published[parentId := Without(ListOf(w.folders, parentId), {item.id})]
  {
    StateForIff(vault, w.folders, parentId);
    StatesAgree(vault, w.folders, parentId);
  }

  /** A batch delete needs a known parent only; it takes the items from its list and every folder at or below one. */
  lemma BatchDeleteDoes(w: World, vault: Option<Vault>, items: seq<Item>, parentId: Id, k: Id)
    requires Forest(w.folders)
    ensures var o, ids := BatchDeleteOutcome(w, vault, items, parentId, true), set it | it in items :: it.id;
      && (o.error.None? <==> if parentId == ROOT then vault.Some? else parentId in w.folders)
      && (o.error.None? ==>
            && (k in o.world.folders <==>
                  && k in w.folders
                  && !exists it, m: nat ::
                        && it in items && it.kind == Folder && it.id in w.folders
                        && Up(w.folders, Some(k), m) == Some(it.id))
            && (k in o.world.folders && k != parentId ==> o.world.folders[k] == w.folders[k])
            && (parentId in o.world.folders ==>
                  o.world.folders[parentId].children == Without(w.folders[parentId].children, ids))
            && o.world.published == w.published[parentId := Without(ListOf(w.folders, parentId), ids)])
  {
    StateForIff(vault, w.folders, parentId);
    StatesAgree(vault, w.folders, parentId);
    if StateFor(vault, w.folders, parentId).Some? {
      var ids := set it | it in items :: it.id;
      assert Ids(items) == ids;
      assert StateFor(vault, w.folders, parentId).value.children == ListOf(w.folders, parentId);
    }
    if StateFor(vault, w.folders, parentId).Some? && k in w.folders {
      SelectedIff(w.folders, items, k);
    }
  }

  lemma SelectedIff(t: Table, items: seq<Item>, k: Id)
    requires k in t
    ensures k in Selected(t, items) <==>
      exists it, m: nat :: it in items && it.kind == Folder && it.id in t && Up(t, Some(k), m) == Some(it.id)
  {
    if k in Selected(t, items) {
      var it, m := SelectedHas(t, items, k);
    }
    forall it, m: nat | it in items && it.kind == Folder && it.id in t && Up(t, Some(k), m) == Some(it.id)
      ensures k in Selected(t, items)
    {
      AboveSelects(t, items, k, it, m);
    }
  }

  lemma SelectedHas(t: Table, items: seq<Item>, k: Id) returns (it: Item, m: nat)
    requires k in Selected(t, items)
    ensures it in items && it.kind == Folder && it.id in t && Up(t, Some(k), m) == Some(it.id)
  {
    it :| it in items && it.kind == Folder && it.id in t && k in Below(t, it.id);
    m :| Up(t, Some(k), m) == Some(it.id);
  }

  lemma AboveSelects(t: Table, items: seq<Item>, k: Id, it: Item, m: nat)
    requires k in t && it in items && it.kind == Folder && it.id in t && Up(t, Some(k), m) == Some(it.id)
    ensures k in Selected(t, items)
  {
    assert IsBelow(t, k, it.id);
    assert k in Below(t, it.id);
  }

  // ---------------------------------------------------------------- refusals

  /** Each refusal of a batch names something that is so. */
  lemma {:induction false} BatchCheckTells(t: Table, dest: FolderNode, moved: seq<FolderChild>)
    requires Tree(t)
    ensures var e := BatchCheck(t, dest, moved);
      && e in {None, Some(DuplicateName), Some(NameTaken), Some(IntoItself), Some(TooDeep)}
      && (e == Some(DuplicateName) ==> exists i, j :: 0 <= i < j < |moved| && moved[i].name == moved[j].name)
      && (e == Some(NameTaken) ==> exists c, d :: c in moved && d in dest.children && c.name == d.name)
      && (e == Some(IntoItself) ==>
            exists c, n: nat :: c in moved && c.kind == Folder && Up(t, Some(dest.id), n) == Some(c.id))
      && (e == Some(TooDeep) ==>
            exists c, n: nat ::
              c in moved && c.kind == Folder && EndsAfter(t, Some(dest.id), n) && n + 1 + SubtreeDepth(t, c.id) > 20)
  {
    if moved != [] {
      var init, last := moved[..|moved| - 1], moved[|moved| - 1];
      assert moved == init + [last] && last in moved;
      BatchCheckTells(t, dest, init);
      DepthIs(t, dest.id, DepthOf(t, dest.id));
      if BatchCheck(t, dest, init).None? && HasName(init, last.name) {
        var c :| c in init && c.name == last.name;
        var i :| 0 <= i < |init| && init[i] == c;
        assert moved[i].name == moved[|init|].name;
      }
    }
  }

  /** Which refusal a batch move meets, and that a publish decides once it is accepted. */
  lemma BatchRefusals(
    w: World, vault: Option<Vault>, items: seq<Item>, sourceId: Id, destId: Id, addOk: bool, removeOk: bool)
    requires Forest(w.folders)
    ensures var e := BatchMoveOutcome(w, vault, items, sourceId, destId, addOk, removeOk).error;
      var known := (if sourceId == ROOT then vault.Some? else sourceId in w.folders)
                   && (if destId == ROOT then vault.Some? else destId in w.folders);
      var accepted := BatchMoveOutcome(w, vault, items, sourceId, destId, true, true).error.None?;
      && (e == Some(ParentNotFound) <==> !known)
      && (e == Some(PublishFailed) <==> accepted && !(addOk && removeOk))
      && (e.None? <==> accepted && addOk && removeOk)
  {
    StateForIff(vault, w.folders, sourceId);
    StateForIff(vault, w.folders, destId);
    if StateFor(vault, w.folders, sourceId).Some? && StateFor(vault, w.folders, destId).Some? {
      var source, dest := StateFor(vault, w.folders, sourceId).value, StateFor(vault, w.folders, destId).value;
      BatchCheckTells(w.folders, dest, Select(source.children, Ids(items)));
    }
  }
}
