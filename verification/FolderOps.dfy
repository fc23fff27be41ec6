/**
 The table after each local folder operation, as functions of the table before,
 and what those functions keep.
 */
module FolderOps {
  import opened Common
  import opened FolderTree

  // ---------------------------------------------------------------- child lists

  predicate HasName(cs: seq<FolderChild>, name: string) {
    exists c :: c in cs && c.name == name
  }

  predicate UniqueNames(cs: seq<FolderChild>) {
    cs == [] || (!HasName(cs[..|cs| - 1], cs[|cs| - 1].name) && UniqueNames(cs[..|cs| - 1]))
  }

  /** `children.filter(c => ids.has(c.id))` */
  function Select(cs: seq<FolderChild>, ids: set<Id>): (r: seq<FolderChild>)
    ensures forall c :: c in r <==> c in cs && c.id in ids
  {
    if cs == [] then []
    else
      assert cs == cs[..|cs| - 1] + [cs[|cs| - 1]];
      var rest := Select(cs[..|cs| - 1], ids);
      if cs[|cs| - 1].id in ids then rest + [cs[|cs| - 1]] else rest
  }

  /** `children.filter(c => !ids.has(c.id))` */
  function Without(cs: seq<FolderChild>, ids: set<Id>): (r: seq<FolderChild>)
    ensures forall c :: c in r <==> c in cs && c.id !in ids
  {
    if cs == [] then []
    else
      assert cs == cs[..|cs| - 1] + [cs[|cs| - 1]];
      var rest := Without(cs[..|cs| - 1], ids);
      if cs[|cs| - 1].id in ids then rest else rest + [cs[|cs| - 1]]
  }

  lemma {:induction false} SelectKeepsUnique(cs: seq<FolderChild>, ids: set<Id>)
    ensures UniqueIds(cs) ==> UniqueIds(Select(cs, ids))
    ensures UniqueNames(cs) ==> UniqueNames(Select(cs, ids))
  {
    if cs != [] {
      var init, last := cs[..|cs| - 1], cs[|cs| - 1];
      SelectKeepsUnique(init, ids);
      LastOf(Select(init, ids), last);
    }
  }

  lemma {:induction false} WithoutKeepsUnique(cs: seq<FolderChild>, ids: set<Id>)
    ensures UniqueIds(cs) ==> UniqueIds(Without(cs, ids))
    ensures UniqueNames(cs) ==> UniqueNames(Without(cs, ids))
  {
    if cs != [] {
      var init, last := cs[..|cs| - 1], cs[|cs| - 1];
      WithoutKeepsUnique(init, ids);
      LastOf(Without(init, ids), last);
    }
  }

  lemma LastOf(init: seq<FolderChild>, last: FolderChild)
    ensures UniqueIds(init + [last]) <==> UniqueIds(init) && !HasId(init, last.id)
    ensures UniqueNames(init + [last]) <==> UniqueNames(init) && !HasName(init, last.name)
  {
    var cs := init + [last];
    assert cs[..|cs| - 1] == init && cs[|cs| - 1] == last;
  }

  lemma {:induction false} AppendKeepsUnique(cs: seq<FolderChild>, more: seq<FolderChild>)
    ensures UniqueIds(cs) && UniqueIds(more) && (forall c | c in more :: !HasId(cs, c.id)) ==> UniqueIds(cs + more)
    ensures UniqueNames(cs) && UniqueNames(more) && (forall c | c in more :: !HasName(cs, c.name)) ==>
      UniqueNames(cs + more)
  {
    if more == [] {
      assert cs + more == cs;
    } else {
      var init, last := more[..|more| - 1], more[|more| - 1];
      AppendKeepsUnique(cs, init);
      assert cs + more == cs + init + [last] && last in more;
      LastOf(cs + init, last);
    }
  }

  /** A folder state as the handlers look it up: the loaded node, or the empty root built from the vault. */
  ghost predicate StateOf(t: Table, f: FolderNode) {
    if f.id in t then f == t[f.id] else f.id == ROOT && f.parentId == None && f.children == []
  }

  /** `updateFolderChildren` */
  function SetChildren(t: Table, id: Id, cs: seq<FolderChild>): Table {
    if id in t then t[id := t[id].(children := cs, isLoaded := true)] else t
  }

  // ---------------------------------------------------------------- create

  function Created(t: Table, parent: FolderNode, child: FolderChild, node: FolderNode): Table {
    SetChildren(t, parent.id, parent.children + [child])[node.id := node]
  }

  /** An id no folder has, lists or points to; `crypto.randomUUID()` supplies one. */
  ghost predicate FreshId(t: Table, id: Id) {
    && id != ROOT
    && id !in t
    && (forall k | k in t :: t[k].parentId != Some(id))
    && (forall p {:trigger t[p]} | p in t :: !HasId(t[p].children, id))
  }

  ghost predicate NewFolder(t: Table, parent: FolderNode, child: FolderChild, node: FolderNode) {
    && StateOf(t, parent)
    && FreshId(t, child.id)
    && child.kind == Folder
    && node.id == child.id
    && node.parentId == Some(parent.id)
    && node.children == []
  }

  lemma {:induction false} CreatedEnds(
    t: Table, parent: FolderNode, child: FolderChild, node: FolderNode, c: Option<Id>, n: nat)
    requires NewFolder(t, parent, child, node) && EndsAfter(t, c, n) && c != Some(node.id)
    ensures EndsAfter(Created(t, parent, child, node), c, n)
    decreases n
  {
    if c.Some? && c.value in t {
      CreatedEnds(t, parent, child, node, t[c.value].parentId, n - 1);
    }
  }

  lemma CreatedKeepsForest(t: Table, parent: FolderNode, child: FolderChild, node: FolderNode)
    requires Forest(t) && NewFolder(t, parent, child, node)
    ensures Forest(Created(t, parent, child, node))
  {
    var t' := Created(t, parent, child, node);
    forall k | k in t'
      ensures Ends(t', Some(k))
    {
      WalkEnds(t, if k == node.id then Some(parent.id) else Some(k));
      if k == node.id {
        CreatedEnds(t, parent, child, node, Some(parent.id), Depth(t, Some(parent.id)));
        assert EndsAfter(t', Some(k), Depth(t, Some(parent.id)) + 1);
      } else {
        CreatedEnds(t, parent, child, node, Some(k), Depth(t, Some(k)));
      }
    }
    assert Agree(t') by {
      forall p, k | p in t' && k in t'
        ensures ListsFolder(t'[p].children, k) <==> t'[k].parentId == Some(p)
      {
        CreatedAgree(t, parent, child, node, p, k);
      }
    }
    forall p | p in t'
      ensures UniqueIds(t'[p].children)
    {
      if p in t {
        assert UniqueIds(t[p].children);
        AppendKeepsUnique(t[p].children, [child]);
      }
    }
    forall p, q, id | p in t' && q in t' && HasId(t'[p].children, id) && HasId(t'[q].children, id)
      ensures p == q
    {
      CreatedFrom(t, parent, child, node, p, id);
      CreatedFrom(t, parent, child, node, q, id);
    }
  }

  /** An id other than the new one was listed by the same folder before. */
  lemma CreatedFrom(t: Table, parent: FolderNode, child: FolderChild, node: FolderNode, p: Id, id: Id)
    requires NewFolder(t, parent, child, node)
    requires var t' := Created(t, parent, child, node); p in t' && HasId(t'[p].children, id)
    ensures p in t
    ensures if id == child.id then p == parent.id else HasId(t[p].children, id)
  {
  }

  lemma CreatedAgree(t: Table, parent: FolderNode, child: FolderChild, node: FolderNode, p: Id, k: Id)
    requires Agree(t) && NewFolder(t, parent, child, node)
    requires var t' := Created(t, parent, child, node); p in t' && k in t'
    ensures var t' := Created(t, parent, child, node); ListsFolder(t'[p].children, k) <==> t'[k].parentId == Some(p)
  {
    var t' := Created(t, parent, child, node);
    if p in t && k in t {
      assert ListsFolder(t[p].children, k) <==> t[k].parentId == Some(p);
    }
    if p == parent.id && p in t {
      assert t'[p].children == parent.children + [child];
      assert child in t'[p].children;
      assert forall c :: c in t'[p].children <==> c in t[p].children || c == child;
    }
  }

  /** Creating below a folder that is not yet at the limit keeps every folder within it. */
  lemma CreatedKeepsDepth(t: Table, parent: FolderNode, child: FolderChild, node: FolderNode)
    requires Forest(t) && DepthOk(t) && NewFolder(t, parent, child, node)
    requires Ends(t, Some(parent.id)) && Depth(t, Some(parent.id)) < MAX_FOLDER_DEPTH
    ensures DepthOk(Created(t, parent, child, node))
  {
    var t' := Created(t, parent, child, node);
    forall k, n: nat | k in t' && EndsAfter(t', Some(k), n)
      ensures n <= MAX_FOLDER_DEPTH
    {
      WalkEnds(t, if k == node.id then Some(parent.id) else Some(k));
      if k == node.id {
        CreatedEnds(t, parent, child, node, Some(parent.id), Depth(t, Some(parent.id)));
        EndsOnce(t', Some(parent.id), Depth(t, Some(parent.id)), n - 1);
      } else {
        CreatedEnds(t, parent, child, node, Some(k), Depth(t, Some(k)));
        EndsOnce(t', Some(k), Depth(t, Some(k)), n);
      }
    }
  }

  // ---------------------------------------------------------------- move

  /** `setFolder({ ...movedFolder, parentId: dest })` for each moved folder that is loaded. */
  function Reparent(t: Table, moved: set<Id>, dest: Id): Table {
    map k | k in t :: if k in moved then t[k].(parentId := Some(dest)) else t[k]
  }

  /** The loaded folders among the children of `source` with the given ids. */
  function MovedFolders(t: Table, source: FolderNode, ids: set<Id>): set<Id> {
    set c | c in source.children && c.id in ids && c.kind == Folder && c.id in t :: c.id
  }

  function Moved(t: Table, source: FolderNode, dest: FolderNode, ids: set<Id>): Table {
    SetChildren(
      SetChildren(Reparent(t, MovedFolders(t, source, ids), dest.id), source.id, Without(source.children, ids)),
      dest.id,
      dest.children + Select(source.children, ids))
  }

  /** The cycle check of every moved folder passed. */
  ghost predicate NotIntoItself(t: Table, source: FolderNode, dest: FolderNode, ids: set<Id>) {
    forall c | c in source.children && c.id in ids && c.kind == Folder :: !IsBelow(t, dest.id, c.id)
  }

  /** The depth check of every moved folder passed. */
  ghost predicate NotTooDeep(t: Table, source: FolderNode, dest: FolderNode, ids: set<Id>)
    requires Tree(t) && Ends(t, Some(dest.id))
  {
    forall c | c in source.children && c.id in ids && c.kind == Folder ::
      Depth(t, Some(dest.id)) + 1 + SubtreeDepth(t, c.id) <= MAX_FOLDER_DEPTH
  }

  ghost predicate ParentsMoved(t: Table, t': Table, moved: set<Id>, dest: Id) {
    && t'.Keys == t.Keys
    && forall k | k in t :: t'[k].parentId == if k in moved then Some(dest) else t[k].parentId
  }

  /** A walk that meets no moved folder is the same before and after. */
  lemma {:induction false} WalkAvoids(t: Table, t': Table, moved: set<Id>, dest: Id, c: Option<Id>, n: nat)
    requires ParentsMoved(t, t', moved, dest) && EndsAfter(t, c, n)
    requires forall m: nat :: Up(t, c, m).Some? ==> Up(t, c, m).value !in moved
    ensures EndsAfter(t', c, n)
    decreases n
  {
    if c.Some? && c.value in t {
      assert Up(t, c, 0) == c;
      forall m: nat
        ensures Up(t, t[c.value].parentId, m) == Up(t, c, m + 1)
      {
      }
      WalkAvoids(t, t', moved, dest, t[c.value].parentId, n - 1);
    }
  }

  ghost predicate Meets(t: Table, c: Option<Id>, moved: set<Id>, m: nat) {
    Up(t, c, m).Some? && Up(t, c, m).value in moved
  }

  /** Any other walk goes on from the destination once it meets a moved folder. */
  lemma {:induction false} WalkMoved(
    t: Table, t': Table, moved: set<Id>, dest: Id, dd: nat, c: Option<Id>, n: nat)
    returns (n': nat)
    requires ParentsMoved(t, t', moved, dest) && EndsAfter(t, c, n) && EndsAfter(t', Some(dest), dd)
    ensures EndsAfter(t', c, n')
    ensures n' == n || exists m: nat :: Meets(t, c, moved, m) && n' == m + 1 + dd
    decreases n
  {
    if c.Some? && c.value in t {
      if c.value in moved {
        n' := dd + 1;
        assert Meets(t, c, moved, 0);
      } else {
        var up := t[c.value].parentId;
        n' := WalkMoved(t, t', moved, dest, dd, up, n - 1);
        if n' != n - 1 {
          var m: nat :| Meets(t, up, moved, m) && n' == m + 1 + dd;
          assert Meets(t, c, moved, m + 1);
        }
        n' := n' + 1;
      }
    } else {
      n' := 0;
    }
  }

  lemma DestinationKeeps(t: Table, source: FolderNode, dest: FolderNode, ids: set<Id>, dd: nat)
    requires NotIntoItself(t, source, dest, ids) && EndsAfter(t, Some(dest.id), dd)
    ensures ParentsMoved(t, Moved(t, source, dest, ids), MovedFolders(t, source, ids), dest.id)
    ensures EndsAfter(Moved(t, source, dest, ids), Some(dest.id), dd)
  {
    var moved := MovedFolders(t, source, ids);
    forall m: nat | Up(t, Some(dest.id), m).Some?
      ensures Up(t, Some(dest.id), m).value !in moved
    {
      assert IsBelow(t, dest.id, Up(t, Some(dest.id), m).value);
    }
    WalkAvoids(t, Moved(t, source, dest, ids), moved, dest.id, Some(dest.id), dd);
  }

  /** A move that passed the cycle check leaves every parent walk finite. */
  lemma MovedKeepsAcyclic(t: Table, source: FolderNode, dest: FolderNode, ids: set<Id>)
    requires Acyclic(t) && NotIntoItself(t, source, dest, ids)
    ensures Acyclic(Moved(t, source, dest, ids))
  {
    var t' := Moved(t, source, dest, ids);
    WalkEnds(t, Some(dest.id));
    var dd := Depth(t, Some(dest.id));
    DestinationKeeps(t, source, dest, ids, dd);
    forall k | k in t'
      ensures Ends(t', Some(k))
    {
      WalkEnds(t, Some(k));
      var n' := WalkMoved(t, t', MovedFolders(t, source, ids), dest.id, dd, Some(k), Depth(t, Some(k)));
    }
  }

  /** A move that passed both checks leaves every folder within the depth limit. */
  lemma MovedKeepsDepth(t: Table, source: FolderNode, dest: FolderNode, ids: set<Id>)
    requires Tree(t) && DepthOk(t) && NotIntoItself(t, source, dest, ids)
    requires Ends(t, Some(dest.id)) && NotTooDeep(t, source, dest, ids)
    ensures DepthOk(Moved(t, source, dest, ids))
  {
    var t', moved := Moved(t, source, dest, ids), MovedFolders(t, source, ids);
    var dd := Depth(t, Some(dest.id));
    DestinationKeeps(t, source, dest, ids, dd);
    forall k, n: nat | k in t' && EndsAfter(t', Some(k), n)
      ensures n <= MAX_FOLDER_DEPTH
    {
      WalkEnds(t, Some(k));
      var d := Depth(t, Some(k));
      var n' := WalkMoved(t, t', moved, dest.id, dd, Some(k), d);
      EndsOnce(t', Some(k), n, n');
      if n' != d {
        var m: nat :| Meets(t, Some(k), moved, m) && n' == m + 1 + dd;
        SubtreeDepthCovers(t, Up(t, Some(k), m).value, k, m);
      }
    }
  }

  /** The two representations still agree on every pair of loaded folders. */
  lemma MovedAgree(t: Table, source: FolderNode, dest: FolderNode, ids: set<Id>, p: Id, k: Id)
    requires Agree(t) && StateOf(t, source) && StateOf(t, dest) && source.id != dest.id
    requires p in t && k in t
    ensures var t' := Moved(t, source, dest, ids); ListsFolder(t'[p].children, k) <==> t'[k].parentId == Some(p)
  {
    assert ListsFolder(t[p].children, k) <==> t[k].parentId == Some(p);
    if source.id in t {
      assert ListsFolder(source.children, k) <==> t[k].parentId == Some(source.id);
    }
    var t' := Moved(t, source, dest, ids);
    if p == dest.id {
      assert t'[p].children == dest.children + Select(source.children, ids);
      assert forall c :: c in t'[p].children <==> c in dest.children || (c in source.children && c.id in ids);
    }
  }

  lemma MovedKeepsForest(t: Table, source: FolderNode, dest: FolderNode, ids: set<Id>)
    requires Forest(t) && StateOf(t, source) && StateOf(t, dest) && source.id != dest.id
    requires NotIntoItself(t, source, dest, ids)
    ensures Forest(Moved(t, source, dest, ids))
  {
    var t' := Moved(t, source, dest, ids);
    MovedKeepsAcyclic(t, source, dest, ids);
    forall p, k | p in t' && k in t'
      ensures ListsFolder(t'[p].children, k) <==> t'[k].parentId == Some(p)
    {
      MovedAgree(t, source, dest, ids, p, k);
    }
    if ROOT in MovedFolders(t, source, ids) {
      assert ListsFolder(t[source.id].children, ROOT);
    }
    MovedListedOnce(t, source, dest, ids);
  }

  /** The folder that listed an id before the move. */
  lemma MovedFrom(t: Table, source: FolderNode, dest: FolderNode, ids: set<Id>, p: Id, id: Id) returns (p0: Id)
    requires StateOf(t, source) && StateOf(t, dest) && source.id != dest.id
    requires p in t && HasId(Moved(t, source, dest, ids)[p].children, id)
    ensures p0 in t && HasId(t[p0].children, id)
    ensures p == if p0 == source.id && id in ids then dest.id else p0
  {
    var t' := Moved(t, source, dest, ids);
    p0 := p;
    if p == dest.id {
      assert t'[p].children == dest.children + Select(source.children, ids);
      if !HasId(dest.children, id) {
        p0 := source.id;
      }
    }
  }

  lemma MovedUniqueIds(t: Table, source: FolderNode, dest: FolderNode, ids: set<Id>, p: Id)
    requires ListedOnce(t) && StateOf(t, source) && StateOf(t, dest) && source.id != dest.id && p in t
    ensures UniqueIds(Moved(t, source, dest, ids)[p].children)
  {
    assert UniqueIds(t[p].children) && (source.id in t ==> UniqueIds(t[source.id].children));
    SelectKeepsUnique(source.children, ids);
    WithoutKeepsUnique(source.children, ids);
    if p == dest.id {
      var more := Select(source.children, ids);
      forall c | c in more
        ensures !HasId(dest.children, c.id)
      {
        assert HasId(t[source.id].children, c.id);
        assert HasId(t[dest.id].children, c.id) ==> source.id == dest.id;
      }
      AppendKeepsUnique(dest.children, more);
    }
  }

  lemma MovedListedOnce(t: Table, source: FolderNode, dest: FolderNode, ids: set<Id>)
    requires ListedOnce(t) && StateOf(t, source) && StateOf(t, dest) && source.id != dest.id
    ensures ListedOnce(Moved(t, source, dest, ids))
  {
    var t' := Moved(t, source, dest, ids);
    forall p | p in t'
      ensures UniqueIds(t'[p].children)
    {
      MovedUniqueIds(t, source, dest, ids, p);
    }
    forall p, q, id | p in t' && q in t' && HasId(t'[p].children, id) && HasId(t'[q].children, id)
      ensures p == q
    {
      var p0 := MovedFrom(t, source, dest, ids, p, id);
      var q0 := MovedFrom(t, source, dest, ids, q, id);
    }
  }

  // ---------------------------------------------------------------- delete

  function Removed(t: Table, parent: FolderNode, ids: set<Id>, gone: set<Id>): Table {
    SetChildren(t, parent.id, Without(parent.children, ids)) - gone
  }

  lemma {:induction false} RemovedEnds(t: Table, t': Table, c: Option<Id>, n: nat) returns (n': nat)
    requires t'.Keys <= t.Keys && (forall k | k in t' :: t'[k].parentId == t[k].parentId)
    requires EndsAfter(t, c, n)
    ensures n' <= n && EndsAfter(t', c, n')
    decreases n
  {
    if c.Some? && c.value in t' {
      n' := RemovedEnds(t, t', t[c.value].parentId, n - 1);
      n' := n' + 1;
    } else {
      n' := 0;
    }
  }

  /** Dropping any set of folders shortens parent walks and never lengthens one. */
  lemma RemovedKeepsDepth(t: Table, parent: FolderNode, ids: set<Id>, gone: set<Id>)
    requires Acyclic(t)
    ensures Acyclic(Removed(t, parent, ids, gone))
    ensures DepthOk(t) ==> DepthOk(Removed(t, parent, ids, gone))
  {
    var t' := Removed(t, parent, ids, gone);
    forall k | k in t'
      ensures Ends(t', Some(k))
      ensures DepthOk(t) ==> forall n: nat :: EndsAfter(t', Some(k), n) ==> n <= MAX_FOLDER_DEPTH
    {
      WalkEnds(t, Some(k));
      var n' := RemovedEnds(t, t', Some(k), Depth(t, Some(k)));
      forall n: nat | EndsAfter(t', Some(k), n)
        ensures n == n'
      {
        EndsOnce(t', Some(k), n, n');
      }
    }
  }

  /** No subfolder is dropped from its parent's list while it stays in the table. */
  ghost predicate NoneUnlisted(t: Table, parent: FolderNode, ids: set<Id>, gone: set<Id>) {
    parent.id in t - gone ==>
      forall k | k in t - gone && k in ids :: !ListsFolder(parent.children, k)
  }

  lemma RemovedAgree(t: Table, parent: FolderNode, ids: set<Id>, gone: set<Id>, p: Id, k: Id)
    requires Agree(t) && StateOf(t, parent) && p in t - gone && k in t - gone
    ensures var t' := Removed(t, parent, ids, gone);
      (ListsFolder(t'[p].children, k) <==> t'[k].parentId == Some(p))
      <==> !(p == parent.id && k in ids && ListsFolder(parent.children, k))
  {
    assert ListsFolder(t[p].children, k) <==> t[k].parentId == Some(p);
    var t' := Removed(t, parent, ids, gone);
    if p == parent.id {
      assert t'[p].children == Without(parent.children, ids);
      assert forall c :: c in t'[p].children <==> c in parent.children && c.id !in ids;
    }
  }

  /** A delete keeps the forest exactly when no surviving loaded subfolder loses its list entry. */
  lemma RemovedForestIff(t: Table, parent: FolderNode, ids: set<Id>, gone: set<Id>)
    requires Forest(t) && StateOf(t, parent)
    ensures Forest(Removed(t, parent, ids, gone)) <==> NoneUnlisted(t, parent, ids, gone)
  {
    var t' := Removed(t, parent, ids, gone);
    RemovedKeepsDepth(t, parent, ids, gone);
    if NoneUnlisted(t, parent, ids, gone) {
      forall p, k | p in t' && k in t'
        ensures ListsFolder(t'[p].children, k) <==> t'[k].parentId == Some(p)
      {
        RemovedAgree(t, parent, ids, gone, p, k);
      }
      forall p | p in t'
        ensures UniqueIds(t'[p].children)
      {
        assert UniqueIds(t[p].children);
        WithoutKeepsUnique(t[p].children, ids);
      }
      forall p, q, id | p in t' && q in t' && HasId(t'[p].children, id) && HasId(t'[q].children, id)
        ensures p == q
      {
        assert HasId(t[p].children, id) && HasId(t[q].children, id);
      }
    } else {
      var k :| k in t - gone && k in ids && ListsFolder(parent.children, k);
      RemovedAgree(t, parent, ids, gone, parent.id, k);
    }
  }
}
