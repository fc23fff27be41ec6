/**
 The in-memory folder table and the two ways the application walks it: parent
 pointers (`getDepth`, `isDescendantOf`) and child lists
 (`calculateSubtreeDepth`, `collectFolderIds`).
 */
module FolderTree {
  import opened Common

  type Id = string

  const ROOT: Id := "root"
  const MAX_FOLDER_DEPTH: nat := 20

  datatype Kind = File | Folder

  datatype FolderChild = FolderChild(kind: Kind, id: Id, name: string, ipnsName: string)

  datatype FolderNode = FolderNode(
    id: Id,
    parentId: Option<Id>,
    children: seq<FolderChild>,
    isLoaded: bool,
    folderKey: array<byte>,
    ipnsPrivateKey: array<byte>
  )

  type Table = map<Id, FolderNode>

  // ---------------------------------------------------------------- walking up

  /** The id reached after n parent steps; a walk leaves the table at a missing folder. */
  function Up(t: Table, c: Option<Id>, n: nat): Option<Id>
    decreases n
  {
    if n == 0 then c
    else if c.Some? && c.value in t then Up(t, t[c.value].parentId, n - 1)
    else None
  }

  /** The parent walk from c visits exactly n loaded folders and then leaves the table. */
  ghost predicate EndsAfter(t: Table, c: Option<Id>, n: nat)
    decreases n
  {
    if c.Some? && c.value in t then n > 0 && EndsAfter(t, t[c.value].parentId, n - 1) else n == 0
  }

  ghost predicate Ends(t: Table, c: Option<Id>) {
    exists n: nat :: EndsAfter(t, c, n)
  }

  /** The number of loaded folders on the parent walk from c. */
  ghost function Depth(t: Table, c: Option<Id>): (n: nat)
    requires Ends(t, c)
    ensures EndsAfter(t, c, n)
  {
    var n: nat :| EndsAfter(t, c, n);
    n
  }

  /** k is the folder id itself or a loaded folder whose parent walk meets id. */
  ghost predicate IsBelow(t: Table, k: Id, id: Id) {
    exists n: nat :: Up(t, Some(k), n) == Some(id)
  }

  ghost function Below(t: Table, id: Id): set<Id> {
    set k | k in t && IsBelow(t, k, id)
  }

  lemma {:induction false} UpAdd(t: Table, c: Option<Id>, m: nat, n: nat)
    ensures Up(t, Up(t, c, m), n) == Up(t, c, m + n)
    decreases m
  {
    if m == 0 {
    } else if c.Some? && c.value in t {
      UpAdd(t, t[c.value].parentId, m - 1, n);
    } else {
    }
  }

  lemma {:induction false} EndsOnce(t: Table, c: Option<Id>, m: nat, n: nat)
    requires EndsAfter(t, c, m) && EndsAfter(t, c, n)
    ensures m == n
    decreases m
  {
    if c.Some? && c.value in t {
      EndsOnce(t, t[c.value].parentId, m - 1, n - 1);
    }
  }

  /** Every stop of a terminating walk terminates, with the remaining number of folders. */
  lemma {:induction false} EndsFurtherUp(t: Table, c: Option<Id>, n: nat, m: nat)
    requires EndsAfter(t, c, n) && Up(t, c, m).Some?
    ensures m <= n && EndsAfter(t, Up(t, c, m), n - m)
    decreases m
  {
    if m > 0 {
      EndsFurtherUp(t, t[c.value].parentId, n - 1, m - 1);
    }
  }

  // ---------------------------------------------------------------- the forest invariant

  ghost predicate ListsFolder(cs: seq<FolderChild>, k: Id) {
    exists c :: c in cs && c.kind == Folder && c.id == k
  }

  predicate HasId(cs: seq<FolderChild>, id: Id) {
    exists c :: c in cs && c.id == id
  }

  predicate UniqueIds(cs: seq<FolderChild>) {
    cs == [] || (!HasId(cs[..|cs| - 1], cs[|cs| - 1].id) && UniqueIds(cs[..|cs| - 1]))
  }

  ghost predicate Keyed(t: Table) {
    forall k {:trigger t[k].id} | k in t :: t[k].id == k
  }

  ghost predicate Acyclic(t: Table) {
    forall k {:trigger Ends(t, Some(k))} | k in t :: Ends(t, Some(k))
  }

  /** Child lists and parent pointers say the same about every pair of loaded folders. */
  ghost predicate Agree(t: Table) {
    forall p, k {:trigger ListsFolder(t[p].children, k)} | p in t && k in t ::
      ListsFolder(t[p].children, k) <==> t[k].parentId == Some(p)
  }

  /** No id is listed twice, in one folder or in two. */
  ghost predicate ListedOnce(t: Table) {
    && (forall p {:trigger UniqueIds(t[p].children)} | p in t :: UniqueIds(t[p].children))
    && (forall p, q, id {:trigger HasId(t[p].children, id), HasId(t[q].children, id)} | p in t && q in t ::
          HasId(t[p].children, id) && HasId(t[q].children, id) ==> p == q)
  }

  /** What every walk relies on. */
  ghost predicate Tree(t: Table) {
    Acyclic(t) && Agree(t)
  }

  ghost predicate Forest(t: Table) {
    && Keyed(t)
    && (ROOT in t ==> t[ROOT].parentId == None)
    && Tree(t)
    && ListedOnce(t)
  }

  ghost predicate DepthOk(t: Table) {
    forall k, n: nat | k in t && EndsAfter(t, Some(k), n) :: n <= MAX_FOLDER_DEPTH
  }

  lemma WalkEnds(t: Table, c: Option<Id>)
    requires Acyclic(t)
    ensures Ends(t, c)
  {
    if !(c.Some? && c.value in t) {
      assert EndsAfter(t, c, 0);
    }
  }

  /** In an acyclic table no folder is properly above itself. */
  lemma NoReturn(t: Table, k: Id, m: nat)
    requires Acyclic(t) && k in t && Up(t, Some(k), m) == Some(k)
    ensures m == 0
  {
    var n := Depth(t, Some(k));
    EndsFurtherUp(t, Some(k), n, m);
    EndsOnce(t, Some(k), n, n - m);
  }

  /** A loaded subfolder has strictly fewer folders below it: every walk down child lists stops. */
  lemma BelowShrinks(t: Table, p: Id, k: Id)
    requires Acyclic(t) && p in t && k in t && t[k].parentId == Some(p)
    ensures Below(t, k) < Below(t, p)
  {
    assert Up(t, Some(p), 0) == Some(p);
    forall x | x in Below(t, k)
      ensures x in Below(t, p)
    {
      var n: nat :| Up(t, Some(x), n) == Some(k);
      UpAdd(t, Some(x), n, 1);
      assert Up(t, Some(x), n + 1) == Some(p);
    }
    if p in Below(t, k) {
      var n: nat :| Up(t, Some(p), n) == Some(k);
      UpAdd(t, Some(p), n, 1);
      NoReturn(t, p, n + 1);
    }
  }

  // ---------------------------------------------------------------- walking down

  ghost function DownMeasure(t: Table, id: Id): set<Id> {
    if id in t then Below(t, id) else {}
  }

  lemma DownMeasureShrinks(t: Table, p: Id, c: FolderChild)
    requires Tree(t) && p in t && c in t[p].children && c.kind == Folder
    ensures DownMeasure(t, c.id) < DownMeasure(t, p)
  {
    assert Up(t, Some(p), 0) == Some(p);
    assert p in Below(t, p);
    if c.id in t {
      assert ListsFolder(t[p].children, c.id);
      BelowShrinks(t, p, c.id);
    }
  }

  /** What `calculateSubtreeDepth` computes: the longest descent along child lists. */
  ghost function SubtreeDepth(t: Table, id: Id): nat
    requires Tree(t)
    decreases DownMeasure(t, id), if id in t then |t[id].children| + 1 else 0
  {
    if id in t then ChildrenDepth(t, id, |t[id].children|) else 0
  }

  /** The same over the first n children only. */
  ghost function ChildrenDepth(t: Table, id: Id, n: nat): (d: nat)
    requires Tree(t) && id in t && n <= |t[id].children|
    decreases DownMeasure(t, id), n
  {
    if n == 0 then 0
    else
      var c := t[id].children[n - 1];
      var before := ChildrenDepth(t, id, n - 1);
      if c.kind == Folder then
        DownMeasureShrinks(t, id, c);
        Max(before, 1 + SubtreeDepth(t, c.id))
      else before
  }

  function Max(a: nat, b: nat): nat {
    if a < b then b else a
  }

  lemma {:induction false} ChildrenDepthCovers(t: Table, id: Id, n: nat, i: nat)
    requires Tree(t) && id in t && i < n <= |t[id].children| && t[id].children[i].kind == Folder
    ensures 1 + SubtreeDepth(t, t[id].children[i].id) <= ChildrenDepth(t, id, n)
    decreases n
  {
    if i < n - 1 {
      ChildrenDepthCovers(t, id, n - 1, i);
    }
  }

  /** The descent reaches at least as deep as every loaded folder whose parent walk meets id. */
  lemma {:induction false} SubtreeDepthCovers(t: Table, id: Id, k: Id, m: nat)
    requires Tree(t) && id in t && k in t && Up(t, Some(k), m) == Some(id)
    ensures m <= SubtreeDepth(t, id)
    decreases m
  {
    if m > 0 {
      UpAdd(t, Some(k), m - 1, 1);
      var c := Up(t, Some(k), m - 1).value;
      SubtreeDepthCovers(t, c, k, m - 1);
      assert ListsFolder(t[id].children, c);
      var i :| 0 <= i < |t[id].children| && t[id].children[i].kind == Folder && t[id].children[i].id == c;
      ChildrenDepthCovers(t, id, |t[id].children|, i);
    }
  }

  /** A folder in the subtree of id, m steps down, that lists at least one subfolder. */
  ghost predicate ListsAt(t: Table, id: Id, k: Id, m: nat) {
    && k in t
    && Up(t, Some(k), m) == Some(id)
    && exists c :: c in t[k].children && c.kind == Folder
  }

  /** A positive descent is reached: one step below some loaded folder of the subtree that lists a subfolder. */
  lemma {:induction false} ChildrenDepthReached(t: Table, id: Id, n: nat) returns (k: Id, m: nat)
    requires Tree(t) && id in t && n <= |t[id].children| && ChildrenDepth(t, id, n) > 0
    ensures ListsAt(t, id, k, m) && m + 1 == ChildrenDepth(t, id, n)
    decreases DownMeasure(t, id), n
  {
    var c := t[id].children[n - 1];
    if ChildrenDepth(t, id, n) == ChildrenDepth(t, id, n - 1) {
      k, m := ChildrenDepthReached(t, id, n - 1);
    } else if SubtreeDepth(t, c.id) == 0 {
      k, m := id, 0;
    } else {
      DownMeasureShrinks(t, id, c);
      k, m := ChildrenDepthReached(t, c.id, |t[c.id].children|);
      assert ListsFolder(t[id].children, c.id);
      UpAdd(t, Some(k), m, 1);
      m := m + 1;
    }
  }

  lemma {:induction false} ChildrenDepthAttained(t: Table, id: Id, n: nat)
    requires Tree(t) && id in t && n <= |t[id].children| && ChildrenDepth(t, id, n) > 0
    ensures exists i ::
      && 0 <= i < n && t[id].children[i].kind == Folder
      && ChildrenDepth(t, id, n) == 1 + SubtreeDepth(t, t[id].children[i].id)
    decreases n
  {
    var c := t[id].children[n - 1];
    if ChildrenDepth(t, id, n) == ChildrenDepth(t, id, n - 1) {
      ChildrenDepthAttained(t, id, n - 1);
    }
  }

  /** The depth is one more than that of the deepest listed subfolder, loaded or not, and 0 without one. */
  lemma SubtreeDepthIs(t: Table, id: Id)
    requires Tree(t)
    ensures id !in t ==> SubtreeDepth(t, id) == 0
    ensures id in t ==> forall c | c in t[id].children && c.kind == Folder ::
      SubtreeDepth(t, id) >= 1 + SubtreeDepth(t, c.id)
    ensures SubtreeDepth(t, id) > 0 ==>
      exists c :: c in t[id].children && c.kind == Folder && SubtreeDepth(t, id) == 1 + SubtreeDepth(t, c.id)
  {
    if id in t {
      forall c | c in t[id].children && c.kind == Folder
        ensures SubtreeDepth(t, id) >= 1 + SubtreeDepth(t, c.id)
      {
        var i :| 0 <= i < |t[id].children| && t[id].children[i] == c;
        ChildrenDepthCovers(t, id, |t[id].children|, i);
      }
      if SubtreeDepth(t, id) > 0 {
        ChildrenDepthAttained(t, id, |t[id].children|);
        var i :| 0 <= i < |t[id].children| && t[id].children[i].kind == Folder
          && SubtreeDepth(t, id) == 1 + SubtreeDepth(t, t[id].children[i].id);
        assert t[id].children[i] in t[id].children;
      }
    }
  }

  /**
   The descent equals the largest parent-walk distance to id when every subfolder
   listed inside the subtree is itself loaded.
   */
  lemma SubtreeDepthExact(t: Table, id: Id) returns (k: Id)
    requires Tree(t) && id in t
    requires forall p, c | p in Below(t, id) && c in t[p].children && c.kind == Folder :: c.id in t
    ensures k in t && Up(t, Some(k), SubtreeDepth(t, id)) == Some(id)
    ensures forall j, m: nat | j in t && Up(t, Some(j), m) == Some(id) :: m <= SubtreeDepth(t, id)
  {
    forall j, m: nat | j in t && Up(t, Some(j), m) == Some(id)
      ensures m <= SubtreeDepth(t, id)
    {
      SubtreeDepthCovers(t, id, j, m);
    }
    if SubtreeDepth(t, id) == 0 {
      k := id;
    } else {
      var p, m := ChildrenDepthReached(t, id, |t[id].children|);
      assert p in Below(t, id);
      var c :| c in t[p].children && c.kind == Folder;
      assert ListsFolder(t[p].children, c.id);
      k := c.id;
    }
  }
}
