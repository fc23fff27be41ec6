/** The walks of the folder service, as the loops and recursions the service runs. */
module FolderService {
  import opened Common
  import opened FolderTree

  method GetDepth(folderId: Option<Id>, folders: Table) returns (depth: nat)
    requires Acyclic(folders)
    ensures EndsAfter(folders, folderId, depth)
  {
    WalkEnds(folders, folderId);
    ghost var total := Depth(folders, folderId);
    depth := 0;
    var currentId := folderId;
    while currentId.Some?
      invariant depth <= total && EndsAfter(folders, currentId, total - depth)
      decreases total - depth, if currentId.Some? then 1 else 0
    {
      if currentId.value !in folders {
        break;
      }
      depth := depth + 1;
      currentId := folders[currentId.value].parentId;
    }
  }

  method IsDescendantOf(folderId: Id, potentialAncestorId: Id, folders: Table) returns (r: bool)
    requires Acyclic(folders)
    ensures r <==> IsBelow(folders, folderId, potentialAncestorId)
  {
    WalkEnds(folders, Some(folderId));
    ghost var total := Depth(folders, Some(folderId));
    ghost var i: nat := 0;
    var currentId := Some(folderId);
    while currentId.Some?
      invariant Up(folders, Some(folderId), i) == currentId
      invariant forall j: nat | j < i :: Up(folders, Some(folderId), j) != Some(potentialAncestorId)
      decreases total + 1 - i
    {
      EndsFurtherUp(folders, Some(folderId), total, i);
      if currentId.value == potentialAncestorId {
        return true;
      }
      UpAdd(folders, Some(folderId), i, 1);
      currentId := if currentId.value in folders then folders[currentId.value].parentId else None;
      i := i + 1;
    }
    forall n: nat
      ensures Up(folders, Some(folderId), n) != Some(potentialAncestorId)
    {
      if n >= i {
        UpAdd(folders, Some(folderId), i, n - i);
      }
    }
    return false;
  }

  method CalculateSubtreeDepth(folderId: Id, folders: Table) returns (maxChildDepth: nat)
    requires Tree(folders)
    ensures maxChildDepth == SubtreeDepth(folders, folderId)
    decreases DownMeasure(folders, folderId)
  {
    if folderId !in folders {
      return 0;
    }
    var children := folders[folderId].children;
    maxChildDepth := 0;
    for i := 0 to |children|
      invariant maxChildDepth == ChildrenDepth(folders, folderId, i)
    {
      if children[i].kind == Folder {
        DownMeasureShrinks(folders, folderId, children[i]);
        var d := CalculateSubtreeDepth(children[i].id, folders);
        maxChildDepth := Max(maxChildDepth, 1 + d);
      }
    }
  }

  /** Of the loaded folders, the recursion pushes exactly those below folderId. */
  method CollectFolderIds(folderId: Id, folders: Table, pushed: seq<Id>) returns (ids: seq<Id>)
    requires Tree(folders)
    ensures pushed <= ids && folderId in ids
    ensures forall k | k in folders :: k in ids <==> k in pushed || k in DownMeasure(folders, folderId)
    decreases DownMeasure(folders, folderId)
  {
    ids := pushed + [folderId];
    if folderId !in folders {
      return;
    }
    assert Up(folders, Some(folderId), 0) == Some(folderId);
    assert folderId in Below(folders, folderId);
    var children := folders[folderId].children;
    ghost var seen: set<Id> := {};
    for i := 0 to |children|
      invariant pushed + [folderId] <= ids
      invariant forall k | k in folders ::
          k in ids <==> k in pushed || k == folderId || exists c ::
            c in children[..i] && c.kind == Folder && k in DownMeasure(folders, c.id)
    {
      assert children[..i + 1] == children[..i] + [children[i]];
      if children[i].kind == Folder {
        DownMeasureShrinks(folders, folderId, children[i]);
        ids := CollectFolderIds(children[i].id, folders, ids);
      }
    }
    assert children[..|children|] == children;
    forall k | k in folders
      ensures k in ids <==> k in pushed || k in Below(folders, folderId)
    {
      BelowByChild(folders, folderId, k);
    }
  }

  /** A loaded folder is below id when it is id or below one of the subfolders id lists. */
  lemma BelowByChild(t: Table, id: Id, k: Id)
    requires Tree(t) && id in t && k in t
    ensures k in Below(t, id) <==>
      k == id || exists c :: c in t[id].children && c.kind == Folder && k in DownMeasure(t, c.id)
  {
    assert Up(t, Some(id), 0) == Some(id);
    if k in Below(t, id) && k != id {
      var n: nat :| Up(t, Some(k), n) == Some(id);
      UpAdd(t, Some(k), n - 1, 1);
      var cid := Up(t, Some(k), n - 1).value;
      assert ListsFolder(t[id].children, cid);
      var c :| c in t[id].children && c.kind == Folder && c.id == cid;
      assert k in Below(t, cid);
    }
    forall c | c in t[id].children && c.kind == Folder && k in DownMeasure(t, c.id)
      ensures k in Below(t, id)
    {
      DownMeasureShrinks(t, id, c);
    }
  }
}
