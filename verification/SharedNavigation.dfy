/** Browsing a folder shared with the user: a stack of open folders whose decrypted keys live in mutable buffers. */
module SharedNavigation {
  import opened Common
  import FolderTree

  datatype View = ListView | FolderView

  datatype Crumb = Crumb(id: string, name: string)

  /** A folder left open below the current one. */
  datatype StackEntry = StackEntry(crumb: Crumb, children: seq<FolderTree.FolderChild>, key: array<byte>)

  /** What an unfinished `navigateToSubfolder` captured when it was called. */
  datatype Pending = Pending(target: Crumb, crumb: Crumb, children: seq<FolderTree.FolderChild>, key: array<byte>)

  /** One open folder: its breadcrumb, its listing and the contents of its key. */
  datatype Level = Level(crumb: Crumb, children: seq<FolderTree.FolderChild>, key: seq<byte>)

  // ---------------------------------------------------------------- navigation on values

  function CloseLast(levels: seq<Level>): seq<Level> {
    if levels == [] then [] else levels[..|levels| - 1]
  }

  function JumpTo(levels: seq<Level>, crumbIndex: nat): seq<Level> {
    if crumbIndex + 1 < |levels| then levels[..crumbIndex + 1] else levels
  }

  function CloseTimes(levels: seq<Level>, n: nat): seq<Level> {
    if n == 0 then levels else CloseTimes(CloseLast(levels), n - 1)
  }

  /** Jumping to a breadcrumb is going up once for every breadcrumb behind it. */
  lemma {:induction false} JumpIsRepeatedUp(levels: seq<Level>, crumbIndex: nat)
    requires crumbIndex < |levels|
    ensures JumpTo(levels, crumbIndex) == CloseTimes(levels, |levels| - 1 - crumbIndex)
    decreases |levels|
  {
    if crumbIndex + 1 < |levels| {
      JumpIsRepeatedUp(CloseLast(levels), crumbIndex);
      assert CloseLast(levels)[..crumbIndex + 1] == levels[..crumbIndex + 1];
    }
  }

  // ---------------------------------------------------------------- the hook's state

  predicate InStack(stack: seq<StackEntry>, key: array<byte>) {
    exists j :: 0 <= j < |stack| && stack[j].key == key
  }

  predicate HasFolder(children: seq<FolderTree.FolderChild>, id: string) {
    exists c :: c in children && c.kind.Folder? && c.id == id
  }

  /** The subfolder is listed in the captured folder and its own listing was decrypted. */
  predicate Enters(p: Pending, listing: Option<seq<FolderTree.FolderChild>>) {
    HasFolder(p.children, p.target.id) && listing.Some?
  }

  class Navigation {
    var view: View
    var shareId: Option<string>
    var children: seq<FolderTree.FolderChild>
    var folderKey: array?<byte>
    var breadcrumbs: seq<Crumb>
    var navStack: seq<StackEntry>
    /** Calls of `navigateToSubfolder` still waiting for the network. */
    var inFlight: seq<Pending>
    /** Every key buffer this hook ever unwrapped. */
    ghost var keys: set<array<byte>>
    /** The open folders, outermost first. */
    ghost var levels: seq<Level>

    predicate Live(key: array<byte>)
      reads this
    {
      folderKey == key || InStack(navStack, key)
    }

    /** The first |navStack| levels are on the stack, in distinct known buffers. */
    ghost predicate Stacked()
      reads this, keys
    {
      && |navStack| <= |levels|
      && (forall j | 0 <= j < |navStack| ::
            && navStack[j].key in keys
            && levels[j] == Level(navStack[j].crumb, navStack[j].children, navStack[j].key[..]))
      && (forall i, j | 0 <= i < j < |navStack| :: navStack[i].key != navStack[j].key)
    }

    /** Every buffer is zero unless it is the current key or on the stack. */
    ghost predicate DroppedAreZero(current: array?<byte>)
      reads this, keys
    {
      forall b | b in keys :: b == current || InStack(navStack, b) || AllZero(b[..])
    }

    ghost predicate Current()
      reads this, keys
    {
      var n := |navStack|;
      if folderKey == null then
        view.ListView? && shareId.None? && n == 0 && breadcrumbs == [] && children == [] && levels == []
      else
        && view.FolderView? && shareId.Some?
        && folderKey in keys && !InStack(navStack, folderKey)
        && |breadcrumbs| == n + 1 == |levels|
        && (forall j | 0 <= j < n :: navStack[j].crumb == breadcrumbs[j])
        && levels[n] == Level(breadcrumbs[n], children, folderKey[..])
    }

    /** As long as the captured key buffer is live, the rest of the captured state still belongs to it. */
    ghost predicate PendingFollow(current: array?<byte>, crumb: Crumb)
      reads this
    {
      forall p | p in inFlight ::
        && p.key in keys
        && (p.key == current ==> p.crumb == crumb && p.children == children)
        && (forall j | 0 <= j < |navStack| && navStack[j].key == p.key ::
          p.crumb == navStack[j].crumb && p.children == navStack[j].children)
    }

    /** The stack is one shorter than the breadcrumbs, all live buffers differ, and every other buffer is zero. */
    ghost predicate Valid()
      reads this, keys
    {
      && Stacked() && Current() && DroppedAreZero(folderKey)
      && (folderKey != null ==> PendingFollow(folderKey, breadcrumbs[|navStack|]))
      && (forall p | p in inFlight :: p.key in keys)
    }

    constructor ()
      ensures Valid() && levels == [] && keys == {} && inFlight == []
    {
      view, shareId, children, folderKey, breadcrumbs, navStack := ListView, None, [], null, [], [];
      inFlight, keys, levels := [], {}, [];
    }

    /** Show the list; every key buffer is zeroed first. */
    method NavigateToRoot()
      requires Valid()
      modifies this, keys
      ensures Valid() && levels == [] && keys == old(keys) && inFlight == old(inFlight)
      ensures forall b | b in keys :: AllZero(b[..])
    {
      if folderKey != null {
        FillZero(folderKey);
      }
      ZeroStack();
      view, shareId, children, folderKey, breadcrumbs, navStack := ListView, None, [], null, [], [];
      levels := [];
    }

    /** Zero the key of every stack entry. */
    method ZeroStack()
      requires forall j | 0 <= j < |navStack| :: navStack[j].key in keys
      requires forall b | b in keys :: InStack(navStack, b) || AllZero(b[..])
      modifies keys
      ensures forall b | b in keys :: AllZero(b[..])
    {
      for i := 0 to |navStack|
        invariant forall b | b in keys :: InStack(navStack[i..], b) || AllZero(b[..])
      {
        FillZero(navStack[i].key);
        forall b | b in keys && b != navStack[i].key && InStack(navStack[i..], b)
          ensures InStack(navStack[i + 1..], b)
        {
          var j :| 0 <= j < |navStack[i..]| && navStack[i..][j].key == b;
          assert navStack[i + 1..][j - 1].key == b;
        }
      }
    }

    /** Drop the stack's last entry after zeroing its key. */
    method ZeroLast()
      requires Stacked() && DroppedAreZero(null) && navStack != []
      modifies this, keys
      ensures Stacked() && DroppedAreZero(null) && navStack == old(navStack)[..|old(navStack)| - 1]
      ensures view == old(view) && shareId == old(shareId)
      ensures breadcrumbs == old(breadcrumbs) && children == old(children)
      ensures folderKey == old(folderKey) && inFlight == old(inFlight) && keys == old(keys) && levels == old(levels)
    {
      var n := |navStack| - 1;
      var entry := navStack[n];
      navStack := navStack[..n];
      FillZero(entry.key);
      forall b | b in keys
        ensures InStack(navStack, b) || AllZero(b[..])
      {
        if b != entry.key && InStack(old(navStack), b) {
          var j :| 0 <= j <= n && old(navStack)[j].key == b;
          assert navStack[j].key == b;
        }
      }
    }

    /** Show the folder of the stack's last entry again. */
    method RestoreLast()
      requires Stacked() && DroppedAreZero(null) && navStack != []
      requires view.FolderView? && shareId.Some? && |breadcrumbs| == |navStack| == |levels|
      requires forall j | 0 <= j < |navStack| :: navStack[j].crumb == breadcrumbs[j]
      requires PendingFollow(null, Crumb("", ""))
      modifies this
      ensures Valid()
      ensures navStack == old(navStack)[..|old(navStack)| - 1] && folderKey == old(navStack)[|old(navStack)| - 1].key
      ensures view == old(view) && shareId == old(shareId) && breadcrumbs == old(breadcrumbs)
      ensures inFlight == old(inFlight) && keys == old(keys) && levels == old(levels)
    {
      var n := |navStack| - 1;
      var target := navStack[n];
      navStack := navStack[..n];
      children, folderKey := target.children, target.key;
      forall b | b in keys
        ensures b == folderKey || InStack(navStack, b) || AllZero(b[..])
      {
        if b != target.key && InStack(old(navStack), b) {
          var j :| 0 <= j <= n && old(navStack)[j].key == b;
          assert navStack[j].key == b;
        }
      }
    }

    /** Close the current folder: its key is zeroed and the folder below is shown again, or the list. */
    method NavigateUp()
      requires Valid()
      modifies this, keys
      ensures Valid() && levels == CloseLast(old(levels)) && keys == old(keys) && inFlight == old(inFlight)
      ensures old(navStack) != [] ==>
        navStack == old(navStack)[..|old(navStack)| - 1] && folderKey == old(navStack)[|old(navStack)| - 1].key
      ensures levels != [] ==> shareId == old(shareId)
      ensures old(levels) != [] ==> levels == old(levels)[..|old(levels)| - 1]
      ensures |old(levels)| == 1 ==> view.ListView? && folderKey == null
    {
      if |navStack| > 0 {
        ZeroCurrent();
        breadcrumbs := breadcrumbs[..|breadcrumbs| - 1];
        levels := levels[..|levels| - 1];
        RestoreLast();
      } else if view.FolderView? {
        NavigateToRoot();
      }
    }

    /** Zero the current key, leaving only the stack's buffers unzeroed. */
    method ZeroCurrent()
      requires Valid() && folderKey != null
      modifies keys
      ensures Stacked() && DroppedAreZero(null) && PendingFollow(null, Crumb("", ""))
      ensures AllZero(folderKey[..])
    {
      FillZero(folderKey);
    }

    /** Zero and drop up to n stack entries, the last ones first. */
    method DiscardLast(n: int)
      requires Stacked() && DroppedAreZero(null) && PendingFollow(null, Crumb("", ""))
      modifies this, keys
      ensures Stacked() && DroppedAreZero(null) && PendingFollow(null, Crumb("", ""))
      ensures navStack == if n <= 0 then old(navStack)
        else if n < |old(navStack)| then old(navStack)[..|old(navStack)| - n] else []
      ensures view == old(view) && shareId == old(shareId)
      ensures breadcrumbs == old(breadcrumbs) && children == old(children)
      ensures folderKey == old(folderKey) && inFlight == old(inFlight) && keys == old(keys) && levels == old(levels)
    {
      assert navStack[..|navStack|] == navStack;
      var i := 0;
      while i < n
        invariant 0 <= i <= if n < 0 then 0 else n
        invariant Stacked() && DroppedAreZero(null) && PendingFollow(null, Crumb("", ""))
        invariant navStack == if i < |old(navStack)| then old(navStack)[..|old(navStack)| - i] else []
        invariant view == old(view) && shareId == old(shareId)
        invariant breadcrumbs == old(breadcrumbs) && children == old(children)
        invariant folderKey == old(folderKey) && inFlight == old(inFlight) && keys == old(keys) && levels == old(levels)
      {
        if |navStack| > 0 {
          ZeroLast();
        }
        i := i + 1;
      }
    }

    /** Zero the current key and the keys of all but the last of the entries to be popped. */
    method ZeroDropped(popsNeeded: int)
      requires Valid() && popsNeeded > 0
      modifies this, keys
      ensures Stacked() && DroppedAreZero(null) && PendingFollow(null, Crumb("", ""))
      ensures navStack == if popsNeeded <= |old(navStack)| then old(navStack)[..|old(navStack)| - popsNeeded + 1]
        else []
      ensures view == old(view) && shareId == old(shareId)
      ensures breadcrumbs == old(breadcrumbs) && children == old(children)
      ensures folderKey == old(folderKey) && inFlight == old(inFlight) && keys == old(keys) && levels == old(levels)
    {
      if folderKey != null {
        ZeroCurrent();
      }
      DiscardLast(popsNeeded - 1);
    }

    /** Jump to a breadcrumb. An index below zero closes everything and still shows the folder, with its key zeroed. */
    method NavigateToBreadcrumb(crumbIndex: int)
      requires Valid()
      modifies this, keys
      ensures keys == old(keys) && inFlight == old(inFlight) && shareId == old(shareId) && view == old(view)
      ensures crumbIndex >= 0 || view.ListView? ==>
        Valid() && levels == if crumbIndex >= 0 then JumpTo(old(levels), crumbIndex) else []
      ensures 0 <= crumbIndex < |old(navStack)| ==>
        navStack == old(navStack)[..crumbIndex] && folderKey == old(navStack)[crumbIndex].key
      ensures crumbIndex < 0 && view.FolderView? ==>
        && folderKey == old(folderKey) && navStack == [] && breadcrumbs == old(breadcrumbs)
        && forall b | b in keys :: AllZero(b[..])
    {
      var popsNeeded := |breadcrumbs| - 1 - crumbIndex;
      if popsNeeded <= 0 {
        return;
      }
      ZeroDropped(popsNeeded);
      if |navStack| > 0 {
        breadcrumbs := breadcrumbs[..crumbIndex + 1];
        levels := levels[..crumbIndex + 1];
        RestoreLast();
      }
    }

    /** A jump done step by step leaves the stack, the key buffers and the levels that the jump leaves. */
    method NavigateUpTo(crumbIndex: nat)
      requires Valid()
      modifies this, keys
      ensures Valid() && keys == old(keys) && inFlight == old(inFlight) && shareId == old(shareId) && view == old(view)
      ensures levels == JumpTo(old(levels), crumbIndex)
      ensures crumbIndex < |old(navStack)| ==>
        navStack == old(navStack)[..crumbIndex] && folderKey == old(navStack)[crumbIndex].key
    {
      while crumbIndex + 1 < |breadcrumbs|
        invariant Valid() && keys == old(keys) && inFlight == old(inFlight)
        invariant shareId == old(shareId) && view == old(view)
        invariant |navStack| <= |old(navStack)| && navStack == old(navStack)[..|navStack|]
        invariant |levels| <= |old(levels)| && levels == old(levels)[..|levels|]
        invariant |levels| == |old(levels)| || crumbIndex < |levels|
        invariant if |navStack| < |old(navStack)| then folderKey == old(navStack)[|navStack|].key
          else folderKey == old(folderKey)
        decreases |breadcrumbs|
      {
        NavigateUp();
      }
    }

    /** Leaving the page zeroes every key. */
    method Unmount()
      requires Valid()
      modifies this, keys
      ensures folderKey == null && navStack == [] && keys == old(keys)
      ensures forall b | b in keys :: AllZero(b[..])
    {
      if folderKey != null {
        FillZero(folderKey);
      }
      folderKey := null;
      ZeroStack();
      navStack := [];
    }

    /**
     The answer to a click on a share: its key when unwrapping worked and its listing when that could be
     decrypted.
     */
    method FinishShare(
      id: string, itemName: string, isFolder: bool, itemKey: Option<array<byte>>,
      listing: Option<seq<FolderTree.FolderChild>>)
      requires Valid() && (itemKey.Some? ==> itemKey.value !in keys)
      modifies this, if itemKey.Some? then {itemKey.value} else {}
      ensures keys == old(keys) + if itemKey.Some? then {itemKey.value} else {}
      ensures forall b | b in old(keys) :: b[..] == old(b[..])
      ensures itemKey.None? || !isFolder || listing.None? ==>
        && Valid() && levels == old(levels) && folderKey == old(folderKey)
        && (itemKey.Some? ==> AllZero(itemKey.value[..]))
      ensures inFlight == old(inFlight)
      ensures itemKey.Some? && isFolder && listing.Some? ==>
        && view.FolderView? && shareId == Some(id) && children == listing.value && folderKey == itemKey.value
        && breadcrumbs == [Crumb(id, itemName)] && navStack == []
        && levels == [Level(Crumb(id, itemName), listing.value, old(itemKey.value[..]))]
        && (Valid() <==> old(view).ListView? || forall b | b in old(keys) :: AllZero(b[..]))
    {
      if itemKey.None? {
        return;
      }
      if !isFolder || listing.None? {
        Discard(itemKey.value);
        return;
      }
      assert old(view).ListView? ==> forall b | b in keys :: AllZero(b[..]);
      ShowShare(Crumb(id, itemName), itemKey.value, listing.value);
      ShareShown(old(keys));
    }

    /** A key that is not stored after all is zeroed. */
    method Discard(key: array<byte>)
      requires Valid() && key !in keys
      modifies this`keys, key
      ensures Valid() && keys == old(keys) + {key} && AllZero(key[..])
      ensures forall b | b in old(keys) :: b[..] == old(b[..])
    {
      keys := keys + {key};
      FillZero(key);
    }

    /** Show a share's folder. Whatever else was open is overwritten, not zeroed. */
    method ShowShare(share: Crumb, itemKey: array<byte>, listing: seq<FolderTree.FolderChild>)
      modifies this
      ensures keys == old(keys) + {itemKey} && inFlight == old(inFlight)
      ensures levels == [Level(share, listing, itemKey[..])]
      ensures view.FolderView? && shareId == Some(share.id) && children == listing && folderKey == itemKey
      ensures breadcrumbs == [share] && navStack == []
    {
      keys := keys + {itemKey};
      view, shareId, children, folderKey := FolderView, Some(share.id), listing, itemKey;
      breadcrumbs, navStack := [share], [];
      levels := [Level(share, listing, itemKey[..])];
    }

    lemma ShareShown(was: set<array<byte>>)
      requires view.FolderView? && shareId.Some? && folderKey != null && |breadcrumbs| == 1 && navStack == []
      requires levels == [Level(breadcrumbs[0], children, folderKey[..])]
      requires keys == was + {folderKey} && folderKey !in was && forall p | p in inFlight :: p.key in was
      ensures Valid() <==> forall b | b in was :: AllZero(b[..])
    {
      assert PendingFollow(folderKey, breadcrumbs[0]);
    }

    /** A click on a subfolder captures the folder now shown; nothing happens in the list. */
    method StartSubfolder(folderId: string, folderName: string)
      requires Valid()
      modifies this
      ensures Valid() && levels == old(levels) && keys == old(keys) && folderKey == old(folderKey)
      ensures inFlight == old(inFlight) + if folderKey == null then [] else
        [Pending(Crumb(folderId, folderName), breadcrumbs[|breadcrumbs| - 1], children, folderKey)]
    {
      if shareId.None? {
        return;
      }
      var current := breadcrumbs[|breadcrumbs| - 1];
      inFlight := inFlight + [Pending(Crumb(folderId, folderName), current, children, folderKey)];
    }

    /** Stop waiting for the k-th subfolder call. */
    method TakePending(k: nat) returns (p: Pending)
      requires Valid() && k < |inFlight|
      modifies this`inFlight
      ensures Valid() && p == old(inFlight)[k] && inFlight == old(inFlight)[..k] + old(inFlight)[k + 1..]
      ensures p.key in keys && (p.key == folderKey ==> p.crumb == breadcrumbs[|navStack|] && p.children == children)
    {
      p := inFlight[k];
      inFlight := inFlight[..k] + inFlight[k + 1..];
    }

    /** The k-th waiting subfolder call ends without a key: none was found for it, or it did not unwrap. */
    method FailSubfolder(k: nat)
      requires Valid() && k < |inFlight|
      modifies this
      ensures Valid() && levels == old(levels) && keys == old(keys) && folderKey == old(folderKey)
      ensures inFlight == old(inFlight)[..k] + old(inFlight)[k + 1..]
    {
      var _ := TakePending(k);
    }

    /**
     The k-th waiting subfolder call ends with a key, and with a listing when that could be decrypted. The subfolder
     opens on top of the folders shown exactly when the captured folder is still the one shown; otherwise the key shown
     meanwhile is lost without being zeroed.
     */
    method FinishSubfolder(k: nat, subfolderKey: array<byte>, listing: Option<seq<FolderTree.FolderChild>>)
      requires Valid() && k < |inFlight| && subfolderKey !in keys
      modifies this, subfolderKey
      ensures keys == old(keys) + {subfolderKey} && inFlight == old(inFlight)[..k] + old(inFlight)[k + 1..]
      ensures forall b | b in old(keys) :: b[..] == old(b[..])
      ensures !Enters(old(inFlight)[k], listing) ==>
        Valid() && levels == old(levels) && folderKey == old(folderKey) && AllZero(subfolderKey[..])
      ensures view == old(view) && shareId == old(shareId)
      ensures folderKey == subfolderKey <==>
        && listing.Some?
        && exists c :: c in old(inFlight)[k].children && c.kind.Folder? && c.id == old(inFlight)[k].target.id
      ensures Enters(old(inFlight)[k], listing) ==>
        var p := old(inFlight)[k];
        && folderKey == subfolderKey && subfolderKey[..] == old(subfolderKey[..]) && children == listing.value
        && navStack == old(navStack) + [StackEntry(p.crumb, p.children, p.key)]
        && breadcrumbs == old(breadcrumbs) + [p.target]
        && levels == old(levels) + [Level(p.target, listing.value, subfolderKey[..])]
        && (p.key == old(folderKey) ==> Valid())
        && (p.key != old(folderKey) && old(folderKey) != null ==> !Live(old(folderKey)))
        && (p.key != old(folderKey) && Valid() ==> old(folderKey) != null && AllZero(old(folderKey)[..]))
    {
      var p := TakePending(k);
      if !Enters(p, listing) {
        Discard(subfolderKey);
        return;
      }
      EnterSubfolder(p, subfolderKey, listing.value);
    }

    method EnterSubfolder(p: Pending, subfolderKey: array<byte>, listing: seq<FolderTree.FolderChild>)
      requires Valid() && subfolderKey !in keys && p.key in keys
      requires p.key == folderKey ==> p.crumb == breadcrumbs[|navStack|] && p.children == children
      modifies this
      ensures keys == old(keys) + {subfolderKey} && inFlight == old(inFlight)
      ensures view == old(view) && shareId == old(shareId) && folderKey == subfolderKey && children == listing
      ensures navStack == old(navStack) + [StackEntry(p.crumb, p.children, p.key)]
      ensures breadcrumbs == old(breadcrumbs) + [p.target]
      ensures levels == old(levels) + [Level(p.target, listing, subfolderKey[..])]
      ensures p.key == old(folderKey) ==> Valid()
      ensures p.key != old(folderKey) && old(folderKey) != null ==> !Live(old(folderKey))
      ensures p.key != old(folderKey) && Valid() ==> old(folderKey) != null && AllZero(old(folderKey)[..])
    {
      ghost var lost := folderKey;
      keys := keys + {subfolderKey};
      navStack := navStack + [StackEntry(p.crumb, p.children, p.key)];
      children, folderKey := listing, subfolderKey;
      breadcrumbs := breadcrumbs + [p.target];
      levels := levels + [Level(p.target, children, folderKey[..])];
      if p.key == lost {
        SubfolderShown(old(keys), old(navStack), StackEntry(p.crumb, p.children, p.key));
      } else if lost != null {
        assert !InStack(old(navStack), lost);
        assert !Live(lost);
        assert DroppedAreZero(folderKey) ==> AllZero(lost[..]);
      }
    }

    /** A valid state with one more entry pushed and a new buffer shown is valid. */
    lemma SubfolderShown(was: set<array<byte>>, stack: seq<StackEntry>, pushed: StackEntry)
      requires view.FolderView? && shareId.Some? && folderKey != null && navStack == stack + [pushed]
      requires keys == was + {folderKey} && folderKey !in was && pushed.key in was && !InStack(stack, pushed.key)
      requires var n := |stack|;
        && |breadcrumbs| == |levels| == n + 2
        && (forall j | 0 <= j < n :: stack[j].key in was && stack[j].crumb == breadcrumbs[j])
        && (forall j | 0 <= j < n :: levels[j] == Level(stack[j].crumb, stack[j].children, stack[j].key[..]))
        && (forall i, j | 0 <= i < j < n :: stack[i].key != stack[j].key)
        && pushed.crumb == breadcrumbs[n] && levels[n] == Level(pushed.crumb, pushed.children, pushed.key[..])
        && levels[n + 1] == Level(breadcrumbs[n + 1], children, folderKey[..])
      requires forall b | b in was :: b == pushed.key || InStack(stack, b) || AllZero(b[..])
      requires forall p | p in inFlight ::
        && p.key in was
        && (p.key == pushed.key ==> p.crumb == pushed.crumb && p.children == pushed.children)
        && (forall j | 0 <= j < |stack| && stack[j].key == p.key ::
          p.crumb == stack[j].crumb && p.children == stack[j].children)
      ensures Valid()
    {
      var n := |stack|;
      assert navStack[n].key == pushed.key;
      forall b | b in keys
        ensures b == folderKey || InStack(navStack, b) || AllZero(b[..])
      {
        if b != folderKey && InStack(stack, b) {
          var j :| 0 <= j < n && stack[j].key == b;
          assert navStack[j].key == b;
        }
      }
    }
  }

  /** Open a share, click its subfolder, and go back to the list before the answer arrives. */
  method ClickAndLeave(shareKey: array<byte>) returns (nav: Navigation)
    modifies shareKey
    ensures fresh(nav) && nav.Valid() && nav.levels == [] && nav.keys == {shareKey} && AllZero(shareKey[..])
    ensures |nav.inFlight| == 1 && nav.inFlight[0].key == shareKey && nav.inFlight[0].target.id == "s"
    ensures HasFolder(nav.inFlight[0].children, "s")
  {
    nav := new Navigation();
    var listing := [FolderTree.FolderChild(FolderTree.Folder, "s", "s", "")];
    nav.FinishShare("share", "shared", true, Some(shareKey), Some(listing));
    nav.StartSubfolder("s", "s");
    assert listing[0] in listing;
    nav.NavigateToRoot();
  }

  /**
   The answer to a click that was left meanwhile: the list is shown with an open key that is not zero,
   on top of a stacked one that is.
   */
  method StaleSubfolder(shareKey: array<byte>, subfolderKey: array<byte>) returns (nav: Navigation)
    requires shareKey != subfolderKey && !AllZero(subfolderKey[..])
    modifies shareKey, subfolderKey
    ensures nav.view.ListView? && nav.folderKey == subfolderKey && !AllZero(subfolderKey[..]) && !nav.Valid()
    ensures |nav.navStack| == 1 && nav.navStack[0].key == shareKey && AllZero(shareKey[..])
  {
    nav := ClickAndLeave(shareKey);
    nav.FinishSubfolder(0, subfolderKey, Some([]));
  }
}
