/** The version history of a file: update, restore and delete over a capped, newest-first list. */
module FileVersions {
  import opened Common

  const MAX_VERSIONS_PER_FILE: nat := 10
  const VERSION_COOLDOWN_MS: int := 15 * 60 * 1000

  type Cid = string

  datatype Mode = GCM | CTR

  /** What is needed to fetch and decrypt one content of a file. */
  datatype Content = Content(cid: Cid, fileKeyEncrypted: string, fileIv: string, size: nat)

  datatype VersionEntry = VersionEntry(content: Content, timestamp: int, encryptionMode: Mode)

  /** An absent version list and an empty one are the same. */
  datatype FileMetadata = FileMetadata(
    content: Content,
    encryptionMode: Option<Mode>,
    modifiedAt: int,
    versions: seq<VersionEntry>)

  datatype VersionError = InvalidVersionIndex

  function ModeOf(m: FileMetadata): Mode {
    if m.encryptionMode.Some? then m.encryptionMode.value else GCM
  }

  function AsVersion(m: FileMetadata, now: int): VersionEntry {
    VersionEntry(m.content, now, ModeOf(m))
  }

  function Cids(vs: seq<VersionEntry>): (cs: seq<Cid>)
    ensures |cs| == |vs|
  {
    seq(|vs|, i requires 0 <= i < |vs| => vs[i].content.cid)
  }

  function Kept(vs: seq<VersionEntry>): seq<VersionEntry> {
    if |vs| <= MAX_VERSIONS_PER_FILE then vs else vs[..MAX_VERSIONS_PER_FILE]
  }

  function Pruned(vs: seq<VersionEntry>): seq<VersionEntry> {
    if |vs| <= MAX_VERSIONS_PER_FILE then [] else vs[MAX_VERSIONS_PER_FILE..]
  }

  function RemovedAt(vs: seq<VersionEntry>, i: nat): seq<VersionEntry>
    requires i < |vs|
  {
    vs[..i] + vs[i + 1..]
  }

  // ---------------------------------------------------------------- the service functions

  function ShouldCreateVersion(m: FileMetadata, forceVersion: bool, now: int): bool {
    forceVersion || m.versions == [] || now - m.versions[0].timestamp >= VERSION_COOLDOWN_MS
  }

  /** New content; the encryption mode is not among the fields an update may set. */
  function UpdateFileMetadata(
    m: FileMetadata, update: Content, createVersion: bool, now: int)
    : (FileMetadata, seq<Cid>)
  {
    var all := [AsVersion(m, now)] + m.versions;
    if createVersion
    then (m.(content := update, versions := Kept(all), modifiedAt := now), Cids(Pruned(all)))
    else (m.(content := update, modifiedAt := now), [])
  }

  function RestoreVersion(
    m: FileMetadata, versionIndex: int, now: int)
    : Result<(FileMetadata, seq<Cid>), VersionError>
  {
    if !(0 <= versionIndex < |m.versions|) then Err(InvalidVersionIndex)
    else
      var restored := m.versions[versionIndex];
      var all := [AsVersion(m, now)] + RemovedAt(m.versions, versionIndex);
      Ok((FileMetadata(restored.content, Some(restored.encryptionMode), now, Kept(all)), Cids(Pruned(all))))
  }

  function DeleteVersion(m: FileMetadata, versionIndex: int): Result<(FileMetadata, Cid), VersionError> {
    if !(0 <= versionIndex < |m.versions|) then Err(InvalidVersionIndex)
    else Ok((m.(versions := RemovedAt(m.versions, versionIndex)), m.versions[versionIndex].content.cid))
  }

  // ---------------------------------------------------------------- runs

  /** The file with everything the handlers ever did to its content identifiers. */
  datatype History = History(
    file: FileMetadata,
    unpinned: seq<Cid>,
    overwritten: seq<Cid>,
    everCurrent: seq<Cid>,
    clock: int)

  /** Calls of the three handlers; `ok` says whether the new record was published. */
  datatype Call =
    | Update(content: Content, forceVersion: bool, now: int, ok: bool)
    | Restore(versionIndex: int, now: int, ok: bool)
    | Delete(versionIndex: int, now: int, ok: bool)

  function Created(content: Content, mode: Mode, now: int): History {
    History(FileMetadata(content, Some(mode), now, []), [], [], [content.cid], now)
  }

  /** A handler unpins only after its publish succeeded; an error leaves everything as it was. */
  function Next(h: History, c: Call): History {
    var t := h.(clock := c.now);
    if !c.ok then t
    else
      match c
      case Update(content, forceVersion, now, _) =>
        var createVersion := ShouldCreateVersion(h.file, forceVersion, now);
        var (file, pruned) := UpdateFileMetadata(h.file, content, createVersion, now);
        t.(file := file, unpinned := h.unpinned + pruned, everCurrent := h.everCurrent + [content.cid],
           overwritten := if createVersion then h.overwritten else h.overwritten + [h.file.content.cid])
      case Restore(versionIndex, now, _) =>
        (match RestoreVersion(h.file, versionIndex, now)
         case Err(_) => t
         case Ok((file, pruned)) => t.(file := file, unpinned := h.unpinned + pruned))
      case Delete(versionIndex, _, _) =>
        (match DeleteVersion(h.file, versionIndex)
         case Err(_) => t
         case Ok((file, deleted)) => t.(file := file, unpinned := h.unpinned + [deleted]))
  }

  /** New content has a CID the file never had. */
  predicate Fresh(h: History, c: Call) {
    c.Update? && c.ok ==> c.content.cid !in h.everCurrent
  }

  predicate RunFresh(h: History, cs: seq<Call>)
    decreases |cs|
  {
    cs == [] || (Fresh(h, cs[0]) && RunFresh(Next(h, cs[0]), cs[1..]))
  }

  /** The clock does not go back. */
  predicate RunInOrder(h: History, cs: seq<Call>)
    decreases |cs|
  {
    cs == [] || (cs[0].now >= h.clock && RunInOrder(Next(h, cs[0]), cs[1..]))
  }

  function Run(h: History, cs: seq<Call>): History
    decreases |cs|
  {
    if cs == [] then h else Run(Next(h, cs[0]), cs[1..])
  }

  /**
   A published update replaces the content. Forced, first, or fifteen minutes after the newest version, it keeps the old
   content at the head of the list with up to nine of the versions before, and unpins the rest; otherwise not.
   */
  lemma UpdateDoes(h: History, content: Content, forceVersion: bool, now: int)
    ensures
      var m, h' := h.file, Next(h, Update(content, forceVersion, now, true));
      var versioned := forceVersion || m.versions == [] || now >= m.versions[0].timestamp + 900_000;
      var entry := VersionEntry(m.content, now, if m.encryptionMode.Some? then m.encryptionMode.value else GCM);
      && h'.file.content == content && h'.file.modifiedAt == now && h'.file.encryptionMode == m.encryptionMode
      && (!versioned ==>
            && h'.file.versions == m.versions && h'.unpinned == h.unpinned
            && h'.overwritten == h.overwritten + [m.content.cid])
      && (versioned && |m.versions| <= 9 ==>
            && h'.file.versions == [entry] + m.versions && h'.unpinned == h.unpinned
            && h'.overwritten == h.overwritten)
      && (versioned && |m.versions| == 10 ==>
            && h'.file.versions == [entry] + m.versions[..9]
            && h'.unpinned == h.unpinned + [m.versions[9].content.cid] && h'.overwritten == h.overwritten)
  {
    var v, vs := AsVersion(h.file, now), h.file.versions;
    var h' := Next(h, Update(content, forceVersion, now, true));
    if ShouldCreateVersion(h.file, forceVersion, now) {
      assert h'.file.versions == Kept([v] + vs) && h'.unpinned == h.unpinned + Cids(Pruned([v] + vs));
      if |vs| == 10 {
        assert ([v] + vs)[..10] == [v] + vs[..9];
        assert Cids(([v] + vs)[10..]) == [vs[9].content.cid];
      } else if |vs| <= 9 {
        NothingUnpinned(h.unpinned);
      }
    } else {
      NothingUnpinned(h.unpinned);
    }
  }

  lemma NothingUnpinned(cs: seq<Cid>)
    ensures cs + Cids([]) == cs && cs + [] == cs
  {
  }

  /** A published restore of a version makes it current and moves the old content to the head of the list. */
  lemma RestoreDoes(h: History, i: nat, now: int)
    requires |h.file.versions| <= 10
    ensures
      var m, h' := h.file, Next(h, Restore(i, now, true));
      var entry := VersionEntry(m.content, now, if m.encryptionMode.Some? then m.encryptionMode.value else GCM);
      && h'.unpinned == h.unpinned && h'.overwritten == h.overwritten
      && (i >= |m.versions| ==> h'.file == m)
      && (i < |m.versions| ==>
            h'.file == FileMetadata(m.versions[i].content, Some(m.versions[i].encryptionMode), now,
              [entry] + m.versions[..i] + m.versions[i + 1..]))
  {
    var v, vs := AsVersion(h.file, now), h.file.versions;
    var h' := Next(h, Restore(i, now, true));
    if i < |vs| {
      var all := [v] + RemovedAt(vs, i);
      assert h'.file.versions == Kept(all) && h'.unpinned == h.unpinned + Cids(Pruned(all));
      assert all == [v] + vs[..i] + vs[i + 1..];
      NothingUnpinned(h.unpinned);
    }
  }

  /** A published deletion takes one version off the list and unpins its CID, and nothing else. */
  lemma DeleteDoes(h: History, i: nat, now: int)
    ensures
      var m, h' := h.file, Next(h, Delete(i, now, true));
      && h'.overwritten == h.overwritten
      && (i >= |m.versions| ==> h'.file == m && h'.unpinned == h.unpinned)
      && (i < |m.versions| ==>
            && h'.file == m.(versions := m.versions[..i] + m.versions[i + 1..])
            && h'.unpinned == h.unpinned + [m.versions[i].content.cid])
  {
  }

  /** A call that is not published, or names a negative index, changes nothing but the clock. */
  lemma UnpublishedDoes(h: History, c: Call)
    ensures !c.ok || (!c.Update? && c.versionIndex < 0) ==> Next(h, c) == h.(clock := c.now)
  {
  }

  // ---------------------------------------------------------------- where every CID is

  /** Everything the four places hold, with multiplicity. */
  function Places(h: History): multiset<Cid> {
    multiset{h.file.content.cid} + multiset(Cids(h.file.versions)) + multiset(h.unpinned) + multiset(h.overwritten)
  }

  /** Every CID that was ever current is in exactly one place, once, and the list is within its cap. */
  ghost predicate Accounted(h: History) {
    && Places(h) == multiset(h.everCurrent)
    && (forall c :: multiset(h.everCurrent)[c] <= 1)
    && |h.file.versions| <= MAX_VERSIONS_PER_FILE
  }

  lemma CidsConcat(a: seq<VersionEntry>, b: seq<VersionEntry>)
    ensures Cids(a + b) == Cids(a) + Cids(b)
  {
  }

  lemma KeptAndPruned(vs: seq<VersionEntry>)
    ensures multiset(Cids(Kept(vs))) + multiset(Cids(Pruned(vs))) == multiset(Cids(vs))
  {
    assert vs == Kept(vs) + Pruned(vs);
    CidsConcat(Kept(vs), Pruned(vs));
  }

  lemma RemovedAtCids(vs: seq<VersionEntry>, i: nat)
    requires i < |vs|
    ensures multiset(Cids(vs)) == multiset(Cids(RemovedAt(vs, i))) + multiset{vs[i].content.cid}
  {
    assert vs == vs[..i] + [vs[i]] + vs[i + 1..];
    CidsConcat(vs[..i] + [vs[i]], vs[i + 1..]);
    CidsConcat(vs[..i], [vs[i]]);
    CidsConcat(vs[..i], vs[i + 1..]);
    assert Cids([vs[i]]) == [vs[i].content.cid];
  }

  lemma PrependedCids(v: VersionEntry, vs: seq<VersionEntry>)
    ensures multiset(Cids([v] + vs)) == multiset{v.content.cid} + multiset(Cids(vs))
  {
    CidsConcat([v], vs);
    assert Cids([v]) == [v.content.cid];
  }

  lemma UpdateAccounted(h: History, c: Call)
    requires Accounted(h) && Fresh(h, c) && c.Update?
    ensures Accounted(Next(h, c))
  {
    if c.ok {
      if ShouldCreateVersion(h.file, c.forceVersion, c.now) {
        VersionedPlaces(h, c);
      } else {
        assert multiset(Next(h, c).overwritten) == multiset(h.overwritten) + multiset{h.file.content.cid};
      }
      assert multiset(h.everCurrent)[c.content.cid] == 0;
      assert multiset(Next(h, c).everCurrent) == multiset(h.everCurrent) + multiset{c.content.cid};
    }
  }

  lemma VersionedPlaces(h: History, c: Call)
    requires c.Update? && c.ok && ShouldCreateVersion(h.file, c.forceVersion, c.now)
    ensures Places(Next(h, c)) == Places(h) + multiset{c.content.cid}
  {
    var v, vs := AsVersion(h.file, c.now), h.file.versions;
    PrependedCids(v, vs);
    KeptAndPruned([v] + vs);
    assert multiset(Next(h, c).unpinned) == multiset(h.unpinned) + multiset(Cids(Pruned([v] + vs)));
  }

  lemma RestoreAccounted(h: History, c: Call)
    requires Accounted(h) && c.Restore?
    ensures Accounted(Next(h, c))
  {
    if c.ok && 0 <= c.versionIndex < |h.file.versions| {
      RestoredPlaces(h, c);
      NextHasVersions(h, c);
    }
  }

  lemma RestoredPlaces(h: History, c: Call)
    requires c.Restore? && c.ok && 0 <= c.versionIndex < |h.file.versions|
    ensures Places(Next(h, c)) == Places(h)
  {
    var v, vs := AsVersion(h.file, c.now), h.file.versions;
    var rest := RemovedAt(vs, c.versionIndex);
    RemovedAtCids(vs, c.versionIndex);
    PrependedCids(v, rest);
    KeptAndPruned([v] + rest);
    var h', all := Next(h, c), [v] + rest;
    assert h'.file.versions == Kept(all) && h'.unpinned == h.unpinned + Cids(Pruned(all));
    assert h'.file.content == vs[c.versionIndex].content && h'.overwritten == h.overwritten;
    Swapped(
      multiset{v.content.cid}, multiset{vs[c.versionIndex].content.cid}, multiset(Cids(rest)), multiset(Cids(vs)),
      multiset(Cids(Kept(all))), multiset(Cids(Pruned(all))), multiset(h.unpinned), multiset(h.overwritten));
  }

  lemma Swapped(
    current: multiset<Cid>, restored: multiset<Cid>, rest: multiset<Cid>, versions: multiset<Cid>,
    kept: multiset<Cid>, pruned: multiset<Cid>, unpinned: multiset<Cid>, overwritten: multiset<Cid>)
    requires versions == rest + restored && kept + pruned == current + rest
    ensures restored + kept + (unpinned + pruned) + overwritten == current + versions + unpinned + overwritten
  {
    forall x
      ensures (restored + kept + (unpinned + pruned) + overwritten)[x]
           == (current + versions + unpinned + overwritten)[x]
    {
      assert versions[x] == (rest + restored)[x];
      assert (kept + pruned)[x] == (current + rest)[x];
    }
  }

  lemma DeleteAccounted(h: History, c: Call)
    requires Accounted(h) && c.Delete?
    ensures Accounted(Next(h, c))
  {
    if 0 <= c.versionIndex < |h.file.versions| {
      RemovedAtCids(h.file.versions, c.versionIndex);
      assert Places(Next(h, c)) == Places(h);
    }
  }

  lemma StepAccounted(h: History, c: Call)
    requires Accounted(h) && Fresh(h, c)
    ensures Accounted(Next(h, c))
  {
    match c
    case Update(_, _, _, _) => UpdateAccounted(h, c);
    case Restore(_, _, _) => RestoreAccounted(h, c);
    case Delete(_, _, _) => DeleteAccounted(h, c);
  }

  /** Over any run with fresh content identifiers every CID that was ever current is in exactly one place. */
  lemma {:induction false} RunAccounted(h: History, cs: seq<Call>)
    requires Accounted(h) && RunFresh(h, cs)
    ensures Accounted(Run(h, cs))
    decreases |cs|
  {
    if cs != [] {
      StepAccounted(h, cs[0]);
      RunAccounted(Next(h, cs[0]), cs[1..]);
    }
  }

  /** So nothing handed to unpin is still the current content or a kept version. */
  lemma UnpinnedIsUnreferenced(content: Content, mode: Mode, start: int, cs: seq<Call>, cid: Cid)
    requires RunFresh(Created(content, mode, start), cs)
    requires cid in Run(Created(content, mode, start), cs).unpinned
    ensures var h := Run(Created(content, mode, start), cs);
      cid != h.file.content.cid && cid !in Cids(h.file.versions) && cid !in h.overwritten && cid in h.everCurrent
  {
    var h := Run(Created(content, mode, start), cs);
    assert Places(Created(content, mode, start)) == multiset{content.cid};
    RunAccounted(Created(content, mode, start), cs);
    assert Places(h)[cid] <= 1;
    assert cid in multiset(h.unpinned) && cid in multiset(h.everCurrent);
    assert cid in h.overwritten ==> cid in multiset(h.overwritten);
    assert cid in Cids(h.file.versions) ==> cid in multiset(Cids(h.file.versions));
  }

  // ---------------------------------------------------------------- order and spacing

  /** Every version is at least `gap` newer than each one after it. */
  ghost predicate Apart(vs: seq<VersionEntry>, gap: int) {
    forall i, j :: 0 <= i < j < |vs| ==> vs[i].timestamp - vs[j].timestamp >= gap
  }

  ghost predicate NoneAfter(vs: seq<VersionEntry>, now: int) {
    forall i :: 0 <= i < |vs| ==> vs[i].timestamp <= now
  }

  lemma RemovedApart(vs: seq<VersionEntry>, i: nat, gap: int, now: int)
    requires i < |vs| && Apart(vs, gap) && NoneAfter(vs, now)
    ensures Apart(RemovedAt(vs, i), gap) && NoneAfter(RemovedAt(vs, i), now)
  {
  }

  lemma PrependedApart(v: VersionEntry, vs: seq<VersionEntry>, gap: int)
    requires gap >= 0 && Apart(vs, gap) && NoneAfter(vs, v.timestamp)
    requires vs != [] ==> v.timestamp - vs[0].timestamp >= gap
    ensures Apart(Kept([v] + vs), gap) && NoneAfter(Kept([v] + vs), v.timestamp)
  {
    var all := [v] + vs;
    forall i, j | 0 <= i < j < |all|
      ensures all[i].timestamp - all[j].timestamp >= gap
    {
      assert all[j] == vs[j - 1];
      assert i > 0 ==> all[i] == vs[i - 1];
      assert j > 1 ==> vs[0].timestamp - vs[j - 1].timestamp >= gap;
    }
  }

  ghost predicate NewestFirst(h: History) {
    Apart(h.file.versions, 0) && NoneAfter(h.file.versions, h.clock)
  }

  /** The version list one call leaves. */
  function NextVersions(h: History, c: Call): seq<VersionEntry> {
    var v, vs := AsVersion(h.file, c.now), h.file.versions;
    if !c.ok then vs
    else if c.Update? then
      if ShouldCreateVersion(h.file, c.forceVersion, c.now) then Kept([v] + vs) else vs
    else if !(0 <= c.versionIndex < |vs|) then vs
    else if c.Restore? then Kept([v] + RemovedAt(vs, c.versionIndex))
    else RemovedAt(vs, c.versionIndex)
  }

  lemma NextHasVersions(h: History, c: Call)
    ensures Next(h, c).file.versions == NextVersions(h, c) && Next(h, c).clock == c.now
  {
  }

  lemma StepNewestFirst(h: History, c: Call)
    requires NewestFirst(h) && c.now >= h.clock
    ensures NewestFirst(Next(h, c))
  {
    var v, vs := AsVersion(h.file, c.now), h.file.versions;
    NextHasVersions(h, c);
    if c.Update? {
      PrependedApart(v, vs, 0);
    } else if 0 <= c.versionIndex < |vs| {
      RemovedApart(vs, c.versionIndex, 0, c.now);
      PrependedApart(v, RemovedAt(vs, c.versionIndex), 0);
    }
  }

  /** Under a clock that does not go back the list stays newest first. */
  lemma {:induction false} RunNewestFirst(h: History, cs: seq<Call>)
    requires NewestFirst(h) && RunInOrder(h, cs)
    ensures NewestFirst(Run(h, cs))
    decreases |cs|
  {
    if cs != [] {
      StepNewestFirst(h, cs[0]);
      RunNewestFirst(Next(h, cs[0]), cs[1..]);
    }
  }

  lemma StepSpaced(h: History, c: Call)
    requires NewestFirst(h) && Apart(h.file.versions, VERSION_COOLDOWN_MS) && c.now >= h.clock
    requires c.Delete? || (c.Update? && !c.forceVersion)
    ensures Apart(Next(h, c).file.versions, VERSION_COOLDOWN_MS)
  {
    var v, vs := AsVersion(h.file, c.now), h.file.versions;
    NextHasVersions(h, c);
    if c.Update? && ShouldCreateVersion(h.file, false, c.now) {
      PrependedApart(v, vs, VERSION_COOLDOWN_MS);
    } else if c.Delete? && 0 <= c.versionIndex < |vs| {
      RemovedApart(vs, c.versionIndex, VERSION_COOLDOWN_MS, c.now);
    }
  }

  /** With only unforced updates and deletions, versions stay at least the cooldown apart. */
  lemma {:induction false} RunSpaced(h: History, cs: seq<Call>)
    requires NewestFirst(h) && Apart(h.file.versions, VERSION_COOLDOWN_MS) && RunInOrder(h, cs)
    requires forall c | c in cs :: c.Delete? || (c.Update? && !c.forceVersion)
    ensures Apart(Run(h, cs).file.versions, VERSION_COOLDOWN_MS)
    decreases |cs|
  {
    if cs != [] {
      StepNewestFirst(h, cs[0]);
      StepSpaced(h, cs[0]);
      RunSpaced(Next(h, cs[0]), cs[1..]);
    }
  }

  // ---------------------------------------------------------------- restore

  /** Within the cap a restore prunes nothing, and restoring the newest version next undoes it. */
  lemma RestoreUndone(m: FileMetadata, versionIndex: nat, now: int, later: int)
    requires versionIndex < |m.versions| <= MAX_VERSIONS_PER_FILE
    ensures RestoreVersion(m, versionIndex, now).Ok?
    ensures
      var (m', pruned) := RestoreVersion(m, versionIndex, now).value;
      && pruned == [] && |m'.versions| == |m.versions|
      && m'.content == m.versions[versionIndex].content && ModeOf(m') == m.versions[versionIndex].encryptionMode
      && RestoreVersion(m', 0, later).Ok?
      && var (m'', pruned') := RestoreVersion(m', 0, later).value;
         && pruned' == []
         && m''.content == m.content && ModeOf(m'') == ModeOf(m)
         && m''.versions == [m.versions[versionIndex].(timestamp := later)] + RemovedAt(m.versions, versionIndex)
  {
    var (m', _) := RestoreVersion(m, versionIndex, now).value;
    assert RemovedAt(m'.versions, 0) == RemovedAt(m.versions, versionIndex);
  }

  /** An update keeps the recorded mode, so content encrypted another way is then labelled with the old mode. */
  lemma UpdateKeepsMode(m: FileMetadata, update: Content, createVersion: bool, now: int)
    ensures var (m', pruned) := UpdateFileMetadata(m, update, createVersion, now);
      && m'.encryptionMode == m.encryptionMode && m'.content == update
      && (createVersion ==> m'.versions[0].content == m.content && m'.versions[0].encryptionMode == ModeOf(m))
      && (!createVersion ==> m'.versions == m.versions && pruned == [])
      && |pruned| == (if createVersion && |m.versions| >= MAX_VERSIONS_PER_FILE
        then |m.versions| + 1 - MAX_VERSIONS_PER_FILE else 0)
  {
  }

  // ---------------------------------------------------------------- recorded modes

  /** The current content and every kept version are recorded under the mode they were encrypted with. */
  ghost predicate Labelled(m: FileMetadata, modeOf: Content -> Mode) {
    && ModeOf(m) == modeOf(m.content)
    && forall v | v in m.versions :: v.encryptionMode == modeOf(v.content)
  }

  /** A published update brings content of the mode already recorded. */
  predicate KeepsMode(h: History, c: Call, modeOf: Content -> Mode) {
    c.Update? && c.ok ==> modeOf(c.content) == ModeOf(h.file)
  }

  /** One call keeps every mode right exactly when it is not a published update to content of another mode. */
  lemma StepLabelledIff(h: History, c: Call, modeOf: Content -> Mode)
    requires Labelled(h.file, modeOf)
    ensures Labelled(Next(h, c).file, modeOf) <==> KeepsMode(h, c, modeOf)
  {
    NextHasVersions(h, c);
    if c.Update? {
      UpdateKeepsMode(h.file, c.content, ShouldCreateVersion(h.file, c.forceVersion, c.now), c.now);
    }
  }

  /** Every mode is right in every state of the run. */
  ghost predicate AlwaysLabelled(h: History, cs: seq<Call>, modeOf: Content -> Mode)
    decreases |cs|
  {
    Labelled(h.file, modeOf) && (cs == [] || AlwaysLabelled(Next(h, cs[0]), cs[1..], modeOf))
  }

  predicate RunKeepsMode(h: History, cs: seq<Call>, modeOf: Content -> Mode)
    decreases |cs|
  {
    cs == [] || (KeepsMode(h, cs[0], modeOf) && RunKeepsMode(Next(h, cs[0]), cs[1..], modeOf))
  }

  /** Over a run the modes are right throughout exactly when no published update brings content of another mode. */
  lemma {:induction false} RunLabelledIff(h: History, cs: seq<Call>, modeOf: Content -> Mode)
    requires Labelled(h.file, modeOf)
    ensures AlwaysLabelled(h, cs, modeOf) <==> RunKeepsMode(h, cs, modeOf)
    decreases |cs|
  {
    if cs != [] {
      StepLabelledIff(h, cs[0], modeOf);
      if KeepsMode(h, cs[0], modeOf) {
        RunLabelledIff(Next(h, cs[0]), cs[1..], modeOf);
      }
    }
  }

  /** A media file uploaded in CTR mode and then saved as text, in GCM mode: the text stays recorded as CTR. */
  lemma TextRecordedAsMedia(modeOf: Content -> Mode, now: int, later: int)
    requires modeOf(Content("media", "key", "iv", 1)) == CTR && modeOf(Content("text", "key2", "iv2", 2)) == GCM
    ensures
      var h := Created(Content("media", "key", "iv", 1), CTR, now);
      var saved := Next(h, Update(Content("text", "key2", "iv2", 2), false, later, true));
      && Labelled(h.file, modeOf)
      && saved.file.content.cid == "text" && ModeOf(saved.file) == CTR && !Labelled(saved.file, modeOf)
  {
  }
}
