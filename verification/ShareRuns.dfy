/** What rotations do to who can read a shared folder, call by call and over whole runs. */
module ShareRuns {
  import opened Common
  import opened Shares

  /**
   One user's folder as the server and its readers see it; `issued` is every wrapped key ever made for a
   recipient.
   */
  datatype Folder = Folder(
    sharerId: UserId,
    ipnsName: string,
    shares: Table,
    key: seq<byte>,
    issued: set<Wrapped>)

  function After(f: Folder, sent: seq<SentShare>, folderKey: seq<byte>, random: seq<byte>, c: Conditions): Rotation {
    Rotate(f.shares, f.key, folderKey, f.sharerId, f.ipnsName, sent, random, c)
  }

  predicate OfFolder(f: Folder, id: ShareId) {
    id in f.shares && f.shares[id].sharerId == f.sharerId && f.shares[id].ipnsName == f.ipnsName
  }

  /** Record the wrapped keys the folder's shares now hold. */
  function Issue(f: Folder): (r: Folder) {
    f.(issued := f.issued + set id | id in f.shares && OfFolder(f, id) :: f.shares[id].encryptedKey)
  }

  function Rotating(
    f: Folder, sent: seq<SentShare>, folderKey: seq<byte>, random: seq<byte>, c: Conditions)
    : (r: Folder)
  {
    var after := After(f, sent, folderKey, random, c);
    Issue(f.(shares := after.shares, key := after.key))
  }

  /** Every active share opens to the key the metadata is encrypted under. */
  ghost predicate AllCanRead(f: Folder) {
    forall id | OfFolder(f, id) && Active(f.shares[id]) ::
      f.shares[id].encryptedKey == Wrapped(f.shares[id].recipientId, f.key)
  }

  /** Some share of this folder, active or pending, names the user. */
  ghost predicate Known(f: Folder, user: UserId) {
    exists id :: OfFolder(f, id) && f.shares[id].recipientId == user
  }

  /** The metadata key was wrapped for nobody but users with a share, active or still pending rotation. */
  ghost predicate NoOutsider(f: Folder) {
    forall w | w in f.issued && w.key == f.key :: Known(f, w.recipient)
  }

  ghost predicate NeverIssued(f: Folder, random: seq<byte>) {
    random != f.key && forall w | w in f.issued :: w.key != random
  }

  /** Every share holds an issued key that was wrapped for its own recipient. */
  ghost predicate Base(f: Folder) {
    && Sound(f.shares)
    && (forall id | OfFolder(f, id) :: f.shares[id].encryptedKey in f.issued)
    && (forall id | OfFolder(f, id) :: f.shares[id].encryptedKey.recipient == f.shares[id].recipientId)
  }

  ghost predicate Inv(f: Folder) {
    Base(f) && NoOutsider(f)
  }

  // ---------------------------------------------------------------- one rotation

  ghost predicate EveryActiveListed(f: Folder, sent: seq<SentShare>) {
    forall id | OfFolder(f, id) && Active(f.shares[id]) :: SentShare(id, f.shares[id].recipientId, f.ipnsName) in sent
  }

  /**
   After a completed rotation every active share opens to the published key exactly when the list named
   every active share.
   */
  lemma CompletedRotationReachesAllIff(
    f: Folder, sent: seq<SentShare>, folderKey: seq<byte>, random: seq<byte>, c: Conditions)
    requires Base(f) && NeverIssued(f, random) && Describes(sent, f.shares, f.sharerId)
    requires After(f, sent, folderKey, random, c).outcome.Rotated?
    ensures AllCanRead(Rotating(f, sent, folderKey, random, c)) <==> EveryActiveListed(f, sent)
  {
    var revoked := PendingIds(f.shares, f.sharerId, f.ipnsName);
    var remaining := Remaining(sent, f.ipnsName, revoked);
    var after := Rotating(f, sent, folderKey, random, c);
    forall id | OfFolder(f, id) && Active(f.shares[id])
      ensures OfFolder(after, id) && Active(after.shares[id])
      ensures SentShare(id, f.shares[id].recipientId, f.ipnsName) in sent <==>
        after.shares[id].encryptedKey == Wrapped(f.shares[id].recipientId, random)
    {
      var entry := SentShare(id, f.shares[id].recipientId, f.ipnsName);
      assert entry in sent ==> entry in remaining;
    }
  }

  /** The client stamps its emptied list as fresh after a rotation; a second rotation with it locks every reader out. */
  lemma EmptyListLocksOut(f: Folder, folderKey: seq<byte>, random: seq<byte>, c: Conditions, id: ShareId)
    requires Base(f) && NeverIssued(f, random)
    requires After(f, [], folderKey, random, c).outcome.Rotated?
    requires OfFolder(f, id) && Active(f.shares[id])
    ensures var after := Rotating(f, [], folderKey, random, c);
      OfFolder(after, id) && Active(after.shares[id]) && after.shares[id].encryptedKey.key != after.key
  {
    assert f.shares[id].encryptedKey in f.issued;
  }

  /**
   Whatever the list says and whatever fails: a revoked share of the folder never gets a key, only
   revoked shares of the folder are removed, and an aborted rotation removes none.
   */
  lemma RotationTouches(
    f: Folder, sent: seq<SentShare>, folderKey: seq<byte>, random: seq<byte>, c: Conditions, id: ShareId)
    requires id in f.shares && Describes(sent, f.shares, f.sharerId)
    ensures var r := After(f, sent, folderKey, random, c);
      && (id !in r.shares ==>
            Pending(f.shares[id], f.sharerId, f.ipnsName) && (r.outcome.Rotated? || r.outcome.NotPublished?))
      && (id in r.shares && r.shares[id] != f.shares[id] ==>
            && OfFolder(f, id) && Active(f.shares[id])
            && r.shares[id] == f.shares[id].(encryptedKey := Wrapped(f.shares[id].recipientId, random)))
  {
  }

  // ---------------------------------------------------------------- how a rotation ends, by its guards

  /** The listed shares that a rotation re-wraps. */
  function RemainingOf(f: Folder, sent: seq<SentShare>): seq<SentShare> {
    Remaining(sent, f.ipnsName, PendingIds(f.shares, f.sharerId, f.ipnsName))
  }

  /** Some share waits for a rotation, and the client has the keypair for it. */
  predicate Attempted(f: Folder, c: Conditions) {
    PendingIds(f.shares, f.sharerId, f.ipnsName) != {} && c.hasKeypair
  }

  /** Every re-wrap reaches the server, which has the share, and the client hears so. */
  ghost predicate AllAnswered(f: Folder, sent: seq<SentShare>, c: Conditions) {
    forall s | s in RemainingOf(f, sent) :: s.shareId !in c.lost && s.shareId !in c.unheard && s.shareId in f.shares
  }

  /** No re-wrap reaches a share the server has. */
  ghost predicate NobodyReached(f: Folder, sent: seq<SentShare>, c: Conditions) {
    forall s | s in RemainingOf(f, sent) :: s.shareId in c.lost || s.shareId !in f.shares
  }

  /** The metadata can be read with the client's key and published again. */
  predicate CanPublish(f: Folder, folderKey: seq<byte>, c: Conditions) {
    c.resolves && folderKey == f.key && c.publishes
  }

  lemma OutcomeIff(f: Folder, sent: seq<SentShare>, folderKey: seq<byte>, random: seq<byte>, c: Conditions)
    ensures var outcome := After(f, sent, folderKey, random, c).outcome;
      && (outcome.NotRotated? <==> !Attempted(f, c))
      && (outcome.Aborted? <==> Attempted(f, c) && !AllAnswered(f, sent, c))
      && (outcome.NotPublished? <==> Attempted(f, c) && AllAnswered(f, sent, c) && !CanPublish(f, folderKey, c))
      && (outcome.Rotated? <==> Attempted(f, c) && AllAnswered(f, sent, c) && CanPublish(f, folderKey, c))
  {
  }

  /** Some share of the folder by its owner is revoked and still there. */
  lemma AttemptedIff(f: Folder, c: Conditions)
    ensures Attempted(f, c) <==>
      c.hasKeypair && exists id ::
        && id in f.shares && f.shares[id].sharerId == f.sharerId && f.shares[id].ipnsName == f.ipnsName
        && f.shares[id].revokedAt.Some?
  {
    if id :| id in f.shares && Pending(f.shares[id], f.sharerId, f.ipnsName) {
      assert id in PendingIds(f.shares, f.sharerId, f.ipnsName);
    }
  }

  /**
   Entries of the list that are re-wrapped are those of the item whose share is not revoked; a rotation passes when
   the server has them all and each request and answer arrives.
   */
  lemma AllAnsweredIff(f: Folder, sent: seq<SentShare>, c: Conditions)
    requires Describes(sent, f.shares, f.sharerId)
    ensures AllAnswered(f, sent, c) <==>
      forall s | s in sent && s.ipnsName == f.ipnsName ::
        && s.shareId in f.shares
        && (f.shares[s.shareId].revokedAt.Some? || (s.shareId !in c.lost && s.shareId !in c.unheard))
  {
    var remaining := RemainingOf(f, sent);
    forall s | s in sent
      ensures s in remaining <==>
        s.ipnsName == f.ipnsName && (s.shareId in f.shares ==> f.shares[s.shareId].revokedAt.None?)
    {
      var revoked := PendingIds(f.shares, f.sharerId, f.ipnsName);
      assert s in remaining <==> s.ipnsName == f.ipnsName && s.shareId !in revoked;
    }
    assert forall s | s in remaining :: s in sent;
  }

  /** Which shares a rotation removes. */
  lemma RemovedIff(
    f: Folder, sent: seq<SentShare>, folderKey: seq<byte>, random: seq<byte>, c: Conditions, id: ShareId)
    requires Describes(sent, f.shares, f.sharerId) && id in f.shares
    ensures id !in After(f, sent, folderKey, random, c).shares <==>
      && f.shares[id].sharerId == f.sharerId && f.shares[id].ipnsName == f.ipnsName && f.shares[id].revokedAt.Some?
      && id !in c.lost && c.hasKeypair && AllAnswered(f, sent, c)
  {
    OutcomeIff(f, sent, folderKey, random, c);
    RotationKeepsRows(f, sent, folderKey, random, c);
    assert id in PendingIds(f.shares, f.sharerId, f.ipnsName) <==> Pending(f.shares[id], f.sharerId, f.ipnsName);
  }

  /** Which shares it gives the new key. */
  lemma RewrappedIff(
    f: Folder, sent: seq<SentShare>, folderKey: seq<byte>, random: seq<byte>, c: Conditions, id: ShareId)
    requires Describes(sent, f.shares, f.sharerId)
    ensures id in After(f, sent, folderKey, random, c).shares ==>
      && id in f.shares
      && After(f, sent, folderKey, random, c).shares[id] ==
        if Attempted(f, c) && f.shares[id].revokedAt.None? && id !in c.lost
          && (exists s :: s in sent && s.ipnsName == f.ipnsName && s.shareId == id)
        then f.shares[id].(encryptedKey := Wrapped(f.shares[id].recipientId, random)) else f.shares[id]
  {
    if id in f.shares {
      ReachedIff(f, sent, c, id);
    }
  }

  lemma ReachedIff(f: Folder, sent: seq<SentShare>, c: Conditions, id: ShareId)
    requires Describes(sent, f.shares, f.sharerId) && id in f.shares
    ensures id in Reached(RemainingOf(f, sent), c.lost) <==>
      && f.shares[id].revokedAt.None? && id !in c.lost
      && exists s :: s in sent && s.ipnsName == f.ipnsName && s.shareId == id
  {
    if f.shares[id].revokedAt.None? && id !in c.lost {
      forall s | s in sent && s.ipnsName == f.ipnsName && s.shareId == id
        ensures id in Reached(RemainingOf(f, sent), c.lost)
      {
        assert s in RemainingOf(f, sent);
      }
    }
  }

  /** When the metadata gets the new key. */
  lemma RekeyedIff(f: Folder, sent: seq<SentShare>, folderKey: seq<byte>, random: seq<byte>, c: Conditions)
    ensures After(f, sent, folderKey, random, c).key ==
      if Attempted(f, c) && AllAnswered(f, sent, c) && c.resolves && folderKey == f.key && c.publishes
      then random else f.key
  {
    OutcomeIff(f, sent, folderKey, random, c);
  }

  /** A rotation is not attempted, completes with a list that names every reader, or reaches nobody. */
  ghost predicate LeavesReaders(f: Folder, sent: seq<SentShare>, folderKey: seq<byte>, c: Conditions) {
    Attempted(f, c) ==>
      if AllAnswered(f, sent, c) && CanPublish(f, folderKey, c) then EveryActiveListed(f, sent)
      else NobodyReached(f, sent, c)
  }

  /** With any list, a rotation keeps every reader reading exactly under these guards. */
  lemma RotationKeepsReadersIff(f: Folder, sent: seq<SentShare>, folderKey: seq<byte>, random: seq<byte>, c: Conditions)
    requires Base(f) && AllCanRead(f) && NeverIssued(f, random) && Describes(sent, f.shares, f.sharerId)
    ensures AllCanRead(Rotating(f, sent, folderKey, random, c)) <==> LeavesReaders(f, sent, folderKey, c)
  {
    var r := After(f, sent, folderKey, random, c);
    OutcomeIff(f, sent, folderKey, random, c);
    if r.outcome.Rotated? {
      CompletedRotationReachesAllIff(f, sent, folderKey, random, c);
    } else if !r.outcome.NotRotated? {
      FailedRotationKeepsReadersIff(f, sent, folderKey, random, c);
    }
  }

  /** An up-to-date list names every reader. */
  lemma UpToDateListsAll(f: Folder, sent: seq<SentShare>)
    requires UpToDate(sent, f.shares, f.sharerId)
    ensures EveryActiveListed(f, sent)
  {
  }

  lemma FailedRotationKeepsReadersIff(
    f: Folder, sent: seq<SentShare>, folderKey: seq<byte>, random: seq<byte>, c: Conditions)
    requires AllCanRead(f) && NeverIssued(f, random) && Describes(sent, f.shares, f.sharerId)
    requires var r := After(f, sent, folderKey, random, c); r.outcome.Aborted? || r.outcome.NotPublished?
    ensures AllCanRead(Rotating(f, sent, folderKey, random, c)) <==> NobodyReached(f, sent, c)
  {
    var r := After(f, sent, folderKey, random, c);
    var remaining := RemainingOf(f, sent);
    if NobodyReached(f, sent, c) {
      assert forall id | id in f.shares :: id !in Reached(remaining, c.lost);
      assert RewrapTo(f.shares, Reached(remaining, c.lost), random) == f.shares;
    } else {
      var s :| s in remaining && s.shareId !in c.lost && s.shareId in f.shares;
      assert s.shareId in Reached(remaining, c.lost);
      assert OfFolder(f, s.shareId) && Active(f.shares[s.shareId]);
      assert r.shares[s.shareId].encryptedKey.key == random;
    }
  }

  /** Some revoked recipient who was given the current key loses the record of it. */
  ghost predicate ForgetsReader(f: Folder, c: Conditions) {
    exists id :: id in PendingIds(f.shares, f.sharerId, f.ipnsName)
      && id !in c.lost && Wrapped(f.shares[id].recipientId, f.key) in f.issued
  }

  /** Rows of the table before and after a rotation differ only in the wrapped keys of the folder's active shares. */
  ghost predicate RowsKept(f: Folder, after: Table, random: seq<byte>) {
    forall id | id in after ::
      && id in f.shares
      && (after[id] == f.shares[id]
          || (OfFolder(f, id) && after[id] == f.shares[id].(encryptedKey := Wrapped(f.shares[id].recipientId, random))))
  }

  lemma RotationKeepsRows(f: Folder, sent: seq<SentShare>, folderKey: seq<byte>, random: seq<byte>, c: Conditions)
    requires Describes(sent, f.shares, f.sharerId)
    ensures var r := After(f, sent, folderKey, random, c);
      && RowsKept(f, r.shares, random)
      && (r.outcome.NotRotated? || r.outcome.Aborted? ==> r.shares.Keys == f.shares.Keys)
      && (r.outcome.Rotated? || r.outcome.NotPublished? ==>
        r.shares.Keys == f.shares.Keys - (PendingIds(f.shares, f.sharerId, f.ipnsName) - c.lost))
  {
  }

  /**
   A table of kept rows keeps the invariant when the key was published with it, or when everyone holding
   the old key keeps a row.
   */
  lemma RowsKeptKeepInv(f: Folder, after: Folder, random: seq<byte>)
    requires Base(f) && NeverIssued(f, random) && RowsKept(f, after.shares, random)
    requires after == Issue(f.(shares := after.shares, key := after.key))
    requires after.key == random || after.key == f.key
    requires after.key == f.key ==> forall w | w in f.issued && w.key == f.key :: Known(after, w.recipient)
    ensures Inv(after)
  {
    FewerIsSound(f.shares, after.shares);
    forall id | OfFolder(after, id)
      ensures after.shares[id].encryptedKey in after.issued
      ensures after.shares[id].encryptedKey.recipient == after.shares[id].recipientId
    {
      assert OfFolder(f, id);
    }
    forall w | w in after.issued && w.key == after.key
      ensures Known(after, w.recipient)
    {
      if w !in f.issued {
        var id :| id in after.shares && OfFolder(after, id) && after.shares[id].encryptedKey == w;
        assert Known(after, after.shares[id].recipientId);
      }
    }
  }

  lemma RotationKeepsBase(
    f: Folder, sent: seq<SentShare>, folderKey: seq<byte>, random: seq<byte>, c: Conditions)
    requires Base(f) && Describes(sent, f.shares, f.sharerId)
    ensures Base(Rotating(f, sent, folderKey, random, c))
  {
    var after := Rotating(f, sent, folderKey, random, c);
    RotationKeepsRows(f, sent, folderKey, random, c);
    FewerIsSound(f.shares, after.shares);
    forall id | OfFolder(after, id)
      ensures after.shares[id].encryptedKey in after.issued
      ensures after.shares[id].encryptedKey.recipient == after.shares[id].recipientId
    {
      assert OfFolder(f, id);
    }
  }

  /** A completed rotation keeps the new key from outsiders, whoever held the old one. */
  lemma CompletedRotationShutsOut(
    f: Folder, sent: seq<SentShare>, folderKey: seq<byte>, random: seq<byte>, c: Conditions)
    requires Base(f) && NeverIssued(f, random) && Describes(sent, f.shares, f.sharerId)
    requires After(f, sent, folderKey, random, c).outcome.Rotated?
    ensures Inv(Rotating(f, sent, folderKey, random, c))
  {
    RotationKeepsRows(f, sent, folderKey, random, c);
    RowsKeptKeepInv(f, Rotating(f, sent, folderKey, random, c), random);
  }

  /** A rotation that does not complete makes nobody known, so an outsider remains one. */
  lemma OutsiderStays(f: Folder, sent: seq<SentShare>, folderKey: seq<byte>, random: seq<byte>, c: Conditions)
    requires !NoOutsider(f) && Describes(sent, f.shares, f.sharerId)
    requires !After(f, sent, folderKey, random, c).outcome.Rotated?
    ensures !NoOutsider(Rotating(f, sent, folderKey, random, c))
  {
    var after := Rotating(f, sent, folderKey, random, c);
    RotationKeepsRows(f, sent, folderKey, random, c);
    var w :| w in f.issued && w.key == f.key && !Known(f, w.recipient);
    forall id | OfFolder(after, id)
      ensures after.shares[id].recipientId != w.recipient
    {
      assert OfFolder(f, id);
    }
    assert w in after.issued && !Known(after, w.recipient);
  }

  /**
   After a rotation the metadata key is kept from outsiders exactly when the rotation completed, or when
   it was before and the rotation does not stop between removing a reader's record and publishing.
   */
  lemma RotationKeepsOutsidersOutIff(
    f: Folder, sent: seq<SentShare>, folderKey: seq<byte>, random: seq<byte>, c: Conditions)
    requires Base(f) && NeverIssued(f, random) && Describes(sent, f.shares, f.sharerId)
    ensures var answered := Attempted(f, c) && AllAnswered(f, sent, c);
      Inv(Rotating(f, sent, folderKey, random, c)) <==>
        || (answered && CanPublish(f, folderKey, c))
        || (NoOutsider(f) && !(answered && !CanPublish(f, folderKey, c) && ForgetsReader(f, c)))
  {
    OutcomeIff(f, sent, folderKey, random, c);
    if After(f, sent, folderKey, random, c).outcome.Rotated? {
      CompletedRotationShutsOut(f, sent, folderKey, random, c);
    } else if !NoOutsider(f) {
      OutsiderStays(f, sent, folderKey, random, c);
    } else if After(f, sent, folderKey, random, c).outcome.NotPublished? && ForgetsReader(f, c) {
      UnpublishedRotationForgets(f, sent, folderKey, random, c);
    } else {
      RotationKeepsOutsidersOut(f, sent, folderKey, random, c);
    }
  }

  lemma UnpublishedRotationForgets(
    f: Folder, sent: seq<SentShare>, folderKey: seq<byte>, random: seq<byte>, c: Conditions)
    requires Inv(f) && NeverIssued(f, random) && Describes(sent, f.shares, f.sharerId)
    requires After(f, sent, folderKey, random, c).outcome.NotPublished? && ForgetsReader(f, c)
    ensures !NoOutsider(Rotating(f, sent, folderKey, random, c))
  {
    var after := Rotating(f, sent, folderKey, random, c);
    RotationKeepsRows(f, sent, folderKey, random, c);
    var id :| id in PendingIds(f.shares, f.sharerId, f.ipnsName)
      && id !in c.lost && Wrapped(f.shares[id].recipientId, f.key) in f.issued;
    OnlyRow(f, after.shares, random, id);
    var w := Wrapped(f.shares[id].recipientId, f.key);
    assert w in after.issued && !Known(after, w.recipient);
  }

  lemma RotationKeepsOutsidersOut(
    f: Folder, sent: seq<SentShare>, folderKey: seq<byte>, random: seq<byte>, c: Conditions)
    requires Inv(f) && NeverIssued(f, random) && Describes(sent, f.shares, f.sharerId)
    requires !(After(f, sent, folderKey, random, c).outcome.NotPublished? && ForgetsReader(f, c))
    ensures Inv(Rotating(f, sent, folderKey, random, c))
  {
    var after := Rotating(f, sent, folderKey, random, c);
    RotationKeepsRows(f, sent, folderKey, random, c);
    if !After(f, sent, folderKey, random, c).outcome.Rotated? {
      forall w | w in f.issued && w.key == f.key
        ensures Known(after, w.recipient)
      {
        assert Known(f, w.recipient);
        var id :| OfFolder(f, id) && f.shares[id].recipientId == w.recipient;
        assert OfFolder(after, id) && after.shares[id].recipientId == w.recipient;
      }
    }
    RowsKeptKeepInv(f, after, random);
  }

  /** A recipient whose only row is gone has no row of the folder left. */
  lemma OnlyRow(f: Folder, after: Table, random: seq<byte>, id: ShareId)
    requires Sound(f.shares) && RowsKept(f, after, random) && OfFolder(f, id) && id !in after
    ensures forall k | k in after && after[k].sharerId == f.sharerId && after[k].ipnsName == f.ipnsName ::
      after[k].recipientId != f.shares[id].recipientId
  {
    forall k | k in after && after[k].sharerId == f.sharerId && after[k].ipnsName == f.ipnsName
      ensures after[k].recipientId != f.shares[id].recipientId
    {
      assert !SameTriple(f.shares[k], f.shares[id]);
    }
  }

  /** A completed rotation all of whose removals arrive leaves the metadata key with active readers only. */
  lemma CleanRotationLeavesReadersOnly(
    f: Folder, sent: seq<SentShare>, folderKey: seq<byte>, random: seq<byte>, c: Conditions, user: UserId)
    requires Base(f) && NeverIssued(f, random) && Describes(sent, f.shares, f.sharerId) && EveryActiveListed(f, sent)
    requires After(f, sent, folderKey, random, c).outcome.Rotated?
    requires PendingIds(f.shares, f.sharerId, f.ipnsName) !! c.lost
    ensures var after := Rotating(f, sent, folderKey, random, c);
      Wrapped(user, after.key) in after.issued <==> AlreadyShares(after.shares, f.sharerId, user, f.ipnsName)
  {
    var after := Rotating(f, sent, folderKey, random, c);
    CompletedRotationReachesAllIff(f, sent, folderKey, random, c);
    CompletedRotationShutsOut(f, sent, folderKey, random, c);
    assert forall id | OfFolder(after, id) :: Active(after.shares[id]);
    if Wrapped(user, after.key) in after.issued {
      assert Known(after, user);
      var id :| OfFolder(after, id) && after.shares[id].recipientId == user;
      assert Current(after.shares[id], f.sharerId, f.ipnsName);
    }
    if AlreadyShares(after.shares, f.sharerId, user, f.ipnsName) {
      var id :| id in after.shares && Current(after.shares[id], f.sharerId, f.ipnsName)
        && after.shares[id].recipientId == user;
      assert OfFolder(after, id);
    }
  }

  /**
   A rotation that did not publish leaves pending exactly the shares whose removal was lost. When every
   removal arrived it is never taken up again: later checks see nothing pending.
   */
  lemma UnpublishedRotationIsFinal(
    f: Folder, sent: seq<SentShare>, folderKey: seq<byte>, random: seq<byte>, c: Conditions,
    sent': seq<SentShare>, random': seq<byte>, c': Conditions)
    requires After(f, sent, folderKey, random, c).outcome.NotPublished?
    ensures var pending, after := PendingIds(f.shares, f.sharerId, f.ipnsName), Rotating(f, sent, folderKey, random, c);
      && after.key == f.key
      && PendingIds(after.shares, f.sharerId, f.ipnsName) == pending * c.lost
      && (pending !! c.lost ==>
            After(after, sent', folderKey, random', c') == Rotation(after.shares, f.key, NotRotated))
  {
    var pending, after := PendingIds(f.shares, f.sharerId, f.ipnsName), Rotating(f, sent, folderKey, random, c);
    forall id
      ensures id in PendingIds(after.shares, f.sharerId, f.ipnsName) <==> id in pending * c.lost
    {
    }
  }

  // ---------------------------------------------------------------- two failing inputs

  /** b and c read the folder; d's share is revoked and waits for the rotation. */
  function ThreeShares(key: seq<byte>): Folder {
    var shares: Table := map[
      "1" := Share("a", "b", "f", Wrapped("b", key), None),
      "2" := Share("a", "c", "f", Wrapped("c", key), None),
      "3" := Share("a", "d", "f", Wrapped("d", key), Some(0))];
    Folder("a", "f", shares, key, {Wrapped("b", key), Wrapped("c", key), Wrapped("d", key)})
  }

  const BOTH: seq<SentShare> := [SentShare("1", "b", "f"), SentShare("2", "c", "f")]

  lemma ThreeSharesInv(key: seq<byte>)
    ensures Inv(ThreeShares(key)) && AllCanRead(ThreeShares(key))
    ensures UpToDate(BOTH, ThreeShares(key).shares, "a")
    ensures PendingIds(ThreeShares(key).shares, "a", "f") == {"3"}
    ensures forall s :: s in Remaining(BOTH, "f", {"3"}) <==> s in BOTH
  {
    var f := ThreeShares(key);
    assert OfFolder(f, "1") && OfFolder(f, "2") && OfFolder(f, "3");
    assert Known(f, "b") && Known(f, "c") && Known(f, "d");
    assert BOTH[0] in BOTH && BOTH[1] in BOTH;
  }

  /** The request for c is lost: the rotation aborts, and b is left with a key the metadata does not use. */
  lemma AbortStrandsReader(key: seq<byte>, random: seq<byte>)
    requires key != random
    ensures var after := Rotating(ThreeShares(key), BOTH, key, random, Conditions(true, {"2"}, {}, true, true, true));
      after.key == key && "1" in after.shares && after.shares["1"] == Share("a", "b", "f", Wrapped("b", random), None)
  {
    ThreeSharesInv(key);
    assert BOTH[0] in BOTH && BOTH[1] in BOTH;
  }

  /** The metadata is not published: d's share is gone, and d still holds the key in use. */
  lemma UnpublishedForgetsD(key: seq<byte>, random: seq<byte>)
    requires key != random
    ensures var after := Rotating(ThreeShares(key), BOTH, key, random, Conditions(true, {}, {}, false, true, true));
      after.key == key && Wrapped("d", key) in after.issued && !Known(after, "d")
  {
    var f, c := ThreeShares(key), Conditions(true, {}, {}, false, true, true);
    ThreeSharesInv(key);
    OutcomeIff(f, BOTH, key, random, c);
    assert AllAnswered(f, BOTH, c) && !CanPublish(f, key, c);
    RotationKeepsRows(f, BOTH, key, random, c);
    OnlyRow(f, After(f, BOTH, key, random, c).shares, random, "3");
  }

  // ---------------------------------------------------------------- whole runs

  datatype Event =
    | Give(newId: ShareId, recipientId: UserId)
    | Revoke(id: ShareId, now: int)
    | Modify(sent: seq<SentShare>, folderKey: seq<byte>, random: seq<byte>, conditions: Conditions)

  /** A share is given with the current key; a rotation runs before a modification. */
  function Next(f: Folder, e: Event): Folder {
    match e
    case Give(newId, recipientId) =>
      if recipientId == f.sharerId || AlreadyShares(f.shares, f.sharerId, recipientId, f.ipnsName) then f
      else Issue(f.(shares := Created(f.shares, newId,
        Share(f.sharerId, recipientId, f.ipnsName, Wrapped(recipientId, f.key), None))))
    case Revoke(id, now) =>
      if Denied(f.shares, id, f.sharerId).Some? then f
        else f.(shares := f.shares[id := f.shares[id].(revokedAt := Some(now))])
    case Modify(sent, folderKey, random, c) => Rotating(f, sent, folderKey, random, c)
  }

  /** Identifiers and random keys are fresh, and what the client's list says of shares is right. */
  ghost predicate Fresh(f: Folder, e: Event) {
    match e
    case Give(newId, _) => newId !in f.shares
    case Revoke(_, _) => true
    case Modify(sent, _, random, _) => NeverIssued(f, random) && Describes(sent, f.shares, f.sharerId)
  }

  ghost predicate RunFresh(f: Folder, events: seq<Event>)
    decreases |events|
  {
    events == [] || (Fresh(f, events[0]) && RunFresh(Next(f, events[0]), events[1..]))
  }

  /** No rotation stops between removing the share of a reader of the current key and publishing. */
  ghost predicate Remembers(f: Folder, e: Event) {
    match e
    case Modify(sent, folderKey, _, c) =>
      !(Attempted(f, c) && AllAnswered(f, sent, c) && !CanPublish(f, folderKey, c) && ForgetsReader(f, c))
    case _ => true
  }

  ghost predicate RunRemembers(f: Folder, events: seq<Event>)
    decreases |events|
  {
    events == [] || (Remembers(f, events[0]) && RunRemembers(Next(f, events[0]), events[1..]))
  }

  ghost predicate Reaches(f: Folder, e: Event) {
    match e
    case Modify(sent, folderKey, _, c) => LeavesReaders(f, sent, folderKey, c)
    case _ => true
  }

  ghost predicate RunReaches(f: Folder, events: seq<Event>)
    decreases |events|
  {
    events == [] || (Reaches(f, events[0]) && RunReaches(Next(f, events[0]), events[1..]))
  }

  function Run(f: Folder, events: seq<Event>): Folder
    decreases |events|
  {
    if events == [] then f else Run(Next(f, events[0]), events[1..])
  }

  /** A share is given unless it is with oneself or there is an active one; only a revoked record of it is replaced. */
  lemma GiveDoes(f: Folder, newId: ShareId, recipientId: UserId)
    requires newId !in f.shares
    ensures
      var after := Next(f, Give(newId, recipientId));
      var refused := recipientId == f.sharerId || exists id ::
        && id in f.shares && f.shares[id].sharerId == f.sharerId && f.shares[id].ipnsName == f.ipnsName
        && f.shares[id].recipientId == recipientId && f.shares[id].revokedAt.None?;
      if refused then after == f
      else
        && after.key == f.key && f.issued + {Wrapped(recipientId, f.key)} <= after.issued
        && newId in after.shares
        && after.shares[newId] == Share(f.sharerId, recipientId, f.ipnsName, Wrapped(recipientId, f.key), None)
        && (forall id | id in f.shares ::
              if f.shares[id].sharerId == f.sharerId && f.shares[id].ipnsName == f.ipnsName
                && f.shares[id].recipientId == recipientId
              then id !in after.shares else id in after.shares && after.shares[id] == f.shares[id])
        && (forall id | id in after.shares :: id in f.shares || id == newId)
  {
    var after := Next(f, Give(newId, recipientId));
    if after != f {
      assert OfFolder(after, newId);
    }
  }

  /** The owner's revocation dates one share, and anybody else's changes nothing. */
  lemma RevokeDoes(f: Folder, id: ShareId, now: int)
    ensures Next(f, Revoke(id, now)) ==
      if id in f.shares && f.shares[id].sharerId == f.sharerId
      then f.(shares := f.shares[id := f.shares[id].(revokedAt := Some(now))]) else f
  {
  }

  /** Giving the current key away keeps readers reading. */
  lemma GiveKeepsBase(f: Folder, newId: ShareId, recipientId: UserId)
    requires Base(f) && newId !in f.shares
    ensures Base(Next(f, Give(newId, recipientId)))
    ensures AllCanRead(f) ==> AllCanRead(Next(f, Give(newId, recipientId)))
  {
  }

  /** It keeps outsiders out. */
  lemma GiveKeeps(f: Folder, newId: ShareId, recipientId: UserId)
    requires Inv(f) && newId !in f.shares
    ensures Inv(Next(f, Give(newId, recipientId)))
  {
    var after := Next(f, Give(newId, recipientId));
    GiveKeepsBase(f, newId, recipientId);
    if after != f {
      assert OfFolder(after, newId);
      forall w | w in after.issued && w.key == after.key
        ensures Known(after, w.recipient)
      {
        if w in f.issued && w.recipient != recipientId {
          assert Known(f, w.recipient);
          var id :| OfFolder(f, id) && f.shares[id].recipientId == w.recipient;
          assert OfFolder(after, id);
        }
      }
    }
  }

  /** Revoking a share keeps the other readers reading. */
  lemma RevokeKeepsBase(f: Folder, id: ShareId, now: int)
    requires Base(f)
    ensures Base(Next(f, Revoke(id, now)))
    ensures AllCanRead(f) ==> AllCanRead(Next(f, Revoke(id, now)))
  {
    FewerIsSound(f.shares, Next(f, Revoke(id, now)).shares);
  }

  /** A revoked user stays on record until a rotation. */
  lemma RevokeKeeps(f: Folder, id: ShareId, now: int)
    requires Inv(f)
    ensures Inv(Next(f, Revoke(id, now)))
  {
    var after := Next(f, Revoke(id, now));
    RevokeKeepsBase(f, id, now);
    forall w | w in after.issued && w.key == after.key
      ensures Known(after, w.recipient)
    {
      assert Known(f, w.recipient);
      var k :| OfFolder(f, k) && f.shares[k].recipientId == w.recipient;
      assert OfFolder(after, k);
    }
  }

  /** One event keeps the metadata key from outsiders exactly when it remembers every reader. */
  lemma StepKeepsOutsidersOutIff(f: Folder, e: Event)
    requires Inv(f) && Fresh(f, e)
    ensures Inv(Next(f, e)) <==> Remembers(f, e)
  {
    match e
    case Give(newId, recipientId) => GiveKeeps(f, newId, recipientId);
    case Revoke(id, now) => RevokeKeeps(f, id, now);
    case Modify(sent, folderKey, random, c) => RotationKeepsOutsidersOutIff(f, sent, folderKey, random, c);
  }

  ghost predicate AlwaysInv(f: Folder, events: seq<Event>)
    decreases |events|
  {
    Inv(f) && (events == [] || AlwaysInv(Next(f, events[0]), events[1..]))
  }

  /**
   Over a run, with lists however stale and rotations failing anywhere, no user without a share is ever
   given the metadata key exactly when no rotation forgets a reader.
   */
  lemma {:induction false} RunKeepsOutsidersOutIff(f: Folder, events: seq<Event>)
    requires Inv(f) && RunFresh(f, events)
    ensures AlwaysInv(f, events) <==> RunRemembers(f, events)
    decreases |events|
  {
    if events != [] {
      StepKeepsOutsidersOutIff(f, events[0]);
      if Remembers(f, events[0]) {
        RunKeepsOutsidersOutIff(Next(f, events[0]), events[1..]);
      }
    }
  }

  ghost predicate AlwaysReadable(f: Folder, events: seq<Event>)
    decreases |events|
  {
    AllCanRead(f) && (events == [] || AlwaysReadable(Next(f, events[0]), events[1..]))
  }

  /** One event keeps every reader reading exactly when it reaches them all or none. */
  lemma StepKeepsReadersIff(f: Folder, e: Event)
    requires Base(f) && AllCanRead(f) && Fresh(f, e)
    ensures Base(Next(f, e))
    ensures AllCanRead(Next(f, e)) <==> Reaches(f, e)
  {
    match e
    case Give(newId, recipientId) => GiveKeepsBase(f, newId, recipientId);
    case Revoke(id, now) => RevokeKeepsBase(f, id, now);
    case Modify(sent, folderKey, random, c) =>
      RotationKeepsBase(f, sent, folderKey, random, c);
      RotationKeepsReadersIff(f, sent, folderKey, random, c);
  }

  /**
   Over a run, with lists however stale and outsiders or not, every active share opens the metadata
   throughout exactly when each rotation is not attempted, completes with a list that names every reader,
   or reaches nobody.
   */
  lemma {:induction false} RunKeepsReadersIff(f: Folder, events: seq<Event>)
    requires Base(f) && AllCanRead(f) && RunFresh(f, events)
    ensures AlwaysReadable(f, events) <==> RunReaches(f, events)
    decreases |events|
  {
    if events != [] {
      StepKeepsReadersIff(f, events[0]);
      if Reaches(f, events[0]) {
        RunKeepsReadersIff(Next(f, events[0]), events[1..]);
      }
    }
  }

  /** So with such rotations that forget no reader a run ends with all readers in and outsiders out. */
  lemma RunKeepsInv(f: Folder, events: seq<Event>)
    requires Inv(f) && AllCanRead(f) && RunFresh(f, events)
    requires RunRemembers(f, events) && RunReaches(f, events)
    ensures Inv(Run(f, events)) && AllCanRead(Run(f, events))
  {
    RunKeepsReadersIff(f, events);
    RunKeepsOutsidersOutIff(f, events);
    AlwaysAtTheEnd(f, events);
  }

  lemma {:induction false} AlwaysAtTheEnd(f: Folder, events: seq<Event>)
    requires AlwaysInv(f, events) && AlwaysReadable(f, events)
    ensures Inv(Run(f, events)) && AllCanRead(Run(f, events))
    decreases |events|
  {
    if events != [] {
      AlwaysAtTheEnd(Next(f, events[0]), events[1..]);
    }
  }
}
