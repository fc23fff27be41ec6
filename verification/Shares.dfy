/** Share records on the server, and the client's lazy rotation of a folder key after a revocation. */
module Shares {
  import opened Common

  type ShareId = string
  type UserId = string

  /** An ECIES ciphertext of a folder key for one user; only that user's private key opens it. */
  datatype Wrapped = Wrapped(recipient: UserId, key: seq<byte>)

  datatype Share = Share(
    sharerId: UserId,
    recipientId: UserId,
    ipnsName: string,
    encryptedKey: Wrapped,
    revokedAt: Option<int>)

  type Table = map<ShareId, Share>

  datatype ShareError = NotFound | Forbidden | SelfShare | AlreadyShared | NotRevoked

  predicate Active(s: Share) {
    s.revokedAt.None?
  }

  predicate SameTriple(s: Share, t: Share) {
    s.sharerId == t.sharerId && s.recipientId == t.recipientId && s.ipnsName == t.ipnsName
  }

  /** At most one share, active or revoked, for a sharer, recipient and item, and nobody shares with themselves. */
  ghost predicate Sound(shares: Table) {
    && (forall a, b {:trigger SameTriple(shares[a], shares[b])} | a in shares && b in shares && a != b ::
      !SameTriple(shares[a], shares[b]))
    && (forall a | a in shares :: shares[a].sharerId != shares[a].recipientId)
  }

  /** Shares by this user of this item that are revoked and not yet removed. */
  predicate Pending(s: Share, sharerId: UserId, ipnsName: string) {
    s.sharerId == sharerId && s.ipnsName == ipnsName && !Active(s)
  }

  predicate Current(s: Share, sharerId: UserId, ipnsName: string) {
    s.sharerId == sharerId && s.ipnsName == ipnsName && Active(s)
  }

  predicate AlreadyShares(shares: Table, sharerId: UserId, recipientId: UserId, ipnsName: string) {
    exists a :: a in shares && Current(shares[a], sharerId, ipnsName) && shares[a].recipientId == recipientId
  }

  function PendingIds(shares: Table, sharerId: UserId, ipnsName: string): set<ShareId> {
    set id | id in shares && Pending(shares[id], sharerId, ipnsName)
  }

  class SharesService {
    var shares: Table

    constructor ()
      ensures shares == map[] && Sound(shares)
    {
      shares := map[];
    }

    /** A new share replaces revoked records of its triple and never doubles an active one. */
    method CreateShare(
      newId: ShareId, sharerId: UserId, recipient: Option<UserId>, ipnsName: string, encryptedKey: Wrapped)
      returns (error: Option<ShareError>)
      requires Sound(shares) && newId !in shares
      modifies this
      ensures Sound(shares)
      ensures error == Some(NotFound) <==> recipient.None?
      ensures error == Some(SelfShare) <==> recipient == Some(sharerId)
      ensures error == Some(AlreadyShared) <==>
        && recipient.Some? && recipient.value != sharerId
        && exists a ::
             && a in old(shares) && old(shares)[a].sharerId == sharerId && old(shares)[a].ipnsName == ipnsName
             && old(shares)[a].recipientId == recipient.value && old(shares)[a].revokedAt.None?
      ensures error in {None, Some(NotFound), Some(SelfShare), Some(AlreadyShared)}
      ensures error.Some? ==> shares == old(shares)
      ensures error.None? ==>
        newId in shares && shares[newId] == Share(sharerId, recipient.value, ipnsName, encryptedKey, None)
      ensures error.None? ==> forall a | a in old(shares) ::
        && (a in shares ==> shares[a] == old(shares)[a])
        && (a !in shares <==>
              && old(shares)[a].sharerId == sharerId && old(shares)[a].ipnsName == ipnsName
              && old(shares)[a].recipientId == recipient.value && old(shares)[a].revokedAt.Some?)
      ensures error.None? ==> forall a | a in shares :: a in old(shares) || a == newId
      ensures error.None? ==>
        shares == Created(old(shares), newId, Share(sharerId, recipient.value, ipnsName, encryptedKey, None))
    {
      if recipient.None? {
        return Some(NotFound);
      }
      if recipient.value == sharerId {
        return Some(SelfShare);
      }
      var share := Share(sharerId, recipient.value, ipnsName, encryptedKey, None);
      if AlreadyShares(shares, sharerId, recipient.value, ipnsName) {
        return Some(AlreadyShared);
      }
      shares := map a | a in shares && !(SameTriple(shares[a], share) && !Active(shares[a])) :: shares[a];
      FewerIsSound(old(shares), shares);
      assert forall a | a in shares :: !SameTriple(shares[a], share) && !SameTriple(share, shares[a]);
      shares := shares[newId := share];
      assert shares == Created(old(shares), newId, share);
      return None;
    }

    method RevokeShare(id: ShareId, sharerId: UserId, now: int) returns (error: Option<ShareError>)
      requires Sound(shares)
      modifies this
      ensures Sound(shares)
      ensures error == Denied(old(shares), id, sharerId)
      ensures error == if id !in old(shares) then Some(NotFound)
        else if old(shares)[id].sharerId != sharerId then Some(Forbidden) else None
      ensures shares == if error.Some? then old(shares) else old(shares)[id := old(shares)[id].(revokedAt := Some(now))]
    {
      error := Denied(shares, id, sharerId);
      if error.None? {
        shares := shares[id := shares[id].(revokedAt := Some(now))];
        FewerIsSound(old(shares), shares);
      }
    }

    /** Remove a revoked share for good. */
    method CompleteRotation(id: ShareId, sharerId: UserId) returns (error: Option<ShareError>)
      modifies this
      ensures Sound(old(shares)) ==> Sound(shares)
      ensures error == if id !in old(shares) then Some(NotFound)
        else if old(shares)[id].sharerId != sharerId then Some(Forbidden)
        else if old(shares)[id].revokedAt.None? then Some(NotRevoked) else None
      ensures shares == if error.Some? then old(shares) else old(shares) - {id}
    {
      error := Denied(shares, id, sharerId);
      if error.Some? {
        return;
      }
      if Active(shares[id]) {
        return Some(NotRevoked);
      }
      shares := shares - {id};
      FewerIsSound(old(shares), shares);
    }

    /** The user's revoked shares of every item, in some order. */
    method GetPendingRotations(sharerId: UserId) returns (pending: seq<ShareId>)
      ensures forall id :: id in pending <==> id in shares && shares[id].sharerId == sharerId && !Active(shares[id])
    {
      pending := [];
      var unread := shares.Keys;
      while unread != {}
        invariant unread <= shares.Keys
        invariant forall id ::
          id in pending <==>
            id in shares.Keys - unread && shares[id].sharerId == sharerId && !Active(shares[id])
        decreases unread
      {
        var id :| id in unread;
        unread := unread - {id};
        if shares[id].sharerId == sharerId && !Active(shares[id]) {
          pending := pending + [id];
        }
      }
    }

    method UpdateShareEncryptedKey(
      id: ShareId, sharerId: UserId, encryptedKey: Wrapped)
      returns (error: Option<ShareError>)
      modifies this
      ensures Sound(old(shares)) ==> Sound(shares)
      ensures error == Denied(old(shares), id, sharerId)
      ensures error == if id !in old(shares) then Some(NotFound)
        else if old(shares)[id].sharerId != sharerId then Some(Forbidden) else None
      ensures shares == if error.Some? then old(shares)
        else old(shares)[id := old(shares)[id].(encryptedKey := encryptedKey)]
    {
      error := Denied(shares, id, sharerId);
      if error.None? {
        shares := shares[id := shares[id].(encryptedKey := encryptedKey)];
        FewerIsSound(old(shares), shares);
      }
    }
  }

  /** Removing shares, or changing keys and revocation dates, keeps the table sound. */
  lemma FewerIsSound(before: Table, after: Table)
    requires forall id | id in after :: id in before && SameTriple(before[id], after[id])
    ensures Sound(before) ==> Sound(after)
  {
    forall a, b | Sound(before) && a in after && b in after && a != b
      ensures !SameTriple(after[a], after[b])
    {
      assert !SameTriple(before[a], before[b]);
    }
  }

  /** The table with a new share in place of every earlier record of its triple. */
  function Created(shares: Table, newId: ShareId, share: Share): Table {
    (map a | a in shares && !SameTriple(shares[a], share) :: shares[a])[newId := share]
  }

  /** The lookup and ownership checks that open every change to a share. */
  function Denied(shares: Table, id: ShareId, sharerId: UserId): Option<ShareError> {
    if id !in shares then Some(NotFound)
    else if shares[id].sharerId != sharerId then Some(Forbidden)
    else None
  }

  // ---------------------------------------------------------------- the client's lists

  /** An entry of the client's cached list of sent shares. */
  datatype SentShare = SentShare(shareId: ShareId, recipientId: UserId, ipnsName: string)

  /** What the list says of shares the server still has is right. */
  ghost predicate Describes(sent: seq<SentShare>, shares: Table, sharerId: UserId) {
    forall s | s in sent && s.shareId in shares ::
      var r := shares[s.shareId];
      r.sharerId == sharerId && r.recipientId == s.recipientId && r.ipnsName == s.ipnsName
  }

  /** Up to date: exactly the active shares the user sent are on the list. */
  ghost predicate UpToDate(sent: seq<SentShare>, shares: Table, sharerId: UserId) {
    && Describes(sent, shares, sharerId)
    && (forall s | s in sent :: s.shareId in shares && Active(shares[s.shareId]))
    && (forall id | id in shares && shares[id].sharerId == sharerId && Active(shares[id]) ::
          SentShare(id, shares[id].recipientId, shares[id].ipnsName) in sent)
  }

  /** Listed shares of the item that are not pending: the recipients who keep access. */
  function Remaining(sent: seq<SentShare>, ipnsName: string, revoked: set<ShareId>): (r: seq<SentShare>)
    ensures forall s :: s in r <==> s in sent && s.ipnsName == ipnsName && s.shareId !in revoked
  {
    if sent == [] then []
    else
      var rest := Remaining(sent[..|sent| - 1], ipnsName, revoked);
      var last := sent[|sent| - 1];
      assert sent == sent[..|sent| - 1] + [last];
      if last.ipnsName == ipnsName && last.shareId !in revoked then rest + [last] else rest
  }

  // ---------------------------------------------------------------- rotation on values

  function Reached(remaining: seq<SentShare>, lost: set<ShareId>): set<ShareId> {
    set s | s in remaining && s.shareId !in lost :: s.shareId
  }

  /** Some recipient's re-wrap request fails for the client: it or its answer is lost, or the share is gone. */
  predicate Aborts(shares: Table, remaining: seq<SentShare>, lost: set<ShareId>, unheard: set<ShareId>) {
    exists s :: s in remaining && (s.shareId in lost || s.shareId in unheard || s.shareId !in shares)
  }

  function RewrapTo(shares: Table, reached: set<ShareId>, key: seq<byte>): (r: Table)
    ensures r.Keys == shares.Keys
  {
    map id | id in shares :: if id in reached then shares[id].(encryptedKey := Wrapped(shares[id].recipientId, key))
      else shares[id]
  }

  /**
   The server's shares after a lazy rotation in which requests about `lost` shares do not reach the server
   and answers about `unheard` shares do not reach the client.
   */
  function RotationShares(
    shares: Table, remaining: seq<SentShare>, revoked: set<ShareId>, lost: set<ShareId>, unheard: set<ShareId>,
    key: seq<byte>)
    : Table
  {
    var rewrapped := RewrapTo(shares, Reached(remaining, lost), key);
    if Aborts(shares, remaining, lost, unheard) then rewrapped else rewrapped - (revoked - lost)
  }

  // ---------------------------------------------------------------- the client's requests

  /** Re-wrap the key for every remaining recipient; true when no request failed. */
  method RewrapAll(
    service: SharesService, sharerId: UserId, remaining: seq<SentShare>, key: seq<byte>, lost: set<ShareId>,
    unheard: set<ShareId>)
    returns (ok: bool)
    requires Describes(remaining, service.shares, sharerId)
    modifies service
    ensures service.shares == RewrapTo(old(service.shares), Reached(remaining, lost), key)
    ensures ok == !Aborts(old(service.shares), remaining, lost, unheard)
  {
    var failures: seq<ShareId> := [];
    ghost var before := service.shares;
    assert service.shares == RewrapTo(before, Reached(remaining[..0], lost), key);
    for i := 0 to |remaining|
      invariant service.shares == RewrapTo(before, Reached(remaining[..i], lost), key)
      invariant (failures == []) == !Aborts(before, remaining[..i], lost, unheard)
    {
      var share := remaining[i];
      RewrapNext(before, remaining, i, lost, unheard, key);
      if share.shareId in lost {
        failures := failures + [share.shareId];
      } else {
        assert service.shares.Keys == before.Keys;
        var error := service.UpdateShareEncryptedKey(share.shareId, sharerId, Wrapped(share.recipientId, key));
        if error.Some? || share.shareId in unheard {
          failures := failures + [share.shareId];
        }
      }
    }
    assert remaining[..|remaining|] == remaining;
    ok := failures == [];
  }

  /** One more request: it changes its share unless it is lost or the share is gone. */
  lemma RewrapNext(
    shares: Table, remaining: seq<SentShare>, i: nat, lost: set<ShareId>, unheard: set<ShareId>, key: seq<byte>)
    requires i < |remaining|
    ensures var id := remaining[i].shareId;
      RewrapTo(shares, Reached(remaining[..i + 1], lost), key) ==
        var done := RewrapTo(shares, Reached(remaining[..i], lost), key);
        if id in lost || id !in shares then done
        else done[id := done[id].(encryptedKey := Wrapped(shares[id].recipientId, key))]
    ensures var id := remaining[i].shareId;
      Aborts(shares, remaining[..i + 1], lost, unheard) <==>
        Aborts(shares, remaining[..i], lost, unheard) || id in lost || id in unheard || id !in shares
  {
    var id := remaining[i].shareId;
    assert remaining[..i + 1] == remaining[..i] + [remaining[i]];
    assert Reached(remaining[..i + 1], lost) == Reached(remaining[..i], lost) + (if id in lost then {} else {id});
    if Aborts(shares, remaining[..i], lost, unheard) {
      var s :| s in remaining[..i] && (s.shareId in lost || s.shareId in unheard || s.shareId !in shares);
      assert s in remaining[..i + 1];
    }
    if id in lost || id in unheard || id !in shares {
      assert remaining[i] in remaining[..i + 1];
    }
  }

  function IdsIn(ids: seq<ShareId>): set<ShareId> {
    set id | id in ids
  }

  /** Hard-delete the revoked shares; a lost request leaves its share pending. */
  method CompleteAll(service: SharesService, sharerId: UserId, revoked: seq<ShareId>, lost: set<ShareId>)
    requires forall id | id in revoked ::
      id in service.shares && service.shares[id].sharerId == sharerId && !Active(service.shares[id])
    modifies service
    ensures service.shares == old(service.shares) - (IdsIn(revoked) - lost)
  {
    ghost var before := service.shares;
    assert service.shares == before - (IdsIn(revoked[..0]) - lost);
    for i := 0 to |revoked|
      invariant service.shares == before - (IdsIn(revoked[..i]) - lost)
    {
      assert revoked[..i + 1] == revoked[..i] + [revoked[i]];
      assert IdsIn(revoked[..i + 1]) == IdsIn(revoked[..i]) + {revoked[i]};
      if revoked[i] !in lost {
        var _ := service.CompleteRotation(revoked[i], sharerId);
      }
    }
    assert revoked[..|revoked|] == revoked;
  }

  /** `executeLazyRotation`. Not ok when the rotation aborts. */
  method ExecuteLazyRotation(
    service: SharesService, sharerId: UserId, sent: seq<SentShare>, ipnsName: string, random: seq<byte>,
    lost: set<ShareId>, unheard: set<ShareId>)
    returns (newFolderKey: array<byte>, ok: bool)
    requires Describes(sent, service.shares, sharerId)
    modifies service
    ensures fresh(newFolderKey)
    ensures var revoked := PendingIds(old(service.shares), sharerId, ipnsName);
      var remaining := Remaining(sent, ipnsName, revoked);
      && service.shares == RotationShares(old(service.shares), remaining, revoked, lost, unheard, random)
      && ok == !Aborts(old(service.shares), remaining, lost, unheard)
    ensures if ok then newFolderKey[..] == random else AllZero(newFolderKey[..])
  {
    newFolderKey := new byte[|random|](i requires 0 <= i < |random| => random[i]);
    assert newFolderKey[..] == random;
    var pending := service.GetPendingRotations(sharerId);
    var revoked := OfItem(pending, service.shares, ipnsName);
    var remaining := Remaining(sent, ipnsName, IdsIn(revoked));
    ghost var before := service.shares;
    assert IdsIn(revoked) == PendingIds(before, sharerId, ipnsName);
    ok := RewrapAll(service, sharerId, remaining, newFolderKey[..], lost, unheard);
    if !ok {
      FillZero(newFolderKey);
      return;
    }
    CompleteAll(service, sharerId, revoked, lost);
  }

  function OfItem(pending: seq<ShareId>, shares: Table, ipnsName: string): (r: seq<ShareId>)
    requires forall id | id in pending :: id in shares
    ensures forall id :: id in r <==> id in pending && shares[id].ipnsName == ipnsName
  {
    if pending == [] then []
    else
      var rest := OfItem(pending[1..], shares, ipnsName);
      assert pending == [pending[0]] + pending[1..];
      if shares[pending[0]].ipnsName == ipnsName then [pending[0]] + rest else rest
  }

  // ---------------------------------------------------------------- rotation of one folder

  /** Folder metadata as last published: the key it is encrypted under and its plaintext listing. */
  datatype Published<C> = Published(key: seq<byte>, children: C)

  /**
   What the attempt met: a keypair in memory, shares about which a request does not reach the server or its
   answer not the client, whether the IPNS name resolved, whether the new metadata was published, and
   whether the client was told so.
   */
  datatype Conditions = Conditions(
    hasKeypair: bool,
    lost: set<ShareId>,
    unheard: set<ShareId>,
    resolves: bool,
    publishes: bool,
    confirmed: bool)

  datatype Rotation = Rotation(shares: Table, key: seq<byte>, outcome: RotationOutcome)

  datatype RotationOutcome = NotRotated | Rotated | Aborted | NotPublished

  /** Shares and metadata key after `checkAndRotateIfNeeded` by a client that holds `folderKey`. */
  function Rotate(
    shares: Table, key: seq<byte>, folderKey: seq<byte>, sharerId: UserId, ipnsName: string, sent: seq<SentShare>,
    random: seq<byte>, c: Conditions)
    : Rotation
  {
    var revoked := PendingIds(shares, sharerId, ipnsName);
    var remaining := Remaining(sent, ipnsName, revoked);
    var rotated := RotationShares(shares, remaining, revoked, c.lost, c.unheard, random);
    if revoked == {} || !c.hasKeypair then Rotation(shares, key, NotRotated)
    else if Aborts(shares, remaining, c.lost, c.unheard) then Rotation(rotated, key, Aborted)
    else if !c.resolves || folderKey != key || !c.publishes then Rotation(rotated, key, NotPublished)
    else Rotation(rotated, random, Rotated)
  }

  method CheckAndRotateIfNeeded<C>(service: SharesService, sharerId: UserId, sent: seq<SentShare>, ipnsName: string,
                                   folderKey: array<byte>, published: Published<C>, random: seq<byte>, c: Conditions)
    returns (result: Option<(array<byte>, bool)>, after: Published<C>)
    requires Describes(sent, service.shares, sharerId)
    modifies service
    ensures var r := Rotate(old(service.shares), published.key, folderKey[..], sharerId, ipnsName, sent, random, c);
      && service.shares == r.shares
      && after == Published(r.key, published.children)
      && (result.Some? <==> r.outcome.NotRotated? || (r.outcome.Rotated? && c.confirmed))
      && (r.outcome.NotRotated? ==> result == Some((folderKey, false)))
      && (r.outcome.Rotated? && c.confirmed ==> result.value.1 && result.value.0[..] == random)
  {
    var pending := service.GetPendingRotations(sharerId);
    var revoked := OfItem(pending, service.shares, ipnsName);
    assert IdsIn(revoked) == PendingIds(service.shares, sharerId, ipnsName);
    if |revoked| == 0 {
      return Some((folderKey, false)), published;
    }
    assert revoked[0] in PendingIds(service.shares, sharerId, ipnsName);
    if !c.hasKeypair {
      return Some((folderKey, false)), published;
    }
    var newFolderKey, ok := ExecuteLazyRotation(service, sharerId, sent, ipnsName, random, c.lost, c.unheard);
    if !ok || !c.resolves || folderKey[..] != published.key {
      return None, published;
    }
    var children := published.children;
    if !c.publishes {
      return None, published;
    }
    result := if c.confirmed then Some((newFolderKey, true)) else None;
    after := Published(newFolderKey[..], children);
  }
}
