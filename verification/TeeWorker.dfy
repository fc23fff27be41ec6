/**
 The signing worker: epoch fallback, re-encryption, and the per-entry loop of its
 republish route. ECIES is modelled as a value tagged with the epoch it was made for.
 */
module TeeWorker {
  import opened Common

  /** An ECIES ciphertext of an IPNS key under the public key of an epoch. */
  datatype Sealed = Sealed(epoch: nat, key: seq<byte>)

  datatype Entry = Entry(
    encryptedIpnsKey: Sealed,
    keyEpoch: nat,
    ipnsName: string,
    latestCid: string,
    sequenceNumber: nat,
    currentEpoch: nat,
    previousEpoch: Option<nat>)

  /** A record signed with a key over a CID and a sequence number. */
  datatype SignedRecord = SignedRecord(key: seq<byte>, cid: string, sequence: nat)

  datatype Reply = Reply(
    ipnsName: string,
    success: bool,
    signedRecord: Option<SignedRecord>,
    newSequenceNumber: Option<nat>,
    upgradedEncryptedKey: Option<Sealed>,
    upgradedKeyEpoch: Option<nat>)

  /** The epoch whose key opens the ciphertext: the current one first, then the previous one. */
  function UsableEpoch(c: Sealed, currentEpoch: nat, previousEpoch: Option<nat>): Option<nat> {
    if c.epoch == currentEpoch then Some(currentEpoch)
    else if previousEpoch == Some(c.epoch) then previousEpoch
    else None
  }

  /** The one reply to an entry; signing or re-encrypting may still fail. */
  function SignEntry(e: Entry, signable: bool): Reply {
    var usedEpoch := UsableEpoch(e.encryptedIpnsKey, e.currentEpoch, e.previousEpoch);
    if usedEpoch.None? || !signable then Reply(e.ipnsName, false, None, None, None, None)
    else
      var key, seqNo := e.encryptedIpnsKey.key, e.sequenceNumber + 1;
      var upgrade := usedEpoch.value != e.currentEpoch;
      Reply(e.ipnsName, true, Some(SignedRecord(key, e.latestCid, seqNo)), Some(seqNo),
        if upgrade then Some(Sealed(e.currentEpoch, key)) else None,
        if upgrade then Some(e.currentEpoch) else None)
  }

  // ---------------------------------------------------------------- key buffers

  type Secret = s: seq<byte> | |s| == 32 witness seq(32, _ => 0)

  /** Key pairs of different epochs differ. */
  ghost predicate KeysDiffer(secrets: nat -> Secret) {
    forall a, b :: secrets(a) == secrets(b) ==> a == b
  }

  /** The buffers one entry's handling fills: the private halves of both key pairs, and the IPNS key. */
  datatype Buffers = Buffers(current: array<byte>, previous: array<byte>, ipnsKey: array<byte>)

  function Arrays(b: Buffers): set<array<byte>> {
    {b.current, b.previous, b.ipnsKey}
  }

  predicate Fit(b: Buffers, c: Sealed) {
    && b.current != b.previous && b.current != b.ipnsKey && b.previous != b.ipnsKey
    && b.current.Length == 32 && b.previous.Length == 32 && b.ipnsKey.Length == |c.key|
  }

  /** The previous epoch's key pair is fetched only after the current one failed. */
  predicate FallsBack(c: Sealed, currentEpoch: nat, previousEpoch: Option<nat>) {
    c.epoch != currentEpoch && previousEpoch.Some?
  }

  method Fill(buffer: array<byte>, bs: seq<byte>)
    requires buffer.Length == |bs|
    modifies buffer
    ensures buffer[..] == bs
  {
    forall i | 0 <= i < |bs| {
      buffer[i] := bs[i];
    }
  }

  /** ECIES decryption: the key pair of the epoch it was sealed for opens a ciphertext, and no other does. */
  method Decrypt(privateKey: array<byte>, c: Sealed, secrets: nat -> Secret, plain: array<byte>) returns (ok: bool)
    requires plain.Length == |c.key| && plain != privateKey
    modifies plain
    ensures ok <==> privateKey[..] == secrets(c.epoch)
    ensures plain[..] == if ok then c.key else old(plain[..])
  {
    ok := privateKey[..] == secrets(c.epoch);
    if ok {
      Fill(plain, c.key);
    }
  }

  /** Decrypt with one epoch's key pair, whose private half is zeroed on the way out. */
  method DecryptIpnsKey(c: Sealed, epoch: nat, secrets: nat -> Secret, keypair: array<byte>, plain: array<byte>)
    returns (ok: bool)
    requires KeysDiffer(secrets)
    requires keypair.Length == 32 && plain.Length == |c.key| && keypair != plain
    modifies keypair, plain
    ensures ok <==> c.epoch == epoch
    ensures plain[..] == if ok then c.key else old(plain[..])
    ensures AllZero(keypair[..])
  {
    Fill(keypair, secrets(epoch));
    ok := Decrypt(keypair, c, secrets, plain);
    FillZero(keypair);
  }

  method DecryptWithFallback(
    c: Sealed, currentEpoch: nat, previousEpoch: Option<nat>, secrets: nat -> Secret, b: Buffers)
    returns (usedEpoch: Option<nat>)
    requires KeysDiffer(secrets) && Fit(b, c)
    modifies Arrays(b)
    ensures usedEpoch == UsableEpoch(c, currentEpoch, previousEpoch)
    ensures b.ipnsKey[..] == if usedEpoch.Some? then c.key else old(b.ipnsKey[..])
    ensures AllZero(b.current[..])
    ensures if FallsBack(c, currentEpoch, previousEpoch) then AllZero(b.previous[..])
            else b.previous[..] == old(b.previous[..])
  {
    var ok := DecryptIpnsKey(c, currentEpoch, secrets, b.current, b.ipnsKey);
    if ok {
      return Some(currentEpoch);
    }
    if previousEpoch.Some? {
      ok := DecryptIpnsKey(c, previousEpoch.value, secrets, b.previous, b.ipnsKey);
      if ok {
        return previousEpoch;
      }
    }
    return None;
  }

  /** Every buffer the entry's handling filled is zero. */
  ghost predicate Cleared(b: Buffers, e: Entry)
    reads Arrays(b)
  {
    var c := e.encryptedIpnsKey;
    && AllZero(b.current[..])
    && (FallsBack(c, e.currentEpoch, e.previousEpoch) ==> AllZero(b.previous[..]))
    && (UsableEpoch(c, e.currentEpoch, e.previousEpoch).Some? ==> AllZero(b.ipnsKey[..]))
  }

  /** Those are the current key pair's, the previous one's after a fallback, and the IPNS key's once it was opened. */
  lemma ClearedIff(b: Buffers, e: Entry)
    ensures var sealedFor := e.encryptedIpnsKey.epoch;
      Cleared(b, e) <==>
        && AllZero(b.current[..])
        && (e.previousEpoch.Some? && sealedFor != e.currentEpoch ==> AllZero(b.previous[..]))
        && (sealedFor == e.currentEpoch || e.previousEpoch == Some(sealedFor) ==> AllZero(b.ipnsKey[..]))
  {
  }

  /** One turn of the route's loop; the IPNS key is zeroed whether signing succeeds or fails. */
  method HandleEntry(e: Entry, signable: bool, secrets: nat -> Secret, b: Buffers) returns (reply: Reply)
    requires KeysDiffer(secrets) && Fit(b, e.encryptedIpnsKey)
    modifies Arrays(b)
    ensures reply == SignEntry(e, signable)
    ensures Cleared(b, e)
  {
    var usedEpoch := DecryptWithFallback(e.encryptedIpnsKey, e.currentEpoch, e.previousEpoch, secrets, b);
    reply := Reply(e.ipnsName, false, None, None, None, None);
    if usedEpoch.Some? {
      if signable {
        var newSequenceNumber := e.sequenceNumber + 1;
        var signedRecord := SignedRecord(b.ipnsKey[..], e.latestCid, newSequenceNumber);
        reply := Reply(e.ipnsName, true, Some(signedRecord), Some(newSequenceNumber), None, None);
        if usedEpoch.value != e.currentEpoch {
          var reEncrypted := Sealed(e.currentEpoch, b.ipnsKey[..]);
          reply := reply.(upgradedEncryptedKey := Some(reEncrypted), upgradedKeyEpoch := Some(e.currentEpoch));
        }
      }
      FillZero(b.ipnsKey);
    }
  }

  // ---------------------------------------------------------------- the route

  /** What the route returns: one reply an entry, in order. */
  function Replies(entries: seq<Entry>, signable: nat -> bool): (rs: seq<Reply>)
    ensures |rs| == |entries|
    ensures forall i :: 0 <= i < |entries| ==> rs[i] == SignEntry(entries[i], signable(i))
  {
    seq(|entries|, i requires 0 <= i < |entries| => SignEntry(entries[i], signable(i)))
  }

  function Successes(rs: seq<Reply>): (n: nat)
    ensures n <= |rs|
  {
    if rs == [] then 0 else Successes(rs[..|rs| - 1]) + if rs[|rs| - 1].success then 1 else 0
  }

  /** The count is that of the successful replies. */
  lemma {:induction false} SuccessesAre(rs: seq<Reply>)
    ensures Successes(rs) == |set i | 0 <= i < |rs| && rs[i].success|
  {
    var all := set i | 0 <= i < |rs| && rs[i].success;
    if rs != [] {
      var n := |rs| - 1;
      var before := set i | 0 <= i < |rs[..n]| && rs[..n][i].success;
      SuccessesAre(rs[..n]);
      assert all == before + if rs[n].success then {n} else {};
    }
  }

  /** Each entry is processed on its own, and every private key buffer the call fills ends up zeroed. */
  method Republish(
    entries: seq<Entry>, signable: nat -> bool, secrets: nat -> Secret, buffers: seq<Buffers>,
      ghost all: set<array<byte>>)
    returns (results: seq<Reply>, successes: nat, failures: nat)
    requires KeysDiffer(secrets) && |buffers| == |entries|
    requires forall i :: 0 <= i < |entries| ==> Fit(buffers[i], entries[i].encryptedIpnsKey)
    requires forall i :: 0 <= i < |entries| ==> Arrays(buffers[i]) <= all
    requires forall i, j :: 0 <= i < j < |buffers| ==> Arrays(buffers[i]) !! Arrays(buffers[j])
    modifies all
    ensures results == Replies(entries, signable)
    ensures successes == Successes(results) && failures == |entries| - successes
    ensures forall i :: 0 <= i < |entries| ==> Cleared(buffers[i], entries[i])
  {
    results, successes, failures := [], 0, 0;
    for i := 0 to |entries|
      invariant results == Replies(entries, signable)[..i]
      invariant successes == Successes(results) && failures == i - successes
      invariant forall k :: 0 <= k < i ==> Cleared(buffers[k], entries[k])
    {
      var reply := HandleEntry(entries[i], signable(i), secrets, buffers[i]);
      assert (results + [reply])[..i] == results;
      results := results + [reply];
      if reply.success {
        successes := successes + 1;
      } else {
        failures := failures + 1;
      }
    }
  }

  /**
   An entry is signed exactly when the current or the previous epoch opens its key; the record is over the stored CID
   and the next sequence number, and the key comes back sealed for the current epoch exactly when it was not before.
   */
  lemma ReplyKeepsKey(e: Entry, signable: bool)
    ensures var c, r := e.encryptedIpnsKey, SignEntry(e, signable);
      && r.ipnsName == e.ipnsName
      && (r.success <==> signable && (c.epoch == e.currentEpoch || e.previousEpoch == Some(c.epoch)))
      && (r.success ==> r.signedRecord == Some(SignedRecord(c.key, e.latestCid, e.sequenceNumber + 1)))
      && (r.success ==> r.newSequenceNumber == Some(e.sequenceNumber + 1))
      && (!r.success ==> r.signedRecord.None? && r.newSequenceNumber.None?)
      && r.upgradedEncryptedKey ==
           (if r.success && c.epoch != e.currentEpoch then Some(Sealed(e.currentEpoch, c.key)) else None)
      && r.upgradedKeyEpoch == (if r.success && c.epoch != e.currentEpoch then Some(e.currentEpoch) else None)
  {
  }
}
