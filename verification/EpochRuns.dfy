/**
 Every run of key rotations, deprecations, enrolments and republish batches, with the
 schedule, the key state and the worker taken together.
 */
module EpochRuns {
  import opened Common
  import opened TeeWorker
  import opened TeeKeyState
  import opened Republish

  /**
   The stored rows and keys, with a history: the rows republished or enrolled under the
   current epoch since the last rotation, and for each row the sequence number and the
   CID it was last enrolled with and its successes since.
   */
  datatype System = System(
    rows: Schedule,
    keys: Keys,
    refreshed: set<Key>,
    enrolledAt: map<Key, nat>,
    enrolledCid: map<Key, string>,
    successes: map<Key, nat>)

  datatype Event =
    | Initialize(epoch: nat, publicKey: seq<byte>)
    | Rotate(newEpoch: nat, publicKey: seq<byte>, now: int)
    | Deprecate(now: int)
    | Enroll(key: Key, sealedKey: Sealed, keyEpoch: nat, latestCid: string, sequenceNumber: nat, now: int)
    | Unenroll(key: Key)
    | Reactivate(now: int)
    | Batch(due: set<Key>, answered: set<Key>, signable: set<Key>, published: set<Key>, now: int)

  // ---------------------------------------------------------------- batches by row

  function BatchReply(s: System, e: Event, k: Key): Option<Reply>
    requires e.Batch? && k in s.rows && s.keys.row.Some?
  {
    if k in e.answered
    then Some(SignEntry(PayloadOf(k, s.rows[k], s.keys.row.value.currentEpoch, s.keys.row.value.previousEpoch),
      k in e.signable))
    else None
  }

  function Won(s: System, e: Event): set<Key>
    requires e.Batch? && s.keys.row.Some?
  {
    set k | k in s.rows && k in e.due && k in e.published && Usable(BatchReply(s, e, k))
  }

  function BatchRows(s: System, e: Event): Schedule
    requires e.Batch? && s.keys.row.Some?
  {
    map k | k in s.rows ::
      if k in e.due then Settle(s.rows[k], BatchReply(s, e, k), k in e.published, e.now) else s.rows[k]
  }

  /** The keys at the positions picked. */
  ghost function Picked(due: seq<Key>, picked: nat -> bool): set<Key> {
    set i: nat | i < |due| && picked(i) :: due[i]
  }

  /** In a list without repetitions a key is picked exactly by its own position. */
  lemma PickedAt(due: seq<Key>, picked: nat -> bool, i: nat)
    requires Distinct(due) && i < |due|
    ensures due[i] in Picked(due, picked) <==> picked(i)
  {
  }

  ghost function BatchEvent(
    due: seq<Key>, answers: seq<Answer>, signs: nat -> bool, publishes: set<nat>, now: int)
    : (e: Event)
    ensures e.Batch?
  {
    Batch(Picked(due, (i: nat) => true), Picked(due, (i: nat) => ReplyFor(answers, i).Some?), Picked(due, signs),
      Picked(due, (i: nat) => i in publishes), now)
  }

  lemma BatchEventRow(
    s: System, due: seq<Key>, answers: seq<Answer>, signs: nat -> bool, publishes: set<nat>, now: int, i: nat)
    requires s.keys.row.Some? && Listed(due, s.rows) && Distinct(due) && i < |due|
    requires AnsweredByWorker(s.rows, due, (s.keys.row.value.currentEpoch, s.keys.row.value.previousEpoch), answers,
      signs)
    ensures BatchRows(s, BatchEvent(due, answers, signs, publishes, now))[due[i]]
         == Settle(s.rows[due[i]], ReplyFor(answers, i), i in publishes, now)
  {
    ReplySignsEntry(s.rows, due, (s.keys.row.value.currentEpoch, s.keys.row.value.previousEpoch), answers,
      signs, i);
    PickedAt(due, (i: nat) => true, i);
    PickedAt(due, (i: nat) => ReplyFor(answers, i).Some?, i);
    PickedAt(due, signs, i);
    PickedAt(due, (i: nat) => i in publishes, i);
  }

  /** What the service's batch loop leaves, when the worker answers it, is a batch event, row by row. */
  lemma ServiceBatchIsEvent(
    s: System, after: Schedule, due: seq<Key>, answers: seq<Answer>, signs: nat -> bool, publishes: set<nat>, now: int)
    requires s.keys.row.Some? && Listed(due, s.rows) && Distinct(due)
    requires AnsweredByWorker(s.rows, due, (s.keys.row.value.currentEpoch, s.keys.row.value.previousEpoch), answers,
      signs)
    requires SettledUpTo(s.rows, after, due, answers, publishes, now, |due|)
    ensures after == BatchRows(s, BatchEvent(due, answers, signs, publishes, now))
  {
    var rows := BatchRows(s, BatchEvent(due, answers, signs, publishes, now));
    forall k | k in s.rows
      ensures after[k] == rows[k]
    {
      if k in due {
        var i :| 0 <= i < |due| && due[i] == k;
        BatchEventRow(s, due, answers, signs, publishes, now, i);
      }
    }
  }

  // ---------------------------------------------------------------- steps

  /** Everything a batch settles is due. */
  predicate OnlyDue(s: System, e: Event) {
    e.Batch? ==> e.due <= s.rows.Keys && forall k | k in e.due :: Due(s.rows[k], e.now)
  }

  /** If the event enrols the row, the client sealed its own key and says for which epoch. */
  predicate Honest(e: Event, k: Key, ipnsKey: seq<byte>) {
    e.Enroll? && e.key == k ==> e.sealedKey.epoch == e.keyEpoch && e.sealedKey.key == ipnsKey
  }

  function Next(s: System, e: Event): System {
    match e
    case Initialize(epoch, publicKey) =>
      var k := Initialized(s.keys, epoch, publicKey);
      if k.Ok? then s.(keys := k.value) else s
    case Rotate(newEpoch, publicKey, now) =>
      var k := Rotated(s.keys, newEpoch, publicKey, now);
      if k.Ok? then s.(keys := k.value, refreshed := {}) else s
    case Deprecate(now) => s.(keys := Deprecated(s.keys, now))
    case Enroll(k, c, keyEpoch, latestCid, sequenceNumber, now) =>
      System(
        Enrolled(s.rows, k, c, keyEpoch, latestCid, sequenceNumber, now),
        s.keys,
        if s.keys.row.Some? && keyEpoch == s.keys.row.value.currentEpoch then s.refreshed + {k} else s.refreshed - {k},
        s.enrolledAt[k := sequenceNumber],
        s.enrolledCid[k := latestCid],
        s.successes[k := 0])
    case Unenroll(k) => s.(rows := s.rows - {k}, refreshed := s.refreshed - {k})
    case Reactivate(now) => s.(rows := Reactivated(s.rows, now))
    case Batch(_, _, _, _, _) =>
      if s.keys.row.None? then s
      else s.(
        rows := BatchRows(s, e),
        refreshed := s.refreshed + Won(s, e),
        successes := map k | k in s.successes :: if k in Won(s, e) then s.successes[k] + 1 else s.successes[k])
  }

  // ---------------------------------------------------------------- invariants

  predicate Decryptable(keys: Keys, r: Row) {
    keys.row.Some? && UsableEpoch(r.encryptedIpnsKey, keys.row.value.currentEpoch, keys.row.value.previousEpoch).Some?
  }

  /** The retry state is in order, the CID is the one enrolled, and each success since has added one to the number. */
  predicate RowInv(s: System, k: Key)
    requires k in s.rows
  {
    && RowOk(s.rows[k])
    && k in s.enrolledAt && k in s.enrolledCid && k in s.successes
    && s.rows[k].latestCid == s.enrolledCid[k]
    && s.rows[k].sequenceNumber == s.enrolledAt[k] + s.successes[k]
  }

  ghost predicate Inv(s: System) {
    Consistent(s.keys) && forall k | k in s.rows :: RowInv(s, k)
  }

  /**
   A due row succeeds exactly when its reply came, its key opens under the current or the previous epoch and signing and
   publishing worked: the number grows by one and the same key is then sealed for the current epoch. Otherwise it fails.
   */
  lemma BatchDoes(s: System, e: Event, k: Key)
    requires e.Batch? && s.keys.row.Some? && k in s.rows
    ensures
      var keys, was := s.keys.row.value, s.rows[k];
      var sealedFor := was.encryptedIpnsKey.epoch;
      var won := k in e.answered && k in e.signable && k in e.published
        && (sealedFor == keys.currentEpoch || keys.previousEpoch == Some(sealedFor));
      && k in Next(s, e).rows
      && var row := Next(s, e).rows[k];
         && (k !in e.due ==> row == was)
         && (k in e.due && !won ==> row == Failed(was, e.now))
         && (k in e.due && won ==>
               && row.encryptedIpnsKey == Sealed(keys.currentEpoch, was.encryptedIpnsKey.key)
               && row.keyEpoch == (if sealedFor == keys.currentEpoch then was.keyEpoch else keys.currentEpoch)
               && row.latestCid == was.latestCid && row.sequenceNumber == was.sequenceNumber + 1
               && row.status == Active && row.consecutiveFailures == 0 && row.nextRepublishAt == e.now + 21_600_000)
  {
    var keys := s.keys.row.value;
    ReplyKeepsKey(PayloadOf(k, s.rows[k], keys.currentEpoch, keys.previousEpoch), k in e.signable);
  }

  lemma BatchKeepsRow(s: System, e: Event, k: Key)
    requires e.Batch? && OnlyDue(s, e) && k in s.rows && RowInv(s, k)
    ensures k in Next(s, e).rows && RowInv(Next(s, e), k)
  {
    if s.keys.row.Some? && k in e.due {
      var cur, prev := s.keys.row.value.currentEpoch, s.keys.row.value.previousEpoch;
      SettleKeepsRowOk(s.rows[k], BatchReply(s, e, k), k in e.published, e.now);
      ReplyKeepsKey(PayloadOf(k, s.rows[k], cur, prev), k in e.signable);
    }
  }

  /** Whatever clients enrol and whenever rotations happen, each event keeps every row and the log in order. */
  lemma StepKeepsInv(s: System, e: Event)
    requires Inv(s) && OnlyDue(s, e)
    ensures Inv(Next(s, e))
  {
    match e
    case Initialize(epoch, publicKey) => InitializedConsistent(s.keys, epoch, publicKey);
    case Rotate(newEpoch, publicKey, now) => RotatedConsistent(s.keys, newEpoch, publicKey, now);
    case Deprecate(now) => DeprecatedConsistent(s.keys, now);
    case Batch(_, _, _, _, _) =>
      forall k | k in Next(s, e).rows
        ensures RowInv(Next(s, e), k)
      {
        BatchKeepsRow(s, e, k);
      }
    case _ =>
  }

  // ---------------------------------------------------------------- one row's key

  /** The row holds this key, sealed for the epoch it names; a refreshed row names the current epoch. */
  predicate KeyKept(s: System, k: Key, ipnsKey: seq<byte>) {
    if k in s.rows then
      var r := s.rows[k];
      && r.encryptedIpnsKey == Sealed(r.keyEpoch, ipnsKey)
      && (k in s.refreshed ==> s.keys.row.Some? && r.keyEpoch == s.keys.row.value.currentEpoch)
    else k !in s.refreshed
  }

  /** An event keeps a row's key exactly when it does not enrol another in its place. */
  lemma StepKeepsKeyIff(s: System, e: Event, k: Key, ipnsKey: seq<byte>)
    requires KeyKept(s, k, ipnsKey)
    ensures KeyKept(Next(s, e), k, ipnsKey) <==> Honest(e, k, ipnsKey)
  {
    if e.Batch? && s.keys.row.Some? && k in s.rows && k in e.due {
      var cur, prev := s.keys.row.value.currentEpoch, s.keys.row.value.previousEpoch;
      ReplyKeepsKey(PayloadOf(k, s.rows[k], cur, prev), k in e.signable);
    }
  }

  // ---------------------------------------------------------------- one row's decryptability

  predicate RowDecryptable(s: System, k: Key) {
    k in s.rows ==> Decryptable(s.keys, s.rows[k])
  }

  /** The row's own enrolment, and every rotation and clearing deprecation, fits the epoch its key is sealed for. */
  predicate Timely(s: System, e: Event, k: Key) {
    match e
    case Enroll(key, c, _, _, _, _) =>
      key == k ==>
        s.keys.row.Some? && UsableEpoch(c, s.keys.row.value.currentEpoch, s.keys.row.value.previousEpoch).Some?
    case Rotate(newEpoch, _, _) =>
      k in s.rows && s.keys.row.Some? ==>
        s.rows[k].encryptedIpnsKey.epoch in {s.keys.row.value.currentEpoch, newEpoch}
    case Deprecate(now) =>
      k in s.rows && Clears(s.keys, now) ==> s.rows[k].encryptedIpnsKey.epoch == s.keys.row.value.currentEpoch
    case _ => true
  }

  /** An event leaves a row decryptable exactly when it is timely for that row, whatever becomes of other rows. */
  lemma StepDecryptableIff(s: System, e: Event, k: Key)
    requires RowDecryptable(s, k)
    ensures RowDecryptable(Next(s, e), k) <==> Timely(s, e, k)
  {
    if e.Batch? && s.keys.row.Some? && k in s.rows && k in e.due {
      var cur, prev := s.keys.row.value.currentEpoch, s.keys.row.value.previousEpoch;
      ReplyKeepsKey(PayloadOf(k, s.rows[k], cur, prev), k in e.signable);
    }
  }

  /** The row was republished or enrolled under the current epoch before that can be retired. */
  predicate InTime(s: System, e: Event, k: Key) {
    match e
    case Enroll(_, _, _, _, _, _) => Timely(s, e, k)
    case Rotate(_, _, _) => k in s.rows ==> k in s.refreshed
    case Deprecate(now) => k in s.rows && Clears(s.keys, now) ==> k in s.refreshed
    case _ => true
  }

  /**
   A rotation leaves a row decryptable exactly when its key is sealed for the epoch just left or the one
   just entered.
   */
  lemma RotateKeepsRowIff(keys: Keys, r: Row, newEpoch: nat, publicKey: seq<byte>, now: int)
    requires keys.row.Some?
    ensures Decryptable(Rotated(keys, newEpoch, publicKey, now).value, r)
      <==> r.encryptedIpnsKey.epoch in {keys.row.value.currentEpoch, newEpoch}
  {
  }

  /**
   A deprecation that clears the previous epoch leaves a row decryptable exactly when its key is sealed
   for the current one.
   */
  lemma DeprecateKeepsRowIff(keys: Keys, r: Row, now: int)
    requires Clears(keys, now)
    ensures Decryptable(Deprecated(keys, now), r) <==> r.encryptedIpnsKey.epoch == keys.row.value.currentEpoch
  {
  }

  /** A row whose key no stored epoch opens fails in every batch, and its sealed key and sequence number stay. */
  lemma UndecryptableRowFails(s: System, e: Event, k: Key)
    requires e.Batch? && s.keys.row.Some? && k in s.rows && k in e.due && !Decryptable(s.keys, s.rows[k])
    ensures BatchRows(s, e)[k] == Failed(s.rows[k], e.now) && k !in Won(s, e)
    ensures BatchRows(s, e)[k].encryptedIpnsKey == s.rows[k].encryptedIpnsKey
    ensures BatchRows(s, e)[k].sequenceNumber == s.rows[k].sequenceNumber
  {
  }

  // ---------------------------------------------------------------- runs

  function Run(s: System, es: seq<Event>): System
    decreases |es|
  {
    if es == [] then s else Run(Next(s, es[0]), es[1..])
  }

  predicate RunOnlyDue(s: System, es: seq<Event>)
    decreases |es|
  {
    es == [] || (OnlyDue(s, es[0]) && RunOnlyDue(Next(s, es[0]), es[1..]))
  }

  predicate RunTimely(s: System, es: seq<Event>, k: Key)
    decreases |es|
  {
    es == [] || (Timely(s, es[0], k) && RunTimely(Next(s, es[0]), es[1..], k))
  }

  predicate RunInTime(s: System, es: seq<Event>, k: Key)
    decreases |es|
  {
    es == [] || (InTime(s, es[0], k) && RunInTime(Next(s, es[0]), es[1..], k))
  }

  predicate RunHonest(es: seq<Event>, k: Key, ipnsKey: seq<byte>) {
    forall e | e in es :: Honest(e, k, ipnsKey)
  }

  predicate AlwaysKept(s: System, es: seq<Event>, k: Key, ipnsKey: seq<byte>)
    decreases |es|
  {
    KeyKept(s, k, ipnsKey) && (es == [] || AlwaysKept(Next(s, es[0]), es[1..], k, ipnsKey))
  }

  predicate AlwaysDecryptable(s: System, es: seq<Event>, k: Key)
    decreases |es|
  {
    RowDecryptable(s, k) && (es == [] || AlwaysDecryptable(Next(s, es[0]), es[1..], k))
  }

  const START: System := System(map[], Keys(None, []), {}, map[], map[], map[])

  /**
   Over any run, whatever is enrolled: the retry states and the sequence numbers of all rows are right,
   and the rotation log is an unbroken chain.
   */
  lemma {:induction false} RunKeepsInv(s: System, es: seq<Event>)
    requires Inv(s) && RunOnlyDue(s, es)
    ensures Inv(Run(s, es))
    decreases |es|
  {
    if es != [] {
      StepKeepsInv(s, es[0]);
      RunKeepsInv(Next(s, es[0]), es[1..]);
    }
  }

  /** Over any run a row holds its key, sealed for the epoch it names, throughout exactly when all its enrolments do. */
  lemma {:induction false} RunKeepsKeyIff(s: System, es: seq<Event>, k: Key, ipnsKey: seq<byte>)
    requires KeyKept(s, k, ipnsKey)
    ensures AlwaysKept(s, es, k, ipnsKey) <==> RunHonest(es, k, ipnsKey)
    decreases |es|
  {
    if es != [] {
      StepKeepsKeyIff(s, es[0], k, ipnsKey);
      assert es == [es[0]] + es[1..];
      if Honest(es[0], k, ipnsKey) {
        RunKeepsKeyIff(Next(s, es[0]), es[1..], k, ipnsKey);
      }
    }
  }

  /** Over any run a row is decryptable in every state exactly when every event is timely for it. */
  lemma {:induction false} RunDecryptableIff(s: System, es: seq<Event>, k: Key)
    requires RowDecryptable(s, k)
    ensures AlwaysDecryptable(s, es, k) <==> RunTimely(s, es, k)
    decreases |es|
  {
    if es != [] {
      StepDecryptableIff(s, es[0], k);
      if Timely(s, es[0], k) {
        RunDecryptableIff(Next(s, es[0]), es[1..], k);
      }
    }
  }

  /**
   So an honest row that is refreshed, under the current epoch, before each rotation and each clearing
   deprecation is decryptable in every state; what happens to other rows does not matter.
   */
  lemma {:induction false} RefreshedStaysDecryptable(s: System, es: seq<Event>, k: Key, ipnsKey: seq<byte>)
    requires KeyKept(s, k, ipnsKey) && RowDecryptable(s, k)
    requires RunHonest(es, k, ipnsKey) && RunInTime(s, es, k)
    ensures AlwaysDecryptable(s, es, k)
    decreases |es|
  {
    if es != [] {
      StepKeepsKeyIff(s, es[0], k, ipnsKey);
      StepDecryptableIff(s, es[0], k);
      RefreshedStaysDecryptable(Next(s, es[0]), es[1..], k, ipnsKey);
    }
  }

  /** All of this from the empty system. */
  lemma RunFromStart(es: seq<Event>, k: Key, ipnsKey: seq<byte>)
    requires RunOnlyDue(START, es)
    ensures Inv(Run(START, es))
    ensures AlwaysKept(START, es, k, ipnsKey) <==> RunHonest(es, k, ipnsKey)
    ensures AlwaysDecryptable(START, es, k) <==> RunTimely(START, es, k)
    ensures RunHonest(es, k, ipnsKey) && RunInTime(START, es, k) ==> AlwaysDecryptable(START, es, k)
  {
    RunKeepsInv(START, es);
    RunKeepsKeyIff(START, es, k, ipnsKey);
    RunDecryptableIff(START, es, k);
    if RunHonest(es, k, ipnsKey) && RunInTime(START, es, k) {
      RefreshedStaysDecryptable(START, es, k, ipnsKey);
    }
  }
}
