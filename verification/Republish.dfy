/** The republish schedule: enrolment, the retry state of each row, and the batch loop. */
module Republish {
  import opened Common
  import opened TeeWorker

  const BATCH_SIZE: nat := 100
  const MAX_CONSECUTIVE_FAILURES: nat := 10
  const REPUBLISH_INTERVAL_MS: int := 6 * 60 * 60 * 1000
  const MAX_BACKOFF_SECONDS: nat := 3600
  const BASE_BACKOFF_SECONDS: nat := 30
  const FAR_FUTURE_MS: int := 365 * 24 * 60 * 60 * 1000
  const DUE_LIMIT: nat := 2000

  datatype Status = Active | Retrying | Stale

  /** Rows are unique by user and IPNS name. */
  datatype Key = Key(userId: string, ipnsName: string)

  datatype Row = Row(
    encryptedIpnsKey: Sealed,
    keyEpoch: nat,
    latestCid: string,
    sequenceNumber: nat,
    nextRepublishAt: int,
    lastRepublishAt: Option<int>,
    consecutiveFailures: nat,
    status: Status)

  type Schedule = map<Key, Row>

  /** The retry state: active after a success, retrying after one to nine failures, stale at exactly ten. */
  predicate RowOk(r: Row) {
    match r.status
    case Active => r.consecutiveFailures == 0
    case Retrying => 1 <= r.consecutiveFailures < MAX_CONSECUTIVE_FAILURES
    case Stale => r.consecutiveFailures == MAX_CONSECUTIVE_FAILURES
  }

  predicate Due(r: Row, now: int) {
    r.status != Stale && r.nextRepublishAt <= now
  }

  ghost predicate Distinct(due: seq<Key>) {
    forall i, j :: 0 <= i < j < |due| ==> due[i] != due[j]
  }

  ghost predicate Listed(due: seq<Key>, schedule: Schedule) {
    forall i :: 0 <= i < |due| ==> due[i] in schedule
  }

  /** What the due query returns: the earliest due rows, each once, up to the limit. */
  ghost predicate IsDueList(schedule: Schedule, now: int, due: seq<Key>) {
    && |due| <= DUE_LIMIT
    && (forall i :: 0 <= i < |due| ==> due[i] in schedule && Due(schedule[due[i]], now))
    && Distinct(due)
    && (forall i, j :: 0 <= i < j < |due| ==> schedule[due[i]].nextRepublishAt <= schedule[due[j]].nextRepublishAt)
    && (forall k | k in schedule && Due(schedule[k], now) && k !in due ::
          |due| == DUE_LIMIT && forall i :: 0 <= i < |due| ==>
            schedule[due[i]].nextRepublishAt <= schedule[k].nextRepublishAt)
  }

  // ---------------------------------------------------------------- settling one row

  function Failed(r: Row, now: int): Row {
    var failures := r.consecutiveFailures + 1;
    if failures >= MAX_CONSECUTIVE_FAILURES
    then r.(consecutiveFailures := failures, status := Stale, nextRepublishAt := now + FAR_FUTURE_MS)
    else
      var backoff := BASE_BACKOFF_SECONDS * Pow2(failures);
      r.(consecutiveFailures := failures, status := Retrying,
         nextRepublishAt := now + 1000 * (if backoff < MAX_BACKOFF_SECONDS then backoff else MAX_BACKOFF_SECONDS))
  }

  function Succeeded(r: Row, newSequenceNumber: nat, upgrade: Option<(Sealed, nat)>, now: int): Row {
    var ok := r.(sequenceNumber := newSequenceNumber, lastRepublishAt := Some(now), consecutiveFailures := 0,
                 status := Active, nextRepublishAt := now + REPUBLISH_INTERVAL_MS);
    if upgrade.Some? then ok.(encryptedIpnsKey := upgrade.value.0, keyEpoch := upgrade.value.1) else ok
  }

  /** A reply with everything a publish needs. */
  predicate Usable(reply: Option<Reply>) {
    reply.Some? && reply.value.success && reply.value.signedRecord.Some? && reply.value.newSequenceNumber.Some?
  }

  function Upgrade(reply: Reply): Option<(Sealed, nat)> {
    if reply.upgradedEncryptedKey.Some? && reply.upgradedKeyEpoch.Some?
    then Some((reply.upgradedEncryptedKey.value, reply.upgradedKeyEpoch.value)) else None
  }

  /** A due row after its batch: success needs a usable reply and a successful publish. */
  function Settle(r: Row, reply: Option<Reply>, published: bool, now: int): Row {
    if Usable(reply) && published
    then Succeeded(r, reply.value.newSequenceNumber.value, Upgrade(reply.value), now)
    else Failed(r, now)
  }

  /** Settling any row that could be due keeps its retry state in order. */
  lemma SettleKeepsRowOk(r: Row, reply: Option<Reply>, published: bool, now: int)
    requires RowOk(r) && r.status != Stale
    ensures var r' := Settle(r, reply, published, now);
      && RowOk(r')
      && (Usable(reply) && published <==> r'.status == Active)
      && (r'.status == Stale ==> r.consecutiveFailures == MAX_CONSECUTIVE_FAILURES - 1)
      && now < r'.nextRepublishAt
  {
    assert Pow2(r.consecutiveFailures + 1) > 0;
  }

  /** Seconds to wait after the first, second, ..., ninth failure in a row: doubling, up to an hour. */
  const BACKOFFS: seq<nat> := [60, 120, 240, 480, 960, 1920, 3600, 3600, 3600]

  /** One failure more: back off, or go stale for a year at the tenth; all else stays. */
  lemma FailedBacksOff(r: Row, now: int)
    ensures var f, n := Failed(r, now), r.consecutiveFailures;
      && f.consecutiveFailures == n + 1
      && (n < 9 ==> f.status == Retrying && f.nextRepublishAt == now + 1000 * BACKOFFS[n])
      && (n >= 9 ==> f.status == Stale && f.nextRepublishAt == now + 31_536_000_000)
      && f.encryptedIpnsKey == r.encryptedIpnsKey && f.keyEpoch == r.keyEpoch && f.latestCid == r.latestCid
      && f.sequenceNumber == r.sequenceNumber && f.lastRepublishAt == r.lastRepublishAt
  {
    var p := Pow2(r.consecutiveFailures + 1);
    assert BASE_BACKOFF_SECONDS == 30 && MAX_BACKOFF_SECONDS == 3600;
    if r.consecutiveFailures < 9 {
      assert p == [2, 4, 8, 16, 32, 64, 128, 256, 512][r.consecutiveFailures] by {
        SmallPowers(r.consecutiveFailures);
      }
    }
  }

  lemma SmallPowers(n: nat)
    requires n < 9
    ensures Pow2(n + 1) == [2, 4, 8, 16, 32, 64, 128, 256, 512][n]
  {
    if n > 0 {
      SmallPowers(n - 1);
    }
  }

  /**
   A row is active again, republished now and due in six hours, exactly when a successful reply with a record and a
   number reached it and the record was published; it then takes over the number, and the re-sealed key if there is one.
   */
  lemma SettledActiveIff(r: Row, reply: Option<Reply>, published: bool, now: int)
    ensures
      var won := published && reply.Some? && reply.value.success
        && reply.value.signedRecord.Some? && reply.value.newSequenceNumber.Some?;
      var settled := Settle(r, reply, published, now);
      && (won ==>
            && settled.sequenceNumber == reply.value.newSequenceNumber.value && settled.latestCid == r.latestCid
            && settled.status == Active && settled.consecutiveFailures == 0
            && settled.lastRepublishAt == Some(now) && settled.nextRepublishAt == now + 21_600_000)
      && (won && reply.value.upgradedEncryptedKey.Some? && reply.value.upgradedKeyEpoch.Some? ==>
            && settled.encryptedIpnsKey == reply.value.upgradedEncryptedKey.value
            && settled.keyEpoch == reply.value.upgradedKeyEpoch.value)
      && (won && (reply.value.upgradedEncryptedKey.None? || reply.value.upgradedKeyEpoch.None?) ==>
            settled.encryptedIpnsKey == r.encryptedIpnsKey && settled.keyEpoch == r.keyEpoch)
      && (!won ==> settled == Failed(r, now))
      && (settled.status == Active <==> won)
  {
  }

  // ---------------------------------------------------------------- the batch loop

  /** The TEE's answer to one batch request: no answer, or a list that may be short. */
  datatype Answer = NoAnswer | Answered(replies: seq<Reply>)

  /** The j-th reply of an answer, if it has one. */
  function ReplyAt(answer: Answer, j: nat): Option<Reply> {
    match answer
    case NoAnswer => None
    case Answered(replies) => if j < |replies| then Some(replies[j]) else None
  }

  function AnswerAt(answers: seq<Answer>, b: nat): Answer {
    if b < |answers| then answers[b] else NoAnswer
  }

  /** The reply that reaches the i-th due row. */
  function ReplyFor(answers: seq<Answer>, i: nat): Option<Reply> {
    ReplyAt(AnswerAt(answers, i / BATCH_SIZE), i % BATCH_SIZE)
  }

  function PayloadOf(k: Key, r: Row, currentEpoch: nat, previousEpoch: Option<nat>): Entry {
    Entry(r.encryptedIpnsKey, r.keyEpoch, k.ipnsName, r.latestCid, r.sequenceNumber, currentEpoch, previousEpoch)
  }

  /** The entries of one batch request, built from the rows as they were read. */
  function BatchPayload(schedule: Schedule, due: seq<Key>, b: nat, epochs: (nat, Option<nat>)): (entries: seq<Entry>)
    requires Listed(due, schedule)
    requires b * BATCH_SIZE < |due|
  {
    var size := if |due| - b * BATCH_SIZE < BATCH_SIZE then |due| - b * BATCH_SIZE else BATCH_SIZE;
    seq(size, j requires 0 <= j < size =>
      PayloadOf(due[b * BATCH_SIZE + j], schedule[due[b * BATCH_SIZE + j]], epochs.0, epochs.1))
  }

  /** The schedule once the first n due rows are settled. */
  ghost predicate SettledUpTo(
    before: Schedule, after: Schedule, due: seq<Key>, answers: seq<Answer>, publishes: set<nat>, now: int, n: nat)
    requires Listed(due, before)
  {
    && after.Keys == before.Keys
    && (forall i :: 0 <= i < |due| ==>
          after[due[i]] == if i < n then Settle(before[due[i]], ReplyFor(answers, i), i in publishes, now)
            else before[due[i]])
    && (forall k | k in before && k !in due :: after[k] == before[k])
  }

  /** The i-th due row gets a usable reply and its record is published. */
  ghost predicate Wins(answers: seq<Answer>, publishes: set<nat>, i: nat) {
    Usable(ReplyFor(answers, i)) && i in publishes
  }

  /** Which of the first n due rows are settled as successes. */
  ghost function Winners(answers: seq<Answer>, publishes: set<nat>, n: nat): set<nat> {
    set i: nat | i < n && Wins(answers, publishes, i)
  }

  /** They are the rows whose usable reply was published. */
  lemma WinnersIff(answers: seq<Answer>, publishes: set<nat>, n: nat, i: nat)
    ensures i in Winners(answers, publishes, n) <==>
      && i < n && i in publishes && ReplyFor(answers, i).Some? && ReplyFor(answers, i).value.success
      && ReplyFor(answers, i).value.signedRecord.Some? && ReplyFor(answers, i).value.newSequenceNumber.Some?
  {
  }

  ghost predicate AreWinners(won: set<nat>, answers: seq<Answer>, publishes: set<nat>, n: nat) {
    forall i: nat {:trigger i in won} :: i in won <==> i < n && Wins(answers, publishes, i)
  }

  /** The first n due rows are settled and counted. */
  ghost predicate CountedUpTo(
    before: Schedule, after: Schedule, due: seq<Key>, answers: seq<Answer>, publishes: set<nat>, now: int, n: nat,
    won: set<nat>)
    requires Listed(due, before)
  {
    SettledUpTo(before, after, due, answers, publishes, now, n) && AreWinners(won, answers, publishes, n)
  }

  lemma SettleNext(
    before: Schedule, after: Schedule, due: seq<Key>, answers: seq<Answer>, publishes: set<nat>, now: int, n: nat)
    requires Listed(due, before) && Distinct(due) && n < |due|
    requires SettledUpTo(before, after, due, answers, publishes, now, n)
    ensures due[n] in after
    ensures SettledUpTo(before, after[due[n] := Settle(after[due[n]], ReplyFor(answers, n), n in publishes, now)],
      due, answers, publishes, now, n + 1)
  {
    var after' := after[due[n] := Settle(after[due[n]], ReplyFor(answers, n), n in publishes, now)];
    forall i | 0 <= i < |due|
      ensures after'[due[i]] == if i < n + 1 then Settle(before[due[i]], ReplyFor(answers, i), i in publishes, now)
        else before[due[i]]
    {
      assert i != n ==> due[i] != due[n];
    }
  }

  class RepublishService {
    var schedule: Schedule

    constructor ()
      ensures schedule == map[]
    {
      schedule := map[];
    }

    /** Enrolling again replaces the key, CID and sequence number, and leaves the retry state. */
    method EnrollFolder(
      k: Key, encryptedIpnsKey: Sealed, keyEpoch: nat, latestCid: string, sequenceNumber: nat, now: int)
      modifies this
      ensures schedule == Enrolled(old(schedule), k, encryptedIpnsKey, keyEpoch, latestCid, sequenceNumber, now)
      ensures schedule.Keys == old(schedule).Keys + {k}
      ensures forall other | other in old(schedule) && other != k :: schedule[other] == old(schedule)[other]
      ensures schedule[k].encryptedIpnsKey == encryptedIpnsKey && schedule[k].keyEpoch == keyEpoch
      ensures schedule[k].latestCid == latestCid && schedule[k].sequenceNumber == sequenceNumber
      ensures schedule[k].nextRepublishAt == now + 21_600_000
      ensures if k in old(schedule)
        then
          && schedule[k].consecutiveFailures == old(schedule)[k].consecutiveFailures
          && schedule[k].status == old(schedule)[k].status
          && schedule[k].lastRepublishAt == old(schedule)[k].lastRepublishAt
        else schedule[k].consecutiveFailures == 0 && schedule[k].status == Active && schedule[k].lastRepublishAt.None?
    {
      if k in schedule {
        var existing := schedule[k];
        existing := existing.(encryptedIpnsKey := encryptedIpnsKey, keyEpoch := keyEpoch);
        existing := existing.(latestCid := latestCid, sequenceNumber := sequenceNumber);
        existing := existing.(nextRepublishAt := now + REPUBLISH_INTERVAL_MS);
        schedule := schedule[k := existing];
      } else {
        schedule := schedule[k := Row(encryptedIpnsKey, keyEpoch, latestCid, sequenceNumber,
          now + REPUBLISH_INTERVAL_MS, None, 0, Active)];
      }
    }

    method UnenrollIpns(k: Key)
      modifies this
      ensures schedule == old(schedule) - {k}
    {
      schedule := schedule - {k};
    }

    /** One bulk update: every stale row becomes active and due at once. */
    method ReactivateStaleEntries(now: int)
      modifies this
      ensures schedule == Reactivated(old(schedule), now) && schedule.Keys == old(schedule).Keys
      ensures forall k | k in schedule ::
        schedule[k] == if old(schedule)[k].status != Stale then old(schedule)[k]
          else old(schedule)[k].(status := Active, consecutiveFailures := 0, nextRepublishAt := now)
    {
      schedule := map k | k in schedule :: Revived(schedule[k], now);
    }

    method HandleEntryFailure(k: Key, now: int)
      requires k in schedule
      modifies this
      ensures schedule == old(schedule)[k := Failed(old(schedule)[k], now)]
    {
      var entry := schedule[k];
      entry := entry.(consecutiveFailures := entry.consecutiveFailures + 1);
      if entry.consecutiveFailures >= MAX_CONSECUTIVE_FAILURES {
        entry := entry.(status := Stale, nextRepublishAt := now + FAR_FUTURE_MS);
      } else {
        var backoff := BASE_BACKOFF_SECONDS * Pow2(entry.consecutiveFailures);
        var backoffSeconds := if backoff < MAX_BACKOFF_SECONDS then backoff else MAX_BACKOFF_SECONDS;
        entry := entry.(status := Retrying, nextRepublishAt := now + backoffSeconds * 1000);
      }
      schedule := schedule[k := entry];
    }

    /** One row of an answered batch; the signed record is published between the reply and the save. */
    method ProcessResult(k: Key, result: Option<Reply>, publishOk: bool, now: int) returns (succeeded: bool)
      requires k in schedule
      modifies this
      ensures schedule == old(schedule)[k := Settle(old(schedule)[k], result, publishOk, now)]
      ensures succeeded <==> Usable(result) && publishOk
    {
      if result.None? {
        HandleEntryFailure(k, now);
        return false;
      }
      var reply := result.value;
      if reply.success && reply.signedRecord.Some? && reply.newSequenceNumber.Some? {
        if publishOk {
          var entry := schedule[k];
          entry := entry.(sequenceNumber := reply.newSequenceNumber.value, lastRepublishAt := Some(now));
          entry := entry.(consecutiveFailures := 0, status := Active, nextRepublishAt := now + REPUBLISH_INTERVAL_MS);
          if reply.upgradedEncryptedKey.Some? && reply.upgradedKeyEpoch.Some? {
            entry := entry.(encryptedIpnsKey := reply.upgradedEncryptedKey.value);
            entry := entry.(keyEpoch := reply.upgradedKeyEpoch.value);
          }
          schedule := schedule[k := entry];
          return true;
        }
      }
      HandleEntryFailure(k, now);
      return false;
    }

    /** Position n of the due list, in the batch that starts at position i. */
    method ProcessNext(
      due: seq<Key>, i: nat, n: nat, teeResults: Answer,
      ghost before: Schedule, ghost answers: seq<Answer>, publishes: set<nat>, now: int, ghost won: set<nat>)
      returns (succeeded: bool, ghost won': set<nat>)
      requires i % BATCH_SIZE == 0 && i <= n < i + BATCH_SIZE && teeResults == AnswerAt(answers, i / BATCH_SIZE)
      requires n < |due| && Listed(due, before) && Distinct(due)
      requires CountedUpTo(before, schedule, due, answers, publishes, now, n, won)
      modifies this
      ensures CountedUpTo(before, schedule, due, answers, publishes, now, n + 1, won')
      ensures |won'| == |won| + if succeeded then 1 else 0
    {
      InBatch(answers, i, n);
      SettleNext(before, schedule, due, answers, publishes, now, n);
      succeeded := ProcessResult(due[n], ReplyAt(teeResults, n - i), n in publishes, now);
      won' := if succeeded then won + {n} else won;
    }

    /** One batch of at most a hundred rows, from position i of the due list. */
    method ProcessBatch(
      due: seq<Key>, i: nat, totalSucceeded: nat, totalFailed: nat,
      ghost before: Schedule, answers: seq<Answer>, publishes: set<nat>, now: int, ghost won: set<nat>)
      returns (next: nat, succeeded: nat, failed: nat, ghost won': set<nat>)
      requires i < |due| && i % BATCH_SIZE == 0
      requires Listed(due, before) && Distinct(due)
      requires CountedUpTo(before, schedule, due, answers, publishes, now, i, won)
      requires totalSucceeded == |won| && totalSucceeded + totalFailed == i
      modifies this
      ensures next == (if i + BATCH_SIZE < |due| then i + BATCH_SIZE else |due|)
      ensures CountedUpTo(before, schedule, due, answers, publishes, now, next, won')
      ensures succeeded == |won'| && succeeded + failed == next
    {
      next := if i + BATCH_SIZE < |due| then i + BATCH_SIZE else |due|;
      var teeResults := AnswerAt(answers, i / BATCH_SIZE);
      succeeded, failed, won' := totalSucceeded, totalFailed, won;
      for n := i to next
        invariant CountedUpTo(before, schedule, due, answers, publishes, now, n, won')
        invariant succeeded == |won'| && succeeded + failed == n
      {
        var ok;
        ok, won' := ProcessNext(due, i, n, teeResults, before, answers, publishes, now, won');
        if ok {
          succeeded := succeeded + 1;
        } else {
          failed := failed + 1;
        }
      }
    }

    /**
     Every due row is settled exactly once with its own reply, whatever the TEE and the
     network do, and the totals add up; without a TEE key state nothing is touched.
     */
    method ProcessRepublishBatch(due: seq<Key>, teeReady: bool, answers: seq<Answer>, publishes: set<nat>, now: int)
      returns (processed: nat, succeeded: nat, failed: nat)
      requires IsDueList(schedule, now, due)
      modifies this
      ensures processed == |due| && succeeded + failed == processed
      ensures SettledUpTo(old(schedule), schedule, due, answers, publishes, now, if teeReady then |due| else 0)
      ensures schedule.Keys == old(schedule).Keys
      ensures forall i | 0 <= i < |due| && teeReady ::
        schedule[due[i]] == Settle(old(schedule)[due[i]], ReplyFor(answers, i), i in publishes, now)
      ensures forall k | k in schedule && (k !in due || !teeReady) :: schedule[k] == old(schedule)[k]
      ensures succeeded == if teeReady then |Winners(answers, publishes, |due|)| else 0
    {
      ghost var before := schedule;
      if |due| == 0 {
        return 0, 0, 0;
      }
      if !teeReady {
        return |due|, 0, |due|;
      }
      succeeded, failed := 0, 0;
      ghost var won: set<nat> := {};
      var i := 0;
      while i < |due|
        invariant i <= |due| && (i % BATCH_SIZE == 0 || i == |due|)
        invariant CountedUpTo(before, schedule, due, answers, publishes, now, i, won)
        invariant succeeded == |won| && succeeded + failed == i
      {
        i, succeeded, failed, won := ProcessBatch(due, i, succeeded, failed, before, answers, publishes, now, won);
      }
      assert won == Winners(answers, publishes, |due|);
      processed := |due|;
    }
  }

  /** Inside a batch the position in the due list and the position in the answer correspond. */
  lemma InBatch(answers: seq<Answer>, i: nat, n: nat)
    requires i % BATCH_SIZE == 0 && i <= n < i + BATCH_SIZE
    ensures ReplyFor(answers, n) == ReplyAt(AnswerAt(answers, i / BATCH_SIZE), n - i)
  {
    assert n / BATCH_SIZE == i / BATCH_SIZE && n % BATCH_SIZE == n - i;
  }

  function Enrolled(
    schedule: Schedule, k: Key, encryptedIpnsKey: Sealed, keyEpoch: nat, latestCid: string, sequenceNumber: nat,
    now: int)
    : Schedule
  {
    var row := if k in schedule then schedule[k]
      else Row(encryptedIpnsKey, keyEpoch, latestCid, sequenceNumber, 0, None, 0, Active);
    schedule[k := row.(encryptedIpnsKey := encryptedIpnsKey, keyEpoch := keyEpoch, latestCid := latestCid,
                       sequenceNumber := sequenceNumber, nextRepublishAt := now + REPUBLISH_INTERVAL_MS)]
  }

  function Revived(r: Row, now: int): Row {
    if r.status == Stale then r.(status := Active, consecutiveFailures := 0, nextRepublishAt := now) else r
  }

  function Reactivated(schedule: Schedule, now: int): Schedule {
    map k | k in schedule :: Revived(schedule[k], now)
  }

  // ---------------------------------------------------------------- the two processes together

  /** Whatever the worker answers to a batch is a prefix of one reply an entry, in order. */
  ghost predicate AnsweredByWorker(
    schedule: Schedule, due: seq<Key>, epochs: (nat, Option<nat>), answers: seq<Answer>, signable: nat -> bool)
    requires Listed(due, schedule)
  {
    forall b: nat | b * BATCH_SIZE < |due| && AnswerAt(answers, b).Answered? ::
      AnswerAt(answers, b).replies <= Replies(BatchPayload(schedule, due, b, epochs),
        (j: nat) => signable(b * BATCH_SIZE + j))
  }

  /** Rows reach the worker a hundred to a request, in order, and replies come back by position. */
  lemma ReplyForIs(schedule: Schedule, due: seq<Key>, epochs: (nat, Option<nat>), answers: seq<Answer>, i: nat)
    requires Listed(due, schedule) && i < |due|
    ensures var b, j := i / 100, i % 100;
      && ReplyFor(answers, i) ==
           (if b < |answers| && answers[b].Answered? && j < |answers[b].replies|
            then Some(answers[b].replies[j]) else None)
      && b * 100 < |due|
      && |BatchPayload(schedule, due, b, epochs)| == (if |due| < b * 100 + 100 then |due| - b * 100 else 100)
  {
    assert BATCH_SIZE == 100 && i == i / 100 * 100 + i % 100;
  }

  /**
   The reply a row receives, if any, is signed with that row's own key over its own CID and its next sequence number,
   under its own name; a full answer leaves no row without one.
   */
  lemma RepliesReachTheirRows(
    schedule: Schedule, due: seq<Key>, epochs: (nat, Option<nat>), answers: seq<Answer>, signable: nat -> bool, i: nat)
    requires Listed(due, schedule)
    requires AnsweredByWorker(schedule, due, epochs, answers, signable) && i < |due|
    ensures ReplyFor(answers, i).Some? ==>
      var row, reply := schedule[due[i]], ReplyFor(answers, i).value;
      var sealedFor := row.encryptedIpnsKey.epoch;
      && reply.ipnsName == due[i].ipnsName
      && (reply.success <==> signable(i) && (sealedFor == epochs.0 || epochs.1 == Some(sealedFor)))
      && (reply.success ==>
            && reply.signedRecord ==
                 Some(SignedRecord(row.encryptedIpnsKey.key, row.latestCid, row.sequenceNumber + 1))
            && reply.newSequenceNumber == Some(row.sequenceNumber + 1))
      && (reply.upgradedKeyEpoch.Some? <==> reply.success && sealedFor != epochs.0)
      && (reply.upgradedKeyEpoch.Some? ==>
            && reply.upgradedKeyEpoch == Some(epochs.0)
            && reply.upgradedEncryptedKey == Some(Sealed(epochs.0, row.encryptedIpnsKey.key)))
    ensures
      var b := i / BATCH_SIZE;
      AnswerAt(answers, b).Answered? && |AnswerAt(answers, b).replies| == |BatchPayload(schedule, due, b, epochs)| ==>
        ReplyFor(answers, i).Some?
  {
    ReplySignsEntry(schedule, due, epochs, answers, signable, i);
    ReplyKeepsKey(PayloadOf(due[i], schedule[due[i]], epochs.0, epochs.1), signable(i));
  }

  lemma ReplySignsEntry(
    schedule: Schedule, due: seq<Key>, epochs: (nat, Option<nat>), answers: seq<Answer>, signable: nat -> bool, i: nat)
    requires Listed(due, schedule)
    requires AnsweredByWorker(schedule, due, epochs, answers, signable) && i < |due|
    ensures ReplyFor(answers, i).Some? ==>
      ReplyFor(answers, i).value == SignEntry(PayloadOf(due[i], schedule[due[i]], epochs.0, epochs.1), signable(i))
    ensures
      var b := i / BATCH_SIZE;
      AnswerAt(answers, b).Answered? && |AnswerAt(answers, b).replies| == |BatchPayload(schedule, due, b, epochs)| ==>
        ReplyFor(answers, i).Some?
  {
    var b, j := i / BATCH_SIZE, i % BATCH_SIZE;
    assert i == b * BATCH_SIZE + j;
    if AnswerAt(answers, b).Answered? {
      var all := Replies(BatchPayload(schedule, due, b, epochs), (j: nat) => signable(b * BATCH_SIZE + j));
      assert AnswerAt(answers, b).replies <= all;
    }
  }

  /** A worker that answers every request in full gives every due row a reply. */
  lemma FullAnswersReachAll(
    schedule: Schedule, due: seq<Key>, epochs: (nat, Option<nat>), answers: seq<Answer>, signable: nat -> bool, i: nat)
    requires Listed(due, schedule) && i < |due|
    ensures
      (forall b: nat | b * 100 < |due| ::
         && b < |answers|
         && answers[b] == Answered(Replies(BatchPayload(schedule, due, b, epochs), (j: nat) => signable(b * 100 + j))))
      ==> AnsweredByWorker(schedule, due, epochs, answers, signable) && ReplyFor(answers, i).Some?
  {
    ReplyForIs(schedule, due, epochs, answers, i);
  }
}
