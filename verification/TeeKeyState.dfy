/** The singleton row of TEE key epochs and the log of its rotations. */
module TeeKeyState {
  import opened Common

  const GRACE_PERIOD_MS: int := 4 * 7 * 24 * 60 * 60 * 1000

  datatype State = State(
    currentEpoch: nat,
    currentPublicKey: seq<byte>,
    previousEpoch: Option<nat>,
    previousPublicKey: Option<seq<byte>>,
    gracePeriodEndsAt: Option<int>)

  datatype Rotation = Rotation(fromEpoch: nat, toEpoch: nat, fromPublicKey: seq<byte>, toPublicKey: seq<byte>, at: int)

  /** The stored row, if any, with its log. */
  datatype Keys = Keys(row: Option<State>, log: seq<Rotation>)

  datatype KeyError = AlreadyInitialized | NotInitialized

  function Initialized(k: Keys, epoch: nat, publicKey: seq<byte>): Result<Keys, KeyError> {
    if k.row.Some? then Err(AlreadyInitialized)
    else Ok(k.(row := Some(State(epoch, publicKey, None, None, None))))
  }

  function Rotated(k: Keys, newEpoch: nat, newPublicKey: seq<byte>, now: int): Result<Keys, KeyError> {
    if k.row.None? then Err(NotInitialized)
    else
      var s := k.row.value;
      Ok(Keys(
        Some(State(newEpoch, newPublicKey, Some(s.currentEpoch), Some(s.currentPublicKey),
          Some(now + GRACE_PERIOD_MS))),
        k.log + [Rotation(s.currentEpoch, newEpoch, s.currentPublicKey, newPublicKey, now)]))
  }

  /** Whether deprecating now clears the previous epoch; epoch 0 reads as no epoch. */
  predicate Clears(k: Keys, now: int) {
    && k.row.Some?
    && k.row.value.previousEpoch.Some? && k.row.value.previousEpoch.value != 0
    && !(k.row.value.gracePeriodEndsAt.Some? && now < k.row.value.gracePeriodEndsAt.value)
  }

  function Deprecated(k: Keys, now: int): Keys {
    if Clears(k, now)
    then k.(row := Some(k.row.value.(previousEpoch := None, previousPublicKey := None, gracePeriodEndsAt := None)))
    else k
  }

  /**
   The log is an unbroken chain of epochs and public keys ending at the current ones, and
   a stored previous epoch is the last one rotated away from, inside its grace period
   counted from that rotation.
   */
  ghost predicate Consistent(k: Keys) {
    && (forall i :: 0 < i < |k.log| ==>
          k.log[i - 1].toEpoch == k.log[i].fromEpoch && k.log[i - 1].toPublicKey == k.log[i].fromPublicKey)
    && (k.row.None? ==> k.log == [])
    && (k.row.Some? && k.log != [] ==>
          var s, last := k.row.value, k.log[|k.log| - 1];
          && last.toEpoch == s.currentEpoch && last.toPublicKey == s.currentPublicKey
          && (s.previousEpoch.Some? ==>
                && s.previousEpoch == Some(last.fromEpoch) && s.previousPublicKey == Some(last.fromPublicKey)
                && s.gracePeriodEndsAt == Some(last.at + GRACE_PERIOD_MS)))
    && (k.row.Some? && k.log == [] ==> k.row.value.previousEpoch.None?)
    && (k.row.Some? ==> (k.row.value.previousEpoch.Some? <==> k.row.value.previousPublicKey.Some?))
  }

  lemma InitializedConsistent(k: Keys, epoch: nat, publicKey: seq<byte>)
    requires Consistent(k)
    ensures Initialized(k, epoch, publicKey).Ok? ==> Consistent(Initialized(k, epoch, publicKey).value)
  {
  }

  lemma RotatedConsistent(k: Keys, newEpoch: nat, newPublicKey: seq<byte>, now: int)
    requires Consistent(k)
    ensures Rotated(k, newEpoch, newPublicKey, now).Ok? ==>
      var k' := Rotated(k, newEpoch, newPublicKey, now).value;
      Consistent(k') && k'.row.value.previousEpoch == Some(k.row.value.currentEpoch)
  {
  }

  /** Deprecation keeps the chain, and clears a previous epoch only four weeks after the rotation that made it one. */
  lemma DeprecatedConsistent(k: Keys, now: int)
    requires Consistent(k)
    ensures Consistent(Deprecated(k, now))
    ensures k.row.Some? ==>
      Deprecated(k, now).row.Some? && Deprecated(k, now).row.value.currentEpoch == k.row.value.currentEpoch
    ensures Deprecated(k, now) != k ==> k.log != [] && now >= k.log[|k.log| - 1].at + GRACE_PERIOD_MS
  {
  }

  /**
   A stored previous epoch is cleared exactly when its four weeks are over and it is not epoch 0, which
   is never cleared.
   */
  lemma DeprecatesIff(k: Keys, now: int)
    requires Consistent(k) && k.row.Some? && k.row.value.previousEpoch.Some?
    ensures k.log != []
    ensures var last := k.log[|k.log| - 1];
      Deprecated(k, now).row.value.previousEpoch.None? <==> last.fromEpoch != 0 && now >= last.at + GRACE_PERIOD_MS
  {
  }

  class TeeKeyStateService {
    var keyState: Option<State>
    var rotationLog: seq<Rotation>

    ghost function Contents(): Keys
      reads this
    {
      Keys(keyState, rotationLog)
    }

    constructor ()
      ensures Contents() == Keys(None, []) && Consistent(Contents())
    {
      keyState, rotationLog := None, [];
    }

    method InitializeEpoch(epoch: nat, publicKey: seq<byte>) returns (error: Option<KeyError>)
      requires Consistent(Contents())
      modifies this
      ensures match Initialized(old(Contents()), epoch, publicKey)
        case Err(e) => error == Some(e) && Contents() == old(Contents())
        case Ok(k) => error == None && Contents() == k
      ensures Consistent(Contents()) && rotationLog == old(rotationLog)
      ensures error == if old(keyState).Some? then Some(AlreadyInitialized) else None
      ensures keyState == if old(keyState).Some? then old(keyState) else Some(State(epoch, publicKey, None, None, None))
    {
      if keyState.Some? {
        return Some(AlreadyInitialized);
      }
      InitializedConsistent(Contents(), epoch, publicKey);
      keyState := Some(State(epoch, publicKey, None, None, None));
      return None;
    }

    method RotateEpoch(newEpoch: nat, newPublicKey: seq<byte>, now: int) returns (error: Option<KeyError>)
      requires Consistent(Contents())
      modifies this
      ensures match Rotated(old(Contents()), newEpoch, newPublicKey, now)
        case Err(e) => error == Some(e) && Contents() == old(Contents())
        case Ok(k) => error == None && Contents() == k
      ensures Consistent(Contents())
      ensures error == if old(keyState).None? then Some(NotInitialized) else None
      ensures if old(keyState).None? then keyState.None? && rotationLog == old(rotationLog)
        else
          var was := old(keyState).value;
          && keyState == Some(State(newEpoch, newPublicKey, Some(was.currentEpoch), Some(was.currentPublicKey),
            Some(now + 2_419_200_000)))
          && rotationLog == old(rotationLog) +
            [Rotation(was.currentEpoch, newEpoch, was.currentPublicKey, newPublicKey, now)]
    {
      if keyState.None? {
        return Some(NotInitialized);
      }
      RotatedConsistent(Contents(), newEpoch, newPublicKey, now);
      var state := keyState.value;
      rotationLog := rotationLog + [Rotation(state.currentEpoch, newEpoch, state.currentPublicKey, newPublicKey, now)];
      state := state.(previousEpoch := Some(state.currentEpoch), previousPublicKey := Some(state.currentPublicKey));
      state := state.(currentEpoch := newEpoch, currentPublicKey := newPublicKey);
      state := state.(gracePeriodEndsAt := Some(now + GRACE_PERIOD_MS));
      keyState := Some(state);
      return None;
    }

    method DeprecatePreviousEpoch(now: int)
      requires Consistent(Contents())
      modifies this
      ensures Contents() == Deprecated(old(Contents()), now) && Consistent(Contents())
      ensures rotationLog == old(rotationLog) && (keyState.Some? <==> old(keyState).Some?)
      ensures keyState.Some? ==>
        var was, after := old(keyState).value, keyState.value;
        && after.currentEpoch == was.currentEpoch && after.currentPublicKey == was.currentPublicKey
        && if was.previousEpoch.Some? && was.previousEpoch.value > 0
             && (was.gracePeriodEndsAt.None? || now >= was.gracePeriodEndsAt.value)
           then after.previousEpoch.None? && after.previousPublicKey.None? && after.gracePeriodEndsAt.None?
           else after == was
    {
      DeprecatedConsistent(Contents(), now);
      if keyState.None? {
        return;
      }
      var state := keyState.value;
      if state.previousEpoch.None? || state.previousEpoch.value == 0 {
        return;
      }
      if state.gracePeriodEndsAt.Some? && now < state.gracePeriodEndsAt.value {
        return;
      }
      keyState := Some(state.(previousEpoch := None, previousPublicKey := None, gracePeriodEndsAt := None));
    }
  }

  /** Started at epoch 0 and rotated to epoch 1: four weeks later or more, a deprecation leaves epoch 0 in place. */
  method EpochZeroStays(firstKey: seq<byte>, secondKey: seq<byte>, rotatedAt: int, now: int)
    returns (service: TeeKeyStateService)
    requires now >= rotatedAt + 2_419_200_000
    ensures service.keyState.Some? && service.keyState.value.currentEpoch == 1
    ensures service.keyState.value.previousEpoch == Some(0)
    ensures service.keyState.value.previousPublicKey == Some(firstKey)
  {
    service := new TeeKeyStateService();
    var _ := service.InitializeEpoch(0, firstKey);
    var _ := service.RotateEpoch(1, secondKey, rotatedAt);
    service.DeprecatePreviousEpoch(now);
  }
}
