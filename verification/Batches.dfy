/** Backend-independent validation of an atomic batch. */
module Batches {
  import opened Basics
  import opened Policies

  datatype BatchError =
    | EmptyBatch
    | BatchTooLarge(actual: nat, maximum: nat)
    | MixedQuotaModes(first: QuotaMode, index: nat, mode: QuotaMode)
    | DuplicateKey(firstIndex: nat, duplicateIndex: nat)

  /** The first `n` inputs share one mode and name distinct counters. */
  predicate SoundUpTo(checks: seq<Check>, n: nat)
    requires n <= |checks|
  {
    && (forall i | 0 <= i < n :: checks[i].mode == checks[0].mode)
    && (forall i, j | 0 <= i < j < n :: checks[i].key != checks[j].key)
  }

  predicate WellFormedBatch(checks: seq<Check>, maximum: nat) {
    0 < |checks| <= maximum && SoundUpTo(checks, |checks|)
  }

  /** `error` names the earliest input that breaks a structural rule; a mode
      fault is reported before a duplicate at the same index. */
  predicate Explains(error: BatchError, checks: seq<Check>, maximum: nat) {
    match error
    case EmptyBatch => checks == []
    case BatchTooLarge(actual, max) => checks != [] && actual == |checks| && max == maximum < |checks|
    case MixedQuotaModes(first, i, mode) =>
      i < |checks| <= maximum && SoundUpTo(checks, i) && first == checks[0].mode != mode == checks[i].mode
    case DuplicateKey(j, i) =>
      && j < i < |checks| <= maximum && SoundUpTo(checks, i)
      && checks[i].mode == checks[0].mode && checks[j].key == checks[i].key
  }

  /** A batch has at most one explanation, and none when it is well formed. */
  lemma {:induction false} ExplanationsAreUnique(a: BatchError, b: BatchError, checks: seq<Check>, maximum: nat)
    requires Explains(a, checks, maximum)
    ensures !WellFormedBatch(checks, maximum)
    ensures Explains(b, checks, maximum) ==> a == b
  {
  }

  method ValidateBatch(checks: seq<Check>, maximum: nat) returns (r: Result<(), BatchError>)
    ensures r.Ok? <==> WellFormedBatch(checks, maximum)
    ensures r.Err? ==> Explains(r.error, checks, maximum)
    ensures r.Ok? <==>
            && 1 <= |checks| <= maximum
            && (forall a, b | a in checks && b in checks :: a.mode == b.mode)
            && forall i, j | 0 <= i < j < |checks| :: checks[i].key != checks[j].key
    ensures r.Err? ==>
              match r.error
              case EmptyBatch => |checks| == 0
              case BatchTooLarge(actual, most) => actual == |checks| > maximum == most
              case MixedQuotaModes(first, i, mode) =>
                0 < i < |checks| && first == checks[0].mode && mode == checks[i].mode && first != mode
              case DuplicateKey(j, i) => j < i < |checks| && checks[j].key == checks[i].key
  {
    if checks == [] { return Err(EmptyBatch); }
    if |checks| > maximum { return Err(BatchTooLarge(|checks|, maximum)); }
    var firstMode := checks[0].mode;
    var firstIndices: map<CounterKey, nat> := map[];
    for i := 0 to |checks|
      invariant SoundUpTo(checks, i)
      invariant forall k | k in firstIndices :: firstIndices[k] < i && checks[firstIndices[k]].key == k
      invariant forall j | 0 <= j < i :: checks[j].key in firstIndices
    {
      if checks[i].mode != firstMode {
        return Err(MixedQuotaModes(firstMode, i, checks[i].mode));
      }
      if checks[i].key in firstIndices {
        r := Err(DuplicateKey(firstIndices[checks[i].key], i));
        return;
      }
      firstIndices := firstIndices[checks[i].key := i];
    }
    assert forall a | a in checks :: a.mode == firstMode;
    return Ok(());
  }
}
