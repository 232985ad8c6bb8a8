/**
 * The sample change actions used to exercise the reconciliation engine's retries:
 * one that always succeeds, and one that fails a given number of times first.
 * A change action's result stream is reduced to its single outcome.
 */
module SampleChangeActions {
  import opened JavaInt
  import ResolverModel

  /** The kind of entity a change is about; only job changes are made here. */
  datatype ActionKind = Job

  datatype JobChange = JobChange(kind: ActionKind, trigger: ResolverModel.Trigger, id: string, summary: string)

  /** A model update produced by a successful action; the sample actions produce none. */
  datatype ModelUpdate = ModelUpdate(description: string)

  datatype Outcome = Failure(message: string) | Success(change: JobChange, updates: seq<ModelUpdate>)

  function DigitChar(d: nat): char
    requires d < 10
  {
    "0123456789"[d]
  }

  function NatToString(n: nat): string
    decreases n
  {
    if n < 10 then [DigitChar(n)] else NatToString(n / 10) + [DigitChar(n % 10)]
  }

  /** Java's decimal rendering of an `int` in string concatenation. */
  function IntToString(x: int): string
  {
    if x < 0 then "-" + NatToString(-x) else NatToString(x)
  }

  const JobId := "jobId"

  function SuccessfulJobChange(): JobChange
  {
    JobChange(Job, ResolverModel.API, JobId, "Simulated successful action")
  }

  function FailingJobChange(failureCount: int): JobChange
  {
    JobChange(Job, ResolverModel.API, JobId, "Simulated initial failure repeated " + IntToString(failureCount) + " times")
  }

  function FailureMessage(remaining: int): string
  {
    "Simulated failure; remaining failures=" + IntToString(remaining)
  }

  /** What a failing action reports once its counter has been decremented to `counter`. */
  function FailingOutcome(change: JobChange, counter: int): Outcome
  {
    if counter >= 0 then Failure(FailureMessage(counter)) else Success(change, [])
  }

  class SuccessfulChangeAction {
    const change: JobChange

    constructor (kind: ActionKind, trigger: ResolverModel.Trigger, id: string)
      ensures change == JobChange(kind, trigger, id, "Simulated successful action")
    {
      change := JobChange(kind, trigger, id, "Simulated successful action");
    }

    /** Always succeeds with its own change and no model updates. */
    method Apply() returns (o: Outcome)
      ensures o.Success? && o.change == change && o.updates == []
    {
      o := Success(change, []);
    }
  }

  class FailingChangeAction {
    const change: JobChange
    var failureCounter: int

    constructor (kind: ActionKind, trigger: ResolverModel.Trigger, id: string, failureCount: int)
      requires -TwoTo31 <= failureCount < TwoTo31
      ensures change == JobChange(kind, trigger, id, "Simulated initial failure repeated " + IntToString(failureCount) + " times")
      ensures failureCounter == failureCount
    {
      change := JobChange(kind, trigger, id, "Simulated initial failure repeated " + IntToString(failureCount) + " times");
      failureCounter := failureCount;
    }

    /** Decrements the counter (a Java `int`), then fails while it is still non-negative. */
    method Apply() returns (o: Outcome)
      modifies this
      ensures failureCounter == ToInt32(old(failureCounter) - 1)
      ensures o == FailingOutcome(change, failureCounter)
    {
      failureCounter := ToInt32(failureCounter - 1);
      if failureCounter >= 0 {
        o := Failure(FailureMessage(failureCounter));
      } else {
        o := Success(change, []);
      }
    }
  }

  /** `successfulJob()`. */
  method SuccessfulJob() returns (a: SuccessfulChangeAction)
    ensures fresh(a) && a.change == SuccessfulJobChange()
  {
    a := new SuccessfulChangeAction(Job, ResolverModel.API, JobId);
  }

  /** `failingJob(failureCount)`. */
  method FailingJob(failureCount: int) returns (a: FailingChangeAction)
    requires -TwoTo31 <= failureCount < TwoTo31
    ensures fresh(a) && a.change == FailingJobChange(failureCount) && a.failureCounter == failureCount
  {
    a := new FailingChangeAction(Job, ResolverModel.API, JobId, failureCount);
  }

  /** Creates `failingJob(n)` and calls `apply` on it `calls` times; call `k` (from 0) reports the counter `n - k - 1`, as a Java `int`. */
  method RunFailingJob(n: int, calls: nat) returns (outcomes: seq<Outcome>)
    requires -TwoTo31 <= n < TwoTo31
    ensures |outcomes| == calls
    ensures forall k :: 0 <= k < calls ==> outcomes[k] == FailingOutcome(FailingJobChange(n), ToInt32(n - k - 1))
  {
    var action := FailingJob(n);
    outcomes := [];
    var k := 0;
    while k < calls
      invariant 0 <= k <= calls && |outcomes| == k
      invariant action.failureCounter == ToInt32(n - k)
      invariant forall j :: 0 <= j < k ==> outcomes[j] == FailingOutcome(FailingJobChange(n), ToInt32(n - j - 1))
    {
      var o := action.Apply();
      ToInt32Decrement(n - k);
      outcomes := outcomes + [o];
      k := k + 1;
    }
  }

  /**
   * The first `n` calls fail, reporting `n - k - 1` remaining failures, and every later call
   * succeeds with the action's own change and no updates, as long as the counter has not
   * wrapped around (fewer than `n + 2^31` calls).
   */
  lemma FailsExactlyFirstCalls(n: int, k: nat)
    requires -TwoTo31 <= n < TwoTo31
    requires k < n + TwoTo31
    ensures FailingOutcome(FailingJobChange(n), ToInt32(n - k - 1)).Failure? <==> k < n
    ensures k < n ==> FailingOutcome(FailingJobChange(n), ToInt32(n - k - 1)) == Failure(FailureMessage(n - k - 1))
    ensures k >= n ==> FailingOutcome(FailingJobChange(n), ToInt32(n - k - 1)) == Success(FailingJobChange(n), [])
  {
  }

  /** The counter is a Java `int`: after `n + 2^31` calls it wraps to the maximum and the action fails again. */
  lemma FailsAgainAfterWrap(n: int)
    requires -TwoTo31 <= n < TwoTo31
    ensures FailingOutcome(FailingJobChange(n), ToInt32(n - (n + TwoTo31) - 1)) == Failure(FailureMessage(TwoTo31 - 1))
  {
  }
}
