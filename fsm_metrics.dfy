/**
 * Metrics for a finite state machine: one holder per tracked state, each with a
 * current-state flag (0 or 1, exposed as a gauge unless the state is final) and a
 * counter of transitions into that state. A repeated report of the state the machine
 * is already in is not a transition and is not counted.
 *
 * The metrics registry is left out: a counter is a `nat`, a gauge an `int` field.
 */
module FsmMetrics {
  import opened Options

  /** What one holder records: its current-state flag and its transition counter. */
  datatype HolderState = HolderState(flag: int, count: nat)

  /** `StateHolder.moveToState(next)` for a holder tracking `state`, on values. */
  function NextHolderState<S(==)>(state: S, hs: HolderState, next: S): HolderState
  {
    if next == state then
      if hs.flag == 0 then HolderState(1, hs.count + 1) else HolderState(1, hs.count)
    else HolderState(0, hs.count)
  }

  /** `transition(next)`: every holder moves to `next`. */
  function Step<S(==)>(states: seq<S>, hs: seq<HolderState>, next: S): (r: seq<HolderState>)
    requires |states| == |hs|
    ensures |r| == |hs|
  {
    seq(|hs|, i requires 0 <= i < |hs| => NextHolderState(states[i], hs[i], next))
  }

  function Initial(n: nat): (r: seq<HolderState>)
    ensures |r| == n
  {
    seq(n, _ => HolderState(0, 0))
  }

  /** The holders' states after reporting `trace`, in order, from the initial state. */
  function Run<S(==)>(states: seq<S>, trace: seq<S>): (r: seq<HolderState>)
    ensures |r| == |states|
    decreases |trace|
  {
    if trace == [] then Initial(|states|)
    else Step(states, Run(states, trace[..|trace| - 1]), trace[|trace| - 1])
  }

  /** The number of genuine entries into `s` in `trace`: positions holding `s` whose predecessor does not. */
  function Entries<S(==)>(trace: seq<S>, s: S): nat
    decreases |trace|
  {
    if trace == [] then 0
    else
      var n := |trace|;
      Entries(trace[..n - 1], s) + (if trace[n - 1] == s && (n == 1 || trace[n - 2] != s) then 1 else 0)
  }

  predicate DistinctStates<S(==)>(states: seq<S>)
  {
    forall i, j :: 0 <= i < j < |states| ==> states[i] != states[j]
  }

  /**
   * After a transition to `next` the holder for `next` has flag 1 and every other holder
   * flag 0; a counter grows, by exactly 1, iff its holder's state is `next` and its flag was 0.
   */
  lemma StepEffect<S>(states: seq<S>, hs: seq<HolderState>, next: S, i: nat)
    requires |states| == |hs| && i < |hs|
    ensures Step(states, hs, next)[i].flag == (if states[i] == next then 1 else 0)
    ensures Step(states, hs, next)[i].count == hs[i].count + (if states[i] == next && hs[i].flag == 0 then 1 else 0)
  {
  }

  /** Reporting the same state twice in a row changes nothing the second time. */
  lemma StepIdempotent<S>(states: seq<S>, hs: seq<HolderState>, next: S)
    requires |states| == |hs|
    ensures Step(states, Step(states, hs, next), next) == Step(states, hs, next)
  {
  }

  /** Counters never decrease, and with distinct tracked states a transition changes at most one counter, by 1. */
  lemma StepCounters<S>(states: seq<S>, hs: seq<HolderState>, next: S)
    requires |states| == |hs|
    ensures forall i :: 0 <= i < |hs| ==> Step(states, hs, next)[i].count >= hs[i].count
    ensures forall i :: 0 <= i < |hs| && Step(states, hs, next)[i].count != hs[i].count ==>
              Step(states, hs, next)[i].count == hs[i].count + 1
    ensures DistinctStates(states) ==>
              forall i, j ::
                (0 <= i < |hs| && 0 <= j < |hs| && Step(states, hs, next)[i].count != hs[i].count &&
                 Step(states, hs, next)[j].count != hs[j].count) ==> i == j
  {
  }

  /** A transition to an untracked state clears every flag and counts nothing. */
  lemma StepToUntracked<S>(states: seq<S>, hs: seq<HolderState>, next: S)
    requires |states| == |hs|
    requires next !in states
    ensures forall i :: 0 <= i < |hs| ==> Step(states, hs, next)[i] == HolderState(0, hs[i].count)
  {
  }

  /** With distinct tracked states, at most one holder is flagged after any transition. */
  lemma StepFlagsAtMostOne<S>(states: seq<S>, hs: seq<HolderState>, next: S)
    requires |states| == |hs| && DistinctStates(states)
    ensures forall i, j ::
              (0 <= i < |hs| && 0 <= j < |hs| && Step(states, hs, next)[i].flag == 1 &&
               Step(states, hs, next)[j].flag == 1) ==> i == j
  {
  }

  /**
   * Reaching a final state clears the current-state indicators: when every holder for
   * `next` is final, every holder of a non-final state has flag 0 after the transition.
   */
  lemma TerminalStepClearsIndicators<S>(states: seq<S>, finals: seq<bool>, hs: seq<HolderState>, next: S)
    requires |states| == |hs| == |finals|
    requires forall i :: 0 <= i < |states| && states[i] == next ==> finals[i]
    ensures forall i :: 0 <= i < |hs| && !finals[i] ==> Step(states, hs, next)[i].flag == 0
  {
  }

  /**
   * From the initial state, after a trace of reported states, each holder's counter is the
   * number of genuine entries into its state, and its flag says whether the last report was it.
   */
  lemma {:induction false} RunCountsEntries<S>(states: seq<S>, trace: seq<S>, i: nat)
    requires i < |states|
    ensures Run(states, trace)[i].count == Entries(trace, states[i])
    ensures Run(states, trace)[i].flag == (if trace != [] && trace[|trace| - 1] == states[i] then 1 else 0)
    decreases |trace|
  {
    if trace != [] {
      var n := |trace|;
      var prefix := trace[..n - 1];
      RunCountsEntries(states, prefix, i);
      if n > 1 {
        assert prefix[|prefix| - 1] == trace[n - 2];
      }
    }
  }

  class StateHolder<S(==)> {
    const state: S
    const isFinal: bool
    var currentState: int
    var counter: nat

    constructor (state: S, isFinal: bool)
      ensures this.state == state && this.isFinal == isFinal
      ensures currentState == 0 && counter == 0
    {
      this.state := state;
      this.isFinal := isFinal;
      currentState := 0;
      counter := 0;
    }

    function Snapshot(): HolderState
      reads this
    {
      HolderState(currentState, counter)
    }

    /** The current-state gauge: registered only for a non-final state. */
    function Gauge(): (g: Option<int>)
      reads this
      ensures g.Some? <==> !isFinal
      ensures g.Some? ==> g.value == currentState
    {
      if isFinal then None else Some(currentState)
    }

    method MoveToState(next: S)
      modifies this
      ensures Snapshot() == NextHolderState(state, old(Snapshot()), next)
    {
      if next == state {
        var previous := currentState;
        currentState := 1;
        if previous == 0 {
          counter := counter + 1;
        }
      } else {
        currentState := 0;
      }
    }
  }

  /** `FsmMetricsImpl`: a holder per tracked state, in the order the states were given. */
  class Metrics<S(==)> {
    const holders: seq<StateHolder<S>>

    ghost predicate Valid()
      reads this, holders
    {
      && (forall i, j :: 0 <= i < j < |holders| ==> holders[i] != holders[j])
      && (forall i :: 0 <= i < |holders| ==> holders[i].currentState == 0 || holders[i].currentState == 1)
    }

    function States(): (r: seq<S>)
      reads this
      ensures |r| == |holders|
    {
      seq(|holders|, i requires 0 <= i < |holders| => holders[i].state)
    }

    ghost function Abstract(): (r: seq<HolderState>)
      reads this, holders
      ensures |r| == |holders|
    {
      seq(|holders|, i reads holders requires 0 <= i < |holders| => holders[i].Snapshot())
    }

    constructor (trackedStates: seq<S>, finalStateEval: S -> bool)
      ensures Valid()
      ensures States() == trackedStates
      ensures forall i :: 0 <= i < |holders| ==> fresh(holders[i]) && holders[i].isFinal == finalStateEval(trackedStates[i])
      ensures Abstract() == Initial(|trackedStates|)
    {
      var hs: seq<StateHolder<S>> := [];
      var i := 0;
      while i < |trackedStates|
        invariant 0 <= i <= |trackedStates| && |hs| == i
        invariant forall k :: 0 <= k < i ==> fresh(hs[k])
        invariant forall k :: 0 <= k < i ==> hs[k].state == trackedStates[k] && hs[k].isFinal == finalStateEval(trackedStates[k])
        invariant forall k :: 0 <= k < i ==> hs[k].currentState == 0 && hs[k].counter == 0
        invariant forall a, b :: 0 <= a < b < i ==> hs[a] != hs[b]
      {
        var h := new StateHolder(trackedStates[i], finalStateEval(trackedStates[i]));
        hs := hs + [h];
        i := i + 1;
      }
      holders := hs;
    }

    /** `transition(nextState)`: moves every holder, in order. */
    method Transition(next: S)
      requires Valid()
      modifies holders
      ensures Valid()
      ensures Abstract() == Step(States(), old(Abstract()), next)
      ensures (forall i :: 0 <= i < |holders| && holders[i].state == next ==> holders[i].isFinal) ==>
                forall i :: 0 <= i < |holders| ==> holders[i].Gauge() == None || holders[i].Gauge() == Some(0)
    {
      var i := 0;
      while i < |holders|
        invariant 0 <= i <= |holders|
        invariant forall k :: 0 <= k < i ==> holders[k].Snapshot() == NextHolderState(holders[k].state, old(holders[k].Snapshot()), next)
        invariant forall k :: i <= k < |holders| ==> holders[k].Snapshot() == old(holders[k].Snapshot())
      {
        holders[i].MoveToState(next);
        i := i + 1;
      }
    }
  }
}
