# Titus job-management core, modelled in Dafny

This project models the decision logic at the heart of the Titus control plane's job
reconciliation, together with four smaller pieces of the same repository.

- **Service-job difference resolver** (`service_difference_resolver.dfy`, with
  `resolver_model.dfy` for its entities and `resolver_properties.dfy` for its lemmas).
  The resolver gets three snapshots of one service job:
  - the reference model (what the user wants);
  - the running model (what the agents run);
  - the store model (what is persisted).

  It returns the ordered list of corrective change actions:
  - the runtime part: kill-initiated handling, job-size corrections (scale up, scale
    down), task starts capped by the rate limiter's allowance, and state timeouts;
  - then the store part: a job write, and per-task writes, removals and replacements;
  - and, only when both parts are empty, the completed-job removal check.

  Each loop of the source is a method proved against a pure specification function.
  The resolver's properties are lemmas about those functions.
- **FSM metrics** (`fsm_metrics.dfy`). Each tracked state has a holder with a
  current-state flag (0/1) and a counter of genuine transitions into it. Holders are
  objects that `transition` updates in place. Their effect is specified by a pure step
  function on the holders' values.
- **Service-job extension** (`service_job_ext.dfy`, `java_int.dfy`). An immutable value
  with structural `equals` and a 32-bit `hashCode`, plus a mutable builder.
- **Capacity monitoring helpers** (`capacity_monitoring.dfy`). These cover:
  - restricting the instance-type limits to the scalable types;
  - selecting the Critical-tier SLAs;
  - pairing minimum sizes with allocated maxima;
  - grouping SLAs by tier.
- **Sample change actions** (`sample_change_actions.dfy`). One change action always
  succeeds. The other fails a set number of times, then succeeds.

What the code does not show is a parameter of the model:
- the interceptors' execution limits are the inputs `canUpdateStore` and `allowedToRun`;
- the clock is `now`;
- the helpers `isTerminating`, `hasReachedRetryLimit`, `areEquivalent`,
  `applyKillInitiated`, `findTaskStateTimeouts` and `removeCompletedJob` are fields of a
  `Helpers` record of functions.

A finished task of a job that is not KillInitiated, was not scaled down and has reached
its retry limit is left in the store: it gets no removal and no replacement
(ServiceDifferenceResolver.java, lines 220-226).
`ResolverProperties.RetryLimitReachedLeavesTask` states it.

## Model

| member | source | states |
|---|---|---|
| ServiceDifferenceResolver.Apply | titus-server-master/src/main/java/io/netflix/titus/master/jobmanager/service/service/ServiceDifferenceResolver.java:112-123 | The result is the runtime actions followed by the store actions, with the runtime part as prefix and the store part as suffix. The completed-job removal helper's output is returned only when both parts are empty. |
| ServiceDifferenceResolver.ApplyRuntime | titus-server-master/src/main/java/io/netflix/titus/master/jobmanager/service/service/ServiceDifferenceResolver.java:125-141 | A KillInitiated job yields exactly the kill-initiated helper's actions, with no create, scale-down, start or timeout action. A Finished job yields nothing. Any other job yields size corrections, then starts, then state timeouts. |
| ServiceDifferenceResolver.FindJobSizeInconsistencies | titus-server-master/src/main/java/io/netflix/titus/master/jobmanager/service/service/ServiceDifferenceResolver.java:146-173 | Both loops (creation, and scale-down with its decreasing kill budget) compute the size specification. Its meaning is proved in ScaleUp, ScaleDown and ScaleDownKillsHighestFirst. |
| ServiceDifferenceResolver.FindMissingRunningTasks | titus-server-master/src/main/java/io/netflix/titus/master/jobmanager/service/service/ServiceDifferenceResolver.java:186-199 | The loop, which stops when the allowance runs out, computes the start specification. Its meaning is proved in StartTasks. |
| ServiceDifferenceResolver.ApplyStore | titus-server-master/src/main/java/io/netflix/titus/master/jobmanager/service/service/ServiceDifferenceResolver.java:201-232 | A closed store gate gives no actions. Otherwise the method computes the store specification: an optional job write, then one step per reference task. |
| ServiceDifferenceResolver.FindByIdFinds | titus-server-master/src/main/java/io/netflix/titus/master/jobmanager/service/service/ServiceDifferenceResolver.java:216 | A lookup by id returns a task of the collection with that id. It returns nothing exactly when no task has that id. |
| ServiceDifferenceResolver.NewTaskAction | titus-server-master/src/main/java/io/netflix/titus/master/jobmanager/service/service/ServiceDifferenceResolver.java:175-181 | A new-task action creates (or, given a previous task, replaces) a task of the reference job, seeing its current tasks. The rate limiter is the outer gate and the store-write retry the inner one. |
| ResolverProperties.ScaleUp | titus-server-master/src/main/java/io/netflix/titus/master/jobmanager/service/service/ServiceDifferenceResolver.java:149-155 | With the store gate open and `missing > 0`, exactly `missing` actions are emitted. Each is the rate-limited, retried create-task action with no previous task. |
| ResolverProperties.ScaleDown | titus-server-master/src/main/java/io/netflix/titus/master/jobmanager/service/service/ServiceDifferenceResolver.java:156-170 | When the required size is at least 0 and below the task count, `max(0, surplus - terminating)` kills are emitted. They are the kills of the non-terminating tasks taken in reverse order, each for the scaled-down reason. |
| ResolverProperties.ScaleDownKillsHighestFirst | titus-server-master/src/main/java/io/netflix/titus/master/jobmanager/service/service/ServiceDifferenceResolver.java:162-168 | The scale-down loop with budget `k` over the first `i` tasks kills the first `min(k, n)` of the `n` non-terminating tasks, highest index first. |
| ResolverProperties.ScaleDownKillOrder | titus-server-master/src/main/java/io/netflix/titus/master/jobmanager/service/service/ServiceDifferenceResolver.java:160-169 | The j-th scale-down kill targets the j-th non-terminating task counted from the highest index down. |
| ResolverProperties.ScaleDownKillsSpareTerminating | titus-server-master/src/main/java/io/netflix/titus/master/jobmanager/service/service/ServiceDifferenceResolver.java:162-168 | Every scale-down action is a kill initiation of a task of the job that is not terminating, with the scaled-down reason code. |
| ResolverProperties.SizeActionsKinds | titus-server-master/src/main/java/io/netflix/titus/master/jobmanager/service/service/ServiceDifferenceResolver.java:146-173 | Every size action is either a new-task creation, emitted only with the store gate open, or a kill of a non-terminating task of the job. |
| ResolverProperties.StartActionsAdmitFirstAbsent | titus-server-master/src/main/java/io/netflix/titus/master/jobmanager/service/service/ServiceDifferenceResolver.java:190-197 | The start loop with allowance `a` starts exactly the first `min(a, n)` of the `n` reference tasks absent from running, in reference order. |
| ResolverProperties.StartTasks | titus-server-master/src/main/java/io/netflix/titus/master/jobmanager/service/service/ServiceDifferenceResolver.java:186-199 | There are `min(allowedToRun, #absent)` start actions. Action `j` starts absent task `j` on the running job. Each starts a reference task that running lacks. With distinct reference ids, no id is started twice. |
| ResolverProperties.StoreTaskActionsAtMostOnePerTask | titus-server-master/src/main/java/io/netflix/titus/master/jobmanager/service/service/ServiceDifferenceResolver.java:215-230 | At most one action per reference task. Each is a task write, a task removal or a create-or-replace. While the job is KillInitiated, only writes and removals occur. |
| ResolverProperties.WriteTaskIffOutOfSync | titus-server-master/src/main/java/io/netflix/titus/master/jobmanager/service/service/ServiceDifferenceResolver.java:216-228 | A write of reference task `t` is emitted if and only if `t` is a reference task that is not in sync with its store counterpart (absent, or not equivalent). |
| ResolverProperties.RemoveTaskIffDue | titus-server-master/src/main/java/io/netflix/titus/master/jobmanager/service/service/ServiceDifferenceResolver.java:218-222 | A removal of store task `st` is emitted if and only if `st` is the in-sync, finished counterpart of a reference task and either the job is KillInitiated or the reason is scaled down. |
| ResolverProperties.ReplaceIffDue | titus-server-master/src/main/java/io/netflix/titus/master/jobmanager/service/service/ServiceDifferenceResolver.java:218-225 | A replacement of store task `st` is emitted if and only if `st` is the in-sync, finished counterpart of a reference task, no removal is due, and the retry limit is not reached. |
| ResolverProperties.RetryLimitReachedLeavesTask | titus-server-master/src/main/java/io/netflix/titus/master/jobmanager/service/service/ServiceDifferenceResolver.java:220-226 | A finished task of a running job, not scaled down, at its retry limit, gets neither a removal nor a replacement. |
| ResolverProperties.WriteJobIffJobChanged | titus-server-master/src/main/java/io/netflix/titus/master/jobmanager/service/service/ServiceDifferenceResolver.java:211-213 | With the gate open, a job write exists if and only if the reference job differs from the store job. It is then the first store action. Unequal service-job extensions always cause one. |
| ResolverProperties.ClosedStoreGateCreatesNothing | titus-server-master/src/main/java/io/netflix/titus/master/jobmanager/service/service/ServiceDifferenceResolver.java:150-203 | In any job state, with the store gate closed the store part is empty and no size or start action creates a task. |
| ResolverProperties.KillInitiatedOnlyKillsAndCleansStore | titus-server-master/src/main/java/io/netflix/titus/master/jobmanager/service/service/ServiceDifferenceResolver.java:130-131 | For a KillInitiated job, every action comes from the kill-initiated helper or the completed-job check, or is a job write, task write or task removal. |
| ResolverProperties.SettledJobNeedsNoCorrection | titus-server-master/src/main/java/io/netflix/titus/master/jobmanager/service/service/ServiceDifferenceResolver.java:112-123 | A settled job yields only the completed-job check's output. Settled means: reference equals store, at required size, all tasks running, none finished, no timeouts. |
| ResolverProperties.NewTasksAreStartedAndWritten | titus-server-master/src/main/java/io/netflix/titus/master/jobmanager/service/service/ServiceDifferenceResolver.java:112-123 | Take new reference tasks at the required size, absent from running and store, with enough allowance and an open gate. One cycle starts them all in order, then writes them all in order. |
| FsmMetrics.StateHolder.constructor | titus-common/src/main/java/io/netflix/titus/common/util/spectator/FsmMetricsImpl.java:58-64 | A holder starts with flag 0 and counter 0 for its state and finality. |
| FsmMetrics.StateHolder.Gauge | titus-common/src/main/java/io/netflix/titus/common/util/spectator/FsmMetricsImpl.java:61-63 | The flag is exposed as a gauge exactly when the state is not final, and then with the flag's value. |
| FsmMetrics.StateHolder.MoveToState | titus-common/src/main/java/io/netflix/titus/common/util/spectator/FsmMetricsImpl.java:66-74 | The new flag and counter are the holder step function applied to the old flag and counter. |
| FsmMetrics.Metrics.constructor | titus-common/src/main/java/io/netflix/titus/common/util/spectator/FsmMetricsImpl.java:43-45 | One fresh, distinct holder per tracked state, in order, with finality from the evaluator. All holders start at flag 0 and counter 0. |
| FsmMetrics.Metrics.Transition | titus-common/src/main/java/io/netflix/titus/common/util/spectator/FsmMetricsImpl.java:49-51 | Every holder moves: the new holder values are the step function applied to the old values. The holders stay distinct with 0/1 flags.If every holder of the reported state is final, every exposed gauge reads 0 afterwards. |
| FsmMetrics.TerminalStepClearsIndicators | titus-common/src/main/java/io/netflix/titus/common/util/spectator/FsmMetricsImpl.java:28-31 | When every holder of the reported state is final, each holder of a non-final state has flag 0 after the transition: reaching the terminal state clears the current-state indicators. |
| FsmMetrics.StepEffect | titus-common/src/main/java/io/netflix/titus/common/util/spectator/FsmMetricsImpl.java:66-73 | After a transition to `s`, the holder for `s` has flag 1 and every other holder has flag 0. A counter grows by 1 exactly when its state is `s` and its flag was 0. |
| FsmMetrics.StepIdempotent | titus-common/src/main/java/io/netflix/titus/common/util/spectator/FsmMetricsImpl.java:68 | Repeating the same transition changes nothing. |
| FsmMetrics.StepCounters | titus-common/src/main/java/io/netflix/titus/common/util/spectator/FsmMetricsImpl.java:66-74 | Counters never decrease and change only by 1. With distinct tracked states, at most one counter changes. |
| FsmMetrics.StepToUntracked | titus-common/src/main/java/io/netflix/titus/common/util/spectator/FsmMetricsImpl.java:71-72 | A transition to an untracked state clears every flag and leaves every counter unchanged. |
| FsmMetrics.StepFlagsAtMostOne | titus-common/src/main/java/io/netflix/titus/common/util/spectator/FsmMetricsImpl.java:66-73 | With distinct tracked states, at most one holder has flag 1 after any transition. |
| FsmMetrics.RunCountsEntries | titus-common/src/main/java/io/netflix/titus/common/util/spectator/FsmMetricsImpl.java:66-74 | Start from the initial holders and report any trace. Each counter equals the number of genuine entries into its state (reports not preceded by the same state). Each flag says whether the last report was that state. |
| JobExt.Equals | titus-api/src/main/java/io/netflix/titus/api/jobmanager/model/job/ext/ServiceJobExt.java:62-80 | `equals` holds if and only if the argument is non-null and `enabled`, `capacity` and `retryPolicy` all agree, null matching only null. |
| JobExt.EqualsReflexive | titus-api/src/main/java/io/netflix/titus/api/jobmanager/model/job/ext/ServiceJobExt.java:63-65 | Every value `equals` itself. |
| JobExt.EqualsSymmetric | titus-api/src/main/java/io/netflix/titus/api/jobmanager/model/job/ext/ServiceJobExt.java:62-80 | `x.equals(y)` if and only if `y.equals(x)`. |
| JobExt.HashCode | titus-api/src/main/java/io/netflix/titus/api/jobmanager/model/job/ext/ServiceJobExt.java:83-88 | The hash code is a 32-bit int for any field hash functions. |
| JobExt.HashCodeConsistentWithEquals | titus-api/src/main/java/io/netflix/titus/api/jobmanager/model/job/ext/ServiceJobExt.java:83-88 | Values related by `equals` have equal hash codes, whatever the field hash functions. |
| JavaInt.ToInt32 | titus-api/src/main/java/io/netflix/titus/api/jobmanager/model/job/ext/ServiceJobExt.java:84-87 | Java `int` arithmetic: the result is in the 32-bit range, congruent to the exact value modulo 2^32, and equal to it when it fits. |
| JobExt.Builder.constructor | titus-api/src/main/java/io/netflix/titus/api/jobmanager/model/job/ext/ServiceJobExt.java:119-120 | A new builder holds null capacity, `false` and null retry policy. |
| JobExt.Builder.WithCapacity | titus-api/src/main/java/io/netflix/titus/api/jobmanager/model/job/ext/ServiceJobExt.java:122-125 | Sets the capacity only and returns the same builder. |
| JobExt.Builder.WithEnabled | titus-api/src/main/java/io/netflix/titus/api/jobmanager/model/job/ext/ServiceJobExt.java:127-130 | Sets the enabled flag only and returns the same builder. |
| JobExt.Builder.WithRetryPolicy | titus-api/src/main/java/io/netflix/titus/api/jobmanager/model/job/ext/ServiceJobExt.java:132-135 | Sets the retry policy only and returns the same builder. |
| JobExt.Builder.But | titus-api/src/main/java/io/netflix/titus/api/jobmanager/model/job/ext/ServiceJobExt.java:137-139 | Returns a fresh builder with the same three field values. |
| JobExt.Builder.Build | titus-api/src/main/java/io/netflix/titus/api/jobmanager/model/job/ext/ServiceJobExt.java:141-144 | The built value carries exactly the capacity, enabled flag and retry policy currently set on the builder. NewBuilderFrom and ToBuilderBuild are its round-trip partners. |
| JobExt.NewBuilderFrom | titus-api/src/main/java/io/netflix/titus/api/jobmanager/model/job/ext/ServiceJobExt.java:107-112 | A fresh builder whose `build()` gives back exactly the value it was made from. |
| JobExt.ToBuilder | titus-api/src/main/java/io/netflix/titus/api/jobmanager/model/job/ext/ServiceJobExt.java:99-101 | Same round trip as `newBuilder(x)`. |
| JobExt.ToBuilderBuild | titus-api/src/main/java/io/netflix/titus/api/jobmanager/model/job/ext/ServiceJobExt.java:141-144 | `x.toBuilder().build()` `equals` `x`. |
| JobExt.WithEnabledCopy | titus-api/src/main/java/io/netflix/titus/api/jobmanager/model/job/ext/ServiceJobExt.java:127-130 | Rebuilding with another enabled flag changes that field only. The copy `equals` the original if and only if the flag is unchanged. |
| CapacityMonitoring.Restrict | titus-server-master/src/main/java/io/netflix/titus/master/service/management/internal/DefaultCapacityMonitoringService.java:200-201 | The restricted map's keys are the input keys that are kept, each with its original value. |
| CapacityMonitoring.ScalableInstanceTypeLimits | titus-server-master/src/main/java/io/netflix/titus/master/service/management/internal/DefaultCapacityMonitoringService.java:198-203 | The key-removal loop yields the input map restricted to the scalable instance types. The input map is a value and is unchanged. |
| CapacityMonitoring.ScalableSlas | titus-server-master/src/main/java/io/netflix/titus/master/service/management/internal/DefaultCapacityMonitoringService.java:205-207 | An SLA is selected if and only if it is in the input and on the Critical tier. |
| CapacityMonitoring.TierSlasMembers | titus-server-master/src/main/java/io/netflix/titus/master/service/management/internal/DefaultCapacityMonitoringService.java:205-207 | Filtering by tier keeps exactly the members of that tier. |
| CapacityMonitoring.TierSlasMultiset | titus-server-master/src/main/java/io/netflix/titus/master/service/management/internal/DefaultCapacityMonitoringService.java:205-207 | The filter keeps each SLA of the tier as many times as it occurs, and no other SLA. |
| CapacityMonitoring.TierSlasAppend | titus-server-master/src/main/java/io/netflix/titus/master/service/management/internal/DefaultCapacityMonitoringService.java:205-207 | The filter distributes over concatenation, so the original order within a tier is kept. |
| CapacityMonitoring.GroupByTier | titus-server-master/src/main/java/io/netflix/titus/master/service/management/internal/DefaultCapacityMonitoringService.java:219-227 | The map built in place has an entry for exactly the tiers that have SLAs. Each entry is that tier's SLAs in input order. |
| CapacityMonitoring.GroupingPlacesEverySla | titus-server-master/src/main/java/io/netflix/titus/master/service/management/internal/DefaultCapacityMonitoringService.java:219-227 | Every SLA appears in its own tier's list. Every entry is non-empty and holds only input SLAs of its tier. |
| CapacityMonitoring.GroupingIsPermutation | titus-server-master/src/main/java/io/netflix/titus/master/service/management/internal/DefaultCapacityMonitoringService.java:219-227 | Together, the tier lists are a permutation of the SLA list. |
| CapacityMonitoring.ScalableSlasAreCriticalGroup | titus-server-master/src/main/java/io/netflix/titus/master/service/management/internal/DefaultCapacityMonitoringService.java:205-207 | The scalable SLAs are exactly the Critical list of the full grouping, or empty when there is none. |
| CapacityMonitoring.BuildInstanceTypeLimits | titus-server-master/src/main/java/io/netflix/titus/master/service/management/internal/DefaultCapacityMonitoringService.java:209-216 | It fails if and only if `maxLimits` is shorter than `instanceTypes`. Otherwise element `i` pairs the configured minimum size of type `i` with `maxLimits[i]`, with one element per type. |
| SampleChangeActions.SuccessfulJob | titus-server-master/src/test/java/io/netflix/titus/master/jobmanager/SampleTitusChangeActions.java:37-39 | A fresh action whose change has kind Job, trigger API, id `jobId` and the success summary. |
| SampleChangeActions.FailingJob | titus-server-master/src/test/java/io/netflix/titus/master/jobmanager/SampleTitusChangeActions.java:41-43 | A fresh action with kind Job, trigger API, id `jobId`, the failure-count summary and its counter set to `n`. |
| SampleChangeActions.SuccessfulChangeAction.constructor | titus-server-master/src/test/java/io/netflix/titus/master/jobmanager/SampleTitusChangeActions.java:47-49 | The change carries the given kind, trigger and id and the fixed success summary. |
| SampleChangeActions.SuccessfulChangeAction.Apply | titus-server-master/src/test/java/io/netflix/titus/master/jobmanager/SampleTitusChangeActions.java:51-54 | Always succeeds, returning its own change and an empty update list. |
| SampleChangeActions.FailingChangeAction.constructor | titus-server-master/src/test/java/io/netflix/titus/master/jobmanager/SampleTitusChangeActions.java:61-64 | The change's summary states the failure count, and the counter starts at it. |
| SampleChangeActions.FailingChangeAction.Apply | titus-server-master/src/test/java/io/netflix/titus/master/jobmanager/SampleTitusChangeActions.java:66-72 | Decrements the counter by exactly 1, as a Java `int`. It then fails, reporting the new counter, if the counter is non-negative. Otherwise it succeeds with its change and no updates. |
| SampleChangeActions.RunFailingJob | titus-server-master/src/test/java/io/netflix/titus/master/jobmanager/SampleTitusChangeActions.java:66-72 | Over successive calls on one `failingJob(n)`, call `k` (from 0) reports the outcome for counter `n - k - 1`, wrapped to 32 bits. |
| SampleChangeActions.FailsExactlyFirstCalls | titus-server-master/src/test/java/io/netflix/titus/master/jobmanager/SampleTitusChangeActions.java:68-71 | Before the counter wraps, call `k` fails if and only if `k < n`, reporting `n - k - 1` remaining. Every later call succeeds with an empty update list, so `failingJob(0)` succeeds at once. |
| SampleChangeActions.FailsAgainAfterWrap | titus-server-master/src/test/java/io/netflix/titus/master/jobmanager/SampleTitusChangeActions.java:68 | After `n + 2^31` calls the counter wraps to `2^31 - 1`, and the action fails again. |
| JavaInt.ToInt32Decrement | titus-server-master/src/test/java/io/netflix/titus/master/jobmanager/SampleTitusChangeActions.java:68 | Decrementing a wrapped counter is the same as wrapping the exact decrement, so `k` decrements leave `n - k` wrapped. |

## Left out

- Interceptor and limiter internals are not part of this model. These are the retry
  interceptor, the rate-limiter interceptor, exponential back-off and the token bucket.
  Their execution limits are the inputs `canUpdateStore` and `allowedToRun`. Their
  wrapping of an action is the `gates` list on the action.
- Both calls to the store interceptor's `executionLimits` on the same store snapshot are
  taken to return the same value, the one `canUpdateStore`.
- The bodies of the change actions are I/O against the store, the scheduler and the
  cloud. These actions are start, kill, job write, task write, task removal and
  create-or-replace. Each is represented only by the `Change` constructor that records
  its arguments.
- `isTerminating`, `hasReachedRetryLimit`, `areEquivalent`, `applyKillInitiated`,
  `findTaskStateTimeouts` and `removeCompletedJob` are uninterpreted: their code is not
  part of this model. The wall clock they read is the parameter `now`.
- The job view's required size is a field of `Job`. The view that derives it from the
  job descriptor is not part of this model.
- `Job`, `Capacity` and `RetryPolicy` are represented as values. Their `equals` is taken
  to be structural, because their classes are not part of this model.
- The value of the scaled-down reason code is a placeholder. Only its identity with the
  code the resolver compares against matters.
- `ServiceDifferenceResolver.FindJobSizeInconsistencies`: 32-bit overflow of
  `missing`, and the `(int)` cast of the terminating count, are not modelled. Task
  counts are far below 2^31.
- `ServiceDifferenceResolver.FindMissingRunningTasks`: the allowance is a `nat`. The
  source's `long` allowance, when negative, starts nothing, exactly as 0 does here.
- `FsmMetrics.StepCounters`: "at most one counter changes" is stated only for distinct
  tracked states. With a state listed twice, both of its holders count the same
  transition.
- The metrics registry is a foreign library and is not modelled. This covers counter and
  gauge registration and the metric ids and names. A counter is a `nat`. The gauge is
  the holder's flag, exposed by `Gauge`.
- `AtomicInteger` atomicity is a concurrency concern. All updates are sequential here.
- `JobExt.Equals`: the `getClass()` comparison is not modelled, because the model has
  one class only. The identity shortcut `this == o` is subsumed by field equality.
- `JobExt.HashCode`: the hash codes of `Capacity` and `RetryPolicy` are parameters,
  because their classes are not part of this model.
- The reactive plumbing of the capacity monitoring service is asynchronous and
  scheduler-driven, and is not modelled. This covers:
  - `updateAction`, `schedulePeriodicUpdate`, `refresh`, `enterActiveMode`, `shutdown`;
  - the `zipToMap` call and the observable zip, merge and timeout chain;
  - the computation invoker and its metrics.

  The capacity guarantee strategy that `recompute` hands the tier map to is external.
- `CapacityMonitoring.BuildInstanceTypeLimits`: a null element of `maxLimits`
  (unboxing failure) is not modelled. A list that is too short gives `None`, not an
  exception.
- Observables are reduced to their single outcome: a failure message or a success with
  its change and updates. The exception object is reduced to its message.
