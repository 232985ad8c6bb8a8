/**
 * What the service-job difference resolver promises, proved about its specification
 * functions (and so, through their `ensures`, about the methods that compute them).
 */
module ResolverProperties {
  import opened Options
  import opened JobExt
  import opened ResolverModel
  import opened ServiceDifferenceResolver

  function Min(a: int, b: int): int { if a <= b then a else b }

  function Max(a: int, b: int): int { if a <= b then b else a }

  /** No two tasks share an id, as among the children of one entity holder. */
  predicate DistinctIds(ts: seq<Task>)
  {
    forall i, j :: 0 <= i < j < |ts| ==> ts[i].id != ts[j].id
  }

  function Reverse<T>(s: seq<T>): (r: seq<T>)
    ensures |r| == |s|
  {
    if s == [] then [] else [s[|s| - 1]] + Reverse(s[..|s| - 1])
  }

  /** Reverse is what its name says: position `i` holds the element `i` places from the end. */
  lemma {:induction false} ReverseAt<T>(s: seq<T>, i: nat)
    requires i < |s|
    ensures Reverse(s)[i] == s[|s| - 1 - i]
  {
    if i > 0 {
      ReverseAt(s[..|s| - 1], i - 1);
    }
  }

  // ---------------------------------------------------------------- scale-down

  /** The non-terminating tasks, in their original order. */
  function NonTerminating(h: Helpers, tasks: seq<Task>): (r: seq<Task>)
    ensures |r| + CountTerminating(h, tasks) == |tasks|
  {
    if tasks == [] then []
    else (if h.isTerminating(tasks[0]) then [] else [tasks[0]]) + NonTerminating(h, tasks[1..])
  }

  lemma {:induction false} NonTerminatingSnoc(h: Helpers, s: seq<Task>, t: Task)
    ensures NonTerminating(h, s + [t]) == NonTerminating(h, s) + (if h.isTerminating(t) then [] else [t])
  {
    if s == [] {
      assert (s + [t])[1..] == [];
    } else {
      assert (s + [t])[1..] == s[1..] + [t];
      NonTerminatingSnoc(h, s[1..], t);
    }
  }

  /** Scale-down kill actions for the given tasks, in the given order. */
  function Kills(ts: seq<Task>): (r: seq<Action>)
    ensures |r| == |ts|
  {
    if ts == [] then [] else [ScaleDownKillAction(ts[0])] + Kills(ts[1..])
  }

  lemma {:induction false} KillsAt(ts: seq<Task>, j: nat)
    requires j < |ts|
    ensures Kills(ts)[j] == ScaleDownKillAction(ts[j])
  {
    if j > 0 {
      KillsAt(ts[1..], j - 1);
    }
  }

  lemma ReverseSnoc<T>(xs: seq<T>, t: T)
    ensures Reverse(xs + [t]) == [t] + Reverse(xs)
  {
    assert (xs + [t])[..|xs|] == xs;
  }

  lemma KillsOfPrefixCons(t: Task, ys: seq<Task>, m: nat)
    requires 0 < m <= |ys| + 1
    ensures Kills(([t] + ys)[..m]) == [ScaleDownKillAction(t)] + Kills(ys[..m - 1])
  {
    assert ([t] + ys)[..m] == [t] + ys[..m - 1];
  }

  /** The non-terminating tasks of `tasks[..i]`, highest index first. */
  function NonTerminatingDescending(h: Helpers, tasks: seq<Task>, i: nat): seq<Task>
    requires i <= |tasks|
  {
    Reverse(NonTerminating(h, tasks[..i]))
  }

  lemma NonTerminatingDescendingStep(h: Helpers, tasks: seq<Task>, i: nat)
    requires 0 < i <= |tasks|
    ensures NonTerminatingDescending(h, tasks, i)
         == (if h.isTerminating(tasks[i - 1]) then [] else [tasks[i - 1]]) + NonTerminatingDescending(h, tasks, i - 1)
  {
    var t := tasks[i - 1];
    var before := NonTerminating(h, tasks[..i - 1]);
    assert tasks[..i] == tasks[..i - 1] + [t];
    NonTerminatingSnoc(h, tasks[..i - 1], t);
    if !h.isTerminating(t) {
      ReverseSnoc(before, t);
    } else {
      assert before + [] == before;
    }
  }

  /**
   * The scale-down loop over `tasks[..i]` with budget `k` kills exactly the first
   * `min(k, n)` of the `n` non-terminating tasks taken from the highest index down.
   */
  lemma {:induction false} ScaleDownKillsHighestFirst(h: Helpers, tasks: seq<Task>, i: nat, k: nat)
    requires i <= |tasks|
    ensures var nt := NonTerminatingDescending(h, tasks, i);
            ScaleDownKills(h, tasks, i, k) == Kills(nt[..Min(k, |nt|)])
  {
    var nt := NonTerminatingDescending(h, tasks, i);
    if k == 0 || i == 0 {
      assert i == 0 ==> tasks[..i] == [];
      assert nt[..Min(k, |nt|)] == [];
    } else {
      var t := tasks[i - 1];
      var rest := NonTerminatingDescending(h, tasks, i - 1);
      NonTerminatingDescendingStep(h, tasks, i);
      if !h.isTerminating(t) {
        ScaleDownKillsHighestFirst(h, tasks, i - 1, k - 1);
        KillsOfPrefixCons(t, rest, Min(k, |nt|));
        assert Min(k, |nt|) - 1 == Min(k - 1, |rest|);
      } else {
        assert nt == [] + rest == rest;
        ScaleDownKillsHighestFirst(h, tasks, i - 1, k);
      }
    }
  }

  /** Every scale-down kill targets a non-terminating task of the job, for the scaled-down reason. */
  lemma {:induction false} ScaleDownKillsSpareTerminating(h: Helpers, tasks: seq<Task>, i: nat, k: nat)
    requires i <= |tasks|
    ensures forall a :: a in ScaleDownKills(h, tasks, i, k) ==>
              && a.change.InitiateTaskKill?
              && a.change.task in tasks
              && !h.isTerminating(a.change.task)
              && a.change.reasonCode == ReasonScaledDown
  {
    if k > 0 && i > 0 {
      if !h.isTerminating(tasks[i - 1]) {
        ScaleDownKillsSpareTerminating(h, tasks, i - 1, k - 1);
      } else {
        ScaleDownKillsSpareTerminating(h, tasks, i - 1, k);
      }
    }
  }

  /**
   * The size part either requests new tasks (only with the store gate open) or kills
   * non-terminating tasks of the job; it never kills a task that is already terminating.
   */
  lemma SizeActionsKinds(h: Helpers, ref: JobHolder, canUpdateStore: bool)
    ensures forall a :: a in SizeActions(h, ref, canUpdateStore) ==>
              || (canUpdateStore && a == NewTaskAction(ref, None))
              || (a.change.InitiateTaskKill? && a.change.task in ref.tasks && !h.isTerminating(a.change.task))
  {
    var toRemove := |ref.tasks| - ref.job.requiredSize - CountTerminating(h, ref.tasks);
    if toRemove > 0 {
      ScaleDownKillsSpareTerminating(h, ref.tasks, |ref.tasks|, toRemove);
    }
  }

  /**
   * When the reference job has more tasks than it requires, the size part kills
   * `max(0, surplus - terminating)` tasks: the highest-indexed non-terminating ones,
   * highest index first, each for the scaled-down reason; never a terminating task.
   */
  lemma ScaleDown(h: Helpers, ref: JobHolder, canUpdateStore: bool)
    requires 0 <= ref.job.requiredSize < |ref.tasks|
    ensures var toRemove := |ref.tasks| - ref.job.requiredSize - CountTerminating(h, ref.tasks);
            var nt := Reverse(NonTerminating(h, ref.tasks));
            && |SizeActions(h, ref, canUpdateStore)| == Max(0, toRemove)
            && SizeActions(h, ref, canUpdateStore) == Kills(nt[..Max(0, toRemove)])
    ensures forall a :: a in SizeActions(h, ref, canUpdateStore) ==> a.change.InitiateTaskKill? && a.change.reasonCode == ReasonScaledDown
  {
    var tasks := ref.tasks;
    var toRemove := |tasks| - ref.job.requiredSize - CountTerminating(h, tasks);
    var nt := Reverse(NonTerminating(h, tasks));
    var m := Max(0, toRemove);
    var r := SizeActions(h, ref, canUpdateStore);
    if toRemove > 0 {
      assert tasks[..|tasks|] == tasks;
      ScaleDownKillsHighestFirst(h, tasks, |tasks|, toRemove);
      assert Min(toRemove, |nt|) == m;
    } else {
      assert nt[..m] == [];
    }
    if toRemove > 0 {
      ScaleDownKillsSpareTerminating(h, tasks, |tasks|, toRemove);
    }
  }

  /**
   * Position by position: the `j`-th scale-down kill targets the `j`-th non-terminating
   * task counted from the highest index down.
   */
  lemma ScaleDownKillOrder(h: Helpers, ref: JobHolder, canUpdateStore: bool, j: nat)
    requires 0 <= ref.job.requiredSize < |ref.tasks|
    requires j < |SizeActions(h, ref, canUpdateStore)|
    ensures var nt := NonTerminating(h, ref.tasks);
            && j < |nt|
            && SizeActions(h, ref, canUpdateStore)[j] == ScaleDownKillAction(nt[|nt| - 1 - j])
  {
    ScaleDown(h, ref, canUpdateStore);
    var nt := NonTerminating(h, ref.tasks);
    var m := Max(0, |ref.tasks| - ref.job.requiredSize - CountTerminating(h, ref.tasks));
    KillsAt(Reverse(nt)[..m], j);
    ReverseAt(nt, j);
  }

  /** With the store gate open and tasks missing, exactly the missing number of new tasks is requested. */
  lemma ScaleUp(h: Helpers, ref: JobHolder)
    requires ref.job.requiredSize > |ref.tasks|
    ensures |SizeActions(h, ref, true)| == ref.job.requiredSize - |ref.tasks|
    ensures forall a :: a in SizeActions(h, ref, true) ==> a == NewTaskAction(ref, None)
  {
  }

  // ---------------------------------------------------------------- start tasks

  /** The reference tasks that the running snapshot does not hold, in reference order. */
  function Absent(refTasks: seq<Task>, running: seq<Task>): (r: seq<Task>)
    ensures forall t :: t in r ==> t in refTasks && FindById(running, t.id).None?
  {
    if refTasks == [] then []
    else (if FindById(running, refTasks[0].id).None? then [refTasks[0]] else []) + Absent(refTasks[1..], running)
  }

  function Starts(runningJob: Job, ts: seq<Task>): (r: seq<Action>)
    ensures |r| == |ts|
  {
    if ts == [] then [] else [StartTaskAction(runningJob, ts[0])] + Starts(runningJob, ts[1..])
  }

  lemma {:induction false} StartsAt(runningJob: Job, ts: seq<Task>, j: nat)
    requires j < |ts|
    ensures Starts(runningJob, ts)[j] == StartTaskAction(runningJob, ts[j])
  {
    if j > 0 {
      StartsAt(runningJob, ts[1..], j - 1);
    }
  }

  lemma StartsOfPrefixCons(runningJob: Job, t: Task, ys: seq<Task>, m: nat)
    requires 0 < m <= |ys| + 1
    ensures Starts(runningJob, ([t] + ys)[..m]) == [StartTaskAction(runningJob, t)] + Starts(runningJob, ys[..m - 1])
  {
    assert ([t] + ys)[..m] == [t] + ys[..m - 1];
  }

  /** The start loop admits the first `min(allowed, n)` of the `n` absent reference tasks. */
  lemma {:induction false} StartActionsAdmitFirstAbsent(refTasks: seq<Task>, running: JobHolder, allowed: nat)
    ensures var ab := Absent(refTasks, running.tasks);
            StartActions(refTasks, running, allowed) == Starts(running.job, ab[..Min(allowed, |ab|)])
  {
    var ab := Absent(refTasks, running.tasks);
    if refTasks == [] || allowed == 0 {
      assert ab[..Min(allowed, |ab|)] == [];
    } else {
      var ab' := Absent(refTasks[1..], running.tasks);
      if FindById(running.tasks, refTasks[0].id).None? {
        assert ab == [refTasks[0]] + ab';
        StartActionsAdmitFirstAbsent(refTasks[1..], running, allowed - 1);
        StartsOfPrefixCons(running.job, refTasks[0], ab', Min(allowed, |ab|));
        assert Min(allowed, |ab|) - 1 == Min(allowed - 1, |ab'|);
      } else {
        assert ab == [] + ab' == ab';
        StartActionsAdmitFirstAbsent(refTasks[1..], running, allowed);
      }
    }
  }

  lemma {:induction false} AbsentKeepsDistinctIds(refTasks: seq<Task>, running: seq<Task>)
    requires DistinctIds(refTasks)
    ensures DistinctIds(Absent(refTasks, running))
  {
    if refTasks != [] {
      var rest := refTasks[1..];
      assert DistinctIds(rest) by {
        forall i, j | 0 <= i < j < |rest| ensures rest[i].id != rest[j].id {
          assert rest[i] == refTasks[i + 1] && rest[j] == refTasks[j + 1];
        }
      }
      AbsentKeepsDistinctIds(rest, running);
      forall t | t in rest ensures t.id != refTasks[0].id {
        var j :| 0 <= j < |rest| && rest[j] == t;
        assert refTasks[j + 1] == t;
      }
    }
  }

  /**
   * Start-task actions: there are `min(allowedToRun, n)` of them for the `n` reference
   * tasks absent from running; each starts an absent reference task; they follow
   * reference order (a prefix of the absent tasks); with distinct reference ids no task
   * is started twice.
   */
  lemma StartTasks(ref: JobHolder, running: JobHolder, allowedToRun: nat)
    ensures var ab := Absent(ref.tasks, running.tasks);
            var r := StartActions(ref.tasks, running, allowedToRun);
            && |r| == Min(allowedToRun, |ab|)
            && (forall j :: 0 <= j < |r| ==> r[j] == StartTaskAction(running.job, ab[j]))
    ensures forall a :: a in StartActions(ref.tasks, running, allowedToRun) ==>
              && a.change.StartNewTask?
              && a.change.task in ref.tasks
              && FindById(running.tasks, a.change.task.id).None?
    ensures DistinctIds(ref.tasks) ==>
              var r := StartActions(ref.tasks, running, allowedToRun);
              forall i, j :: 0 <= i < j < |r| ==> r[i].change.task.id != r[j].change.task.id
  {
    var ab := Absent(ref.tasks, running.tasks);
    var r := StartActions(ref.tasks, running, allowedToRun);
    var m := Min(allowedToRun, |ab|);
    StartActionsAdmitFirstAbsent(ref.tasks, running, allowedToRun);
    forall j | 0 <= j < |r| ensures r[j] == StartTaskAction(running.job, ab[j]) {
      StartsAt(running.job, ab[..m], j);
    }
    forall a | a in r
      ensures a.change.StartNewTask? && a.change.task in ref.tasks && FindById(running.tasks, a.change.task.id).None?
    {
      var j :| 0 <= j < |r| && r[j] == a;
      assert ab[j] in ab;
    }
    if DistinctIds(ref.tasks) {
      AbsentKeepsDistinctIds(ref.tasks, running.tasks);
    }
  }

  // ---------------------------------------------------------------- store part

  /** A finished, in-sync store task is removed when its job is terminating or it was scaled down. */
  predicate RemovalDue(h: Helpers, ref: JobHolder, storeTasks: seq<Task>, t: Task, st: Task)
  {
    && InSync(h, storeTasks, t)
    && FindById(storeTasks, t.id) == Some(st)
    && st.state == TaskState.Finished
    && (ref.job.state == JobState.KillInitiated || st.reasonCode == ReasonScaledDown)
  }

  /** Otherwise a finished, in-sync store task is replaced while under its retry limit. */
  predicate ReplacementDue(h: Helpers, ref: JobHolder, storeTasks: seq<Task>, t: Task, st: Task)
  {
    && InSync(h, storeTasks, t)
    && FindById(storeTasks, t.id) == Some(st)
    && st.state == TaskState.Finished
    && ref.job.state != JobState.KillInitiated
    && st.reasonCode != ReasonScaledDown
    && !h.hasReachedRetryLimit(ref.job, st)
  }

  /** Each reference task yields at most one store action: a task write, a removal or a replacement. */
  lemma {:induction false} StoreTaskActionsAtMostOnePerTask(h: Helpers, ref: JobHolder, storeTasks: seq<Task>, ts: seq<Task>)
    ensures |StoreTaskActions(h, ref, storeTasks, ts)| <= |ts|
    ensures forall a :: a in StoreTaskActions(h, ref, storeTasks, ts) ==>
              a.change.WriteTask? || a.change.RemoveTask? || a.change.CreateOrReplaceTask?
    ensures ref.job.state == JobState.KillInitiated ==>
              forall a :: a in StoreTaskActions(h, ref, storeTasks, ts) ==> a.change.WriteTask? || a.change.RemoveTask?
  {
    if ts != [] {
      StoreTaskActionsAtMostOnePerTask(h, ref, storeTasks, ts[1..]);
    }
  }

  /** A task write is emitted for a reference task exactly when it is not in sync with the store. */
  lemma {:induction false} WriteTaskIffOutOfSync(h: Helpers, ref: JobHolder, storeTasks: seq<Task>, ts: seq<Task>, t: Task)
    ensures WriteTaskAction(ref.job, t) in StoreTaskActions(h, ref, storeTasks, ts) <==> t in ts && !InSync(h, storeTasks, t)
  {
    if ts != [] {
      WriteTaskIffOutOfSync(h, ref, storeTasks, ts[1..], t);
    }
  }

  /** A task removal is emitted exactly for the store tasks whose removal is due. */
  lemma {:induction false} RemoveTaskIffDue(h: Helpers, ref: JobHolder, storeTasks: seq<Task>, ts: seq<Task>, st: Task)
    ensures RemoveTaskAction(st) in StoreTaskActions(h, ref, storeTasks, ts) <==>
              exists t :: t in ts && RemovalDue(h, ref, storeTasks, t, st)
  {
    if ts != [] {
      RemoveTaskIffDue(h, ref, storeTasks, ts[1..], st);
      if RemovalDue(h, ref, storeTasks, ts[0], st) {
        assert RemoveTaskAction(st) in TaskStoreAction(h, ref, storeTasks, ts[0]);
      }
      forall t | t in ts && RemovalDue(h, ref, storeTasks, t, st)
        ensures RemoveTaskAction(st) in StoreTaskActions(h, ref, storeTasks, ts)
      {
        if t != ts[0] {
          assert t in ts[1..];
        }
      }
    }
  }

  /** A replacement of a finished store task is emitted exactly when one is due. */
  lemma {:induction false} ReplaceIffDue(h: Helpers, ref: JobHolder, storeTasks: seq<Task>, ts: seq<Task>, st: Task)
    ensures NewTaskAction(ref, Some(st)) in StoreTaskActions(h, ref, storeTasks, ts) <==>
              exists t :: t in ts && ReplacementDue(h, ref, storeTasks, t, st)
  {
    if ts != [] {
      ReplaceIffDue(h, ref, storeTasks, ts[1..], st);
      if ReplacementDue(h, ref, storeTasks, ts[0], st) {
        assert NewTaskAction(ref, Some(st)) in TaskStoreAction(h, ref, storeTasks, ts[0]);
      }
      forall t | t in ts && ReplacementDue(h, ref, storeTasks, t, st)
        ensures NewTaskAction(ref, Some(st)) in StoreTaskActions(h, ref, storeTasks, ts)
      {
        if t != ts[0] {
          assert t in ts[1..];
        }
      }
    }
  }

  /**
   * A finished, in-sync task of a running job that was not scaled down and has reached
   * its retry limit gets neither a removal nor a replacement: it is left in the store.
   */
  lemma RetryLimitReachedLeavesTask(h: Helpers, ref: JobHolder, store: JobHolder, st: Task)
    requires ref.job.state != JobState.KillInitiated
    requires st.state == TaskState.Finished && st.reasonCode != ReasonScaledDown
    requires h.hasReachedRetryLimit(ref.job, st)
    ensures RemoveTaskAction(st) !in StoreActions(h, ref, store, true)
    ensures NewTaskAction(ref, Some(st)) !in StoreActions(h, ref, store, true)
  {
    RemoveTaskIffDue(h, ref, store.tasks, ref.tasks, st);
    ReplaceIffDue(h, ref, store.tasks, ref.tasks, st);
  }

  /**
   * With the store gate open, a job write is emitted exactly when the reference job
   * differs from the store job, and then it comes first; in particular whenever the
   * service-job extensions are not `equals`.
   */
  lemma WriteJobIffJobChanged(h: Helpers, ref: JobHolder, store: JobHolder)
    ensures (exists a :: a in StoreActions(h, ref, store, true) && a.change.WriteJob?) <==> ref.job != store.job
    ensures ref.job != store.job ==> StoreActions(h, ref, store, true)[0] == WriteJobAction(ref.job)
    ensures !Equals(ref.job.ext, Some(store.job.ext)) ==> WriteJobAction(ref.job) in StoreActions(h, ref, store, true)
  {
    StoreTaskActionsAtMostOnePerTask(h, ref, store.tasks, ref.tasks);
    var r := StoreActions(h, ref, store, true);
    if ref.job != store.job {
      assert r[0] == WriteJobAction(ref.job);
    }
  }

  /** With the store gate closed nothing is created: neither new tasks nor replacements, and no store action at all. */
  lemma ClosedStoreGateCreatesNothing(h: Helpers, ref: JobHolder, running: JobHolder, store: JobHolder, allowedToRun: nat, now: int)
    ensures StoreActions(h, ref, store, false) == []
    ensures forall a :: a in SizeActions(h, ref, false) + StartActions(ref.tasks, running, allowedToRun) ==>
              !a.change.CreateOrReplaceTask?
  {
    SizeActionsKinds(h, ref, false);
    StartTasks(ref, running, allowedToRun);
  }

  // ---------------------------------------------------------------- whole resolver

  /**
   * While the job is being killed, the resolver creates, starts and scale-down-kills
   * nothing: every action comes from the kill-initiated helper, is a store write or
   * removal, or comes from the completed-job check.
   */
  lemma KillInitiatedOnlyKillsAndCleansStore(h: Helpers, ref: JobHolder, running: JobHolder, store: JobHolder,
                                             canUpdateStore: bool, allowedToRun: nat, now: int)
    requires ref.job.state == JobState.KillInitiated
    ensures forall a :: a in Resolve(h, ref, running, store, canUpdateStore, allowedToRun, now) ==>
              || a in h.applyKillInitiated(running)
              || a in h.removeCompletedJob(ref, store)
              || a.change.WriteJob? || a.change.WriteTask? || a.change.RemoveTask?
  {
    StoreTaskActionsAtMostOnePerTask(h, ref, store.tasks, ref.tasks);
  }

  lemma {:induction false} FindByIdDistinct(ts: seq<Task>, k: nat)
    requires DistinctIds(ts) && k < |ts|
    ensures FindById(ts, ts[k].id) == Some(ts[k])
  {
    if k > 0 {
      assert ts[0].id != ts[k].id;
      var rest := ts[1..];
      assert DistinctIds(rest) by {
        forall i, j | 0 <= i < j < |rest| ensures rest[i].id != rest[j].id {
          assert rest[i] == ts[i + 1] && rest[j] == ts[j + 1];
        }
      }
      FindByIdDistinct(rest, k - 1);
    }
  }

  lemma {:induction false} StoreTaskActionsEmptyWhenInSync(h: Helpers, ref: JobHolder, storeTasks: seq<Task>, ts: seq<Task>)
    requires forall t :: t in ts ==> InSync(h, storeTasks, t) && FindById(storeTasks, t.id).value.state != TaskState.Finished
    ensures StoreTaskActions(h, ref, storeTasks, ts) == []
  {
    if ts != [] {
      StoreTaskActionsEmptyWhenInSync(h, ref, storeTasks, ts[1..]);
    }
  }

  lemma {:induction false} AbsentEmptyWhenAllRunning(refTasks: seq<Task>, running: seq<Task>)
    requires forall t :: t in refTasks ==> FindById(running, t.id).Some?
    ensures Absent(refTasks, running) == []
  {
    if refTasks != [] {
      AbsentEmptyWhenAllRunning(refTasks[1..], running);
    }
  }

  /**
   * A settled job (reference equal to store, at its required size, every task running,
   * none finished, no state timeouts) needs no correction: the only thing consulted is
   * the completed-job check.
   */
  lemma SettledJobNeedsNoCorrection(h: Helpers, ref: JobHolder, running: JobHolder, canUpdateStore: bool, allowedToRun: nat, now: int)
    requires ref.job.state == JobState.Accepted
    requires |ref.tasks| == ref.job.requiredSize
    requires DistinctIds(ref.tasks)
    requires forall t :: t in ref.tasks ==> h.areEquivalent(t, t) && t.state != TaskState.Finished
    requires forall t :: t in ref.tasks ==> FindById(running.tasks, t.id).Some?
    requires h.findTaskStateTimeouts(running, now) == []
    ensures Resolve(h, ref, running, ref, canUpdateStore, allowedToRun, now) == h.removeCompletedJob(ref, ref)
  {
    forall t | t in ref.tasks
      ensures InSync(h, ref.tasks, t) && FindById(ref.tasks, t.id).value.state != TaskState.Finished
    {
      var k :| 0 <= k < |ref.tasks| && ref.tasks[k] == t;
      FindByIdDistinct(ref.tasks, k);
    }
    StoreTaskActionsEmptyWhenInSync(h, ref, ref.tasks, ref.tasks);
    AbsentEmptyWhenAllRunning(ref.tasks, running.tasks);
    StartActionsAdmitFirstAbsent(ref.tasks, running, allowedToRun);
  }

  function WriteTasks(job: Job, ts: seq<Task>): seq<Action>
  {
    if ts == [] then [] else [WriteTaskAction(job, ts[0])] + WriteTasks(job, ts[1..])
  }

  lemma {:induction false} AbsentAllWhenNoneRunning(refTasks: seq<Task>, running: seq<Task>)
    requires forall t :: t in refTasks ==> FindById(running, t.id).None?
    ensures Absent(refTasks, running) == refTasks
  {
    if refTasks != [] {
      AbsentAllWhenNoneRunning(refTasks[1..], running);
    }
  }

  lemma {:induction false} StoreTaskActionsWriteUnstored(h: Helpers, ref: JobHolder, storeTasks: seq<Task>, ts: seq<Task>)
    requires forall t :: t in ts ==> FindById(storeTasks, t.id).None?
    ensures StoreTaskActions(h, ref, storeTasks, ts) == WriteTasks(ref.job, ts)
  {
    if ts != [] {
      StoreTaskActionsWriteUnstored(h, ref, storeTasks, ts[1..]);
    }
  }

  /**
   * Tasks just added to the reference model, at the required size, with the store gate
   * open, the rate limiter allowing them all and no state timeouts: one cycle starts
   * every one of them, in order, and then writes every one of them to the store.
   */
  lemma NewTasksAreStartedAndWritten(h: Helpers, ref: JobHolder, running: JobHolder, store: JobHolder, allowedToRun: nat, now: int)
    requires ref.job.state == JobState.Accepted
    requires |ref.tasks| == ref.job.requiredSize && ref.tasks != []
    requires store.job == ref.job
    requires forall t :: t in ref.tasks ==> FindById(running.tasks, t.id).None? && FindById(store.tasks, t.id).None?
    requires allowedToRun >= |ref.tasks|
    requires h.findTaskStateTimeouts(running, now) == []
    ensures Resolve(h, ref, running, store, true, allowedToRun, now) == Starts(running.job, ref.tasks) + WriteTasks(ref.job, ref.tasks)
  {
    AbsentAllWhenNoneRunning(ref.tasks, running.tasks);
    StartActionsAdmitFirstAbsent(ref.tasks, running, allowedToRun);
    assert ref.tasks[..Min(allowedToRun, |ref.tasks|)] == ref.tasks;
    var starts := Starts(running.job, ref.tasks);
    assert StartActions(ref.tasks, running, allowedToRun) == starts;
    assert SizeActions(h, ref, true) == [];
    assert RuntimeActions(h, ref, running, true, allowedToRun, now) == [] + starts + [];
    StoreTaskActionsWriteUnstored(h, ref, store.tasks, ref.tasks);
    var writes := WriteTasks(ref.job, ref.tasks);
    assert StoreActions(h, ref, store, true) == [] + writes;
    assert |starts| > 0;
    assert [] + starts + [] + ([] + writes) == starts + writes;
  }
}
