/**
 * The service-job difference resolver: given the reference (desired), running and store
 * snapshots of one job, the ordered list of change actions that move running and store
 * toward reference. Each part is specified by a pure function and computed by a method
 * with the source's loops; the properties of the functions are in ResolverProperties.
 *
 * The two interceptor checks are inputs: `canUpdateStore` is the store-write retry
 * interceptor's verdict for the store job, `allowedToRun` the new-task rate limiter's
 * remaining allowance. `now` is the wall clock the state-timeout helper reads.
 */
module ServiceDifferenceResolver {
  import opened Options
  import opened ResolverModel

  /** `findById` / `getTaskById` on a job holder: the first task child with that id. */
  function FindById(tasks: seq<Task>, id: Id): Option<Task>
  {
    if tasks == [] then None
    else if tasks[0].id == id then Some(tasks[0])
    else FindById(tasks[1..], id)
  }

  /** A lookup finds a task of the collection carrying the id, and finds nothing only when no task carries it. */
  lemma {:induction false} FindByIdFinds(tasks: seq<Task>, id: Id)
    ensures FindById(tasks, id).Some? ==> FindById(tasks, id).value in tasks && FindById(tasks, id).value.id == id
    ensures FindById(tasks, id).None? <==> forall t :: t in tasks ==> t.id != id
  {
    if tasks != [] && tasks[0].id != id {
      FindByIdFinds(tasks[1..], id);
      assert tasks == [tasks[0]] + tasks[1..];
    }
  }

  /**
   * `createNewTaskAction`: creates a task for the reference job (a replacement of
   * `previous` when there is one), seeing the job's current tasks. The rate limiter is
   * the outermost gate and the store-write retry sits inside it.
   */
  function NewTaskAction(ref: JobHolder, previous: Option<Task>): (r: Action)
    ensures r.change.CreateOrReplaceTask?
    ensures r.change.job == ref.job && r.change.siblings == ref.tasks && r.change.previous == previous
    ensures |r.gates| == 2 && r.gates[0] == NewTaskRateLimit && r.gates[1] == StoreWriteRetry
  {
    Action(CreateOrReplaceTask(ref.job, ref.tasks, previous), [NewTaskRateLimit, StoreWriteRetry])
  }

  function ScaleDownKillAction(task: Task): Action
  {
    Action(InitiateTaskKill(task, Reconciler, false, ReasonScaledDown, ScaleDownKillMessage), [])
  }

  function StartTaskAction(runningJob: Job, task: Task): Action
  {
    Action(StartNewTask(runningJob, task), [])
  }

  function WriteJobAction(job: Job): Action
  {
    Action(WriteJob(job), [StoreWriteRetry])
  }

  function WriteTaskAction(job: Job, task: Task): Action
  {
    Action(WriteTask(job, task), [StoreWriteRetry])
  }

  function RemoveTaskAction(task: Task): Action
  {
    Action(RemoveTask(task), [])
  }

  /** The number of tasks the terminating test holds for. */
  function CountTerminating(h: Helpers, tasks: seq<Task>): nat
  {
    if tasks == [] then 0
    else (if h.isTerminating(tasks[0]) then 1 else 0) + CountTerminating(h, tasks[1..])
  }

  /**
   * The scale-down loop over `tasks[..i]`, from the highest index down, with `k` kills
   * still to issue: every non-terminating task met gets a kill until `k` reaches 0.
   */
  function ScaleDownKills(h: Helpers, tasks: seq<Task>, i: nat, k: nat): seq<Action>
    requires i <= |tasks|
    decreases i
  {
    if k == 0 || i == 0 then []
    else if !h.isTerminating(tasks[i - 1]) then [ScaleDownKillAction(tasks[i - 1])] + ScaleDownKills(h, tasks, i - 1, k - 1)
    else ScaleDownKills(h, tasks, i - 1, k)
  }

  /** `findJobSizeInconsistencies`: create the missing tasks, or kill the surplus ones. */
  function SizeActions(h: Helpers, ref: JobHolder, canUpdateStore: bool): seq<Action>
  {
    var missing := ref.job.requiredSize - |ref.tasks|;
    if canUpdateStore && missing > 0 then seq(missing, _ => NewTaskAction(ref, None))
    else if missing < 0 then
      var toRemove := -missing - CountTerminating(h, ref.tasks);
      if toRemove > 0 then ScaleDownKills(h, ref.tasks, |ref.tasks|, toRemove) else []
    else []
  }

  /** `findMissingRunningTasks`: start reference tasks absent from running, while the allowance lasts. */
  function StartActions(refTasks: seq<Task>, running: JobHolder, allowed: nat): seq<Action>
  {
    if refTasks == [] || allowed == 0 then []
    else if FindById(running.tasks, refTasks[0].id).None? then
      [StartTaskAction(running.job, refTasks[0])] + StartActions(refTasks[1..], running, allowed - 1)
    else StartActions(refTasks[1..], running, allowed)
  }

  /** `applyRuntime`. */
  function RuntimeActions(h: Helpers, ref: JobHolder, running: JobHolder, canUpdateStore: bool, allowedToRun: nat, now: int): seq<Action>
  {
    if ref.job.state == JobState.KillInitiated then h.applyKillInitiated(running)
    else if ref.job.state == JobState.Finished then []
    else SizeActions(h, ref, canUpdateStore) + StartActions(ref.tasks, running, allowedToRun) + h.findTaskStateTimeouts(running, now)
  }

  /** A reference task is in sync when the store holds a task with its id that is equivalent to it. */
  predicate InSync(h: Helpers, storeTasks: seq<Task>, t: Task)
  {
    var s := FindById(storeTasks, t.id);
    s.Some? && h.areEquivalent(s.value, t)
  }

  /** The store loop's step for one reference task: at most one action. */
  function TaskStoreAction(h: Helpers, ref: JobHolder, storeTasks: seq<Task>, t: Task): seq<Action>
  {
    if InSync(h, storeTasks, t) then
      var task := FindById(storeTasks, t.id).value;
      if task.state == TaskState.Finished then
        if ref.job.state == JobState.KillInitiated || task.reasonCode == ReasonScaledDown then [RemoveTaskAction(task)]
        else if !h.hasReachedRetryLimit(ref.job, task) then [NewTaskAction(ref, Some(task))]
        else []
      else []
    else [WriteTaskAction(ref.job, t)]
  }

  function StoreTaskActions(h: Helpers, ref: JobHolder, storeTasks: seq<Task>, ts: seq<Task>): seq<Action>
  {
    if ts == [] then [] else TaskStoreAction(h, ref, storeTasks, ts[0]) + StoreTaskActions(h, ref, storeTasks, ts[1..])
  }

  lemma AppendAssociative<T>(a: seq<T>, b: seq<T>, c: seq<T>)
    ensures (a + b) + c == a + (b + c)
  {
  }

  lemma StoreTaskActionsFrom(h: Helpers, ref: JobHolder, storeTasks: seq<Task>, ts: seq<Task>, j: nat)
    requires j < |ts|
    ensures StoreTaskActions(h, ref, storeTasks, ts[j..])
         == TaskStoreAction(h, ref, storeTasks, ts[j]) + StoreTaskActions(h, ref, storeTasks, ts[j + 1..])
  {
    assert ts[j..][1..] == ts[j + 1..];
  }

  /** `applyStore`. */
  function StoreActions(h: Helpers, ref: JobHolder, store: JobHolder, canUpdateStore: bool): seq<Action>
  {
    if !canUpdateStore then []
    else (if ref.job != store.job then [WriteJobAction(ref.job)] else []) + StoreTaskActions(h, ref, store.tasks, ref.tasks)
  }

  /** `apply`: runtime actions, then store actions; the completed-job check only when both are empty. */
  function Resolve(h: Helpers, ref: JobHolder, running: JobHolder, store: JobHolder, canUpdateStore: bool, allowedToRun: nat, now: int): seq<Action>
  {
    var actions := RuntimeActions(h, ref, running, canUpdateStore, allowedToRun, now) + StoreActions(h, ref, store, canUpdateStore);
    if actions == [] then h.removeCompletedJob(ref, store) else actions
  }

  method FindJobSizeInconsistencies(h: Helpers, ref: JobHolder, canUpdateStore: bool) returns (actions: seq<Action>)
    ensures actions == SizeActions(h, ref, canUpdateStore)
  {
    var tasks := ref.tasks;
    var missing := ref.job.requiredSize - |tasks|;
    if canUpdateStore && missing > 0 {
      var missingTasks := [];
      var i := 0;
      while i < missing
        invariant 0 <= i <= missing
        invariant missingTasks == seq(i, _ => NewTaskAction(ref, None))
      {
        missingTasks := missingTasks + [NewTaskAction(ref, None)];
        i := i + 1;
      }
      return missingTasks;
    } else if missing < 0 {
      var finishedCount := CountTerminating(h, tasks);
      var toRemoveCount := -missing - finishedCount;
      if toRemoveCount > 0 {
        ghost var k0: nat := toRemoveCount;
        var toRemove := [];
        var i := |tasks| - 1;
        while toRemoveCount > 0 && i >= 0
          invariant -1 <= i < |tasks|
          invariant 0 <= toRemoveCount <= k0
          invariant toRemove + ScaleDownKills(h, tasks, i + 1, toRemoveCount) == ScaleDownKills(h, tasks, |tasks|, k0)
        {
          var next := tasks[i];
          if !h.isTerminating(next) {
            toRemove := toRemove + [ScaleDownKillAction(next)];
            toRemoveCount := toRemoveCount - 1;
          }
          i := i - 1;
        }
        return toRemove;
      }
    }
    return [];
  }

  lemma StartActionsFrom(tasks: seq<Task>, running: JobHolder, allowed: nat, i: nat)
    requires i < |tasks| && allowed > 0
    ensures StartActions(tasks[i..], running, allowed)
         == if FindById(running.tasks, tasks[i].id).None?
            then [StartTaskAction(running.job, tasks[i])] + StartActions(tasks[i + 1..], running, allowed - 1)
            else StartActions(tasks[i + 1..], running, allowed)
  {
    assert tasks[i..][1..] == tasks[i + 1..];
  }

  method FindMissingRunningTasks(ref: JobHolder, running: JobHolder, allowedToRun: nat) returns (missingTasks: seq<Action>)
    ensures missingTasks == StartActions(ref.tasks, running, allowedToRun)
  {
    missingTasks := [];
    var allowed := allowedToRun;
    var tasks := ref.tasks;
    var i := 0;
    while i < |tasks| && allowed > 0
      invariant 0 <= i <= |tasks|
      invariant missingTasks + StartActions(tasks[i..], running, allowed) == StartActions(tasks, running, allowedToRun)
    {
      var refTask := tasks[i];
      var runningTask := FindById(running.tasks, refTask.id);
      StartActionsFrom(tasks, running, allowed, i);
      if runningTask.None? {
        AppendAssociative(missingTasks, [StartTaskAction(running.job, refTask)], StartActions(tasks[i + 1..], running, allowed - 1));
        missingTasks := missingTasks + [StartTaskAction(running.job, refTask)];
        allowed := allowed - 1;
      }
      i := i + 1;
    }
    assert StartActions(tasks[i..], running, allowed) == [];
    assert missingTasks + [] == missingTasks;
  }

  method ApplyRuntime(h: Helpers, ref: JobHolder, running: JobHolder, canUpdateStore: bool, allowedToRun: nat, now: int)
    returns (actions: seq<Action>)
    ensures actions == RuntimeActions(h, ref, running, canUpdateStore, allowedToRun, now)
    ensures ref.job.state == JobState.KillInitiated ==> actions == h.applyKillInitiated(running)
    ensures ref.job.state == JobState.Finished ==> actions == []
  {
    if ref.job.state == JobState.KillInitiated {
      return h.applyKillInitiated(running);
    } else if ref.job.state == JobState.Finished {
      return [];
    }
    var sizeActions := FindJobSizeInconsistencies(h, ref, canUpdateStore);
    var startActions := FindMissingRunningTasks(ref, running, allowedToRun);
    actions := sizeActions + startActions + h.findTaskStateTimeouts(running, now);
  }

  method ApplyStore(h: Helpers, ref: JobHolder, store: JobHolder, canUpdateStore: bool) returns (actions: seq<Action>)
    ensures actions == StoreActions(h, ref, store, canUpdateStore)
    ensures !canUpdateStore ==> actions == []
  {
    if !canUpdateStore {
      return [];
    }
    actions := [];
    if ref.job != store.job {
      actions := actions + [WriteJobAction(ref.job)];
    }
    ghost var prefix := actions;
    var children := ref.tasks;
    var j := 0;
    while j < |children|
      invariant 0 <= j <= |children|
      invariant actions + StoreTaskActions(h, ref, store.tasks, children[j..]) == prefix + StoreTaskActions(h, ref, store.tasks, children)
    {
      var referenceTask := children[j];
      var storeHolder := FindById(store.tasks, referenceTask.id);
      var refAndStoreInSync := storeHolder.Some? && h.areEquivalent(storeHolder.value, referenceTask);
      var step := [];
      if refAndStoreInSync {
        var task := storeHolder.value;
        if task.state == TaskState.Finished {
          if ref.job.state == JobState.KillInitiated || task.reasonCode == ReasonScaledDown {
            step := [RemoveTaskAction(task)];
          } else if !h.hasReachedRetryLimit(ref.job, task) {
            step := [NewTaskAction(ref, Some(task))];
          }
        }
      } else {
        step := [WriteTaskAction(ref.job, referenceTask)];
      }
      assert step == TaskStoreAction(h, ref, store.tasks, referenceTask);
      StoreTaskActionsFrom(h, ref, store.tasks, children, j);
      ghost var rest := StoreTaskActions(h, ref, store.tasks, children[j + 1..]);
      AppendAssociative(actions, step, rest);
      actions := actions + step;
      j := j + 1;
    }
    assert children[j..] == [];
    assert StoreTaskActions(h, ref, store.tasks, children[j..]) == [];
    assert prefix == (if ref.job != store.job then [WriteJobAction(ref.job)] else []);
  }

  method Apply(h: Helpers, ref: JobHolder, running: JobHolder, store: JobHolder, canUpdateStore: bool, allowedToRun: nat, now: int)
    returns (actions: seq<Action>)
    ensures actions == Resolve(h, ref, running, store, canUpdateStore, allowedToRun, now)
    ensures var rt := RuntimeActions(h, ref, running, canUpdateStore, allowedToRun, now);
            var st := StoreActions(h, ref, store, canUpdateStore);
            if rt + st == [] then actions == h.removeCompletedJob(ref, store)
            else actions == rt + st && actions[..|rt|] == rt && actions[|rt|..] == st
  {
    var runtimeActions := ApplyRuntime(h, ref, running, canUpdateStore, allowedToRun, now);
    var storeActions := ApplyStore(h, ref, store, canUpdateStore);
    actions := runtimeActions + storeActions;
    if actions == [] {
      actions := h.removeCompletedJob(ref, store);
    }
  }
}
