/**
 * The entities the service-job difference resolver reads and the change actions it
 * emits. The resolver compares three snapshots of one job (reference, running, store),
 * each an entity holder with the job as its entity and the job's tasks as children.
 */
module ResolverModel {
  import opened Options
  import opened JobExt

  type Id = string

  /** Job and task lifecycle states (enums of the job model, not part of this model). */
  datatype JobState = Accepted | KillInitiated | Finished

  datatype TaskState = Accepted | Launched | StartInitiated | Started | KillInitiated | Disconnected | Finished

  datatype Task = Task(id: Id, state: TaskState, reasonCode: string)

  /**
   * A service job. `requiredSize` is the size the job view reports (the desired capacity);
   * job equality is structural, so a change in the extension alone makes two jobs differ.
   */
  datatype Job = Job(id: Id, state: JobState, requiredSize: int, ext: ServiceJobExt)

  /** An entity holder for a job: the job entity and its task children, in order. */
  datatype JobHolder = JobHolder(job: Job, tasks: seq<Task>)

  /** The reason code a task gets when it is killed because its job was scaled down. */
  const ReasonScaledDown: string := "scaledDown"

  const ScaleDownKillMessage: string := "Terminating excessive service job task"

  datatype Trigger = API | Reconciler | TaskStatusUpdate

  /** The interceptors that can wrap a change action, outermost first in `Action.gates`. */
  datatype Gate = StoreWriteRetry | NewTaskRateLimit

  /**
   * What a change action does once executed. The first six are built by the resolver
   * itself; `TaskStateTimeout` and `RemoveJob` are what its unshown helpers emit.
   */
  datatype Change =
    | CreateOrReplaceTask(job: Job, siblings: seq<Task>, previous: Option<Task>)
    | InitiateTaskKill(task: Task, trigger: Trigger, shutdown: bool, reasonCode: string, reasonMessage: string)
    | StartNewTask(job: Job, task: Task)
    | WriteJob(job: Job)
    | WriteTask(job: Job, task: Task)
    | RemoveTask(task: Task)
    | TaskStateTimeout(task: Task)
    | RemoveJob(jobId: Id)

  datatype Action = Action(change: Change, gates: seq<Gate>)

  /**
   * The resolver's collaborators whose code is not part of this model, as uninterpreted
   * functions: task classification, the entity-equivalence test, and the helpers that
   * build the kill-initiated, state-timeout and completed-job-removal actions.
   */
  datatype Helpers = Helpers(
    isTerminating: Task -> bool,
    hasReachedRetryLimit: (Job, Task) -> bool,
    areEquivalent: (Task, Task) -> bool,
    applyKillInitiated: JobHolder -> seq<Action>,
    findTaskStateTimeouts: (JobHolder, int) -> seq<Action>,
    removeCompletedJob: (JobHolder, JobHolder) -> seq<Action>)
}
