/** The deferred config saver of core/src/config.cpp: clients that change a manager's config
    under its lock, the worker that saves it later, and the thread that switches autosave
    on and off, one atomic step per critical section. */
module AutoSaveModel {

  /** A manager's save job: whether it still points at the manager, whether it says it is
      queued, and how many entries of the worker's list are this job. */
  datatype Job = Job(bound: bool, queued: bool, entries: nat) {
    /** ConfigSaveWorker::enqueue. */
    function Enqueued(): Job {
      if bound && !queued then Job(bound, true, entries + 1) else this
    }
  }

  /** Who holds the manager's lock. `touched` says the client has changed the config. */
  datatype Holder = Free | Client(touched: bool) | Worker

  /** Where the worker is, as far as this manager is concerned. */
  datatype WorkerAt =
    | Idle
    | Elsewhere       // busy with another manager's job
    | Popped          // has taken the job off the list, not yet locked it
    | Holding         // has locked the job and the manager, not yet looked
    | Saving          // has cleared `changed`
    | Unlocking
    | Retrying        // could not lock the manager; about to enqueue again

  /** Where the thread that switches autosave is. */
  datatype SwitchAt =
    | Quiet
    | Enabling        // autoSaveEnabled set
    | Bound           // job points at the manager again; about to enqueue
    | Disabling       // autoSaveEnabled cleared
    | Removed         // cancel has taken the job off the list

  datatype State<C> = State(
    conf: C, file: C, changed: bool, autoSave: bool, lock: Holder, job: Job,
    enqueuers: nat,   // clients that have released and are about to enqueue
    worker: WorkerAt, switch: SwitchAt)

  datatype Step<C> =
    | Acquire | Modify(to: C) | Release(modified: bool) | EnqueueAfterRelease | SaveNow
    | Pop | PopOther | OtherDone | LockJob | Look | Save | Unlock | Retry
    | Enable | Bind | EnqueueAfterEnable | Disable | Remove | Unbind

  /** The worker holds the job's mutex. */
  predicate JobHeld<C>(s: State<C>) {
    s.worker == Holding || s.worker == Saving || s.worker == Unlocking
  }

  predicate Enabled<C>(s: State<C>, step: Step<C>) {
    match step
    case Acquire => s.lock == Free
    case Modify(_) => s.lock.Client?
    case Release(modified) => s.lock.Client? && (s.lock.touched ==> modified)
    case EnqueueAfterRelease => s.enqueuers > 0 && !JobHeld(s)
    case SaveNow => s.lock == Free
    case Pop => s.worker == Idle && s.job.entries > 0
    case PopOther => s.worker == Idle
    case OtherDone => s.worker == Elsewhere
    case LockJob => s.worker == Popped
    case Look => s.worker == Holding
    case Save => s.worker == Saving
    case Unlock => s.worker == Unlocking
    case Retry => s.worker == Retrying
    case Enable => s.switch == Quiet && !s.autoSave
    case Bind => s.switch == Enabling && !JobHeld(s)
    case EnqueueAfterEnable => s.switch == Bound && !JobHeld(s)
    case Disable => s.switch == Quiet && s.autoSave
    case Remove => s.switch == Disabling
    case Unbind => s.switch == Removed && !JobHeld(s)
  }

  function Do<C>(s: State<C>, step: Step<C>): State<C>
    requires Enabled(s, step)
  {
    match step
    case Acquire => s.(lock := Client(false))
    case Modify(to) => s.(conf := to, lock := Client(true))
    case Release(modified) =>
      s.(changed := s.changed || modified, lock := Free,
         enqueuers := s.enqueuers + if modified && s.autoSave then 1 else 0)
    case EnqueueAfterRelease => s.(job := s.job.Enqueued(), enqueuers := s.enqueuers - 1)
    case SaveNow => s.(file := s.conf)
    case Pop => s.(job := s.job.(entries := s.job.entries - 1), worker := Popped)
    case PopOther => s.(worker := Elsewhere)
    case OtherDone => s.(worker := Idle)
    case LockJob =>
      var t := s.(job := s.job.(queued := false));
      if !s.job.bound then t.(worker := Idle)
      else if s.lock == Free then t.(lock := Worker, worker := Holding)
      else t.(worker := Retrying)
    case Look => if s.autoSave && s.changed then s.(changed := false, worker := Saving) else s.(worker := Unlocking)
    case Save => s.(file := s.conf, worker := Unlocking)
    case Unlock => s.(lock := Free, worker := Idle)
    case Retry => s.(job := s.job.Enqueued(), worker := Idle)
    case Enable => s.(autoSave := true, switch := Enabling)
    case Bind => s.(job := s.job.(bound := true), switch := Bound)
    case EnqueueAfterEnable => s.(job := s.job.Enqueued(), switch := Quiet)
    case Disable => s.(autoSave := false, switch := Disabling)
    case Remove => s.(job := s.job.(entries := 0), switch := Removed)
    case Unbind => s.(job := s.job.(queued := false, bound := false), switch := Quiet)
  }

  /** A manager just loaded: the file holds its config, autosave is off. */
  predicate Init<C(==)>(s: State<C>) {
    && s.file == s.conf && !s.changed && !s.autoSave && s.lock == Free
    && s.job == Job(true, false, 0) && s.enqueuers == 0
    && (s.worker == Idle || s.worker == Elsewhere) && s.switch == Quiet
  }

  /** A save is on its way: queued, taken and not yet looked at, to be queued again, or
      some thread is about to queue it. */
  predicate Owed<C>(s: State<C>) {
    || s.job.entries > 0 || s.worker == Popped || s.worker == Holding || s.worker == Retrying
    || s.enqueuers > 0 || s.switch == Enabling || s.switch == Bound
  }

  ghost predicate Inv<C>(s: State<C>) {
    && (s.lock == Worker <==> JobHeld(s))
    && (JobHeld(s) ==> s.job.bound)
    && (s.switch == Enabling || s.switch == Bound ==> s.autoSave)
    && (s.switch == Disabling || s.switch == Removed ==> !s.autoSave)
    && (s.autoSave && s.switch != Enabling ==> s.job.bound)
    && (s.job.queued ==> s.job.entries > 0 || s.worker == Popped || s.switch == Removed)
    && (s.switch == Quiet && !s.autoSave ==> !JobHeld(s))
    && (s.switch == Quiet && !s.autoSave && s.job.bound ==>
          s.job.entries == 0 && s.worker != Popped && s.worker != Retrying && s.enqueuers == 0)
    && (s.worker == Saving ==> !s.changed)
    && (s.worker == Unlocking && s.changed ==> s.switch == Disabling || s.switch == Removed)
    && (s.autoSave && s.changed ==> Owed(s))
    && (!s.changed && s.worker != Saving && s.lock != Client(true) ==> s.file == s.conf)
  }

  lemma InitInv<C>(s: State<C>)
    requires Init(s)
    ensures Inv(s)
  {
  }

  lemma StepInv<C>(s: State<C>, step: Step<C>)
    requires Inv(s) && Enabled(s, step)
    ensures Inv(Do(s, step))
  {
    hide Inv, Enabled, Do, IsClients, IsWorkers;
    if IsClients(step) {
      ClientStepInv(s, step);
    } else if IsWorkers(step) {
      WorkerStepInv(s, step);
    } else {
      SwitchStepInv(s, step);
    }
  }

  predicate IsClients<C>(step: Step<C>) {
    step.Acquire? || step.Modify? || step.Release? || step.EnqueueAfterRelease? || step.SaveNow?
  }

  predicate IsWorkers<C>(step: Step<C>) {
    step.Pop? || step.PopOther? || step.OtherDone? || step.LockJob? || step.Look? || step.Save? || step.Unlock? || step.Retry?
  }

  lemma ClientStepInv<C>(s: State<C>, step: Step<C>)
    requires Inv(s) && Enabled(s, step) && IsClients(step)
    ensures Inv(Do(s, step))
  {
  }

  lemma WorkerStepInv<C>(s: State<C>, step: Step<C>)
    requires Inv(s) && Enabled(s, step) && IsWorkers(step)
    ensures Inv(Do(s, step))
  {
  }

  lemma SwitchStepInv<C>(s: State<C>, step: Step<C>)
    requires Inv(s) && Enabled(s, step) && !IsClients(step) && !IsWorkers(step)
    ensures Inv(Do(s, step))
  {
  }

  ghost predicate Runs<C>(s: State<C>, steps: seq<Step<C>>, s': State<C>)
    decreases |steps|
  {
    if |steps| == 0 then s' == s else Enabled(s, steps[0]) && Runs(Do(s, steps[0]), steps[1..], s')
  }

  lemma {:induction false} RunsInv<C>(s: State<C>, steps: seq<Step<C>>, s': State<C>)
    requires Inv(s) && Runs(s, steps, s')
    ensures Inv(s')
    decreases |steps|
  {
    hide Inv, Do, Enabled;
    if |steps| > 0 {
      StepInv(s, steps[0]);
      RunsInv(Do(s, steps[0]), steps[1..], s');
    }
  }

  /** No modification is lost: in every reachable state, with autosave on a set `changed` has
      a save on its way; a free lock and a clear `changed` mean the file is the config; and
      after autosave has been switched off the worker is not at the manager. */
  lemma {:induction false} NothingLost<C>(s: State<C>, steps: seq<Step<C>>, s': State<C>)
    requires Init(s) && Runs(s, steps, s')
    ensures s'.autoSave && s'.changed ==> Owed(s')
    ensures s'.lock == Free && !s'.changed ==> s'.file == s'.conf
    ensures s'.switch == Quiet && !s'.autoSave ==> !JobHeld(s')
  {
    InitInv(s);
    RunsInv(s, steps, s');
  }

  predicate HasModify<C>(steps: seq<Step<C>>) {
    exists i :: 0 <= i < |steps| && steps[i].Modify?
  }

  /** A file that holds the config holds it until the next change, whatever else happens. */
  lemma {:induction false} FileStays<C>(s: State<C>, steps: seq<Step<C>>, s': State<C>)
    requires s.file == s.conf && Runs(s, steps, s') && !HasModify(steps)
    ensures s'.file == s'.conf == s.conf
    decreases |steps|
  {
    if |steps| > 0 {
      assert !steps[0].Modify?;
      forall i | 0 <= i < |steps| - 1 ensures !steps[1..][i].Modify? {
        assert steps[1..][i] == steps[i + 1];
      }
      FileStays(Do(s, steps[0]), steps[1..], s');
    }
  }

  /** A client's own save writes the config, and the worker's save too: after either the file is
      the config as it was, until the next change. */
  lemma SavedUntilChanged<C>(s: State<C>, save: Step<C>, steps: seq<Step<C>>, s': State<C>)
    requires (save == SaveNow || save == Save) && Enabled(s, save) && Runs(Do(s, save), steps, s') && !HasModify(steps)
    ensures s'.file == s'.conf == s.conf
  {
    FileStays(Do(s, save), steps, s');
  }

  /** And the file is never anything but a config that was there. */
  lemma OnlySavesWrite<C>(s: State<C>, step: Step<C>)
    requires Enabled(s, step)
    ensures Do(s, step).file != s.file ==> (step == SaveNow || step == Save) && Do(s, step).file == s.conf
    ensures Do(s, step).conf != s.conf ==> step.Modify?
  {
  }

  predicate HasEnable<C>(steps: seq<Step<C>>) {
    exists i :: 0 <= i < |steps| && steps[i].Enable?
  }

  /** Once disableAutoSave has returned, and until it is enabled again, the worker never
      touches the manager, however often stale entries of the job come up. */
  lemma {:induction false} WorkerStaysAway<C>(s: State<C>, steps: seq<Step<C>>, s': State<C>)
    requires Inv(s) && s.switch == Quiet && !s.autoSave && Runs(s, steps, s') && !HasEnable(steps)
    ensures s'.switch == Quiet && !s'.autoSave && !JobHeld(s')
    decreases |steps|
  {
    if |steps| > 0 {
      assert !steps[0].Enable?;
      StepInv(s, steps[0]);
      forall i | 0 <= i < |steps| - 1 ensures !steps[1..][i].Enable? {
        assert steps[1..][i] == steps[i + 1];
      }
      WorkerStaysAway(Do(s, steps[0]), steps[1..], s');
    }
  }

  // ---------- one entry at a time ----------

  predicate HasDisable<C>(steps: seq<Step<C>>) {
    exists i :: 0 <= i < |steps| && steps[i].Disable?
  }

  /** A job says it is queued exactly while one entry of it is in the list or has been taken off
      and not been locked yet. */
  predicate QueuedOnce<C>(s: State<C>) {
    && s.switch != Disabling && s.switch != Removed
    && s.job.entries + (if s.worker == Popped then 1 else 0) == if s.job.queued then 1 else 0
  }

  lemma {:induction false} QueuedStaysOnce<C>(s: State<C>, steps: seq<Step<C>>, s': State<C>)
    requires QueuedOnce(s) && Runs(s, steps, s') && !HasDisable(steps)
    ensures QueuedOnce(s')
    decreases |steps|
  {
    if |steps| > 0 {
      assert !steps[0].Disable?;
      forall i | 0 <= i < |steps| - 1 ensures !steps[1..][i].Disable? {
        assert steps[1..][i] == steps[i + 1];
      }
      QueuedStaysOnce(Do(s, steps[0]), steps[1..], s');
    }
  }

  /** However often a manager is changed, as long as autosave is not switched off its job is in
      the list at most once, and once when it says so and the worker has not taken it. */
  lemma {:induction false} NeverQueuedTwice<C>(s: State<C>, steps: seq<Step<C>>, s': State<C>)
    requires Init(s) && Runs(s, steps, s') && !HasDisable(steps)
    ensures s'.job.entries == if s'.job.queued && s'.worker != Popped then 1 else 0
  {
    QueuedStaysOnce(s, steps, s');
  }

  // ---------- the save that is owed can be made ----------

  /** From every state that owes a save, with the lock free and no one switching, the worker
      and the threads about to enqueue can make it by themselves. */
  lemma OwedIsPaid<C>(s: State<C>) returns (steps: seq<Step<C>>, s': State<C>)
    requires Inv(s) && s.autoSave && s.changed && s.lock == Free && s.switch == Quiet
    ensures |steps| <= 8 && Runs(s, steps, s') && !s'.changed && s'.file == s.conf == s'.conf
  {
    hide Runs, Inv;
    NoSteps(s);
    FreeIsBound(s);
    var t := s;
    steps := [];
    if t.worker == Elsewhere {
      t, steps := Advance(s, steps, t, OtherDone);
    }
    if t.worker == Retrying {
      t, steps := Advance(s, steps, t, Retry);
    }
    if t.worker == Idle {
      t, steps := ToPopped(s, steps, t);
    }
    s', steps := PayPopped(s, steps, t);
  }

  /** A worker that has the job and finds the lock free saves the config. */
  lemma PayPopped<C>(s: State<C>, steps: seq<Step<C>>, t: State<C>) returns (t': State<C>,
                     steps': seq<Step<C>>)
    requires Runs(s, steps, t) && Inv(t) && t.worker == Popped
    requires t.autoSave && t.changed && t.lock == Free && t.switch == Quiet
    ensures |steps'| == |steps| + 4 && Runs(s, steps', t')
    ensures !t'.changed && t'.file == t.conf == t'.conf
  {
    hide Runs, Inv;
    FreeIsBound(t);
    t', steps' := Advance(s, steps, t, LockJob);
    t', steps' := Advance(s, steps', t', Look);
    t', steps' := Advance(s, steps', t', Save);
    t', steps' := Advance(s, steps', t', Unlock);
  }

  lemma {:induction false} NoSteps<C>(s: State<C>)
    ensures Runs(s, [], s)
  {
  }

  lemma FreeIsBound<C>(s: State<C>)
    requires Inv(s) && s.autoSave && s.switch == Quiet && s.lock == Free
    ensures s.job.bound && !JobHeld(s)
  {
  }

  /** An idle worker comes to the job, after the enqueue that is due if the list lacks it. */
  lemma ToPopped<C>(s: State<C>, steps: seq<Step<C>>, t: State<C>) returns (t': State<C>,
                    steps': seq<Step<C>>)
    requires Runs(s, steps, t) && Inv(t) && t.worker == Idle
    requires t.autoSave && t.changed && t.lock == Free && t.switch == Quiet
    ensures |steps'| <= |steps| + 2 && Runs(s, steps', t') && Inv(t') && t'.worker == Popped
    ensures t'.autoSave && t'.changed && t'.lock == Free && t'.switch == Quiet && t'.conf == t.conf
  {
    hide Runs;
    steps', t' := steps, t;
    if t.job.entries == 0 {
      t', steps' := Advance(s, steps', t', EnqueueAfterRelease);
    }
    t', steps' := Advance(s, steps', t', Pop);
  }

  lemma Advance<C>(s: State<C>, steps: seq<Step<C>>, t: State<C>, step: Step<C>)
    returns (t': State<C>, steps': seq<Step<C>>)
    requires Runs(s, steps, t) && Inv(t) && Enabled(t, step)
    ensures steps' == steps + [step] && t' == Do(t, step) && Runs(s, steps', t') && Inv(t')
  {
    steps', t' := steps + [step], Do(t, step);
    StepInv(t, step);
    RunsOn(s, steps, t, step);
  }

  lemma {:induction false} RunsOn<C>(s: State<C>, steps: seq<Step<C>>, t: State<C>, step: Step<C>)
    requires Runs(s, steps, t) && Enabled(t, step)
    ensures Runs(s, steps + [step], Do(t, step))
    decreases |steps|
  {
    hide Do, Enabled;
    if |steps| > 0 {
      assert (steps + [step])[1..] == steps[1..] + [step];
      RunsOn(Do(s, steps[0]), steps[1..], t, step);
    }
  }
}
