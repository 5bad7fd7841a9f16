/** core/src/config.cpp: the config manager, its save job and the saving worker as objects,
    one method per critical section. Each does to the objects what the step of
    AutoSaveModel with its name does to the model's state. */
module ConfigSaver {
  import opened AutoSaveModel

  type Json = string

  class SaveJob {
    var manager: ConfigManager?
    var queued: bool
    var due: int

    constructor ()
      ensures manager == null && !queued
    {
      manager, queued, due := null, false, 0;
    }
  }

  class ConfigManager {
    var conf: Json
    var file: Json
    var changed: bool
    var autoSaveEnabled: bool
    var locked: bool
    const saveJob: SaveJob

    constructor (def: Json)
      ensures fresh(saveJob) && saveJob.manager == this && !saveJob.queued
      ensures conf == file == def && !changed && !autoSaveEnabled && !locked
    {
      conf, file, changed, autoSaveEnabled, locked := def, def, false, false, false;
      saveJob := new SaveJob();
      new;
      saveJob.manager := this;
    }

    /** The manager's part of the model's state. */
    ghost predicate Agrees(s: State<Json>)
      reads this
    {
      && s.conf == conf && s.file == file && s.changed == changed && s.autoSave == autoSaveEnabled
      && (locked <==> s.lock != Free)
    }

    method Acquire(ghost s: State<Json>)
      requires Agrees(s) && Enabled(s, Step.Acquire)
      modifies this`locked
      ensures Agrees(Do(s, Step.Acquire))
    {
      locked := true;
    }

    /** A client assigns to conf between acquire and release. */
    method Modify(to: Json, ghost s: State<Json>)
      requires Agrees(s) && Enabled(s, Step.Modify(to))
      modifies this`conf
      ensures Agrees(Do(s, Step.Modify(to)))
    {
      conf := to;
    }

    /** release up to the unlock; the caller enqueues the job when told to. */
    method Release(modified: bool, ghost s: State<Json>) returns (queueSave: bool)
      requires Agrees(s) && Enabled(s, Step.Release(modified))
      modifies this`changed, this`locked
      ensures Agrees(Do(s, Step.Release(modified)))
      ensures queueSave <==> Do(s, Step.Release(modified)).enqueuers == s.enqueuers + 1
    {
      queueSave := false;
      if modified {
        changed := true;
        queueSave := autoSaveEnabled;
      }
      locked := false;
    }

    /** save, with the lock already held or free for the length of the call. */
    method Save(ghost s: State<Json>)
      requires Agrees(s) && (Enabled(s, SaveNow) || Enabled(s, Step.Save))
      modifies this`file
      ensures Enabled(s, SaveNow) ==> Agrees(Do(s, SaveNow))
      ensures Enabled(s, Step.Save) ==> Agrees(Do(s, Step.Save))
    {
      file := conf;
    }

    /** The exchange that opens enableAutoSave; it returns at once when already on. */
    method TurnOn(ghost s: State<Json>) returns (switched: bool)
      requires Agrees(s) && s.switch == Quiet
      modifies this`autoSaveEnabled
      ensures switched <==> Enabled(s, Enable)
      ensures Agrees(if switched then Do(s, Enable) else s)
    {
      switched := !autoSaveEnabled;
      autoSaveEnabled := true;
    }

    /** The exchange that opens disableAutoSave. */
    method TurnOff(ghost s: State<Json>) returns (switched: bool)
      requires Agrees(s) && s.switch == Quiet
      modifies this`autoSaveEnabled
      ensures switched <==> Enabled(s, Disable)
      ensures Agrees(if switched then Do(s, Disable) else s)
    {
      switched := autoSaveEnabled;
      autoSaveEnabled := false;
    }
  }

  /** How many entries of the list are the job. */
  function Count<T(==)>(jobs: seq<T>, job: T): nat {
    multiset(jobs)[job]
  }

  /** The list with every entry of one job removed, the others in order. */
  function Without<T(==)>(jobs: seq<T>, job: T): seq<T> {
    if |jobs| == 0 then []
    else if jobs[0] == job then Without(jobs[1..], job)
    else [jobs[0]] + Without(jobs[1..], job)
  }

  lemma {:induction false} WithoutKeepsOthers<T>(jobs: seq<T>, job: T)
    ensures multiset(Without(jobs, job)) == multiset(jobs)[job := 0]
  {
    if |jobs| > 0 {
      assert jobs == [jobs[0]] + jobs[1..];
      WithoutKeepsOthers(jobs[1..], job);
    }
  }

  lemma PopKeepsOthers<T>(jobs: seq<T>, i: nat)
    requires i < |jobs|
    ensures multiset(jobs[..i] + jobs[i + 1..]) == multiset(jobs) - multiset{jobs[i]}
  {
    assert jobs == jobs[..i] + [jobs[i]] + jobs[i + 1..];
  }

  class SaveWorker {
    var jobs: seq<SaveJob>

    constructor ()
      ensures jobs == []
    {
      jobs := [];
    }

    ghost function View(job: SaveJob): Job
      reads this, job
    {
      Job(job.manager != null, job.queued, Count(jobs, job))
    }

    /** The entries of all the other jobs. */
    ghost function Others(job: SaveJob): multiset<SaveJob>
      reads this
    {
      multiset(jobs)[job := 0]
    }

    /** The job of the steps EnqueueAfterRelease, EnqueueAfterEnable and Retry. */
    method Enqueue(job: SaveJob, now: int)
      modifies this, job`queued, job`due
      ensures View(job) == old(View(job)).Enqueued()
      ensures Others(job) == old(Others(job)) && old(jobs) <= jobs
      ensures job.due == if job.manager != null then now + 1 else old(job.due)
    {
      if job.manager == null {
        return;
      }
      job.due := now + 1;
      if !job.queued {
        job.queued := true;
        jobs := jobs + [job];
      }
    }

    /** cancel's first critical section: the step Remove. */
    method Remove(job: SaveJob)
      modifies this
      ensures View(job) == old(View(job)).(entries := 0)
      ensures Others(job) == old(Others(job))
    {
      WithoutKeepsOthers(jobs, job);
      jobs := Without(jobs, job);
    }

    /** cancel's second critical section: the step Unbind. */
    method Unbind(job: SaveJob)
      modifies job`queued, job`manager
      ensures View(job) == old(View(job)).(queued := false, bound := false)
    {
      job.queued := false;
      job.manager := null;
    }

    /** enableAutoSave's own critical section: the step Bind. */
    method Bind(job: SaveJob, manager: ConfigManager)
      modifies job`manager
      ensures View(job) == old(View(job)).(bound := true) && job.manager == manager
    {
      job.manager := manager;
    }

    /** The first entry of the list that no other is due before. */
    method Earliest() returns (next: nat)
      requires |jobs| > 0
      ensures next < |jobs|
      ensures forall i :: 0 <= i < |jobs| ==> jobs[next].due <= jobs[i].due
      ensures forall i :: 0 <= i < next ==> jobs[next].due < jobs[i].due
    {
      next := 0;
      for k := 1 to |jobs|
        invariant next < k
        invariant forall i :: 0 <= i < k ==> jobs[next].due <= jobs[i].due
        invariant forall i :: 0 <= i < next ==> jobs[next].due < jobs[i].due
      {
        if jobs[k].due < jobs[next].due {
          next := k;
        }
      }
    }

    /** The worker's section on the list: the step Pop of the job it takes, or a wait. */
    method TakeNext(now: int) returns (job: SaveJob?)
      modifies this
      ensures job == null <==> forall i :: 0 <= i < |old(jobs)| ==> old(jobs[i].due) > now
      ensures job == null ==> jobs == old(jobs)
      ensures job != null ==>
        && job in old(jobs) && Others(job) == old(Others(job))
        && View(job) == old(View(job)).(entries := old(View(job)).entries - 1)
        && job.due <= now && forall i :: 0 <= i < |old(jobs)| ==> job.due <= old(jobs[i].due)
    {
      if |jobs| == 0 {
        return null;
      }
      var next := Earliest();
      if jobs[next].due > now {
        return null;
      }
      job := jobs[next];
      PopKeepsOthers(jobs, next);
      jobs := jobs[..next] + jobs[next + 1..];
    }

    /** The worker locks the job and tries its manager's lock: the step LockJob. */
    method LockJob(job: SaveJob, m: ConfigManager, ghost s: State<Json>) returns (at: WorkerAt)
      requires Enabled(s, Step.LockJob) && m.Agrees(s) && m.saveJob == job
      requires View(job) == s.job && (job.manager == null || job.manager == m)
      modifies job`queued, m`locked
      ensures var t := Do(s, Step.LockJob); m.Agrees(t) && View(job) == t.job && at == t.worker
    {
      job.queued := false;
      var manager := job.manager;
      if manager != null {
        if !manager.locked {
          manager.locked := true;
          at := Holding;
        } else {
          at := Retrying;
        }
      } else {
        at := Idle;
      }
    }

    /** With the lock held, the worker looks, saves and unlocks: the steps Look, Save, Unlock. */
    method SaveIfChanged(m: ConfigManager, ghost s: State<Json>) returns (ghost t: State<Json>)
      requires Inv(s) && Enabled(s, Look) && m.Agrees(s)
      modifies m`changed, m`file, m`locked
      ensures m.Agrees(t) && Runs(s, if s.autoSave && s.changed then [Look, Step.Save, Unlock] else [Look, Unlock], t)
      ensures !m.locked && (m.autoSaveEnabled && old(m.changed) ==> !m.changed && m.file == m.conf)
    {
      hide Runs;
      NoSteps(s);
      ghost var steps: seq<Step<Json>>;
      t, steps := Advance(s, [], s, Look);
      if m.autoSaveEnabled && m.changed {
        m.changed := false;
        m.Save(t);
        t, steps := Advance(s, steps, t, Step.Save);
      }
      m.locked := false;
      t, steps := Advance(s, steps, t, Unlock);
      assert steps == if s.autoSave && s.changed then [Look, Step.Save, Unlock] else [Look, Unlock];
    }
  }
}
