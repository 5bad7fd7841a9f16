/** One processing block between two streams: the worker thread of core/src/dsp/block.h
    running the loop body of core/src/dsp/processor.h, the thread that stops and restarts
    it, and the blocks on either side, one atomic step per critical section. */
module BlockModel {
  import opened StreamModel

  /** Where the worker is in run(); `n` is the number of samples it will hand on. */
  datatype WorkerAt =
    | Gone
    | Looping
    | InRead
    | Processing
    | Processed(n: nat)
    | HalfFlushed(n: nat)
    | Flushed(n: nat)
    | InSwap(n: nat)
    | HalfSwapped

  /** Where the controlling thread is in doStop and doStart. */
  datatype ControlAt =
    | Running
    | ReaderStopped      // stopReader has set its flag and polls
    | ReaderOut          // stopReader has returned
    | BothStopped        // stopWriter has returned; joining
    | Joined
    | ReadCleared
    | Halted

  /** What became of a batch the worker took: handed on, nothing to hand on, or lost. */
  datatype Fate = Delivered | Silent | Dropped

  datatype System<T> = System(
    inp: Channel<T>, out: Channel<T>, worker: WorkerAt, control: ControlAt,
    produced: seq<seq<T>>,   // what process made of each batch taken, in order
    fates: seq<Fate>,        // how each of them ended
    stops: nat,              // how often doStop was entered
    sentAtStop: nat,         // batches handed on when doStop was last entered
    gotAtStop: nat)          // batches taken when doStop was last entered

  datatype Act<T> =
    | Upstream(op: Op<T>)
    | Downstream(op: Op<T>)
    | Work(size: nat, data: seq<T>)   // the worker's next step; the arguments are used by process only
    | Skip                            // a multirate run with no output
    | Control

  /** The steps of the neighbours: the writer of the input and the reader of the output,
      with the stop flags that are theirs. */
  predicate Foreign<T>(a: Act<T>) {
    || (a.Upstream? && (a.op.Fill? || a.op.CallSwap? || a.op.DoSwap? || a.op.Notify? || a.op.StopWriter?))
    || (a.Downstream? && (a.op.CallRead? || a.op.Wake? || a.op.FlushReady? || a.op.FlushSwap? || a.op.StopReader?))
  }

  predicate CanWork<T>(s: System<T>, size: nat, data: seq<T>) {
    match s.worker
    case Gone => false
    case Looping => true
    case InRead => s.inp.sh.dataReady || s.inp.sh.readerStop
    case Processing => |data| == |s.out.sh.writeData| && size <= |data|
    case Processed(_) => true
    case HalfFlushed(_) => true
    case Flushed(_) => true
    case InSwap(_) => s.out.sh.canSwap || s.out.sh.writerStop
    case HalfSwapped => true
  }

  predicate CanControl<T>(s: System<T>) {
    match s.control
    case ReaderStopped => s.inp.sh.nReaders == 0
    case BothStopped => s.worker == Gone
    case _ => true
  }

  predicate Possible<T>(s: System<T>, a: Act<T>) {
    match a
    case Upstream(op) => Foreign(a) && Enabled(s.inp, op)
    case Downstream(op) => Foreign(a) && Enabled(s.out, op)
    case Work(size, data) => CanWork(s, size, data)
    case Skip => s.worker == Flushed(0)
    case Control => CanControl(s)
  }

  /** One step of run(). */
  function Worked<T>(s: System<T>, size: nat, data: seq<T>): System<T>
    requires CanWork(s, size, data) && Placed(s)
  {
    match s.worker
    case Looping => s.(inp := Do(s.inp, CallRead), worker := InRead)
    case InRead => s.(inp := Do(s.inp, Wake), worker := if s.inp.sh.readerStop then Gone else Processing)
    case Processing =>
      s.(out := Do(s.out, Fill(data)), worker := Processed(size), produced := s.produced + [data[..size]])
    case Processed(n) => s.(inp := Do(s.inp, FlushReady), worker := HalfFlushed(n))
    case HalfFlushed(n) => s.(inp := Do(s.inp, FlushSwap), worker := Flushed(n))
    case Flushed(n) => s.(out := Do(s.out, CallSwap(n)), worker := InSwap(n))
    case InSwap(_) =>
      if s.out.sh.writerStop then s.(out := Do(s.out, DoSwap), worker := Gone, fates := s.fates + [Dropped])
      else s.(out := Do(s.out, DoSwap), worker := HalfSwapped, fates := s.fates + [Delivered])
    case HalfSwapped => s.(out := Do(s.out, Notify), worker := Looping)
  }

  /** One step of doStop or doStart. */
  function Controlled<T>(s: System<T>): System<T>
    requires CanControl(s)
  {
    match s.control
    case Running => s.(inp := Do(s.inp, StopReader(true)), control := ReaderStopped,
                       stops := s.stops + 1, sentAtStop := |s.out.sent|, gotAtStop := |s.inp.got|)
    case ReaderStopped => s.(control := ReaderOut)
    case ReaderOut => s.(out := Do(s.out, StopWriter(true)), control := BothStopped)
    case BothStopped => s.(control := Joined)
    case Joined => s.(inp := Do(s.inp, StopReader(false)), control := ReadCleared)
    case ReadCleared => s.(out := Do(s.out, StopWriter(false)), control := Halted)
    case Halted => s.(control := Running, worker := Looping)
  }

  function Next<T>(s: System<T>, a: Act<T>): System<T>
    requires Possible(s, a) && Placed(s)
  {
    match a
    case Upstream(op) => s.(inp := Do(s.inp, op))
    case Downstream(op) => s.(out := Do(s.out, op))
    case Work(size, data) => Worked(s, size, data)
    case Skip => s.(worker := Looping, fates := s.fates + [Silent])
    case Control => Controlled(s)
  }

  /** Where the worker is says where the reader of the input and the writer of the output are. */
  predicate Placed<T>(s: System<T>) {
    && s.inp.reader == (match s.worker
                        case InRead => Awaiting
                        case Processing => Using
                        case Processed(_) => Using
                        case HalfFlushed(_) => Flushing
                        case _ => Away)
    && s.out.writer == (match s.worker
                        case InSwap(n) => Swapping(n)
                        case HalfSwapped => Notifying
                        case _ => Filling)
    && (match s.worker
        case Processed(n) => n <= |s.out.sh.writeData|
        case HalfFlushed(n) => n <= |s.out.sh.writeData|
        case Flushed(n) => n <= |s.out.sh.writeData|
        case _ => true)
  }

  predicate Start<T>(s: System<T>) {
    && Init(s.inp) && Init(s.out) && !s.inp.sh.readerStop && !s.out.sh.writerStop
    && s.worker == Looping && s.control == Running && s.produced == [] && s.fates == [] && s.stops == 0
  }

  /** The output batch the worker has prepared but not handed on. */
  predicate Holding(w: WorkerAt) {
    w.Processed? || w.HalfFlushed? || w.Flushed? || w.InSwap?
  }

  function Outputs<T>(produced: seq<seq<T>>, fates: seq<Fate>): seq<seq<T>>
    requires |fates| <= |produced|
  {
    if |fates| == 0 then []
    else
      var n := |fates| - 1;
      Outputs(produced, fates[..n]) + if fates[n] == Delivered then [produced[n]] else []
  }

  function Drops(fates: seq<Fate>): nat {
    if |fates| == 0 then 0
    else Drops(fates[..|fates| - 1]) + Count(fates[|fates| - 1] == Dropped)
  }

  predicate Stopping(c: ControlAt) {
    c == ReaderStopped || c == ReaderOut || c == BothStopped || c == Joined
  }

  /** The stop flags follow the controller. */
  predicate FlagsFollow<T>(s: System<T>) {
    && (s.inp.sh.readerStop <==> Stopping(s.control))
    && (s.out.sh.writerStop <==> s.control == BothStopped || s.control == Joined || s.control == ReadCleared)
    && (s.control == Running ==> s.worker != Gone)
    && (s.control == Joined || s.control == ReadCleared || s.control == Halted ==> s.worker == Gone)
  }

  /** Every batch taken has one output and one fate, in order; what was handed on is what
      process made of the batches that were not lost. */
  ghost predicate Accounted<T>(s: System<T>) {
    && |s.produced| == |s.inp.got| + Count(s.worker.Processed?)
    && |s.fates| + Count(Holding(s.worker)) == |s.produced|
    && s.out.sent == Outputs(s.produced, s.fates)
    && (Holding(s.worker) ==>
          s.worker.n <= |s.out.sh.writeData| && s.out.sh.writeData[..s.worker.n] == s.produced[|s.fates|])
  }

  /** At most one batch lost per stop, at most one more taken and one more handed on after
      a stop has begun. */
  predicate Bounded<T>(s: System<T>) {
    && Drops(s.fates) <= s.stops
    && (Stopping(s.control) && s.worker != Gone ==> Drops(s.fates) < s.stops)
    && (s.control != Running ==>
          && |s.out.sent| + Count(s.worker == Processing || Holding(s.worker)) <= s.sentAtStop + 1
          && |s.inp.got| + Count(s.worker == Processing || s.worker.Processed?) <= s.gotAtStop + 1)
  }

  ghost predicate SystemInv<T>(s: System<T>) {
    Inv(s.inp) && Inv(s.out) && Placed(s) && FlagsFollow(s) && Accounted(s) && Bounded(s)
  }

  lemma StartInv<T>(s: System<T>)
    requires Start(s)
    ensures SystemInv(s)
  {
  }

  /** What the writer's steps leave alone. */
  lemma WriterLeaves<T>(c: Channel<T>, op: Op<T>)
    requires Enabled(c, op) && (op.Fill? || op.CallSwap? || op.DoSwap? || op.Notify? || op.StopWriter?)
    ensures var d := Do(c, op);
            d.reader == c.reader && d.got == c.got && d.sh.readerStop == c.sh.readerStop && d.sh.nReaders == c.sh.nReaders
  {
  }

  /** What the reader's steps leave alone. */
  lemma ReaderLeaves<T>(c: Channel<T>, op: Op<T>)
    requires Enabled(c, op) && (op.CallRead? || op.Wake? || op.FlushReady? || op.FlushSwap? || op.StopReader?)
    ensures var d := Do(c, op);
            d.writer == c.writer && d.sent == c.sent && d.sh.writerStop == c.sh.writerStop
            && d.sh.writeData == c.sh.writeData
  {
  }

  lemma UpstreamKeepsInv<T>(s: System<T>, op: Op<T>)
    requires SystemInv(s) && Possible(s, Upstream(op))
    ensures SystemInv(Next(s, Upstream(op)))
  {
    hide Inv, Do, Enabled, Outputs, Drops;
    StepInv(s.inp, op);
    WriterLeaves(s.inp, op);
  }

  lemma DownstreamKeepsInv<T>(s: System<T>, op: Op<T>)
    requires SystemInv(s) && Possible(s, Downstream(op))
    ensures SystemInv(Next(s, Downstream(op)))
  {
    hide Inv, Do, Enabled, Outputs, Drops;
    StepInv(s.out, op);
    ReaderLeaves(s.out, op);
  }

  lemma ControlKeepsInv<T>(s: System<T>)
    requires SystemInv(s) && CanControl(s)
    ensures SystemInv(Next(s, Control))
  {
    hide Inv, Outputs, Drops;
    StepInv(s.inp, StopReader(s.control == Running));
    StepInv(s.out, StopWriter(s.control == ReaderOut));
  }

  lemma {:induction false} OutputsGrow<T>(produced: seq<seq<T>>, fates: seq<Fate>, more: seq<seq<T>>)
    requires |fates| <= |produced|
    ensures Outputs(produced + more, fates) == Outputs(produced, fates)
    decreases |fates|
  {
    if |fates| > 0 {
      OutputsGrow(produced, fates[..|fates| - 1], more);
    }
  }

  lemma {:induction false} FateAdded<T>(produced: seq<seq<T>>, fates: seq<Fate>, f: Fate)
    requires |fates| < |produced|
    ensures Outputs(produced, fates + [f])
         == Outputs(produced, fates) + (if f == Delivered then [produced[|fates|]] else [])
    ensures Drops(fates + [f]) == Drops(fates) + Count(f == Dropped)
  {
    assert (fates + [f])[..|fates|] == fates;
  }

  lemma WorkKeepsInv<T>(s: System<T>, size: nat, data: seq<T>)
    requires SystemInv(s) && CanWork(s, size, data)
    ensures SystemInv(Worked(s, size, data))
  {
    if s.worker == Looping || s.worker == InRead || s.worker.Processed? || s.worker.HalfFlushed? {
      WorkOnInput(s, size, data);
    } else {
      WorkOnOutput(s, size, data);
    }
  }

  lemma WorkOnInput<T>(s: System<T>, size: nat, data: seq<T>)
    requires SystemInv(s) && CanWork(s, size, data)
    requires s.worker == Looping || s.worker == InRead || s.worker.Processed? || s.worker.HalfFlushed?
    ensures SystemInv(Worked(s, size, data))
  {
    hide Inv, Outputs, Drops;
    var op: Op<T> := match s.worker
      case Looping => CallRead
      case InRead => Wake
      case Processed(_) => FlushReady
      case _ => FlushSwap;
    ReadingStep(s.inp);
    StepInv(s.inp, op);
  }

  /** A reader that is inside with no stop asked for has data. */
  lemma ReadingStep<T>(c: Channel<T>)
    requires Inv(c)
    ensures c.reader == Using ==> c.sh.dataReady
  {
  }

  lemma WorkOnOutput<T>(s: System<T>, size: nat, data: seq<T>)
    requires SystemInv(s) && CanWork(s, size, data)
    requires s.worker == Processing || s.worker.Flushed? || s.worker.InSwap? || s.worker == HalfSwapped
    ensures SystemInv(Worked(s, size, data))
  {
    match s.worker {
      case Processing => WorkProcess(s, size, data);
      case Flushed(n) => WorkCallSwap(s, n);
      case InSwap(n) => WorkSwap(s, n);
      case HalfSwapped => WorkNotify(s);
    }
  }

  lemma WorkProcess<T>(s: System<T>, size: nat, data: seq<T>)
    requires SystemInv(s) && s.worker == Processing && |data| == |s.out.sh.writeData| && size <= |data|
    ensures SystemInv(Worked(s, size, data))
  {
    hide Inv, Outputs, Drops;
    StepInv(s.out, Fill(data));
    OutputsGrow(s.produced, s.fates, [data[..size]]);
  }

  lemma WorkCallSwap<T>(s: System<T>, n: nat)
    requires SystemInv(s) && s.worker == Flushed(n)
    ensures SystemInv(Worked(s, 0, []))
  {
    hide Inv, Outputs, Drops;
    StepInv(s.out, CallSwap(n));
  }

  lemma WorkSwap<T>(s: System<T>, n: nat)
    requires SystemInv(s) && s.worker == InSwap(n) && (s.out.sh.canSwap || s.out.sh.writerStop)
    ensures SystemInv(Worked(s, 0, []))
  {
    hide Inv, Outputs, Drops;
    StepInv(s.out, DoSwap);
    FateAdded(s.produced, s.fates, if s.out.sh.writerStop then Dropped else Delivered);
  }

  lemma WorkNotify<T>(s: System<T>)
    requires SystemInv(s) && s.worker == HalfSwapped
    ensures SystemInv(Worked(s, 0, []))
  {
    hide Inv, Outputs, Drops;
    StepInv(s.out, Notify);
  }

  lemma SkipKeepsInv<T>(s: System<T>)
    requires SystemInv(s) && s.worker == Flushed(0)
    ensures SystemInv(Next(s, Skip))
  {
    FateAdded(s.produced, s.fates, Silent);
  }

  lemma NextKeepsInv<T>(s: System<T>, a: Act<T>)
    requires SystemInv(s) && Possible(s, a)
    ensures SystemInv(Next(s, a))
  {
    match a {
      case Upstream(op) => UpstreamKeepsInv(s, op);
      case Downstream(op) => DownstreamKeepsInv(s, op);
      case Work(size, data) => WorkKeepsInv(s, size, data);
      case Skip => SkipKeepsInv(s);
      case Control => ControlKeepsInv(s);
    }
  }

  // ---------- whole runs ----------

  ghost predicate SystemRuns<T>(s: System<T>, acts: seq<Act<T>>, s': System<T>)
    requires SystemInv(s)
    decreases |acts|
  {
    if |acts| == 0 then s' == s
    else Possible(s, acts[0]) && (NextKeepsInv(s, acts[0]); SystemRuns(Next(s, acts[0]), acts[1..], s'))
  }

  lemma NextOnlyAdds<T>(s: System<T>, a: Act<T>)
    requires SystemInv(s) && Possible(s, a)
    ensures s.inp.got <= Next(s, a).inp.got && s.inp.sent <= Next(s, a).inp.sent && s.out.sent <= Next(s, a).out.sent
  {
    hide Inv, Outputs, Drops;
  }

  lemma {:induction false} RunKeepsInv<T>(s: System<T>, acts: seq<Act<T>>, s': System<T>)
    requires SystemInv(s) && SystemRuns(s, acts, s')
    ensures SystemInv(s')
    ensures s.inp.got <= s'.inp.got && s.inp.sent <= s'.inp.sent && s.out.sent <= s'.out.sent
    decreases |acts|
  {
    hide Inv, Placed, FlagsFollow, Accounted, Bounded, Next, Possible;
    if |acts| > 0 {
      NextKeepsInv(s, acts[0]);
      NextOnlyAdds(s, acts[0]);
      RunKeepsInv(Next(s, acts[0]), acts[1..], s');
    }
  }

  /** Over any run with any number of stops and restarts: batches are taken in the order they
      were sent, each once; every one taken has one fate; what was handed on is what process
      made of those not lost, in order; and no more were lost than there were stops. */
  lemma {:induction false} NothingLostButOnePerStop<T>(s: System<T>, acts: seq<Act<T>>, s': System<T>)
    requires Start(s) && (StartInv(s); SystemRuns(s, acts, s'))
    ensures s'.inp.got <= s'.inp.sent && |s'.inp.sent| <= |s'.inp.got| + 1
    ensures |s'.fates| <= |s'.produced| <= |s'.inp.got| + 1
    ensures s'.out.sent == Outputs(s'.produced, s'.fates) && Drops(s'.fates) <= s'.stops
  {
    StartInv(s);
    RunKeepsInv(s, acts, s');
  }

  /** A batch that waits in the input when the block is halted is the next one taken. */
  lemma {:induction false} PendingSurvivesStop<T>(s: System<T>, acts: seq<Act<T>>, s': System<T>)
    requires SystemInv(s) && s.control == Halted && Pending(s.inp) && SystemRuns(s, acts, s')
    requires |s'.inp.got| > |s.inp.got|
    ensures s'.inp.got[|s.inp.got|] == Front(s.inp)
  {
    RunKeepsInv(s, acts, s');
    assert s.inp.sent[|s.inp.got|] == Front(s.inp);
  }

  /** While a stop is under way, and once it is over, at most one more batch is taken and at
      most one more is handed on than when it began. */
  lemma {:induction false} AtMostOneMore<T>(s: System<T>, acts: seq<Act<T>>, s': System<T>)
    requires SystemInv(s) && SystemRuns(s, acts, s') && s'.control != Running
    ensures |s'.out.sent| <= s'.sentAtStop + 1 && |s'.inp.got| <= s'.gotAtStop + 1
  {
    RunKeepsInv(s, acts, s');
  }

  // ---------- a stop ends ----------

  /** How many steps of its own the worker can still take once both stops are set. */
  function Rank(w: WorkerAt): nat {
    match w
    case Gone => 0
    case InRead => 1
    case InSwap(_) => 1
    case Looping => 2
    case HalfSwapped => 3
    case Flushed(_) => 3
    case HalfFlushed(_) => 4
    case Processed(_) => 5
    case Processing => 6
  }

  predicate IsWork<T>(a: Act<T>) {
    a.Work? || a.Skip?
  }

  /** The worker is never blocked once both stops are set. */
  lemma StoppedNeverBlocked<T>(s: System<T>)
    requires SystemInv(s) && s.control == BothStopped && s.worker != Gone
    ensures exists size, data :: CanWork(s, size, data)
  {
    assert CanWork(s, 0, s.out.sh.writeData);
  }

  /** Each of its steps brings it nearer its exit, and no one else's step takes it away. */
  lemma StoppedRankFalls<T>(s: System<T>, a: Act<T>)
    requires SystemInv(s) && s.control == BothStopped && s.worker != Gone && Possible(s, a)
    ensures Next(s, a).control == BothStopped
    ensures if IsWork(a) then Rank(Next(s, a).worker) < Rank(s.worker) else Next(s, a).worker == s.worker
    ensures Next(s, a).out.sent == s.out.sent
  {
    hide Inv, Outputs, Drops;
  }

  function WorkSteps<T>(acts: seq<Act<T>>): nat {
    if |acts| == 0 then 0 else Count(IsWork(acts[0])) + WorkSteps(acts[1..])
  }

  /** A run whose every step starts with both stops set and the worker still there. */
  ghost predicate DrainRuns<T>(s: System<T>, acts: seq<Act<T>>, s': System<T>)
    requires SystemInv(s)
    decreases |acts|
  {
    if |acts| == 0 then s' == s
    else
      && s.control == BothStopped && s.worker != Gone && Possible(s, acts[0])
      && (NextKeepsInv(s, acts[0]); DrainRuns(Next(s, acts[0]), acts[1..], s'))
  }

  /** From wherever a stop catches the worker, it is gone after at most six steps of its own,
      whatever the neighbours do in between, and hands nothing on. */
  lemma {:induction false} StopEnds<T>(s: System<T>, acts: seq<Act<T>>, s': System<T>)
    requires SystemInv(s) && DrainRuns(s, acts, s')
    ensures WorkSteps(acts) + Rank(s'.worker) <= Rank(s.worker) <= 6
    ensures WorkSteps(acts) >= 6 ==> s'.worker == Gone
    ensures s'.out.sent == s.out.sent
    decreases |acts|
  {
    hide Inv, Placed, FlagsFollow, Accounted, Bounded, Next, Possible;
    if |acts| > 0 {
      NextKeepsInv(s, acts[0]);
      StoppedRankFalls(s, acts[0]);
      StopEnds(Next(s, acts[0]), acts[1..], s');
    }
  }

  /** stopReader's polling ends too: a worker that is in read is let out by the flag, and it
      can only come back to be let out again. */
  lemma ReaderLetOut<T>(s: System<T>, size: nat, data: seq<T>)
    requires SystemInv(s) && s.control == ReaderStopped && !CanControl(s)
    ensures s.worker == InRead && CanWork(s, size, data)
    ensures Worked(s, size, data).worker == Gone && CanControl(Worked(s, size, data))
  {
    hide Outputs, Drops;
  }

  // ---------- a stop and a start can be completed ----------

  /** How many steps of the controlling thread are left until the block runs again. */
  function StepsToRun(c: ControlAt): nat {
    match c
    case Running => 0
    case Halted => 1
    case ReadCleared => 2
    case Joined => 3
    case BothStopped => 4
    case ReaderOut => 5
    case ReaderStopped => 6
  }

  lemma RunsOneMore<T>(s: System<T>, a: Act<T>, acts: seq<Act<T>>, s': System<T>)
    requires SystemInv(s) && Possible(s, a) && SystemInv(Next(s, a)) && SystemRuns(Next(s, a), acts, s')
    ensures SystemRuns(s, [a] + acts, s')
  {
    hide Inv, Placed, FlagsFollow, Accounted, Bounded, Next, Possible;
    assert ([a] + acts)[1..] == acts;
  }

  /** The step to take next while a stop is under way. */
  lemma NextOfStop<T>(s: System<T>) returns (a: Act<T>)
    requires SystemInv(s) && s.control != Running
    ensures (a == Control || IsWork(a)) && Possible(s, a)
    ensures var t := Next(s, a);
      && t.stops == s.stops && (t.control == Running ==> s.control == Halted && t.worker == Looping)
      && if a == Control then StepsToRun(t.control) < StepsToRun(s.control)
         else t.control == s.control && Rank(t.worker) < Rank(s.worker)
  {
    hide Outputs, Drops, Accounted, Bounded;
    if CanControl(s) {
      a := Control;
    } else {
      a := Work(0, s.out.sh.writeData);
      if s.control == ReaderStopped {
        ReaderLetOut(s, 0, s.out.sh.writeData);
      } else {
        StoppedRankFalls(s, a);
      }
    }
  }

  lemma {:induction false} StopGoesOn<T>(s: System<T>) returns (acts: seq<Act<T>>, s': System<T>)
    requires SystemInv(s) && s.control != Running
    ensures SystemRuns(s, acts, s') && (forall k :: 0 <= k < |acts| ==> acts[k] == Control || IsWork(acts[k]))
    ensures s'.control == Running && s'.worker == Looping && s'.stops == s.stops
    decreases StepsToRun(s.control), Rank(s.worker)
  {
    hide Inv, Placed, FlagsFollow, Accounted, Bounded, Next, Possible, IsWork;
    var a := NextOfStop(s);
    NextKeepsInv(s, a);
    var t := Next(s, a);
    var rest := [];
    s' := t;
    if t.control != Running {
      rest, s' := StopGoesOn(t);
    }
    RunsOneMore(s, a, rest, s');
    acts := [a] + rest;
  }

  /** From any state of a running block a stop and the start after it can be carried through by
      the controlling thread and the worker alone, whatever the worker is at and though the
      neighbours do nothing; it counts as one stop, and the worker loops again. */
  lemma StopAndRestart<T>(s: System<T>) returns (acts: seq<Act<T>>, s': System<T>)
    requires SystemInv(s) && s.control == Running
    ensures |acts| > 0 && acts[0] == Control
    ensures SystemRuns(s, acts, s') && (forall k :: 0 <= k < |acts| ==> acts[k] == Control || IsWork(acts[k]))
    ensures s'.control == Running && s'.worker == Looping && s'.stops == s.stops + 1
  {
    StopBegins(s);
    hide Inv, Placed, FlagsFollow, Accounted, Bounded, Next, Possible, IsWork;
    NextKeepsInv(s, Control);
    var rest;
    rest, s' := StopGoesOn(Next(s, Control));
    RunsOneMore(s, Control, rest, s');
    acts := [Control] + rest;
  }

  lemma StopBegins<T>(s: System<T>)
    requires SystemInv(s) && s.control == Running
    ensures Possible(s, Control)
    ensures Next(s, Control).control == ReaderStopped && Next(s, Control).stops == s.stops + 1
  {
  }

  // ---------- a batch passes ----------

  lemma NoMoreSteps<T>(s: System<T>)
    requires SystemInv(s)
    ensures SystemRuns(s, [], s)
  {
  }

  /** The first two steps of a round: the worker enters read and is given the batch. */
  lemma ReadsBatch<T>(s: System<T>, n: nat, data: seq<T>) returns (t: System<T>)
    requires SystemInv(s) && s.control == Running && s.worker == Looping && s.inp.sh.dataReady
    ensures SystemInv(t) && SystemRuns(s, [Work(n, data), Work(n, data)], t)
    ensures t.control == Running && t.worker == Processing && t.fates == s.fates
    ensures t.inp.got == s.inp.got && Front(t.inp) == Front(s.inp) && t.out == s.out
  {
    hide Inv, Outputs, Drops, Accounted, Bounded;
    var w := Work(n, data);
    NextKeepsInv(s, w);
    var u := Next(s, w);
    NextKeepsInv(u, w);
    t := Next(u, w);
    NoMoreSteps(t);
    RunsOneMore(u, w, [], t);
    RunsOneMore(s, w, [w], t);
  }

  /** The next three: it is processed and given back. */
  lemma ProcessesBatch<T>(s: System<T>, n: nat, data: seq<T>) returns (t: System<T>)
    requires SystemInv(s) && s.control == Running && s.worker == Processing && n <= |data| == |s.out.sh.writeData|
    ensures SystemInv(t) && SystemRuns(s, [Work(n, data), Work(n, data), Work(n, data)], t)
    ensures t.control == Running && t.worker == Flushed(n) && t.fates == s.fates
    ensures t.inp.got == s.inp.got + [Front(s.inp)] && t.out == Do(s.out, Fill(data))
  {
    hide Inv, Outputs, Drops, Accounted, Bounded;
    var w := Work(n, data);
    NextKeepsInv(s, w);
    var u := Next(s, w);
    NextKeepsInv(u, w);
    var v := Next(u, w);
    NextKeepsInv(v, w);
    t := Next(v, w);
    NoMoreSteps(t);
    RunsOneMore(v, w, [], t);
    RunsOneMore(u, w, [w], t);
    RunsOneMore(s, w, [w, w], t);
  }

  /** The last three: what was processed is handed on. */
  lemma HandsOn<T>(s: System<T>, n: nat, data: seq<T>) returns (s': System<T>)
    requires SystemInv(s) && s.control == Running && s.worker == Flushed(n) && n > 0 && s.out.sh.canSwap
    ensures SystemInv(s') && SystemRuns(s, [Work(n, data), Work(n, data), Work(n, data)], s')
    ensures s'.control == Running && s'.worker == Looping && s'.fates == s.fates + [Delivered]
    ensures s'.inp == s.inp && n <= |s.out.sh.writeData| && s'.out.sent == s.out.sent + [s.out.sh.writeData[..n]]
  {
    hide Inv, Outputs, Drops, Accounted, Bounded;
    var w := Work(n, data);
    NextKeepsInv(s, w);
    var s1 := Next(s, w);
    NextKeepsInv(s1, w);
    var s2 := Next(s1, w);
    NextKeepsInv(s2, w);
    s' := Next(s2, w);
    NoMoreSteps(s');
    RunsOneMore(s2, w, [], s');
    RunsOneMore(s1, w, [w], s');
    RunsOneMore(s, w, [w, w], s');
  }

  lemma {:induction false} RunsJoin<T>(s: System<T>, a: seq<Act<T>>, t: System<T>, b: seq<Act<T>>, u: System<T>)
    requires SystemInv(s) && SystemRuns(s, a, t) && SystemInv(t) && SystemRuns(t, b, u)
    ensures SystemRuns(s, a + b, u)
    decreases |a|
  {
    hide Inv, Placed, FlagsFollow, Accounted, Bounded, Next, Possible;
    if |a| == 0 {
      assert a + b == b;
    } else {
      NextKeepsInv(s, a[0]);
      RunsJoin(Next(s, a[0]), a[1..], t, b, u);
      assert (a + b)[0] == a[0] && (a + b)[1..] == a[1..] + b;
    }
  }

  /** One round of the worker with a batch waiting and room to hand on: by eight steps of its own
      it takes the batch and hands on what process makes of it. */
  lemma BatchPasses<T>(s: System<T>, n: nat, data: seq<T>) returns (acts: seq<Act<T>>, s': System<T>)
    requires SystemInv(s) && s.control == Running && s.worker == Looping
    requires s.inp.sh.dataReady && s.out.sh.canSwap && 0 < n <= |data| == |s.out.sh.writeData|
    ensures |acts| == 8 && (forall k :: 0 <= k < 8 ==> acts[k] == Work(n, data)) && SystemRuns(s, acts, s')
    ensures s'.control == Running && s'.worker == Looping && s'.fates == s.fates + [Delivered]
    ensures s'.inp.got == s.inp.got + [Front(s.inp)] && s'.out.sent == s.out.sent + [data[..n]]
  {
    hide SystemInv, SystemRuns;
    var w := Work(n, data);
    var t := ReadsBatch(s, n, data);
    var u := ProcessesBatch(t, n, data);
    s' := HandsOn(u, n, data);
    RunsJoin(t, [w, w, w], u, [w, w, w], s');
    assert [w, w, w] + [w, w, w] == [w, w, w, w, w, w];
    RunsJoin(s, [w, w], t, [w, w, w, w, w, w], s');
    acts := [w, w] + [w, w, w, w, w, w];
  }
}
