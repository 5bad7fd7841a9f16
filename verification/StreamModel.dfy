/** The double-buffer handoff of core/src/dsp/stream.h between one writer and one reader,
    one atomic step per critical section, and what holds in every interleaving. */
module StreamModel {

  /** What the two sides share, guarded by the stream's two mutexes. The two buffers are
      kept by role: swapping the pointers exchanges the contents. */
  datatype Shared<T> = Shared(writeData: seq<T>, readData: seq<T>, dataSize: nat, canSwap: bool, dataReady: bool,
                              readerStop: bool, writerStop: bool, nReaders: int)
  {
    /** The first critical section of swap, when the writer was not stopped. */
    function Swapped(size: nat): Shared<T> {
      this.(writeData := readData, readData := writeData, dataSize := size, canSwap := false)
    }
  }

  /** Where the writer is: filling its buffer, in swap's wait, or between the two sections. */
  datatype WriterAt = Filling | Swapping(size: nat) | Notifying

  /** Where the reader is: outside, in read's wait, using the data, or half way through flush. */
  datatype ReaderAt = Away | Awaiting | Using | Flushing

  /** A stream with its two users, and the batches that went in and came out. */
  datatype Channel<T> = Channel(sh: Shared<T>, writer: WriterAt, reader: ReaderAt, sent: seq<seq<T>>, got: seq<seq<T>>)

  datatype Op<T> =
    | Fill(data: seq<T>)
    | CallSwap(size: nat)
    | DoSwap
    | Notify
    | CallRead
    | Wake
    | FlushReady
    | FlushSwap
    | StopReader(on: bool)
    | StopWriter(on: bool)

  predicate Enabled<T>(c: Channel<T>, op: Op<T>) {
    match op
    case Fill(data) => c.writer == Filling && |data| == |c.sh.writeData|
    case CallSwap(size) => c.writer == Filling && size <= |c.sh.writeData|
    case DoSwap => c.writer.Swapping? && (c.sh.canSwap || c.sh.writerStop)
    case Notify => c.writer == Notifying
    case CallRead => c.reader == Away
    case Wake => c.reader == Awaiting && (c.sh.dataReady || c.sh.readerStop)
    case FlushReady => c.reader == Using
    case FlushSwap => c.reader == Flushing
    case StopReader(_) => true
    case StopWriter(_) => true
  }

  /** The batch the reader sees. */
  function Front<T>(c: Channel<T>): seq<T> {
    if c.sh.dataSize <= |c.sh.readData| then c.sh.readData[..c.sh.dataSize] else c.sh.readData
  }

  function Do<T>(c: Channel<T>, op: Op<T>): Channel<T>
    requires Enabled(c, op)
  {
    match op
    case Fill(data) => c.(sh := c.sh.(writeData := data))
    case CallSwap(size) => c.(writer := Swapping(size))
    case DoSwap =>
      if c.sh.writerStop then c.(writer := Filling)
      else
        var size := c.writer.size;
        c.(sh := c.sh.Swapped(size), writer := Notifying,
           sent := c.sent + [if size <= |c.sh.writeData| then c.sh.writeData[..size] else c.sh.writeData])
    case Notify => c.(sh := c.sh.(dataReady := true), writer := Filling)
    case CallRead => c.(sh := c.sh.(nReaders := c.sh.nReaders + 1), reader := Awaiting)
    case Wake => c.(sh := c.sh.(nReaders := c.sh.nReaders - 1), reader := if c.sh.readerStop then Away else Using)
    case FlushReady => c.(sh := c.sh.(dataReady := false), reader := Flushing, got := c.got + [Front(c)])
    case FlushSwap => c.(sh := c.sh.(canSwap := true), reader := Away)
    case StopReader(on) => c.(sh := c.sh.(readerStop := on))
    case StopWriter(on) => c.(sh := c.sh.(writerStop := on))
  }

  /** A new stream: both buffers of one capacity, nothing in it. */
  predicate Init<T>(c: Channel<T>) {
    && |c.sh.writeData| == |c.sh.readData|
    && c.sh.canSwap && !c.sh.dataReady && c.sh.nReaders == 0
    && c.writer == Filling && c.reader == Away && c.sent == [] && c.got == []
  }

  function Count(b: bool): nat { if b then 1 else 0 }

  /** The right to touch the data is one token: with the writer (canSwap), in its hands
      between swap's sections, with the reader (dataReady), or in its hands within flush. */
  function Tokens<T>(c: Channel<T>): nat {
    Count(c.sh.canSwap) + Count(c.writer == Notifying) + Count(c.sh.dataReady) + Count(c.reader == Flushing)
  }

  /** A batch is on its way: swapped in and not yet flushed. */
  predicate Pending<T>(c: Channel<T>) {
    c.writer == Notifying || c.sh.dataReady
  }

  ghost predicate Inv<T>(c: Channel<T>) {
    && |c.sh.writeData| == |c.sh.readData|
    && Tokens(c) == 1
    && (c.writer.Swapping? ==> c.writer.size <= |c.sh.writeData|)
    && (c.reader == Using ==> c.sh.dataReady)
    && c.sh.nReaders == Count(c.reader == Awaiting)
    && c.sent == c.got + (if Pending(c) then [Front(c)] else [])
    && (Pending(c) ==> c.sh.dataSize <= |c.sh.readData|)
  }

  lemma InitInv<T>(c: Channel<T>)
    requires Init(c)
    ensures Inv(c)
  {
  }

  lemma StepInv<T>(c: Channel<T>, op: Op<T>)
    requires Inv(c) && Enabled(c, op)
    ensures Inv(Do(c, op))
    ensures c.got <= Do(c, op).got && c.sent <= Do(c, op).sent
  {
    var d := Do(c, op);
    match op {
      case DoSwap =>
        if !c.sh.writerStop {
          assert d.sent == c.got + [Front(d)];
        }
      case FlushReady =>
        assert d.sent == c.got + [Front(c)] == d.got;
      case _ =>
    }
  }

  ghost predicate Runs<T>(c: Channel<T>, ops: seq<Op<T>>, c': Channel<T>)
    decreases |ops|
  {
    if |ops| == 0 then c' == c else Enabled(c, ops[0]) && Runs(Do(c, ops[0]), ops[1..], c')
  }

  /** In every interleaving: the batches read are a prefix of the batches swapped, in order
      and each once, and at most one is on its way. */
  lemma {:induction false} RunsInOrder<T>(c: Channel<T>, ops: seq<Op<T>>, c': Channel<T>)
    requires Inv(c) && Runs(c, ops, c')
    ensures Inv(c') && c'.got <= c'.sent && |c'.sent| <= |c'.got| + 1
    ensures c.got <= c'.got && c.sent <= c'.sent
    decreases |ops|
  {
    if |ops| > 0 {
      StepInv(c, ops[0]);
      RunsInOrder(Do(c, ops[0]), ops[1..], c');
    }
  }

  /** While the reader uses a batch no step of anyone but the reader's own flush changes the
      data under it, and it is the newest batch sent. */
  lemma StableWhileUsing<T>(c: Channel<T>, op: Op<T>)
    requires Inv(c) && c.reader == Using && Enabled(c, op)
    ensures Front(c) == c.sent[|c.got|] && |c.sent| == |c.got| + 1
    ensures Do(c, op).sh.readData == c.sh.readData && Do(c, op).sh.dataSize == c.sh.dataSize
    ensures Do(c, op).reader == Using <==> op != FlushReady
  {
  }

  /** With no one stopped, the two sides never both wait. */
  lemma NeverStuck<T>(c: Channel<T>)
    requires Inv(c) && c.writer != Filling && c.reader != Away
    ensures Enabled(c, DoSwap) || Enabled(c, Notify) || Enabled(c, Wake) || Enabled(c, FlushReady) || Enabled(c, FlushSwap)
  {
  }

  /** From stopReader until clearReadStop, in every interleaving, the reader finishes at most
      the batch it has in use and takes no other. */
  lemma {:induction false} StoppedReaderTakesNothing<T>(c: Channel<T>, ops: seq<Op<T>>, c': Channel<T>)
    requires Inv(c) && c.sh.readerStop && Runs(c, ops, c') && StopReader(false) !in ops
    ensures Inv(c') && c'.sh.readerStop && c.got <= c'.got
    ensures |c'.got| + Count(c'.reader == Using) <= |c.got| + Count(c.reader == Using)
    decreases |ops|
  {
    if |ops| > 0 {
      StepInv(c, ops[0]);
      assert ops[0] != StopReader(false);
      StoppedReaderTakesNothing(Do(c, ops[0]), ops[1..], c');
    }
  }

  /** And from stopWriter until clearWriteStop nothing is sent. */
  lemma {:induction false} StoppedWriterSendsNothing<T>(c: Channel<T>, ops: seq<Op<T>>, c': Channel<T>)
    requires Inv(c) && c.sh.writerStop && Runs(c, ops, c') && StopWriter(false) !in ops
    ensures Inv(c') && c'.sh.writerStop && c'.sent == c.sent
    decreases |ops|
  {
    if |ops| > 0 {
      StepInv(c, ops[0]);
      assert ops[0] != StopWriter(false);
      StoppedWriterSendsNothing(Do(c, ops[0]), ops[1..], c');
    }
  }
}
