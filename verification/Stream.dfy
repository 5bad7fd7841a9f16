/** core/src/dsp/stream.h: the stream as an object, one method per critical section, each
    doing to the object what the corresponding step does to StreamModel.Shared. */
module Streams {
  import opened StreamModel

  class Stream<T> {
    var writeBuf: array<T>
    var readBuf: array<T>
    var dataSize: int
    var canSwap: bool
    var dataReady: bool
    var readerStop: bool
    var writerStop: bool
    var nReaders: int

    /** The two buffers are never the same. */
    ghost predicate Valid()
      reads this
    {
      writeBuf != readBuf && writeBuf.Length == readBuf.Length && dataSize >= 0
    }

    ghost function View(): Shared<T>
      reads this, writeBuf, readBuf
      requires Valid()
    {
      Shared(writeBuf[..], readBuf[..], dataSize, canSwap, dataReady, readerStop, writerStop, nReaders)
    }

    constructor (capacity: nat, blank: T)
      ensures Valid() && fresh(writeBuf) && fresh(readBuf)
      ensures Init(Channel(View(), Filling, Away, [], []))
      ensures !readerStop && !writerStop && writeBuf.Length == capacity
    {
      writeBuf := new T[capacity](_ => blank);
      readBuf := new T[capacity](_ => blank);
      dataSize, canSwap, dataReady, readerStop, writerStop, nReaders := 0, true, false, false, false, 0;
    }

    /** swap's first critical section, entered when its wait is over. */
    method SwapBuffers(size: nat) returns (ok: bool)
      requires Valid() && (canSwap || writerStop)
      modifies this`writeBuf, this`readBuf, this`dataSize, this`canSwap
      ensures Valid() && ok == !old(writerStop)
      ensures View() == if ok then old(View()).Swapped(size) else old(View())
    {
      if writerStop {
        return false;
      }
      dataSize := size;
      var temp := writeBuf;
      writeBuf := readBuf;
      readBuf := temp;
      canSwap := false;
      ok := true;
    }

    /** swap's second critical section. */
    method SetReady()
      requires Valid()
      modifies this`dataReady
      ensures Valid() && View() == old(View()).(dataReady := true)
    {
      dataReady := true;
    }

    /** read up to its wait. */
    method EnterRead()
      requires Valid()
      modifies this`nReaders
      ensures Valid() && View() == old(View()).(nReaders := old(nReaders) + 1)
    {
      nReaders := nReaders + 1;
    }

    /** read from the end of its wait. */
    method LeaveRead() returns (rv: int)
      requires Valid() && (dataReady || readerStop)
      modifies this`nReaders
      ensures Valid() && View() == old(View()).(nReaders := old(nReaders) - 1)
      ensures rv == if readerStop then -1 else dataSize
    {
      rv := if readerStop then -1 else dataSize;
      nReaders := nReaders - 1;
    }

    /** flush's first critical section. */
    method ClearReady()
      requires Valid()
      modifies this`dataReady
      ensures Valid() && View() == old(View()).(dataReady := false)
    {
      dataReady := false;
    }

    /** flush's second critical section. */
    method AllowSwap()
      requires Valid()
      modifies this`canSwap
      ensures Valid() && View() == old(View()).(canSwap := true)
    {
      canSwap := true;
    }

    method SetWriterStop(on: bool)
      requires Valid()
      modifies this`writerStop
      ensures Valid() && View() == old(View()).(writerStop := on)
    {
      writerStop := on;
    }

    /** The section of stopReader that sets the flag, and clearReadStop. */
    method SetReaderStop(on: bool)
      requires Valid()
      modifies this`readerStop
      ensures Valid() && View() == old(View()).(readerStop := on)
    {
      readerStop := on;
    }

    /** The polling section of stopReader. */
    method ReadersGone() returns (gone: bool)
      requires Valid()
      ensures gone <==> View().nReaders == 0
    {
      gone := nReaders == 0;
    }
  }
}
