/** The control side of core/src/dsp/block.h: start, stop and the nested temporary stops, and
    whether the worker thread is there. */
module Blocks {

  /** `alive` is whether the worker thread runs; starting a second one ends the program. */
  datatype Life = Life(running: bool, tempStopped: bool, depth: nat, alive: bool)

  /** The thread is there exactly when the block is running and not temporarily stopped. */
  predicate Orderly(l: Life) {
    && (l.tempStopped <==> l.running && l.depth > 0)
    && (l.alive <==> l.running && l.depth == 0)
  }

  function Started(l: Life): Life {
    if l.running then l else l.(running := true, alive := true)
  }

  function Stopped(l: Life): Life {
    if !l.running then l else l.(running := false, alive := false)
  }

  function TempStopped(l: Life): Life {
    if l.depth > 0 then l.(depth := l.depth + 1)
    else if l.running && !l.tempStopped then l.(depth := 1, tempStopped := true, alive := false)
    else l.(depth := 1)
  }

  function TempStarted(l: Life): Life {
    if l.depth == 0 then l
    else if l.depth > 1 then l.(depth := l.depth - 1)
    else if l.tempStopped then l.(depth := 0, tempStopped := false, alive := true)
    else l.(depth := 0)
  }

  /** start() and stop() keep things orderly exactly when they are not called, to any effect,
      inside a temporary stop. */
  lemma StartStopOrderlyIff(l: Life)
    requires Orderly(l)
    ensures Orderly(Started(l)) <==> l.depth == 0 || l.running
    ensures Orderly(Stopped(l)) <==> l.depth == 0 || !l.running
  {
  }

  /** What goes wrong otherwise: after a stop inside a temporary stop the end of the latter
      brings the thread back although the block is not running, and the next start would
      start a second one. */
  lemma StopInsideTempStop()
    ensures var l := Life(true, false, 0, true);
            var m := TempStarted(Stopped(TempStopped(l)));
            Orderly(l) && !m.running && m.alive && m.depth == 0
  {
  }

  datatype Nest = Down | Up

  function Nested(l: Life, ops: seq<Nest>): Life
    decreases |ops|
  {
    if |ops| == 0 then l
    else Nested(if ops[0] == Down then TempStopped(l) else TempStarted(l), ops[1..])
  }

  /** The depth after the operations, and that it never goes below zero on the way. */
  function DepthAfter(d: int, ops: seq<Nest>): int
    decreases |ops|
  {
    if |ops| == 0 then d else DepthAfter(if ops[0] == Down then d + 1 else d - 1, ops[1..])
  }

  predicate NeverBelow(d: int, ops: seq<Nest>)
    decreases |ops|
  {
    d >= 0 && (|ops| > 0 ==> NeverBelow(if ops[0] == Down then d + 1 else d - 1, ops[1..]))
  }

  lemma {:induction false} NestedKeepsOrder(l: Life, ops: seq<Nest>)
    requires Orderly(l) && NeverBelow(l.depth, ops)
    ensures Orderly(Nested(l, ops))
    ensures Nested(l, ops).running == l.running && Nested(l, ops).depth == DepthAfter(l.depth, ops)
    decreases |ops|
  {
    if |ops| > 0 {
      NestedKeepsOrder(if ops[0] == Down then TempStopped(l) else TempStarted(l), ops[1..]);
    }
  }

  /** Balanced temporary stops, however nested, leave the block as it was. */
  lemma {:induction false} BalancedRestores(l: Life, ops: seq<Nest>)
    requires Orderly(l) && NeverBelow(l.depth, ops) && DepthAfter(l.depth, ops) == l.depth
    ensures Nested(l, ops) == l
  {
    NestedKeepsOrder(l, ops);
  }

  class Block {
    var running: bool
    var tempStopped: bool
    var tempStopDepth: nat
    ghost var alive: bool

    ghost function View(): Life
      reads this
    {
      Life(running, tempStopped, tempStopDepth, alive)
    }

    constructor ()
      ensures View() == Life(false, false, 0, false) && Orderly(View())
    {
      running, tempStopped, tempStopDepth, alive := false, false, 0, false;
    }

    /** Creates the worker thread; there must not be one. */
    method DoStart()
      requires !alive
      modifies this`alive
      ensures alive
    {
      alive := true;
    }

    /** Stops the streams, joins the worker if there is one, clears the stops. */
    method DoStop()
      modifies this`alive
      ensures !alive
    {
      alive := false;
    }

    method Start()
      requires Orderly(View()) && (tempStopDepth == 0 || running)
      modifies this
      ensures Orderly(View()) && View() == Started(old(View())) && running
    {
      if running {
        return;
      }
      running := true;
      DoStart();
    }

    method Stop()
      requires Orderly(View()) && (tempStopDepth == 0 || !running)
      modifies this
      ensures Orderly(View()) && View() == Stopped(old(View())) && !running && !alive
    {
      if !running {
        return;
      }
      DoStop();
      running := false;
    }

    method TempStart()
      requires Orderly(View())
      modifies this
      ensures Orderly(View()) && View() == TempStarted(old(View()))
    {
      if tempStopDepth == 0 {
        return;
      }
      tempStopDepth := tempStopDepth - 1;
      if tempStopDepth > 0 {
        return;
      }
      if tempStopped {
        DoStart();
        tempStopped := false;
      }
    }

    method TempStop()
      requires Orderly(View())
      modifies this
      ensures Orderly(View()) && View() == TempStopped(old(View()))
    {
      tempStopDepth := tempStopDepth + 1;
      if tempStopDepth > 1 {
        return;
      }
      if running && !tempStopped {
        DoStop();
        tempStopped := true;
      }
    }
  }
}
