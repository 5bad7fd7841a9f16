/** runBounded of core/src/dsp/processor.h: one input batch processed in pieces small enough
    for the output buffer. */
module Processors {

  function Flat<T>(parts: seq<seq<T>>): seq<T> {
    if |parts| == 0 then [] else Flat(parts[..|parts| - 1]) + parts[|parts| - 1]
  }

  /** What a stateful process makes of the pieces, one after the other. */
  function Feed<S, I, O>(process: (S, seq<I>) -> (S, seq<O>), s: S, pieces: seq<seq<I>>): (S, seq<O>) {
    if |pieces| == 0 then (s, [])
    else
      var before := Feed(process, s, pieces[..|pieces| - 1]);
      var last := process(before.0, pieces[|pieces| - 1]);
      (last.0, before.1 + last.1)
  }

  /** Running on a piece and then on the next is running on both together. */
  ghost predicate Composes<S(!new), I(!new), O(!new)>(process: (S, seq<I>) -> (S, seq<O>)) {
    && (forall s :: process(s, []) == (s, []))
    && (forall s, a, b {:trigger process(s, a + b)} ::
          process(s, a + b) == (process(process(s, a).0, b).0, process(s, a).1 + process(process(s, a).0, b).1))
  }

  /** For a process that composes, pieces are as good as the whole. */
  lemma {:induction false} FeedIsWhole<S(!new), I(!new), O(!new)>(process: (S, seq<I>) -> (S, seq<O>), s: S,
                                         pieces: seq<seq<I>>)
    requires Composes(process)
    ensures Feed(process, s, pieces) == process(s, Flat(pieces))
    decreases |pieces|
  {
    if |pieces| > 0 {
      var n := |pieces| - 1;
      FeedIsWhole(process, s, pieces[..n]);
      assert process(s, Flat(pieces[..n]) + pieces[n])
          == (process(process(s, Flat(pieces[..n])).0, pieces[n]).0,
              process(s, Flat(pieces[..n])).1 + process(process(s, Flat(pieces[..n])).0, pieces[n]).1);
    }
  }

  lemma {:induction false} FlatPush<T>(parts: seq<seq<T>>, p: seq<T>)
    ensures Flat(parts + [p]) == Flat(parts) + p
  {
    assert (parts + [p])[..|parts|] == parts;
  }

  lemma {:induction false} FeedPush<S, I, O>(process: (S, seq<I>) -> (S, seq<O>), s: S, pieces: seq<seq<I>>, p: seq<I>)
    ensures var b := Feed(process, s, pieces);
            Feed(process, s, pieces + [p]) == (process(b.0, p).0, b.1 + process(b.0, p).1)
  {
    assert (pieces + [p])[..|pieces|] == pieces;
  }

  lemma NothingYet<T>()
    ensures Flat<T>([]) == []
  {
  }

  lemma FeedNothing<S, I, O>(process: (S, seq<I>) -> (S, seq<O>), s: S)
    ensures Feed(process, s, []) == (s, [])
  {
  }

  /** Every piece is as long as it may be: up to what is left of the input. */
  ghost predicate LongestPieces<I>(pieces: seq<seq<I>>, total: nat, maxInput: nat -> int)
    decreases |pieces|
  {
    if |pieces| == 0 then true
    else
      var n := |pieces| - 1;
      && LongestPieces(pieces[..n], total, maxInput)
      && var left := total - |Flat(pieces[..n])|;
      |pieces[n]| == if left < maxInput(n) then left else maxInput(n)
  }

  lemma LongestPush<I>(pieces: seq<seq<I>>, p: seq<I>, total: nat, maxInput: nat -> int)
    requires LongestPieces(pieces, total, maxInput)
    requires var left := total - |Flat(pieces)|; |p| == if left < maxInput(|pieces|) then left else maxInput(|pieces|)
    ensures LongestPieces(pieces + [p], total, maxInput)
  {
    assert (pieces + [p])[..|pieces|] == pieces;
  }

  lemma NoPieces<I>(total: nat, maxInput: nat -> int)
    ensures LongestPieces<I>([], total, maxInput)
  {
  }

  /** So, for a process that composes, what a successful call hands on is one run over the
      whole batch. */
  lemma {:induction false} BoundedIsWhole<S(!new), I(!new), O(!new)>(process: (S, seq<I>) -> (S, seq<O>), s: S,
                                            input: seq<I>,
                                            pieces: seq<seq<I>>, chunks: seq<seq<O>>)
    requires Composes(process) && Flat(pieces) == input && Flat(chunks) == Feed(process, s, pieces).1
    ensures Flat(chunks) == process(s, input).1
  {
    FeedIsWhole(process, s, pieces);
  }

  /** The batch `input` was read, or, when `reading` is false, read returned a negative count.
      maxInput(i) and accepts(i) are what getMaxInputCount and swap say the i-th time they are
      asked. `chunks` is what was swapped out, `pieces` what process was given. */
  method RunBounded<S, I, O>(reading: bool, input: seq<I>, capacity: nat, maxInput: nat -> int,
                             process: (S, seq<I>) -> (S, seq<O>), accepts: nat -> bool, s0: S)
    returns (rv: int, chunks: seq<seq<O>>, s: S, flushed: bool, ghost pieces: seq<seq<I>>)
    ensures flushed == reading
    ensures !reading ==> rv == -1 && chunks == [] && pieces == []
    ensures forall i :: 0 <= i < |pieces| ==> 0 < |pieces[i]| <= maxInput(i)
    ensures Flat(pieces) <= input && LongestPieces(pieces, |input|, maxInput)
    ensures s == Feed(process, s0, pieces).0
    ensures forall i :: 0 <= i < |chunks| ==> 0 < |chunks[i]| <= capacity
    ensures Flat(chunks) <= Feed(process, s0, pieces).1
    ensures rv >= 0 ==> reading && Flat(pieces) == input && Flat(chunks) == Feed(process, s0, pieces).1
    ensures rv >= 0 ==> rv == |Flat(chunks)|
    ensures forall i :: 0 <= i < |chunks| ==> accepts(i)
    ensures rv >= 0 || rv == -1
    ensures rv == -1 && reading ==>
              || (maxInput(|pieces|) <= 0 && Flat(pieces) != input)
              || |Feed(process, s0, pieces).1| - |Flat(chunks)| > capacity
              || (|Flat(chunks)| < |Feed(process, s0, pieces).1| && !accepts(|chunks|))
  {
    hide Flat, Feed, LongestPieces;
    NoPieces<I>(|input|, maxInput);
    NothingYet<I>();
    NothingYet<O>();
    FeedNothing(process, s0);
    chunks, s, pieces, flushed := [], s0, [], false;
    if !reading {
      return -1, chunks, s, flushed, pieces;
    }
    var offset, total, asked, swaps := 0, 0, 0, 0;
    while offset < |input|
      invariant 0 <= offset <= |input| && asked == |pieces| && swaps == |chunks|
      invariant Flat(pieces) == input[..offset] && LongestPieces(pieces, |input|, maxInput)
      invariant forall i :: 0 <= i < |chunks| ==> accepts(i)
      invariant forall i :: 0 <= i < |pieces| ==> 0 < |pieces[i]| <= maxInput(i)
      invariant s == Feed(process, s0, pieces).0 && Flat(chunks) == Feed(process, s0, pieces).1
      invariant forall i :: 0 <= i < |chunks| ==> 0 < |chunks[i]| <= capacity
      invariant total == |Flat(chunks)| && !flushed
    {
      var max := maxInput(asked);
      if max <= 0 {
        assert |Flat(pieces)| < |input|;
        flushed := true;
        return -1, chunks, s, flushed, pieces;
      }
      var count := if |input| - offset < max then |input| - offset else max;
      var piece := input[offset..offset + count];
      var result := process(s, piece);
      FlatPush(pieces, piece);
      LongestPush(pieces, piece, |input|, maxInput);
      FeedPush(process, s0, pieces, piece);
      assert input[..offset] + piece == input[..offset + count];
      s := result.0;
      pieces := pieces + [piece];
      asked := asked + 1;
      if |result.1| > capacity {
        assert Flat(pieces) <= input;
        flushed := true;
        return -1, chunks, s, flushed, pieces;
      }
      total := total + |result.1|;
      offset := offset + count;
      if |result.1| != 0 {
        if !accepts(swaps) {
          flushed := true;
          return -1, chunks, s, flushed, pieces;
        }
        FlatPush(chunks, result.1);
        chunks := chunks + [result.1];
        swaps := swaps + 1;
      }
    }
    flushed := true;
    rv := total;
  }
}
