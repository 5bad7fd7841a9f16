/** How many nodes a run of placements needs. stbrp_setup_allow_out_of_mem rounds widths
    up "so that num_nodes is always enough"; it is enough exactly when num_nodes >= width. */
module PackRuns {
  import opened Common
  import opened Skyline
  import opened RectPack

  /** A packer between two placements: its skyline and how many nodes are free. */
  datatype Packing = Packing(width: int, height: int, align: int, sky: seq<Seg>, free: nat)

  function Fresh(width: int, height: int, numNodes: nat): Packing
    requires 1 <= numNodes
  {
    Packing(width, height, Quantum(width, numNodes), [Seg(0, 0), Seg(width, COORD_MAX)], numNodes)
  }

  /** A successful bottom-left placement of w by h, as Context.PackRectangle ensures it:
      a free node is taken and the covered ones come back. */
  ghost predicate Places(p: Packing, w: int, h: int, p': Packing) {
    && 0 < w && 0 < h && 1 <= p.align && p.free > 0
    && exists x, y ::
         && PlacedAt(p.sky, p.width, p.height, SkylineBL, RoundedUp(w, p.align), h, x, y)
         && At(p.sky, x) + 1 < |p.sky|
         && p'.sky == Splice(p.sky, At(p.sky, x), x, w, y + h)
         && p'.free + |p'.sky| == p.free + |p.sky|
         && p'.width == p.width && p'.height == p.height && p'.align == p.align
  }

  ghost predicate Reaches(p: Packing, p': Packing, steps: nat)
    decreases steps
  {
    if steps == 0 then p' == p
    else exists q, w, h :: Reaches(p, q, steps - 1) && Places(q, w, h, p')
  }

  /** Out of nodes although some rectangle would still fit. */
  ghost predicate Stuck(p: Packing) {
    1 <= p.align && p.free == 0
    && exists w, h :: 0 < w && 0 < h && HasRoom(p.sky, p.width, p.height, RoundedUp(w, p.align), h)
  }

  lemma {:induction false} ReachedShape(p: Packing, p': Packing, steps: nat)
    requires Wf(p.sky, p.width) && Reaches(p, p', steps)
    ensures Wf(p'.sky, p.width) && p'.free + |p'.sky| == p.free + |p.sky|
    ensures p'.width == p.width
    decreases steps
  {
    hide Places, Wf;
    if steps > 0 {
      var q, w, h :| Reaches(p, q, steps - 1) && Places(q, w, h, p');
      ReachedShape(p, q, steps - 1);
      PlaceKeepsShape(q, w, h, p');
    }
  }

  lemma PlaceKeepsShape(p: Packing, w: int, h: int, p': Packing)
    requires Places(p, w, h, p')
    ensures Wf(p.sky, p.width) && Wf(p'.sky, p.width)
    ensures p'.free + |p'.sky| == p.free + |p.sky| && p'.width == p.width
  {
    hide Splice, Rest, BottomLeft;
    var x, y :| PlacedAt(p.sky, p.width, p.height, SkylineBL, RoundedUp(w, p.align), h, x, y)
                && At(p.sky, x) + 1 < |p.sky|
                && p'.sky == Splice(p.sky, At(p.sky, x), x, w, y + h);
    RestNonNegative(p.sky, x, RoundedUp(w, p.align));
    SpliceKeepsShape(p.sky, p.width, At(p.sky, x), x, w, y + h);
  }

  // ---------- the run that exhausts the nodes ----------

  /** The skyline after k rectangles of one column and one row. */
  function Stair(k: nat, width: int): seq<Seg> {
    seq(k, i => Seg(i, 1)) + [Seg(k, 0), Seg(width, COORD_MAX)]
  }

  lemma StairShape(k: nat, width: int)
    requires k < width
    ensures Wf(Stair(k, width), width)
  {
  }

  lemma {:induction false} StairHeight(k: nat, width: int, c: int)
    requires k < width && 0 <= c < width
    ensures Height(Stair(k, width), c) == if c < k then 1 else 0
  {
    HeightAt(Stair(k, width), if c < k then c else k, c);
  }

  lemma {:induction false} StairRest(k: nat, width: int, x: int, a: int)
    requires k < width && 0 <= x && 0 < a && x + a <= width
    ensures Rest(Stair(k, width), x, a) == if x < k then 1 else 0
  {
    hide Stair, Height;
    var s := Stair(k, width);
    var r := Rest(s, x, a);
    RestNonNegative(s, x, a);
    StairHeight(k, width, x);
    if r > 0 {
      RestAttained(s, x, a);
      var c :| x <= c < x + a && Height(s, c) == r;
      StairHeight(k, width, c);
    }
  }

  /** Where the next one goes, and what it leaves. */
  lemma StairGrows(k: nat, width: int, height: int, a: int, free: nat)
    requires 2 <= a && k + a <= width && height >= 2 && free > 0
    ensures Places(Packing(width, height, a, Stair(k, width), free), 1, 1,
                   Packing(width, height, a, Stair(k + 1, width), free - 1))
  {
    var s, t := Stair(k, width), Stair(k + 1, width);
    OneRoundsTo(a);
    StairShape(k, width);
    AtUnique(s, k, k);
    StairPlaced(k, width, height, a);
    assert Keep(s, k, k + 1) == k;
    assert Splice(s, k, k, 1, 1) == t;
    assert PlacedAt(s, width, height, SkylineBL, RoundedUp(1, a), 1, k, 0)
           && At(s, k) + 1 < |s| && t == Splice(s, At(s, k), k, 1, 0 + 1);
  }

  lemma StairPlaced(k: nat, width: int, height: int, a: int)
    requires 2 <= a && k + a <= width && height >= 2
    ensures PlacedAt(Stair(k, width), width, height, SkylineBL, a, 1, k, 0)
  {
    hide Stair, Rest;
    StairShape(k, width);
    StairRest(k, width, k, a);
    forall x' | 0 <= x' <= width - a
      ensures Rest(Stair(k, width), x', a) >= 0 && (Rest(Stair(k, width), x', a) == 0 ==> k <= x')
    {
      StairRest(k, width, x', a);
    }
  }

  lemma {:induction false} StairReached(k: nat, width: int, height: int, numNodes: nat)
    requires 1 <= numNodes < width && height >= 2 && k <= numNodes
    ensures Reaches(Fresh(width, height, numNodes),
                    Packing(width, height, Quantum(width, numNodes), Stair(k, width), numNodes - k), k)
  {
    hide Quantum, Places, Stair;
    var a := Quantum(width, numNodes);
    if k == 0 {
      StairStart(width);
    } else {
      StairReached(k - 1, width, height, numNodes);
      QuantumBounds(width, numNodes);
      OneRoundsTo(a);
      StairGrows(k - 1, width, height, a, numNodes - (k - 1));
    }
  }

  lemma StairStart(width: int)
    ensures Stair(0, width) == [Seg(0, 0), Seg(width, COORD_MAX)]
  {
  }

  lemma OneRoundsTo(a: int)
    requires 1 <= a
    ensures RoundedUp(1, a) == a
  {
    assert a % a == 0;
  }

  lemma QuantumBounds(width: int, numNodes: nat)
    requires 1 <= numNodes < width
    ensures 2 <= Quantum(width, numNodes) && numNodes - 1 + Quantum(width, numNodes) <= width
  {
    hide Quantum;
    QuantumIsCeiling(width, numNodes);
    var a, d := Quantum(width, numNodes), width - numNodes;
    if a - 1 > d {
      TooManyRows(a - 1, d, numNodes);
    }
  }

  lemma TooManyRows(q: int, d: int, n: int)
    requires q > d >= 1 && n >= 1
    ensures q * n >= n + d
  {
    AtLeastEach(q - d, n);
    AtLeastEach(d, n);
    Distribute(q - d, d, n);
  }

  lemma AtLeastEach(a: int, b: int)
    requires a >= 1 && b >= 1
    ensures a * b >= a && a * b >= b
  {
  }

  lemma Distribute(a: int, b: int, n: int)
    ensures (a + b) * n == a * n + b * n
  {
  }

  /** The documented guarantee, exactly: with the default rounding, some run on a target of
      this width can run out of nodes while a rectangle still fits, if and only if there
      are fewer nodes than columns. */
  lemma EnoughNodesIff(width: int, numNodes: nat)
    requires 1 <= width <= COORD_MAX && 1 <= numNodes
    ensures (exists height, p, steps :: 0 <= height <= COORD_MAX
               && Reaches(Fresh(width, height, numNodes), p, steps) && Stuck(p)) <==> numNodes < width
  {
    hide Quantum, Places, Stair;
    if numNodes < width {
      var a := Quantum(width, numNodes);
      var p := Packing(width, 2, a, Stair(numNodes, width), 0);
      StairReached(numNodes, width, 2, numNodes);
      QuantumBounds(width, numNodes);
      OneRoundsTo(a);
      StairRest(numNodes, width, 0, a);
      assert Fits(p.sky, 2, a, 1, 0);
      assert HasRoom(p.sky, p.width, p.height, RoundedUp(1, p.align), 1);
    } else {
      forall height, p, steps | 0 <= height <= COORD_MAX && Reaches(Fresh(width, height, numNodes), p, steps)
        ensures !Stuck(p)
      {
        ReachedShape(Fresh(width, height, numNodes), p, steps);
        NodeCount(p.sky, width);
      }
    }
  }
}
