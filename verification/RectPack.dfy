/** The rectangle packer of core/src/imgui/imstb_rectpack.h: two lists of nodes linked in
    place, a search for the best position, and the splice that follows a placement. */
module RectPack {
  import opened Common
  import opened Skyline

  /** stbrp_coord is an unsigned short; every store into a node or a rectangle truncates. */
  function Coord(v: int): int { v % 0x1_0000 }

  const COORD_MAX := 0xffff
  const HUGE := 0x4000_0000

  datatype Heuristic = SkylineBL | SkylineBF

  /** The width the search uses: rounded up to a multiple of align. */
  function RoundedUp(w: int, align: int): (a: int)
    requires 1 <= align && 0 <= w
    ensures w <= a < w + align && a % align == 0
    ensures align == 1 ==> a == w
  {
    MultipleLeft(w + align - 1, align);
    var t := w + align - 1;
    t - t % align
  }

  lemma MultipleLeft(t: int, align: int)
    requires 1 <= align
    ensures (t - t % align) % align == 0
  {
    assert t == (t / align) * align + t % align;
    MultipleMod(t / align, align);
  }

  lemma MultipleMod(q: int, n: int)
    requires n > 0
    ensures (q * n) % n == 0
  {
    var r, k := (q * n) % n, (q * n) / n;
    assert q * n == k * n + r;
    assert (q - k) * n == r;
    if q != k {
      NonZeroMultiple(q - k, n);
    }
  }

  lemma NonZeroMultiple(d: int, n: int)
    requires d != 0 && n > 0
    ensures d * n >= n || d * n <= -n
  {
  }

  /** The quantum widths are rounded to: the least with quantum * numNodes >= width. */
  function Quantum(width: int, numNodes: int): int
    requires 1 <= numNodes
  {
    (width + numNodes - 1) / numNodes
  }

  lemma QuantumIsCeiling(width: int, numNodes: int)
    requires 1 <= width && 1 <= numNodes
    ensures var q := Quantum(width, numNodes); q * numNodes >= width > (q - 1) * numNodes
    ensures Quantum(width, numNodes) >= 1
    ensures Quantum(width, numNodes) == 1 <==> width <= numNodes
  {
    var t, q := width + numNodes - 1, Quantum(width, numNodes);
    var p := numNodes * q;
    assert t == p + t % numNodes && q * numNodes == p;
    assert (q - 1) * numNodes == numNodes * (q - 1) == p - numNodes;
    Smaller(numNodes, 0, q);
    if width <= numNodes {
      Smaller(numNodes, q - 1, 1);
    }
  }

  lemma QuantumPositive(width: int, numNodes: int)
    requires 1 <= width && 1 <= numNodes
    ensures Quantum(width, numNodes) >= 1
  {
    QuantumIsCeiling(width, numNodes);
  }

  class Node {
    var x: int
    var y: int
    var next: Node?

    constructor (x: int, y: int, next: Node?)
      ensures this.x == x && this.y == y && this.next == next
    {
      this.x, this.y, this.next := x, y, next;
    }
  }

  ghost predicate Chain(ns: seq<Node>)
    reads ns`next
  {
    forall i {:trigger ns[i].next} :: 0 <= i < |ns| ==> ns[i].next == if i + 1 < |ns| then ns[i + 1] else null
  }

  ghost predicate Distinct(ns: seq<Node>) {
    forall i, j :: 0 <= i < j < |ns| ==> ns[i] != ns[j]
  }

  /** s lists what the nodes hold. */
  ghost predicate Reads(s: seq<Seg>, ns: seq<Node>)
    reads ns`x, ns`y
  {
    |s| == |ns| && forall i :: 0 <= i < |s| ==> s[i] == Seg(ns[i].x, ns[i].y)
  }

  /** stbrp__findresult; `prev` stands for the link to overwrite, null for the list head. */
  datatype FindResult = FindResult(found: bool, prev: Node?, x: int, y: int)

  datatype Terms = Terms(width: int, height: int, align: int, heuristic: Heuristic, numNodes: int)

  class Context {
    var width: int
    var height: int
    var align: int
    var heuristic: Heuristic
    var numNodes: int
    var activeHead: Node
    var freeHead: Node?

    ghost var Active: seq<Node>
    ghost var Free: seq<Node>
    ghost var Sky: seq<Seg>
    ghost var Boxes: seq<Box>

    /** What stays the same while rectangles are packed. */
    function Fixed(): Terms
      reads this`width, this`height, this`align, this`heuristic, this`numNodes
    {
      Terms(width, height, align, heuristic, numNodes)
    }

    /** The two lists, and how they share the pool of nodes. */
    ghost predicate Linked()
      reads this, Active, Free
    {
      && |Active| >= 2 && activeHead == Active[0] && Chain(Active)
      && FreeList(Free)
      && Separate(Active, Free)
      && |Active| + |Free| == numNodes + 2
    }

    /** What the searches need: an active list they can walk. */
    ghost predicate Walkable()
      reads this, Active
    {
      && |Active| >= 2 && activeHead == Active[0] && Chain(Active) && Reads(Sky, Active)
      && 1 <= width <= COORD_MAX && 0 <= height <= COORD_MAX && 1 <= align
      && Wf(Sky, width)
      && Low(Sky, height)
    }

    ghost predicate Valid()
      reads this, Active, Free
    {
      Walkable() && Linked() && 1 <= numNodes && Sound(Sky, Boxes, width, height)
    }

    /** stbrp_init_target. */
    constructor InitTarget(width: int, height: int, nodes: seq<Node>, numNodes: int)
      requires 1 <= width <= COORD_MAX && 0 <= height <= COORD_MAX
      requires 1 <= numNodes == |nodes| && Distinct(nodes)
      modifies nodes
      ensures Valid() && Boxes == [] && Sky == [Seg(0, 0), Seg(width, COORD_MAX)]
      ensures this.width == width && this.height == height && this.numNodes == numNodes
      ensures heuristic == SkylineBL && align == Quantum(width, numNodes)
      ensures Free == nodes && fresh(Active)
    {
      hide Quantum, Height, Rest;
      QuantumPositive(width, numNodes);
      var e1 := new Node(Coord(width), COORD_MAX, null);
      var e0 := new Node(0, 0, e1);
      this.width, this.height, this.numNodes := width, height, numNodes;
      heuristic := SkylineBL;
      activeHead := e0;
      freeHead := nodes[0];
      align := Quantum(width, numNodes);
      Active, Free, Boxes := [e0, e1], nodes, [];
      Sky := [Seg(0, 0), Seg(width, COORD_MAX)];
      new;
      LinkNodes(nodes);
    }

    static method LinkNodes(nodes: seq<Node>)
      requires 1 <= |nodes| && Distinct(nodes)
      modifies nodes
      ensures Chain(nodes)
    {
      var i := 0;
      while i < |nodes| - 1
        invariant 0 <= i < |nodes|
        invariant forall k {:trigger nodes[k].next} :: 0 <= k < i ==> nodes[k].next == nodes[k + 1]
      {
        nodes[i].next := nodes[i + 1];
        i := i + 1;
      }
      nodes[i].next := null;
    }

    /** stbrp_setup_allow_out_of_mem. */
    method SetupAllowOutOfMem(allow: bool)
      requires Valid()
      modifies this`align
      ensures Valid()
      ensures align == if allow then 1 else Quantum(width, numNodes)
    {
      if allow {
        align := 1;
      } else {
        align := Quantum(width, numNodes);
        QuantumPositive(width, numNodes);
      }
    }

    /** stbrp_setup_heuristic. */
    method SetupHeuristic(h: Heuristic)
      requires Valid()
      modifies this`heuristic
      ensures Valid() && heuristic == h
    {
      heuristic := h;
    }

    lemma {:induction false} RestBelowAt(x: int, w: int)
      requires Walkable() && 0 < w && 0 <= x && x + w <= width
      ensures Rest(Sky, x, w) <= height <= COORD_MAX
    {
      RestBelow(Sky, width, height, x, w);
    }

    /** What a walk over the active list sees at node n. */
    lemma AtNode(n: nat)
      requires Walkable()
      ensures |Sky| == |Active| && |Active| >= 2 && activeHead == Active[0] && Wf(Sky, width) && 1 <= align
      ensures n < |Active| ==> SeesNode(n)
    {
    }

    ghost predicate SeesNode(n: nat)
      reads this, Active
      requires n < |Active| == |Sky|
    {
      && Active[n].x == Sky[n].x && Active[n].y == Sky[n].y && 0 <= Sky[n].x <= width
      && Active[n].next == (if n + 1 < |Active| then Active[n + 1] else null)
      && (n + 1 < |Active| ==> Sky[n].x < Sky[n + 1].x <= width)
      && (n + 1 == |Active| ==> Sky[n].x == width)
    }

    /** The minimum y for a window of `w` columns from x0, and the waste under it. */
    method FindMinY(first: Node, ghost i: nat, x0: int, w: int) returns (minY: int, waste: int)
      requires Walkable() && i + 1 < |Active| == |Sky| && first == Active[i]
      requires Sky[i].x <= x0 < Sky[i + 1].x && 0 < w && 0 <= x0 && x0 + w <= width
      ensures minY == Rest(Sky, x0, w)
      ensures waste == Waste(Sky, x0, w)
    {
      hide At, Rest, Height, Gap, Walkable, Wf, ScanFrom;
      var node := first;
      var x1 := x0 + w;
      minY, waste := 0, 0;
      var visited := 0;
      ghost var j := i;
      AtNode(i);
      WholeScan(i, x0, w);
      while node.x < x1
        invariant Walkable() && i <= j < |Active| == |Sky| && node == Active[j]
        invariant SeesNode(j)
        invariant ScanFrom(Sky, j, x0, w, Scan(minY, visited, waste)) == ScanFrom(Sky, i, x0, w, Scan(0, 0, 0))
        decreases |Active| - j
      {
        AtNode(j + 1);
        ScanStep(Sky, j, x0, w, Scan(minY, visited, waste));
        if node.y > minY {
          waste := waste + visited * (node.y - minY);
          minY := node.y;
          if node.x < x0 {
            visited := visited + (node.next.x - x0);
          } else {
            visited := visited + (node.next.x - node.x);
          }
        } else {
          var under := node.next.x - node.x;
          if under + visited > w {
            under := w - visited;
          }
          waste := waste + under * (minY - node.y);
          visited := visited + under;
        }
        node := node.next;
        j := j + 1;
      }
      ScanStep(Sky, j, x0, w, Scan(minY, visited, waste));
    }

    lemma WholeScan(i: nat, x0: int, w: int)
      requires Walkable() && i + 1 < |Sky|
      requires Sky[i].x <= x0 < Sky[i + 1].x && 0 < w && 0 <= x0 && x0 + w <= width
      ensures ScanFrom(Sky, i, x0, w, Scan(0, 0, 0)).minY == Rest(Sky, x0, w)
      ensures ScanFrom(Sky, i, x0, w, Scan(0, 0, 0)).waste == Waste(Sky, x0, w)
    {
      ScanResult(Sky, width, i, x0, w, Scan(0, 0, 0));
      AtUnique(Sky, i, x0);
    }

    /** The first loop of the search: every position whose left edge is on a node.
        Bottom-left takes the lowest, best-fit the lowest that fits, then the least waste. */
    method TryLeftAligned(w: int, h: int)
      returns (found: bool, prev: Node?, bestY: int, bestWaste: int, ghost k: nat, ghost tried: seq<Score>)
      requires Walkable() && 0 < w <= width && 0 < h
      ensures |tried| < |Active| && Sky[|tried|].x + w > width
      ensures Tried(Sky, width, w, tried)
      ensures found ==> k < |tried| && prev == PrevOf(Active, k)
      ensures Choice(heuristic, tried, height, h, found, k, bestY, bestWaste)
    {
      hide At, Rest, ScanFrom, Height, Choice, Walkable, Wf, Tried;
      ghost var s := Sky;
      found, prev, bestY, bestWaste := false, null, HUGE, HUGE;
      k, tried := 0, [];
      NoChoice(heuristic, height, h);
      AtNode(0);
      NoneTried(s, width, w);
      var node, link: Node? := activeHead, null;
      ghost var n := 0;
      while node.x + w <= width
        invariant Walkable() && Sky == s
        invariant |tried| == n < |Active| && node == Active[n] && link == PrevOf(Active, n)
        invariant Tried(s, width, w, tried)
        invariant found ==> k < |tried| && prev == PrevOf(Active, k)
        invariant Choice(heuristic, tried, height, h, found, k, bestY, bestWaste)
        decreases |Active| - n
      {
        AtNode(n);
        AtNode(n + 1);
        var y, waste := FindMinY(node, n, node.x, w);
        RestBelowAt(node.x, w);
        ghost var t := ScoreAt(s, w, s[n].x);
        TriedStep(s, width, w, tried);
        ChoiceStep(heuristic, tried, height, h, found, k, bestY, bestWaste, t);
        tried := tried + [t];
        if heuristic == SkylineBL {
          if y < bestY {
            bestY := y;
            found, prev, k := true, link, n;
          }
        } else if y + h <= height {
          if y < bestY || (y == bestY && waste < bestWaste) {
            bestY, bestWaste := y, waste;
            found, prev, k := true, link, n;
          }
        }
        assert PrevOf(Active, n + 1) == Active[n] == node;
        link := node;
        node := node.next;
        n := n + 1;
      }
      AtNode(n);
    }

    /** Walks on from node n to the node column xpos is on. */
    method SkipTo(xpos: int, link0: Node?, node0: Node, ghost n0: nat) returns (link: Node?, node: Node, ghost n: nat)
      requires Walkable() && n0 + 1 < |Active| == |Sky| && node0 == Active[n0] && link0 == PrevOf(Active, n0)
      requires Sky[n0].x <= xpos < width
      ensures n + 1 < |Active| && node == Active[n] && link == PrevOf(Active, n)
      ensures Sky[n].x <= xpos < Sky[n + 1].x
    {
      hide Walkable, Wf;
      link, node, n := link0, node0, n0;
      AtNode(n);
      AtNode(n + 1);
      while node.next.x <= xpos
        invariant Walkable() && n + 1 < |Active| == |Sky| && node == Active[n] && link == PrevOf(Active, n)
        invariant Sky[n].x <= xpos && SeesNode(n) && SeesNode(n + 1)
        decreases |Active| - n
      {
        link := node;
        node := node.next;
        n := n + 1;
        AtNode(n);
        AtNode(n + 1);
      }
    }

    /** One right-aligned position: take it if it fits and is better than the best so far. */
    method ConsiderRight(b0: Best, ghost i0: nat, ghost tried: seq<Score>, xpos: int, w: int, h: int,
                         link: Node?, node: Node, ghost n: nat)
      returns (b: Best, ghost i: nat)
      requires Walkable() && n + 1 < |Active| == |Sky| && node == Active[n] && link == PrevOf(Active, n)
      requires Sky[n].x <= xpos < Sky[n + 1].x && 0 < w && 0 <= xpos && xpos + w <= width
      requires BestOf(tried, height, h, b0.found, b0.score) && Held(b0, Active, Sky, i0)
      ensures BestOf(tried + [ScoreAt(Sky, w, xpos)], height, h, b.found, b.score) && Held(b, Active, Sky, i)
    {
      hide At, Rest, ScanFrom, Height, BestOf, Walkable;
      b, i := b0, i0;
      var y, waste := FindMinY(node, n, xpos, w);
      RestBelowAt(xpos, w);
      AtNode(n);
      BestOfStep(tried, height, h, b.found, b.score, ScoreAt(Sky, w, xpos));
      if y + h <= height {
        if y <= b.score.y {
          if y < b.score.y || waste < b.score.waste || (waste == b.score.waste && xpos < b.score.x) {
            b, i := Best(true, link, Score(xpos, y, waste)), n;
          }
        }
      }
    }

    /** Best-fit's second loop: every position whose right edge is on a node. */
    method TryRightAligned(w: int, h: int, b0: Best, ghost i0: nat, ghost tried0: seq<Score>)
      returns (b: Best, ghost i: nat, ghost tried: seq<Score>)
      requires Walkable() && 0 < w <= width && 0 < h
      requires Scored(Sky, width, w, tried0)
      requires BestOf(tried0, height, h, b0.found, b0.score) && Held(b0, Active, Sky, i0)
      ensures RightSoFar(Sky, width, w, tried0, tried, |Sky|)
      ensures BestOf(tried, height, h, b.found, b.score) && Held(b, Active, Sky, i)
    {
      hide At, Rest, ScanFrom, Height, BestOf, Walkable, Wf, RightSoFar, Held, ScoreAt, Waste;
      ghost var s := Sky;
      b, i, tried := b0, i0, tried0;
      var tail: Node? := activeHead;
      var node, link: Node? := activeHead, null;
      ghost var t: nat, n: nat := 0, 0;
      AtNode(0);
      while tail.x < w
        invariant Walkable() && Sky == s
        invariant t < |Active| == |s| && tail == Active[t] && SeesNode(t)
        invariant forall j :: 0 <= j < t ==> s[j].x < w
        decreases |Active| - t
      {
        tail := tail.next;
        t := t + 1;
        AtNode(t);
      }
      NoneRight(s, width, w, tried, t);
      while tail != null
        invariant Walkable() && Sky == s && |Active| == |s|
        invariant t <= |Active| && tail == (if t < |Active| then Active[t] else null)
        invariant n + 1 < |Active| && node == Active[n] && link == PrevOf(Active, n)
        invariant t < |Active| ==> s[t].x >= w && s[n].x <= s[t].x - w
        invariant RightSoFar(s, width, w, tried0, tried, t)
        invariant BestOf(tried, height, h, b.found, b.score) && Held(b, Active, s, i)
        decreases |Active| - t
      {
        AtNode(t);
        var xpos := tail.x - w;
        link, node, n := SkipTo(xpos, link, node, n);
        b, i := ConsiderRight(b, i, tried, xpos, w, h, link, node, n);
        RightStep(s, width, w, tried0, tried, t, xpos);
        tried := tried + [ScoreAt(s, w, xpos)];
        tail := tail.next;
        t := t + 1;
        AtNode(t);
      }
    }

    /** stbrp__skyline_find_best_pos, for a rectangle that is not empty. */
    method FindBestPos(w: int, h: int) returns (r: FindResult, ghost i: nat)
      requires Walkable() && 0 < w && 0 < h
      ensures r.found ==> RoundedUp(w, align) <= width && h <= height && Marks(Active, Sky, i, r.prev, r.x)
      ensures r.found ==> 0 <= r.x && r.x + RoundedUp(w, align) <= width && r.y == Rest(Sky, r.x, RoundedUp(w, align))
      ensures heuristic == SkylineBL ==> (r.found <==> RoundedUp(w, align) <= width && h <= height)
      ensures heuristic == SkylineBL && r.found ==> BottomLeft(Sky, width, RoundedUp(w, align), r.x, r.y)
      ensures heuristic == SkylineBF && r.found ==>
                Wf(Sky, width) && BestFit(Sky, width, height, RoundedUp(w, align), h, r.x)
      ensures heuristic == SkylineBF && !r.found ==>
                forall x :: 0 <= x <= width - RoundedUp(w, align) ==> !Fits(Sky, height, RoundedUp(w, align), h, x)
    {
      hide At, Rest, ScanFrom, Height, Walkable, BottomLeft, BestFit, BestOf, Candidate;
      i := 0;
      AtNode(0);
      var aligned := RoundedUp(w, align);
      if aligned > width || h > height {
        ghost var s := Sky;
        forall x | 0 <= x <= width - aligned ensures !Fits(s, height, aligned, h, x) {
          RestNonNegative(s, x, aligned);
        }
        return FindResult(false, null, 0, 0), 0;
      }
      var found, prev, bestY, bestWaste, k, tried := TryLeftAligned(aligned, h);
      LeftMeans(h, aligned, found, prev, k, tried, bestY, bestWaste);
      if heuristic == SkylineBL {
        r := FindResult(true, prev, (if prev == null then activeHead else prev.next).x, bestY);
        i := k;
      } else {
        var bestX := if found then (if prev == null then activeHead else prev.next).x else 0;
        var b;
        ghost var all;
        b, i, all := TryRightAligned(aligned, h, Best(found, prev, Score(bestX, bestY, bestWaste)), k, tried);
        r := FindResult(b.found, b.prev, b.score.x, b.score.y);
        RightMeans(h, aligned, tried, all, b);
      }
    }

    /** What the first loop has found, put in terms of the skyline. */
    lemma {:induction false} LeftMeans(h: int, w: int, found: bool, prev: Node?, k: nat, tried: seq<Score>,
                                       bestY: int, bestWaste: int)
      requires Walkable() && 0 < w <= width && 0 < h <= height
      requires |tried| < |Active| && Sky[|tried|].x + w > width && Tried(Sky, width, w, tried)
      requires found ==> k < |tried| && prev == PrevOf(Active, k)
      requires Choice(heuristic, tried, height, h, found, k, bestY, bestWaste)
      ensures |Sky| == |Active| && Scored(Sky, width, w, tried)
      ensures found ==> k < |Sky| - 1 && Marks(Active, Sky, k, prev, Sky[k].x) && bestY == Rest(Sky, Sky[k].x, w)
      ensures found ==> 0 <= Sky[k].x <= width - w
      ensures found ==> Active[k] == if prev == null then activeHead else prev.next
      ensures found ==> Active[k].x == Sky[k].x && (prev != null ==> prev.next != null)
      ensures heuristic == SkylineBL ==> found && BottomLeft(Sky, width, w, Sky[k].x, bestY)
      ensures heuristic == SkylineBF ==>
                BestOf(tried, height, h, found, Score(if found then Sky[k].x else 0, bestY, bestWaste))
      ensures !found ==> bestY == HUGE
    {
      hide At, Rest, ScanFrom, Height, Waste;
      ghost var s := Sky;
      forall u | u in tried ensures Candidate(s, width, w, u.x) && u == ScoreAt(s, w, u.x) {
        var j :| 0 <= j < |tried| && tried[j] == u;
        assert s[j].x == u.x;
      }
      if heuristic == SkylineBL {
        assert |tried| > 0 by { assert s[0].x + w <= width; }
        FirstBest(s, w, tried, k);
        NodesSuffice(s, width, |tried|, w, k);
      }
      if found && k > 0 {
        assert Active[k - 1].next == Active[k];
      }
    }

    lemma FirstBest(s: seq<Seg>, w: int, tried: seq<Score>, k: nat)
      requires Tried(s, width, w, tried) && LowestFirst(tried, true, k)
      ensures BestOfNodes(s, |tried|, w, k)
    {
      hide At, Rest, ScanFrom, Height, Waste;
      forall j | 0 <= j < |tried|
        ensures Rest(s, s[k].x, w) <= Rest(s, s[j].x, w)
        ensures Rest(s, s[j].x, w) == Rest(s, s[k].x, w) ==> k <= j
      {
        assert tried[j].y == Rest(s, s[j].x, w) && tried[k].y == Rest(s, s[k].x, w);
      }
    }

    /** What both loops together have found for best-fit. */
    lemma {:induction false} RightMeans(h: int, w: int, was: seq<Score>, tried: seq<Score>, b: Best)
      requires Walkable() && 0 < w <= width && 0 < h
      requires |was| < |Sky| && Sky[|was|].x + w > width && Tried(Sky, width, w, was)
      requires RightSoFar(Sky, width, w, was, tried, |Sky|)
      requires BestOf(tried, height, h, b.found, b.score)
      ensures b.found ==> BestFit(Sky, width, height, w, h, b.score.x)
      ensures b.found ==> b.score.y == Rest(Sky, b.score.x, w) && 0 <= b.score.x <= width - w
      ensures !b.found ==> forall x :: 0 <= x <= width - w ==> !Fits(Sky, height, w, h, x)
    {
      hide At, Rest, ScanFrom, Height, Waste;
      TriedAll(Sky, width, height, w, h, was, tried, b.found, b.score);
      if !b.found {
        forall x | 0 <= x <= width - w ensures !Fits(Sky, height, w, h, x) {
          if Fits(Sky, height, w, h, x) {
            BestFitIsLowest(Sky, width, height, w, h, x);
          }
        }
      }
    }

    /** The loop that walks from A[k0] and moves every node the rectangle covers to the
        free list; it stops at the node that stays. */
    method FreeCovered(start: Node, right: int, ghost A: seq<Node>, ghost S: seq<Seg>, ghost k0: nat, ghost F: seq<Node>)
      returns (cur: Node)
      requires k0 < |A| == |S| && start == A[k0] && Reads(S, A) && |F| > 0 && Separate(A, F)
      requires FreeList(F[1..])
      requires Leads(A, k0, F[0], activeHead) && ChainFrom(A, k0)
      modifies this`freeHead, A[k0..]`next
      ensures cur == A[Keep(S, k0, right)] && Reads(S, A)
      ensures Leads(A, k0, F[0], activeHead) && ChainFrom(A, Keep(S, k0, right))
      ensures FreeList(FreeAfter(A, F, k0, Keep(S, k0, right)))
    {
      hide Moved, Distinct, NoneShared, Separate, FreeList, Keep;
      TailSeparate(A, F);
      cur := start;
      ghost var freed := F[1..];
      MovedNone(A, k0, F[1..]);
      ghost var k := k0;
      while cur.next != null && cur.next.x <= right
        invariant k0 <= k < |A| && cur == A[k] && Keep(S, k, right) == Keep(S, k0, right)
        invariant Reads(S, A) && Leads(A, k0, F[0], activeHead) && ChainFrom(A, k)
        invariant freed == Moved(A, k0, k) + F[1..]
        invariant FreeList(freed)
        decreases |A| - k
      {
        var next := cur.next;
        KeepStep(S, k, right);
        MovedFrom(A, k0, k, F[1..]);
        PushFree(cur, freed);
        cur := next;
        freed := [A[k]] + freed;
        k := k + 1;
      }
      KeepStep(S, k, right);
    }

    ghost predicate FreeList(ns: seq<Node>)
      reads this`freeHead, ns`next
    {
      Chain(ns) && freeHead == if |ns| > 0 then ns[0] else null
    }

    lemma HeadOfFree()
      requires FreeList(Free)
      ensures Chain(Free) && freeHead == if |Free| > 0 then Free[0] else null
    {
    }

    method PushFree(n: Node, ghost freed: seq<Node>)
      requires FreeList(freed)
      requires forall j :: 0 <= j < |freed| ==> freed[j] != n
      modifies this`freeHead, n`next
      ensures FreeList([n] + freed)
    {
      n.next := freeHead;
      freeHead := n;
    }

    /** The second half of stbrp__skyline_pack_rectangle: takes a free node for the new
        top edge, links it in where `prev` leads, frees what it covers, stitches the rest. */
    method SpliceIn(prev: Node?, x: int, w: int, top: int, ghost i: nat)
      requires Linked() && Reads(Sky, Active) && freeHead != null && Marks(Active, Sky, i, prev, x)
      requires 0 < w && 0 <= x && x + w <= COORD_MAX && 0 <= top <= COORD_MAX
      modifies this`activeHead, this`freeHead, this`Active, this`Free, this`Sky, Active, Free
      ensures Linked() && Reads(Sky, Active)
      ensures Sky == Splice(old(Sky), i, x, w, top)
      ensures SameNodes(Active, Free, old(Active), old(Free))
    {
      hide SameNodes, Separate, Keep, Chain, ChainFrom, Leads, Reads, Splice, FreeList, ActiveAfter, FreeAfter, SegsAfter;
      ghost var k0 := First(Sky, i, x);
      ghost var k := Keep(Sky, k0, x + w);
      HeadOfFree();
      SpliceIs(Sky, i, x, w, top);
      Rearranged(Active, Free, k0, k);
      var node, cur := LinkIn(prev, x, top, i);
      cur := FreeCovered(cur, x + w, Active, Sky, k0, Free);
      Stitch(node, cur, x, x + w, top, k0, k);
    }

    /** Takes the first free node for the new top edge, fills it, and makes the link that
        led to the spot lead to it. */
    method LinkIn(prev: Node?, x: int, top: int, ghost i: nat) returns (node: Node, cur: Node)
      requires |Active| > 0 && Chain(Active) && Reads(Sky, Active) && activeHead == Active[0]
      requires Marks(Active, Sky, i, prev, x)
      requires |Free| > 0 && Separate(Active, Free) && FreeList(Free)
      requires 0 <= x <= COORD_MAX && 0 <= top <= COORD_MAX
      modifies this`activeHead, this`freeHead, Free[..1]`x, Free[..1]`y, Active`next
      ensures node == Free[0] && cur == Active[First(Sky, i, x)] && node.x == x && node.y == top
      ensures Leads(Active, First(Sky, i, x), node, activeHead) && ChainFrom(Active, First(Sky, i, x))
      ensures Reads(Sky, Active) && FreeList(Free[1..])
    {
      hide Separate;
      ghost var A, f := Active, Free[1..];
      TailSeparate(A, Free);
      TailApart(A, Free);
      node := freeHead;
      node.x := Coord(x);
      node.y := Coord(top);
      freeHead := node.next;
      cur := if prev == null then activeHead else prev.next;
      assert cur == A[i];
      if cur.x < x {
        var next := cur.next;
        cur.next := node;
        cur := next;
      } else if prev == null {
        activeHead := node;
      } else {
        prev.next := node;
      }
    }

    /** Links the new node to what stays, which now starts where the rectangle ends. */
    method Stitch(node: Node, cur: Node, x: int, right: int, top: int, ghost k0: nat, ghost k: nat)
      requires k0 <= k < |Active| == |Sky| && cur == Active[k] && Reads(Sky, Active)
      requires |Free| > 0 && node == Free[0] && Separate(Active, Free)
      requires Leads(Active, k0, node, activeHead) && ChainFrom(Active, k)
      requires node.x == x && node.y == top && 0 <= right <= COORD_MAX
      requires FreeList(FreeAfter(Active, Free, k0, k))
      modifies node`next, cur`x, this`Active, this`Free, this`Sky
      ensures Active == ActiveAfter(old(Active), old(Free), k0, k) && |Active| > 0
      ensures Free == FreeAfter(old(Active), old(Free), k0, k)
      ensures Sky == SegsAfter(old(Sky), k0, k, x, right, top)
      ensures Chain(Active) && activeHead == Active[0] && FreeList(Free) && Reads(Sky, Active)
    {
      hide Moved, Separate, FreeList, FreeAfter, Chain;
      ghost var A, S := Active, Sky;
      ghost var r, t := ActiveAfter(A, Free, k0, k), SegsAfter(S, k0, k, x, right, top);
      TailSeparate(A, Free);
      StitchApart(A, Free, k0, k);
      Active, Free, Sky := r, FreeAfter(A, Free, k0, k), t;
      node.next := cur;
      if cur.x < right {
        cur.x := Coord(right);
      }
      forall j | 0 <= j < |r| ensures t[j] == Seg(r[j].x, r[j].y) {
        if j > k0 {
          assert r[j] == A[j - k0 - 1 + k];
        }
      }
      JoinChain(A, k0, k, node, activeHead, r);
    }

    /** stbrp__skyline_pack_rectangle, for a rectangle that is not empty. */
    method PackRectangle(w: int, h: int) returns (r: FindResult)
      requires Valid() && 0 < w <= COORD_MAX && 0 < h <= COORD_MAX
      modifies this`activeHead, this`freeHead, this`Active, this`Free, this`Sky, this`Boxes, Active, Free
      ensures Valid() && SameNodes(Active, Free, old(Active), old(Free))
      ensures r.found <==> old(|Free|) > 0 && HasRoom(old(Sky), width, height, RoundedUp(w, align), h)
      ensures r.found ==> PlacedAt(old(Sky), width, height, heuristic, RoundedUp(w, align), h, r.x, r.y)
      ensures r.found ==> Sky == Splice(old(Sky), At(old(Sky), r.x), r.x, w, r.y + h)
      ensures r.found ==> Boxes == old(Boxes) + [Box(r.x, r.y, w, h)]
      ensures !r.found ==> Sky == old(Sky) && Boxes == old(Boxes) && Active == old(Active) && Free == old(Free)
    {
      hide Chain, Reads, Separate, FreeList, Wf, Low, Sound, Splice, Rest, Height, At, SameNodes, HasRoom, PlacedAt;
      hide BottomLeft, BestFit, Fits, Marks;
      SameSelf(Active, Free);
      ghost var i;
      r, i := FindBestPos(w, h);
      FoundMeans(r, i, w, h);
      HeadOfFree();
      if !r.found || r.y + h > height || freeHead == null {
        r := r.(found := false);
        return;
      }
      Boxes := Boxes + [Box(r.x, r.y, w, h)];
      SpliceIn(r.prev, r.x, w, r.y + h, i);
    }

    lemma FreeCount()
      requires Valid()
      ensures 1 <= align && width <= COORD_MAX && height <= COORD_MAX && |Free| == numNodes + 2 - |Sky|
    {
    }

    /** With at least as many nodes as columns the free list never runs empty, so a
        placement fails only when there is no room. */
    lemma FreeNodeLeft()
      requires Valid() && numNodes >= width
      ensures |Free| > 0
    {
      NodeCount(Sky, width);
    }

    /** What the search's answer means for the placement that follows it. */
    lemma FoundMeans(r: FindResult, i: nat, w: int, h: int)
      requires Valid() && 0 < w && 0 < h
      requires r.found ==> RoundedUp(w, align) <= width && h <= height && Marks(Active, Sky, i, r.prev, r.x)
      requires r.found ==> 0 <= r.x && r.x + RoundedUp(w, align) <= width && r.y == Rest(Sky, r.x, RoundedUp(w, align))
      requires heuristic == SkylineBL ==> (r.found <==> RoundedUp(w, align) <= width && h <= height)
      requires heuristic == SkylineBL && r.found ==> BottomLeft(Sky, width, RoundedUp(w, align), r.x, r.y)
      requires heuristic == SkylineBF && r.found ==> BestFit(Sky, width, height, RoundedUp(w, align), h, r.x)
      requires heuristic == SkylineBF && !r.found ==>
                forall x :: 0 <= x <= width - RoundedUp(w, align) ==> !Fits(Sky, height, RoundedUp(w, align), h, x)
      ensures Wf(Sky, width)
      ensures HasRoom(Sky, width, height, RoundedUp(w, align), h) <==> r.found && r.y + h <= height
      ensures r.found && r.y + h <= height ==>
                && PlacedAt(Sky, width, height, heuristic, RoundedUp(w, align), h, r.x, r.y)
                && i == At(Sky, r.x) && r.y >= 0
                && Wf(Splice(Sky, i, r.x, w, r.y + h), width) && Low(Splice(Sky, i, r.x, w, r.y + h), height)
                && Sound(Splice(Sky, i, r.x, w, r.y + h), Boxes + [Box(r.x, r.y, w, h)], width, height)
    {
      hide Rest, Height, Waste, Splice, Sound, BottomLeft, BestFit, Fits;
      var a := RoundedUp(w, align);
      RoomFound(Sky, width, height, heuristic, a, h, r.found, r.x, r.y);
      if r.found && r.y + h <= height {
        RestNonNegative(Sky, r.x, a);
        AtUnique(Sky, i, r.x);
        SpliceKeepsShape(Sky, width, i, r.x, w, r.y + h);
        SpliceKeepsLow(Sky, height, i, r.x, w, r.y + h);
        PlaceKeepsSound(Sky, Boxes, width, height, i, r.x, w, a, h);
      }
    }
  }

  /** Some position leaves the rectangle inside the target, over its aligned width. */
  ghost predicate HasRoom(s: seq<Seg>, width: int, height: int, aligned: int, h: int) {
    exists x :: 0 <= x <= width - aligned && Fits(s, height, aligned, h, x)
  }

  /** (x, y) is inside the target, resting, and the one the heuristic must choose. */
  ghost predicate PlacedAt(s: seq<Seg>, width: int, height: int, heuristic: Heuristic, aligned: int, h: int,
                           x: int, y: int) {
    && Wf(s, width) && 0 <= x <= width - aligned && y == Rest(s, x, aligned) && y + h <= height
    && (heuristic == SkylineBL ==> BottomLeft(s, width, aligned, x, y))
    && (heuristic == SkylineBF ==> BestFit(s, width, height, aligned, h, x))
  }

  lemma {:induction false} RoomFound(s: seq<Seg>, width: int, height: int, heuristic: Heuristic, a: int, h: int,
                                     found: bool, x: int, y: int)
    requires Wf(s, width) && 0 < a && 0 < h
    requires found ==> a <= width && h <= height && 0 <= x <= width - a && y == Rest(s, x, a)
    requires heuristic == SkylineBL ==> (found <==> a <= width && h <= height)
    requires heuristic == SkylineBL && found ==> BottomLeft(s, width, a, x, y)
    requires heuristic == SkylineBF && found ==> BestFit(s, width, height, a, h, x)
    requires heuristic == SkylineBF && !found ==> forall x :: 0 <= x <= width - a ==> !Fits(s, height, a, h, x)
    ensures HasRoom(s, width, height, a, h) <==> found && y + h <= height
  {
    hide Rest, Height, Waste;
    if HasRoom(s, width, height, a, h) {
      var x' :| 0 <= x' <= width - a && Fits(s, height, a, h, x');
      RestNonNegative(s, x', a);
    }
    if found && y + h <= height {
      assert Fits(s, height, a, h, x);
    }
  }

  /** The active list once the nodes k0..k have given way to the first free node. */
  ghost function ActiveAfter(a: seq<Node>, f: seq<Node>, k0: nat, k: nat): seq<Node>
    requires |f| > 0 && k0 <= k <= |a|
  {
    a[..k0] + [f[0]] + a[k..]
  }

  /** The free list after the same step. */
  ghost function FreeAfter(a: seq<Node>, f: seq<Node>, k0: nat, k: nat): seq<Node>
    requires |f| > 0 && k0 <= k <= |a|
  {
    Moved(a, k0, k) + f[1..]
  }

  /** What the new active list holds. */
  ghost function SegsAfter(s: seq<Seg>, k0: nat, k: nat, x: int, right: int, top: int): seq<Seg>
    requires k0 <= k < |s|
  {
    s[..k0] + [Seg(x, top), Seg(Max(s[k].x, right), s[k].y)] + s[k + 1..]
  }

  lemma KeepStep(s: seq<Seg>, k: nat, right: int)
    requires k < |s|
    ensures Keep(s, k, right) == if k + 1 < |s| && s[k + 1].x <= right then Keep(s, k + 1, right) else k
  {
  }

  /** Neither list has a node twice, and they share none. */
  ghost predicate Separate(a: seq<Node>, f: seq<Node>) {
    Distinct(a) && Distinct(f) && NoneShared(a, f)
  }

  /** Between them, two pairs of lists hold the same nodes, equally often. */
  ghost predicate SameNodes(a: seq<Node>, f: seq<Node>, a': seq<Node>, f': seq<Node>) {
    multiset(a) + multiset(f) == multiset(a') + multiset(f')
  }

  lemma SameSelf(a: seq<Node>, f: seq<Node>)
    ensures SameNodes(a, f, a, f)
  {
  }

  lemma TailSeparate(a: seq<Node>, f: seq<Node>)
    requires |f| > 0 && Separate(a, f)
    ensures Distinct(a) && NoneShared(a, f[1..]) && NotIn(a, f[0]) && NotIn(f[1..], f[0])
  {
  }

  lemma StitchApart(a: seq<Node>, f: seq<Node>, k0: nat, k: nat)
    requires |f| > 0 && Separate(a, f) && k0 <= k <= |a|
    ensures NotIn(FreeAfter(a, f, k0, k), f[0])
  {
  }

  ghost predicate NoneShared(a: seq<Node>, b: seq<Node>) {
    forall i, j :: 0 <= i < |a| && 0 <= j < |b| ==> a[i] != b[j]
  }

  /** Following the links from `head` passes the first k nodes and then reaches `to`. */
  ghost predicate Leads(ns: seq<Node>, k: nat, to: Node, head: Node)
    reads ns`next
    requires k <= |ns|
  {
    && head == (if k > 0 then ns[0] else to)
    && forall j {:trigger ns[j].next} :: 0 <= j < k ==> ns[j].next == if j + 1 < k then ns[j + 1] else to
  }

  lemma JoinChain(ns: seq<Node>, k0: nat, k: nat, node: Node, head: Node, r: seq<Node>)
    requires k0 <= k < |ns| && Leads(ns, k0, node, head) && ChainFrom(ns, k) && node.next == ns[k]
    requires r == ns[..k0] + [node] + ns[k..]
    ensures Chain(r) && head == r[0]
  {
    forall j {:trigger r[j].next} | 0 <= j < |r| ensures r[j].next == if j + 1 < |r| then r[j + 1] else null {
      if j > k0 {
        assert r[j] == ns[j - k0 - 1 + k];
      }
    }
  }

  ghost predicate NotIn(ns: seq<Node>, n: Node) {
    forall i :: 0 <= i < |ns| ==> ns[i] != n
  }

  lemma TailApart(a: seq<Node>, f: seq<Node>)
    requires |f| > 0 && Chain(f)
    ensures Chain(f[1..]) && f[0].next == if |f| > 1 then f[1] else null
  {
    var t := f[1..];
    forall j {:trigger t[j].next} | 0 <= j < |t| ensures t[j].next == if j + 1 < |t| then t[j + 1] else null {
      assert t[j] == f[j + 1];
    }
  }

  /** The two new lists hold exactly the nodes of the two old ones, each once. */
  lemma Rearranged(a: seq<Node>, f: seq<Node>, k0: nat, k: nat)
    requires Separate(a, f) && |f| > 0 && k0 <= k <= |a|
    ensures var r, q := ActiveAfter(a, f, k0, k), FreeAfter(a, f, k0, k);
            && Separate(r, q) && |r| + |q| == |a| + |f| && (k < |a| ==> |r| >= 2)
            && SameNodes(r, q, a, f)
  {
    hide Moved;
    var m := Moved(a, k0, k);
    MovedIs(a, k0, k);
    MovedSame(a, k0, k);
    assert a == a[..k0] + a[k0..k] + a[k..];
    assert f == [f[0]] + f[1..];
    DistinctJoin(a[..k0], [f[0]]);
    DistinctJoin(a[..k0] + [f[0]], a[k..]);
    DistinctJoin(m, f[1..]);
    RearrangedApart(a, f, k0, k, m);
  }

  lemma RearrangedApart(a: seq<Node>, f: seq<Node>, k0: nat, k: nat, m: seq<Node>)
    requires Distinct(a) && Distinct(f) && NoneShared(a, f) && |f| > 0 && k0 <= k <= |a|
    requires |m| == k - k0 && forall j :: 0 <= j < |m| ==> m[j] == a[k - 1 - j]
    ensures NoneShared(a[..k0] + [f[0]] + a[k..], m + f[1..])
  {
    var r, q := a[..k0] + [f[0]] + a[k..], m + f[1..];
    forall i, j | 0 <= i < |r| && 0 <= j < |q| ensures r[i] != q[j] {
      assert i > k0 ==> r[i] == a[i - k0 - 1 + k];
      assert j >= |m| ==> q[j] == f[j - |m| + 1];
    }
  }

  lemma DistinctJoin(a: seq<Node>, b: seq<Node>)
    requires Distinct(a) && Distinct(b) && NoneShared(a, b)
    ensures Distinct(a + b)
  {
  }

  lemma {:induction false} MovedIs(ns: seq<Node>, lo: nat, hi: nat)
    requires lo <= hi <= |ns| && Distinct(ns)
    ensures var m := Moved(ns, lo, hi); Distinct(m) && forall j :: 0 <= j < |m| ==> m[j] == ns[hi - 1 - j]
  {
  }

  lemma {:induction false} MovedSame(ns: seq<Node>, lo: nat, hi: nat)
    requires lo <= hi <= |ns|
    ensures multiset(Moved(ns, lo, hi)) == multiset(ns[lo..hi])
    decreases hi
  {
    hide Moved;
    if lo == hi {
      assert Moved(ns, lo, hi) == [] == ns[lo..hi];
    } else {
      MovedSame(ns, lo, hi - 1);
      MovedFirst(ns, lo, hi);
      assert ns[lo..hi] == ns[lo..hi - 1] + [ns[hi - 1]];
      FrontOrBack(Moved(ns, lo, hi - 1), ns[lo..hi - 1], ns[hi - 1]);
    }
  }

  lemma MovedFirst(ns: seq<Node>, lo: nat, hi: nat)
    requires lo < hi <= |ns|
    ensures Moved(ns, lo, hi) == [ns[hi - 1]] + Moved(ns, lo, hi - 1)
  {
  }

  lemma FrontOrBack(a: seq<Node>, b: seq<Node>, n: Node)
    requires multiset(a) == multiset(b)
    ensures multiset([n] + a) == multiset(b + [n])
  {
  }

  /** The links of a list from node k on. */
  ghost predicate ChainFrom(ns: seq<Node>, k: nat)
    reads ns`next
  {
    forall i {:trigger ns[i].next} :: k <= i < |ns| ==> ns[i].next == if i + 1 < |ns| then ns[i + 1] else null
  }

  /** ns[lo..hi], last first: the order in which a run of nodes lands on the free list. */
  ghost function Moved(ns: seq<Node>, lo: nat, hi: nat): (r: seq<Node>)
    requires lo <= hi <= |ns|
    ensures |r| == hi - lo
    ensures forall j :: 0 <= j < |r| ==> r[j] == ns[hi - 1 - j]
    decreases hi
  {
    if lo == hi then [] else [ns[hi - 1]] + Moved(ns, lo, hi - 1)
  }

  lemma {:induction false} MovedNone(ns: seq<Node>, lo: nat, f: seq<Node>)
    requires lo <= |ns|
    ensures Moved(ns, lo, lo) + f == f
  {
  }

  lemma MovedFrom(ns: seq<Node>, lo: nat, hi: nat, f: seq<Node>)
    requires lo <= hi < |ns| && Distinct(ns) && NoneShared(ns, f)
    ensures [ns[hi]] + (Moved(ns, lo, hi) + f) == Moved(ns, lo, hi + 1) + f
    ensures forall j :: 0 <= j < hi - lo + |f| ==> (Moved(ns, lo, hi) + f)[j] != ns[hi]
    ensures forall j :: 0 <= j < |ns| && j != hi ==> ns[j] != ns[hi]
  {
    assert Moved(ns, lo, hi + 1) == [ns[hi]] + Moved(ns, lo, hi);
  }

  /** The best position so far: the link to it, and its score. */
  datatype Best = Best(found: bool, prev: Node?, score: Score)

  /** While there is one, it is on node i and its link leads there. */
  ghost predicate Held(b: Best, ns: seq<Node>, s: seq<Seg>, i: nat) {
    if b.found then Marks(ns, s, i, b.prev, b.score.x) else b.score.y == HUGE
  }

  /** Link `prev` leads to node i, and column x is on it. */
  ghost predicate Marks(ns: seq<Node>, s: seq<Seg>, i: nat, prev: Node?, x: int) {
    |s| == |ns| && i + 1 < |s| && prev == PrevOf(ns, i) && s[i].x <= x < s[i + 1].x
  }

  lemma {:induction false} SpliceIs(s: seq<Seg>, i: nat, x: int, w: int, top: int)
    requires i + 1 < |s|
    ensures var k0 := First(s, i, x); var k := Keep(s, k0, x + w);
            Splice(s, i, x, w, top) == SegsAfter(s, k0, k, x, x + w, top)
  {
  }

  /** Every entry is the score of a candidate position. */
  ghost predicate Scored(s: seq<Seg>, width: int, w: int, tried: seq<Score>) {
    && Wf(s, width)
    && forall u :: u in tried ==> Candidate(s, width, w, u.x) && u == ScoreAt(s, w, u.x)
  }

  /** `tried` extends `was` by every right-aligned position ending on the first n nodes. */
  ghost predicate RightSoFar(s: seq<Seg>, width: int, w: int, was: seq<Score>, tried: seq<Score>, n: nat) {
    && Scored(s, width, w, tried)
    && |was| <= |tried| && tried[..|was|] == was
    && n <= |s| && forall j :: 0 <= j < n && s[j].x >= w ==> ScoreAt(s, w, s[j].x - w) in tried
  }

  lemma NoneRight(s: seq<Seg>, width: int, w: int, tried: seq<Score>, n: nat)
    requires Scored(s, width, w, tried) && n < |s|
    requires forall j :: 0 <= j < n ==> s[j].x < w
    ensures RightSoFar(s, width, w, tried, tried, n)
  {
  }

  lemma RightStep(s: seq<Seg>, width: int, w: int, was: seq<Score>, tried: seq<Score>, n: nat, x: int)
    requires RightSoFar(s, width, w, was, tried, n) && Wf(s, width)
    requires n < |s| && 0 <= x <= width - w && x == s[n].x - w
    ensures RightSoFar(s, width, w, was, tried + [ScoreAt(s, w, x)], n + 1)
  {
    hide At, Rest, ScanFrom, Waste;
    assert Candidate(s, width, w, x);
  }

  /** With every left- and right-aligned position tried, best-fit's choice is the best of
      all candidates, and it has none only when no candidate fits. */
  lemma TriedAll(s: seq<Seg>, width: int, height: int, w: int, h: int,
                 was: seq<Score>, tried: seq<Score>, found: bool, best: Score)
    requires RightSoFar(s, width, w, was, tried, |s|) && Tried(s, width, w, was)
    requires |was| < |s| && s[|was|].x + w > width
    requires BestOf(tried, height, h, found, best)
    ensures found ==> BestFit(s, width, height, w, h, best.x)
    ensures !found ==> forall x :: Candidate(s, width, w, x) ==> !Fits(s, height, w, h, x)
  {
    hide At, Rest, ScanFrom, Waste;
    forall x | Candidate(s, width, w, x)
      ensures ScoreAt(s, w, x) in tried
      ensures Fits(s, height, w, h, x) ==> found && best.NoWorse(ScoreAt(s, w, x))
    {
      CandidateTried(s, width, w, was, tried, x);
    }
  }

  lemma CandidateTried(s: seq<Seg>, width: int, w: int, was: seq<Score>, tried: seq<Score>, x: int)
    requires RightSoFar(s, width, w, was, tried, |s|) && Tried(s, width, w, was)
    requires |was| < |s| && s[|was|].x + w > width && Candidate(s, width, w, x)
    ensures ScoreAt(s, w, x) in tried
  {
    hide At, Rest, ScanFrom, Waste, Candidate, Scored;
    CandidateSides(s, width, w, x);
    if j :| 0 <= j < |s| && s[j].x == x {
      IndexOrder(s, j, |was|);
      assert tried[j] == was[j];
    }
  }

  lemma IndexOrder(s: seq<Seg>, j: nat, i: nat)
    requires Increasing(s) && j < |s| && i < |s| && s[j].x < s[i].x
    ensures j < i
  {
  }

  lemma CandidateSides(s: seq<Seg>, width: int, w: int, x: int)
    requires Candidate(s, width, w, x)
    ensures 0 <= x <= width - w
    ensures (exists i :: 0 <= i < |s| && s[i].x == x) || (exists j :: 0 <= j < |s| && s[j].x == x + w)
  {
  }

  /** The first |tried| nodes each leave room for the window, and these are their scores. */
  ghost predicate Tried(s: seq<Seg>, width: int, w: int, tried: seq<Score>) {
    && Increasing(s) && |tried| <= |s|
    && forall j :: 0 <= j < |tried| ==> s[j].x + w <= width && tried[j] == ScoreAt(s, w, s[j].x)
  }

  lemma NoneTried(s: seq<Seg>, width: int, w: int)
    requires Wf(s, width)
    ensures Tried(s, width, w, [])
  {
  }

  lemma TriedStep(s: seq<Seg>, width: int, w: int, tried: seq<Score>)
    requires Tried(s, width, w, tried) && |tried| < |s| && s[|tried|].x + w <= width
    ensures Tried(s, width, w, tried + [ScoreAt(s, w, s[|tried|].x)])
    ensures forall u :: u in tried ==> u.x <= s[|tried|].x
  {
    hide Rest, Waste;
  }

  /** The link that leads to node i of a list, null standing for the list head. */
  ghost function PrevOf(ns: seq<Node>, i: nat): Node?
    requires i <= |ns|
  {
    if i == 0 then null else ns[i - 1]
  }

  /** Bottom-left's choice among the positions tried: the first of the lowest. */
  ghost predicate LowestFirst(tried: seq<Score>, found: bool, k: nat) {
    && (found <==> |tried| > 0)
    && (found ==> k < |tried| && forall j :: 0 <= j < |tried| ==>
          tried[k].y <= tried[j].y && (tried[j].y == tried[k].y ==> k <= j))
  }

  /** What the search holds after trying the positions in `tried`: position k, whose y
      and waste it compares the next one with, is the one its heuristic prefers. */
  ghost predicate Choice(heuristic: Heuristic, tried: seq<Score>, height: int, h: int,
                         found: bool, k: nat, bestY: int, bestWaste: int)
  {
    && (found ==> k < |tried| && bestY == tried[k].y)
    && (!found ==> bestY == HUGE)
    && (heuristic == SkylineBL ==> LowestFirst(tried, found, k))
    && (heuristic == SkylineBF ==>
          && (found ==> bestWaste == tried[k].waste)
          && BestOf(tried, height, h, found, if found then tried[k] else Score(0, 0, 0)))
  }

  lemma NoChoice(heuristic: Heuristic, height: int, h: int)
    ensures Choice(heuristic, [], height, h, false, 0, HUGE, HUGE)
  {
  }

  /** Comparing with the best so far, strictly, keeps the choice right, because the
      positions come in order of their columns. */
  lemma ChoiceStep(heuristic: Heuristic, tried: seq<Score>, height: int, h: int,
                   found: bool, k: nat, bestY: int, bestWaste: int, t: Score)
    requires Choice(heuristic, tried, height, h, found, k, bestY, bestWaste)
    requires t.y <= height < HUGE && forall u :: u in tried ==> u.x <= t.x
    ensures var take := if heuristic == SkylineBL then t.y < bestY
                        else t.y + h <= height && (t.y < bestY || (t.y == bestY && t.waste < bestWaste));
            Choice(heuristic, tried + [t], height, h, found || take, if take then |tried| else k,
                   if take then t.y else bestY, if take && heuristic == SkylineBF then t.waste else bestWaste)
  {
    if heuristic == SkylineBF {
      BestOfStep(tried, height, h, found, if found then tried[k] else Score(0, 0, 0), t);
    }
  }

  lemma {:induction false} RestBelow(s: seq<Seg>, width: int, height: int, x: int, w: int)
    requires Wf(s, width) && 0 < w && 0 <= x && x + w <= width && height >= 0
    requires Low(s, height)
    ensures Rest(s, x, w) <= height
  {
    if Rest(s, x, w) > 0 {
      RestAttained(s, x, w);
      var c :| x <= c < x + w && Height(s, c) == Rest(s, x, w);
      var i := At(s, c);
      assert i < |s| - 1;
    }
  }
}
