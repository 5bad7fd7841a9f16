/** stbrp_pack_rects: sorts the rectangles by height, packs them one by one, puts them back
    in their original order and says which were packed. */
module PackRects {
  import opened Sorting
  import opened Common
  import opened Skyline
  import opened RectPack

  /** stbrp_rect. Until the last loop wasPacked holds the original index. */
  datatype Rect = Rect(id: int, w: int, h: int, x: int, y: int, wasPacked: int) {
    predicate Input() { 0 <= w <= COORD_MAX && 0 <= h <= COORD_MAX }

    predicate Empty() { w == 0 || h == 0 }

    predicate Unplaced() { x == COORD_MAX && y == COORD_MAX }

    predicate Placed() { !Empty() && !Unplaced() }

    function AsBox(): Box { Box(x, y, w, h) }

    predicate SameInput(o: Rect) { id == o.id && w == o.w && h == o.h }
  }

  // ---------- the two orders ----------

  /** rect_height_compare: taller first, then wider. */
  predicate HeightOrder(p: Rect, q: Rect) {
    p.h > q.h || (p.h == q.h && p.w >= q.w)
  }

  /** rect_original_order. */
  predicate IndexOrder(p: Rect, q: Rect) {
    p.wasPacked <= q.wasPacked
  }

  /** Stands in for the C library's qsort, of which only what it ensures is used. */
  method SortInPlace(rects: array<Rect>, le: (Rect, Rect) -> bool)
    requires TotalOrder(le)
    modifies rects
    ensures multiset(rects[..]) == old(multiset(rects[..])) && Ordered(rects[..], le)
  {
    var s := Sort(rects[..], le);
    SortPermutes(rects[..], le);
    SortOrders(rects[..], le);
    forall i | 0 <= i < rects.Length {
      rects[i] := s[i];
    }
    assert rects[..] == s;
  }

  // ---------- one rectangle ----------

  /** The skyline over every column is at least what it was. */
  ghost predicate Risen(s: seq<Seg>, s': seq<Seg>, width: int) {
    forall c :: 0 <= c < width ==> Height(s', c) >= Height(s, c)
  }

  lemma {:induction false} RestRises(s: seq<Seg>, s': seq<Seg>, width: int, x: int, w: int)
    requires Risen(s, s', width) && 0 <= x && x + w <= width
    ensures Rest(s', x, w) >= Rest(s, x, w)
    decreases w
  {
    if w > 0 {
      RestRises(s, s', width, x, w - 1);
    }
  }

  /** Placing never makes room. */
  lemma RoomShrinks(s: seq<Seg>, s': seq<Seg>, width: int, height: int, a: int, h: int)
    requires Risen(s, s', width) && HasRoom(s', width, height, a, h)
    ensures HasRoom(s, width, height, a, h)
  {
    hide Rest, Height;
    var x :| 0 <= x <= width - a && Fits(s', height, a, h, x);
    RestRises(s, s', width, x, a);
    assert Fits(s, height, a, h, x);
  }

  lemma {:induction false} PlacingRaises(s: seq<Seg>, width: int, height: int, heuristic: Heuristic, w: int,
                                         a: int, h: int, x: int, y: int)
    requires PlacedAt(s, width, height, heuristic, a, h, x, y) && 0 < w <= a && 0 < h
    ensures At(s, x) + 1 < |s|
    ensures Risen(s, Splice(s, At(s, x), x, w, y + h), width)
  {
    hide Splice, BottomLeft, BestFit, Rest, Height;
    var i := At(s, x);
    forall c | 0 <= c < width ensures Height(Splice(s, i, x, w, y + h), c) >= Height(s, c) {
      SpliceNeverFalls(s, width, i, x, w, a, h, c);
    }
  }

  /** No rectangle of this size could still be placed, on a skyline s. */
  ghost predicate Refused(r: Rect, s: seq<Seg>, width: int, height: int, align: int) {
    1 <= align && 0 <= r.w && !HasRoom(s, width, height, RoundedUp(r.w, align), r.h)
  }

  predicate Inputs(rs: seq<Rect>) {
    forall i :: 0 <= i < |rs| ==> rs[i].Input()
  }

  /** One turn of the packing loop, from skyline s to s': an empty rectangle goes to the origin;
      any other is placed where the heuristic must put it, when there is a node and room, and
      otherwise is marked. */
  ghost predicate Turn(t: Terms, s: seq<Seg>, r: Rect, s': seq<Seg>)
    requires 1 <= t.align && r.Input()
  {
    if r.Empty() then r.x == 0 && r.y == 0 && s' == s
    else
      var a := RoundedUp(r.w, t.align);
      if |s| < t.numNodes + 2 && HasRoom(s, t.width, t.height, a, r.h) then
        && r.Placed() && PlacedAt(s, t.width, t.height, t.heuristic, a, r.h, r.x, r.y)
        && At(s, r.x) + 1 < |s| && s' == Splice(s, At(s, r.x), r.x, r.w, r.y + r.h)
      else r.Unplaced() && s' == s
  }

  /** The turns of all rectangles, first to last. */
  ghost predicate Turns(t: Terms, s: seq<Seg>, rs: seq<Rect>, s': seq<Seg>)
    requires 1 <= t.align && Inputs(rs)
    decreases |rs|
  {
    if |rs| == 0 then s' == s
    else
      var first, last := rs[..|rs| - 1], rs[|rs| - 1];
      exists mid :: Turns(t, s, first, mid) && Turn(t, mid, last, s')
  }

  /** The boxes of the rectangles that were placed, in their order. */
  function Placements(rs: seq<Rect>): seq<Box> {
    if |rs| == 0 then []
    else
      var r := rs[|rs| - 1];
      Placements(rs[..|rs| - 1]) + if r.Placed() then [r.AsBox()] else []
  }

  /** Nothing but positions has changed. */
  predicate OnlyMoved(was: seq<Rect>, now: seq<Rect>) {
    |was| == |now| && forall j :: 0 <= j < |was| ==> now[j] == was[j].(x := now[j].x, y := now[j].y)
  }

  /** Taller rectangles have their turn before lower ones, wider before narrower. */
  predicate TallestFirst(rs: seq<Rect>) {
    forall i, j :: 0 <= i < j < |rs| ==> rs[i].h > rs[j].h || (rs[i].h == rs[j].h && rs[i].w >= rs[j].w)
  }

  lemma NoTurns(t: Terms, s: seq<Seg>, rs: seq<Rect>)
    requires 1 <= t.align && |rs| == 0
    ensures Inputs(rs) && Turns(t, s, rs, s) && Placements(rs) == []
  {
  }

  lemma OneMoreTurn(t: Terms, s: seq<Seg>, rs: seq<Rect>, mid: seq<Seg>, r: Rect, s': seq<Seg>)
    requires 1 <= t.align && r.Input() && Inputs(rs) && Turns(t, s, rs, mid) && Turn(t, mid, r, s')
    ensures Inputs(rs + [r]) && Turns(t, s, rs + [r], s')
    ensures Placements(rs + [r]) == Placements(rs) + if r.Placed() then [r.AsBox()] else []
  {
    hide Turn;
    assert (rs + [r])[..|rs|] == rs;
  }

  /** The nodes of a packer all come from two given lists. */
  ghost predicate NodesFrom(c: Context, a: seq<Node>, f: seq<Node>)
    reads c
  {
    SameNodes(c.Active, c.Free, a, f)
  }

  lemma NodesInside(c: Context, a: seq<Node>, f: seq<Node>)
    requires NodesFrom(c, a, f)
    ensures forall i :: 0 <= i < |c.Active| ==> c.Active[i] in a || c.Active[i] in f
    ensures forall i :: 0 <= i < |c.Free| ==> c.Free[i] in a || c.Free[i] in f
  {
    forall i | 0 <= i < |c.Active| ensures c.Active[i] in a || c.Active[i] in f {
      assert c.Active[i] in multiset(c.Active) + multiset(c.Free);
    }
    forall i | 0 <= i < |c.Free| ensures c.Free[i] in a || c.Free[i] in f {
      assert c.Free[i] in multiset(c.Active) + multiset(c.Free);
    }
  }

  /** One turn of the packing loop. */
  method PackOne(c: Context, r: Rect) returns (p: Rect)
    requires c.Valid() && r.Input()
    modifies c`activeHead, c`freeHead, c`Active, c`Free, c`Sky, c`Boxes, c.Active, c.Free
    ensures c.Valid() && SameNodes(c.Active, c.Free, old(c.Active), old(c.Free))
    ensures p.SameInput(r) && p.wasPacked == r.wasPacked
    ensures 1 <= c.align && Turn(c.Fixed(), old(c.Sky), p, c.Sky)
    ensures Risen(old(c.Sky), c.Sky, c.width)
    ensures if p.Placed() then c.Boxes == old(c.Boxes) + [p.AsBox()] else c.Boxes == old(c.Boxes)
    ensures p.Empty() ==> p.x == 0 && p.y == 0
    ensures !p.Empty() && p.Unplaced() && c.numNodes >= c.width ==> Refused(p, c.Sky, c.width, c.height, c.align)
  {
    hide HasRoom, Wf, Sound, Splice, Height, Rest, At, SameNodes, PlacedAt, Turn, Risen, Refused, Context.Valid;
    SameSelf(c.Active, c.Free);
    ghost var s := c.Sky;
    c.FreeCount();
    if r.w == 0 || r.h == 0 {
      p := r.(x := 0, y := 0);
      RisenSame(s, c.width);
      EmptyTurn(c.Fixed(), s, p);
    } else {
      if c.numNodes >= c.width {
        c.FreeNodeLeft();
      }
      var fr := c.PackRectangle(r.w, r.h);
      if fr.found {
        p := r.(x := Coord(fr.x), y := Coord(fr.y));
        FoundTurn(c.Fixed(), s, r, fr.x, fr.y, p, c.Sky);
      } else {
        p := r.(x := COORD_MAX, y := COORD_MAX);
        RisenSame(s, c.width);
        RefusedTurn(c.Fixed(), s, p);
      }
    }
  }

  lemma RisenSame(s: seq<Seg>, width: int)
    ensures Risen(s, s, width)
  {
  }

  lemma EmptyTurn(t: Terms, s: seq<Seg>, p: Rect)
    requires 1 <= t.align && p.Input() && p.Empty() && p.x == 0 && p.y == 0
    ensures Turn(t, s, p, s)
  {
  }

  lemma FoundTurn(t: Terms, s: seq<Seg>, r: Rect, x: int, y: int, p: Rect, s': seq<Seg>)
    requires 1 <= t.align && r.Input() && !r.Empty() && |s| < t.numNodes + 2
    requires t.width <= COORD_MAX && t.height <= COORD_MAX
    requires HasRoom(s, t.width, t.height, RoundedUp(r.w, t.align), r.h)
    requires PlacedAt(s, t.width, t.height, t.heuristic, RoundedUp(r.w, t.align), r.h, x, y)
    requires At(s, x) + 1 < |s| ==> s' == Splice(s, At(s, x), x, r.w, y + r.h)
    requires p == r.(x := Coord(x), y := Coord(y))
    ensures p.x == x && p.y == y && p.Placed() && Turn(t, s, p, s') && Risen(s, s', t.width)
  {
    hide HasRoom, Splice, Rest, Height, At, BottomLeft, BestFit, Risen;
    PlacingRaises(s, t.width, t.height, t.heuristic, r.w, RoundedUp(r.w, t.align), r.h, x, y);
    RestNonNegative(s, x, RoundedUp(r.w, t.align));
  }

  lemma RefusedTurn(t: Terms, s: seq<Seg>, p: Rect)
    requires 1 <= t.align && p.Input() && !p.Empty() && p.Unplaced()
    requires !(|s| < t.numNodes + 2 && HasRoom(s, t.width, t.height, RoundedUp(p.w, t.align), p.h))
    ensures Turn(t, s, p, s)
    ensures |s| < t.numNodes + 2 ==> Refused(p, s, t.width, t.height, t.align)
  {
    hide HasRoom;
  }

  // ---------- all of them ----------

  /** What the finished entries say, given the boxes that were there before. */
  ghost predicate Settled(s: seq<Rect>, n: nat, before: seq<Box>, boxes: seq<Box>) {
    && n <= |s| && before <= boxes
    && (forall i :: 0 <= i < n && s[i].Placed() ==>
          s[i].AsBox() in boxes && forall b :: b in before ==> Apart(b, s[i].AsBox()))
    && (forall i, j :: 0 <= i < j < n && s[i].Placed() && s[j].Placed() ==> Apart(s[i].AsBox(), s[j].AsBox()))
  }

  lemma SettledStep(s: seq<Rect>, n: nat, before: seq<Box>, boxes: seq<Box>, p: Rect,
                    width: int, height: int, sky: seq<Seg>)
    requires n < |s| && Settled(s, n, before, boxes)
    requires p.Placed() ==> Sound(sky, boxes + [p.AsBox()], width, height)
    ensures Settled(s[n := p], n + 1, before, if p.Placed() then boxes + [p.AsBox()] else boxes)
  {
    hide Height;
    if p.Placed() {
      var all := boxes + [p.AsBox()];
      forall b | b in boxes ensures Apart(b, p.AsBox()) {
        var j :| 0 <= j < |boxes| && boxes[j] == b;
        assert Apart(all[j], all[|boxes|]);
      }
    }
  }

  /** The entries of `s` carry the original indices, each with its own input fields. */
  ghost predicate Indexed(s: seq<Rect>, input: seq<Rect>) {
    && |s| == |input|
    && (forall i :: 0 <= i < |s| ==> 0 <= s[i].wasPacked < |input| && s[i].SameInput(input[s[i].wasPacked]))
    && (forall i, j :: 0 <= i < j < |s| ==> s[i].wasPacked != s[j].wasPacked)
  }

  lemma EntryOf(s: seq<Rect>, t: seq<Rect>, i: nat) returns (j: nat)
    requires multiset(s) == multiset(t) && i < |t|
    ensures j < |s| && s[j] == t[i]
  {
    assert t[i] in multiset(t);
    j :| 0 <= j < |s| && s[j] == t[i];
  }

  lemma PermutedIndexed(s: seq<Rect>, t: seq<Rect>, input: seq<Rect>)
    requires Indexed(s, input) && multiset(s) == multiset(t)
    ensures Indexed(t, input)
  {
    assert |t| == |multiset(t)| == |s|;
    forall i | 0 <= i < |t| ensures 0 <= t[i].wasPacked < |input| && t[i].SameInput(input[t[i].wasPacked]) {
      var i' := EntryOf(s, t, i);
    }
    forall i, j | 0 <= i < j < |t| ensures t[i].wasPacked != t[j].wasPacked {
      var i' := EntryOf(s, t, i);
      var j' := EntryOf(s, t, j);
      if t[i].wasPacked == t[j].wasPacked {
        assert i' == j';
        TwiceCounted(t, i, j);
        OnceCounted(s, i');
      }
    }
  }

  lemma PermutedSettled(s: seq<Rect>, t: seq<Rect>, input: seq<Rect>, before: seq<Box>,
                        boxes: seq<Box>)
    requires Indexed(s, input) && Indexed(t, input) && multiset(s) == multiset(t)
    requires Settled(s, |s|, before, boxes)
    ensures Settled(t, |t|, before, boxes)
  {
    hide Indexed;
    forall i | 0 <= i < |t| && t[i].Placed()
      ensures t[i].AsBox() in boxes && forall b :: b in before ==> Apart(b, t[i].AsBox())
    {
      var i' := EntryOf(s, t, i);
    }
    forall i, j | 0 <= i < j < |t| && t[i].Placed() && t[j].Placed() ensures Apart(t[i].AsBox(), t[j].AsBox()) {
      var i' := EntryOf(s, t, i);
      var j' := EntryOf(s, t, j);
      TwoEntries(t, input, i, j);
      assert i' != j';
    }
  }

  lemma TwoEntries(t: seq<Rect>, input: seq<Rect>, i: nat, j: nat)
    requires Indexed(t, input) && i < j < |t|
    ensures t[i] != t[j]
  {
  }

  /** Sorting the entries by the index they carry restores the original order. */
  lemma IndexAtLeast(t: seq<Rect>, input: seq<Rect>, i: nat)
    requires Indexed(t, input) && Ordered(t, IndexOrder) && i < |t|
    ensures t[i].wasPacked >= i
  {
    if i > 0 {
      IndexAtLeast(t, input, i - 1);
      assert IndexOrder(t[i - 1], t[i]);
    }
  }

  lemma IndexAtMost(t: seq<Rect>, input: seq<Rect>, i: nat)
    requires Indexed(t, input) && Ordered(t, IndexOrder) && i < |t|
    ensures t[i].wasPacked <= i
    decreases |t| - i
  {
    if i + 1 < |t| {
      IndexAtMost(t, input, i + 1);
      assert IndexOrder(t[i], t[i + 1]);
    }
  }

  /** What else the finished entries say, against the skyline they left. */
  ghost predicate Reported(s: seq<Rect>, n: nat, enough: bool, sky: seq<Seg>, width: int, height: int, align: int) {
    n <= |s| && forall i :: 0 <= i < n ==>
      && (s[i].Empty() ==> s[i].x == 0 && s[i].y == 0)
      && (!s[i].Empty() && s[i].Unplaced() && enough ==> Refused(s[i], sky, width, height, align))
  }

  lemma ReportedStep(s: seq<Rect>, n: nat, enough: bool, sky: seq<Seg>, sky': seq<Seg>,
                     width: int, height: int, align: int, p: Rect)
    requires n < |s| && Reported(s, n, enough, sky, width, height, align) && Risen(sky, sky', width)
    requires p.Empty() ==> p.x == 0 && p.y == 0
    requires !p.Empty() && p.Unplaced() && enough ==> Refused(p, sky', width, height, align)
    ensures Reported(s[n := p], n + 1, enough, sky', width, height, align)
  {
    hide HasRoom, Risen;
    forall i | 0 <= i < n && !s[i].Empty() && s[i].Unplaced() && enough
      ensures Refused(s[i], sky', width, height, align)
    {
      if HasRoom(sky', width, height, RoundedUp(s[i].w, align), s[i].h) {
        RoomShrinks(sky, sky', width, height, RoundedUp(s[i].w, align), s[i].h);
      }
    }
  }

  lemma RisenOn(s: seq<Seg>, s': seq<Seg>, s'': seq<Seg>, width: int)
    requires Risen(s, s', width) && Risen(s', s'', width)
    ensures Risen(s, s'', width)
  {
    hide Height;
    forall c | 0 <= c < width ensures Height(s'', c) >= Height(s, c) {
      assert Height(s', c) >= Height(s, c);
    }
  }

  lemma StepKeepsIndexed(s: seq<Rect>, input: seq<Rect>, n: nat, p: Rect)
    requires Indexed(s, input) && n < |s| && p.SameInput(s[n]) && p.wasPacked == s[n].wasPacked
    ensures Indexed(s[n := p], input)
  {
  }

  /** The packing loop, over the sorted entries. */
  method PackEach(c: Context, rects: array<Rect>, ghost input: seq<Rect>)
    requires c.Valid() && Indexed(rects[..], input)
    requires Inputs(rects[..])
    modifies c`activeHead, c`freeHead, c`Active, c`Free, c`Sky, c`Boxes, c.Active, c.Free, rects
    ensures c.Valid() && SameNodes(c.Active, c.Free, old(c.Active), old(c.Free))
    ensures Indexed(rects[..], input) && OnlyMoved(old(rects[..]), rects[..])
    ensures Settled(rects[..], rects.Length, old(c.Boxes), c.Boxes)
    ensures Reported(rects[..], rects.Length, c.numNodes >= c.width, c.Sky, c.width, c.height, c.align)
    ensures Risen(old(c.Sky), c.Sky, c.width)
    ensures 1 <= c.align && Inputs(rects[..])
    ensures Turns(c.Fixed(), old(c.Sky), rects[..], c.Sky) && c.Boxes == old(c.Boxes) + Placements(rects[..])
  {
    hide Indexed, Settled, Reported, Risen, SameNodes, Wf, Low, Chain, Reads, Separate, Turn, Turns, Placements;
    ghost var A, F, S := c.Active, c.Free, c.Sky;
    SameSelf(A, F);
    NoTurns(c.Fixed(), S, rects[..0]);
    NothingYet(rects[..], c.Boxes, c.numNodes >= c.width, c.Sky, c.width, c.height, c.align);
    var i := 0;
    while i < rects.Length
      invariant 0 <= i <= rects.Length
      invariant c.Valid() && SameNodes(c.Active, c.Free, A, F)
      invariant Indexed(rects[..], input)
      invariant Inputs(rects[..]) && Inputs(rects[..i])
      invariant Settled(rects[..], i, old(c.Boxes), c.Boxes)
      invariant Reported(rects[..], i, c.numNodes >= c.width, c.Sky, c.width, c.height, c.align)
      invariant Risen(S, c.Sky, c.width)
      invariant OnlyMoved(old(rects[..]), rects[..])
      invariant 1 <= c.align && Turns(c.Fixed(), S, rects[..i], c.Sky)
      invariant c.Boxes == old(c.Boxes) + Placements(rects[..i])
    {
      ghost var s, sky, boxes, a, f := rects[..], c.Sky, c.Boxes, c.Active, c.Free;
      NodesInside(c, A, F);
      var p := PackOne(c, rects[i]);
      rects[i] := p;
      assert rects[..] == s[i := p] && rects[..i + 1] == s[..i] + [p];
      OneMoreTurn(c.Fixed(), S, s[..i], sky, p, c.Sky);
      SettledStep(s, i, old(c.Boxes), boxes, p, c.width, c.height, c.Sky);
      ReportedStep(s, i, c.numNodes >= c.width, sky, c.Sky, c.width, c.height, c.align, p);
      StepKeepsIndexed(s, input, i, p);
      RisenOn(S, sky, c.Sky, c.width);
      SameNodesOn(c.Active, c.Free, a, f, A, F);
      i := i + 1;
    }
    assert rects[..i] == rects[..];
  }

  lemma NothingYet(s: seq<Rect>, boxes: seq<Box>, enough: bool, sky: seq<Seg>, width: int,
                   height: int, align: int)
    ensures Settled(s, 0, boxes, boxes) && Reported(s, 0, enough, sky, width, height, align) && Risen(sky, sky, width)
  {
  }

  lemma SameNodesOn(a: seq<Node>, f: seq<Node>, a': seq<Node>, f': seq<Node>, a'': seq<Node>,
                    f'': seq<Node>)
    requires SameNodes(a, f, a', f') && SameNodes(a', f', a'', f'')
    ensures SameNodes(a, f, a'', f'')
  {
  }

  /** The rectangles as they came to their turns, and as they are in the caller's array. */
  predicate Returned(turns: seq<Rect>, s: seq<Rect>) {
    && |turns| == |s|
    && (forall k :: 0 <= k < |s| ==>
          && 0 <= turns[k].wasPacked < |s|
          && s[turns[k].wasPacked] == turns[k].(wasPacked := s[turns[k].wasPacked].wasPacked))
    && (forall j, k :: 0 <= j < k < |s| ==> turns[j].wasPacked != turns[k].wasPacked)
  }

  /** stbrp_pack_rects. The rectangles come back in their order with their own sizes; every
      one marked packed is inside the target and apart from every other, in this call and
      in all calls before; with enough nodes, every other one would still not fit. They had
      their turns tallest first, and each turn went as the skyline left by those before it
      makes it go. */
  method PackRects(c: Context, rects: array<Rect>) returns (all: bool, ghost turns: seq<Rect>)
    requires c.Valid() && Inputs(rects[..])
    modifies c`activeHead, c`freeHead, c`Active, c`Free, c`Sky, c`Boxes, c.Active, c.Free, rects
    ensures c.Valid() && SameNodes(c.Active, c.Free, old(c.Active), old(c.Free))
    ensures Risen(old(c.Sky), c.Sky, c.width)
    ensures forall i :: 0 <= i < rects.Length ==> rects[i].SameInput(old(rects[i]))
    ensures Settled(rects[..], rects.Length, old(c.Boxes), c.Boxes)
    ensures Reported(rects[..], rects.Length, c.numNodes >= c.width, c.Sky, c.width, c.height, c.align)
    ensures forall i :: 0 <= i < rects.Length ==> rects[i].wasPacked == if rects[i].x == 0xffff && rects[i].y == 0xffff then 0 else 1
    ensures all <==> forall i :: 0 <= i < rects.Length ==> rects[i].wasPacked == 1
    ensures TallestFirst(turns) && Returned(turns, rects[..])
    ensures 1 <= c.align && Inputs(turns)
    ensures Turns(c.Fixed(), old(c.Sky), turns, c.Sky) && c.Boxes == old(c.Boxes) + Placements(turns)
  {
    hide Settled, Reported, Risen, SameNodes, Indexed, Context.Valid;
    hide Turns, Placements, TallestFirst, OnlyMoved, Returned, Inputs;
    ghost var input := rects[..];
    Number(rects);
    assert c.Valid();
    ghost var start := rects[..];
    SortByHeight(rects);
    assert c.Valid();
    PermutedIndexed(start, rects[..], input);
    SizesKept(rects[..], input);
    ghost var sorted := rects[..];
    PackEach(c, rects, input);
    turns := rects[..];
    StaysTallestFirst(sorted, turns);
    all := PutBack(rects, input, old(c.Boxes), c.Boxes, c.numNodes >= c.width, c.Sky, c.width, c.height, c.align);
  }

  /** The first sort. */
  method SortByHeight(rects: array<Rect>)
    modifies rects
    ensures multiset(rects[..]) == old(multiset(rects[..])) && TallestFirst(rects[..])
  {
    Orders();
    SortInPlace(rects, HeightOrder);
    SortedTallestFirst(rects[..]);
  }

  /** The second sort and the last loop: the rectangles in their order again, with their flags. */
  method PutBack(rects: array<Rect>, ghost input: seq<Rect>, ghost before: seq<Box>, ghost boxes: seq<Box>,
                 ghost enough: bool, ghost sky: seq<Seg>, ghost width: int, ghost height: int, ghost align: int)
    returns (all: bool)
    requires Indexed(rects[..], input)
    requires Settled(rects[..], rects.Length, before, boxes)
    requires Reported(rects[..], rects.Length, enough, sky, width, height, align)
    modifies rects
    ensures rects.Length == |input| && forall i :: 0 <= i < rects.Length ==> rects[i].SameInput(input[i])
    ensures Settled(rects[..], rects.Length, before, boxes)
    ensures Reported(rects[..], rects.Length, enough, sky, width, height, align)
    ensures forall i :: 0 <= i < rects.Length ==> rects[i].wasPacked == if rects[i].Unplaced() then 0 else 1
    ensures all <==> forall i :: 0 <= i < rects.Length ==> rects[i].wasPacked == 1
    ensures Returned(old(rects[..]), rects[..])
  {
    hide Settled, Reported, Indexed, Ordered, TotalOrder, Returned;
    ghost var mid := rects[..];
    Orders();
    SortInPlace(rects, IndexOrder);
    PermutedIndexed(mid, rects[..], input);
    PermutedSettled(mid, rects[..], input, before, boxes);
    PermutedReported(mid, rects[..], enough, sky, width, height, align);
    InOrder(rects[..], input);
    ghost var back := rects[..];
    all := MarkPacked(rects, before, boxes, enough, sky, width, height, align);
    ComesBack(mid, back, rects[..], input);
  }

  lemma ComesBack(mid: seq<Rect>, back: seq<Rect>, s: seq<Rect>, input: seq<Rect>)
    requires Indexed(mid, input) && Indexed(back, input) && Ordered(back, IndexOrder) && multiset(mid) == multiset(back)
    requires |s| == |back| && forall i :: 0 <= i < |s| ==> s[i] == back[i].(wasPacked := s[i].wasPacked)
    ensures Returned(mid, s)
  {
    forall k | 0 <= k < |mid|
      ensures 0 <= mid[k].wasPacked < |s| && s[mid[k].wasPacked] == mid[k].(wasPacked := s[mid[k].wasPacked].wasPacked)
    {
      var i := EntryOf(back, mid, k);
      IndexAtLeast(back, input, i);
      IndexAtMost(back, input, i);
    }
  }

  lemma SortedTallestFirst(rs: seq<Rect>)
    requires Ordered(rs, HeightOrder)
    ensures TallestFirst(rs)
  {
    forall i, j | 0 <= i < j < |rs| ensures rs[i].h > rs[j].h || (rs[i].h == rs[j].h && rs[i].w >= rs[j].w) {
      assert HeightOrder(rs[i], rs[j]);
    }
  }

  lemma StaysTallestFirst(was: seq<Rect>, now: seq<Rect>)
    requires TallestFirst(was) && OnlyMoved(was, now)
    ensures TallestFirst(now)
  {
  }

  /** The first loop: every rectangle remembers its place. */
  method Number(rects: array<Rect>)
    modifies rects
    ensures Indexed(rects[..], old(rects[..]))
  {
    ghost var input := rects[..];
    var i := 0;
    while i < rects.Length
      invariant 0 <= i <= rects.Length
      invariant forall j :: 0 <= j < rects.Length ==> rects[j] == input[j].(wasPacked := if j < i then j else input[j].wasPacked)
    {
      rects[i] := rects[i].(wasPacked := i);
      i := i + 1;
    }
  }

  lemma Orders()
    ensures TotalOrder(HeightOrder) && TotalOrder(IndexOrder)
  {
  }

  lemma SizesKept(s: seq<Rect>, input: seq<Rect>)
    requires Indexed(s, input) && Inputs(input)
    ensures Inputs(s)
  {
  }

  lemma InOrder(t: seq<Rect>, input: seq<Rect>)
    requires Indexed(t, input) && Ordered(t, IndexOrder)
    ensures |t| == |input| && forall i :: 0 <= i < |t| ==> t[i].SameInput(input[i])
  {
    forall i | 0 <= i < |t| ensures t[i].SameInput(input[i]) {
      IndexAtLeast(t, input, i);
      IndexAtMost(t, input, i);
    }
  }

  lemma PermutedReported(s: seq<Rect>, t: seq<Rect>, enough: bool, sky: seq<Seg>, width: int,
                         height: int, align: int)
    requires multiset(s) == multiset(t) && Reported(s, |s|, enough, sky, width, height, align)
    ensures Reported(t, |t|, enough, sky, width, height, align)
  {
    hide Refused;
    forall i | 0 <= i < |t|
      ensures t[i].Empty() ==> t[i].x == 0 && t[i].y == 0
      ensures !t[i].Empty() && t[i].Unplaced() && enough ==> Refused(t[i], sky, width, height, align)
    {
      var i' := EntryOf(s, t, i);
    }
  }

  /** The last loop: turns the index into the flag. */
  method MarkPacked(rects: array<Rect>, ghost before: seq<Box>, ghost boxes: seq<Box>, ghost enough: bool,
                    ghost sky: seq<Seg>, ghost width: int, ghost height: int, ghost align: int)
    returns (all: bool)
    requires Settled(rects[..], rects.Length, before, boxes)
    requires Reported(rects[..], rects.Length, enough, sky, width, height, align)
    modifies rects
    ensures forall i :: 0 <= i < rects.Length ==> rects[i] == old(rects[i]).(wasPacked := rects[i].wasPacked)
    ensures Settled(rects[..], rects.Length, before, boxes)
    ensures Reported(rects[..], rects.Length, enough, sky, width, height, align)
    ensures forall i :: 0 <= i < rects.Length ==> rects[i].wasPacked == if rects[i].Unplaced() then 0 else 1
    ensures all <==> forall i :: 0 <= i < rects.Length ==> rects[i].wasPacked == 1
  {
    ghost var s := rects[..];
    all := true;
    var i := 0;
    while i < rects.Length
      invariant 0 <= i <= rects.Length
      invariant forall j :: 0 <= j < rects.Length ==>
        rects[j] == s[j].(wasPacked := if j >= i then s[j].wasPacked else if s[j].Unplaced() then 0 else 1)
      invariant all <==> forall j :: 0 <= j < i ==> rects[j].wasPacked == 1
    {
      rects[i] := rects[i].(wasPacked := if rects[i].x == COORD_MAX && rects[i].y == COORD_MAX then 0 else 1);
      if rects[i].wasPacked == 0 {
        all := false;
      }
      i := i + 1;
    }
    FlagsOnly(s, rects[..], before, boxes, enough, sky, width, height, align);
  }

  lemma FlagsOnly(s: seq<Rect>, t: seq<Rect>, before: seq<Box>, boxes: seq<Box>, enough: bool,
                  sky: seq<Seg>, width: int, height: int, align: int)
    requires |s| == |t| && forall j :: 0 <= j < |s| ==> t[j] == s[j].(wasPacked := t[j].wasPacked)
    requires Settled(s, |s|, before, boxes) && Reported(s, |s|, enough, sky, width, height, align)
    ensures Settled(t, |t|, before, boxes) && Reported(t, |t|, enough, sky, width, height, align)
  {
    hide HasRoom;
  }
}
