/** The skyline of core/src/imgui/imstb_rectpack.h as a value: the active node list read
    off as segments, the height it gives every column, and what the packer's searches
    and its splice mean in terms of those heights. */
module Skyline {
  import opened Common

  /** One active node: from column x on (up to the next node) the skyline is at y. */
  datatype Seg = Seg(x: int, y: int)

  /** A rectangle that has been given a place. */
  datatype Box = Box(x: int, y: int, w: int, h: int)

  ghost predicate Increasing(s: seq<Seg>) {
    forall i, j :: 0 <= i < j < |s| ==> s[i].x < s[j].x
  }

  /** The list shape every call keeps: it starts at column 0, its x are strictly
      increasing, and the last node is the sentinel at `width`. */
  ghost predicate Wf(s: seq<Seg>, width: int) {
    && |s| >= 2
    && s[0].x == 0
    && s[|s| - 1].x == width
    && Increasing(s)
    && forall i :: 0 <= i < |s| ==> s[i].y >= 0
  }

  // ---------- heights ----------

  /** The skyline's height over column c. */
  ghost function Height(s: seq<Seg>, c: int): int {
    if |s| == 0 then 0
    else if s[|s| - 1].x <= c then s[|s| - 1].y
    else Height(s[..|s| - 1], c)
  }

  lemma {:induction false} HeightAt(s: seq<Seg>, i: nat, c: int)
    requires i < |s| && Increasing(s)
    requires s[i].x <= c && (i + 1 < |s| ==> c < s[i + 1].x)
    ensures Height(s, c) == s[i].y
  {
    if i + 1 < |s| {
      HeightAt(s[..|s| - 1], i, c);
    }
  }

  /** The node a column belongs to. */
  ghost function At(s: seq<Seg>, c: int): (i: nat)
    requires Increasing(s) && |s| >= 1 && s[0].x <= c
    ensures i < |s| && s[i].x <= c && (i + 1 < |s| ==> c < s[i + 1].x)
    ensures Height(s, c) == s[i].y
  {
    if s[|s| - 1].x <= c then |s| - 1 else At(s[..|s| - 1], c)
  }

  lemma {:induction false} AtUnique(s: seq<Seg>, i: nat, c: int)
    requires Increasing(s) && i < |s| && s[0].x <= c
    requires s[i].x <= c && (i + 1 < |s| ==> c < s[i + 1].x)
    ensures At(s, c) == i
  {
    if c < s[|s| - 1].x {
      AtUnique(s[..|s| - 1], i, c);
    }
  }

  /** The lowest y at which a rectangle over columns [x, x+w) rests on the skyline. */
  ghost function Rest(s: seq<Seg>, x: int, w: int): (y: int)
    ensures y >= 0
    ensures forall c :: x <= c < x + w ==> Height(s, c) <= y
    decreases w
  {
    if w <= 0 then 0 else Max(Rest(s, x, w - 1), Height(s, x + w - 1))
  }

  lemma {:induction false} RestNonNegative(s: seq<Seg>, x: int, w: int)
    ensures Rest(s, x, w) >= 0
  {
  }

  lemma {:induction false} RestAttained(s: seq<Seg>, x: int, w: int)
    requires Rest(s, x, w) > 0
    ensures exists c :: x <= c < x + w && Height(s, c) == Rest(s, x, w)
    decreases w
  {
    if Rest(s, x, w) == Height(s, x + w - 1) {
    } else {
      RestAttained(s, x, w - 1);
    }
  }

  /** The area between the skyline over [x, x+w) and a rectangle bottom at y. */
  ghost function Gap(s: seq<Seg>, x: int, w: int, y: int): int
    decreases w
  {
    if w <= 0 then 0 else Gap(s, x, w - 1, y) + (y - Height(s, x + w - 1))
  }

  lemma {:induction false} RestExtend(s: seq<Seg>, x: int, a: int, b: int, h: int)
    requires 0 <= a < b && h >= 0
    requires forall c :: x + a <= c < x + b ==> Height(s, c) == h
    ensures Rest(s, x, b) == Max(Rest(s, x, a), h)
    decreases b
  {
    assert Height(s, x + b - 1) == h;
    if a < b - 1 {
      RestExtend(s, x, a, b - 1, h);
    }
  }

  lemma {:induction false} GapExtend(s: seq<Seg>, x: int, a: int, b: int, h: int, y: int)
    requires 0 <= a <= b
    requires forall c :: x + a <= c < x + b ==> Height(s, c) == h
    ensures Gap(s, x, b, y) == Gap(s, x, a, y) + (b - a) * (y - h)
    decreases b
  {
    if a < b {
      assert Height(s, x + b - 1) == h;
      GapExtend(s, x, a, b - 1, h, y);
      assert (b - a) * (y - h) == (b - 1 - a) * (y - h) + (y - h);
    }
  }

  lemma {:induction false} GapRaise(s: seq<Seg>, x: int, w: int, y: int, y': int)
    requires 0 <= w
    ensures Gap(s, x, w, y') == Gap(s, x, w, y) + w * (y' - y)
    decreases w
  {
    if w > 0 {
      GapRaise(s, x, w - 1, y, y');
      assert w * (y' - y) == (w - 1) * (y' - y) + (y' - y);
    }
  }

  // ---------- the window scan ----------

  /** What the scan of stbrp__skyline_find_min_y has accumulated. */
  datatype Scan = Scan(minY: int, visited: int, waste: int)

  /** One turn of the scan's loop at a node of height y spanning [nx, next). */
  function Visit(a: Scan, nx: int, y: int, next: int, x0: int, w: int): Scan {
    if y > a.minY then
      Scan(y, a.visited + (if nx < x0 then next - x0 else next - nx), a.waste + a.visited * (y - a.minY))
    else
      var under := if next - nx + a.visited > w then w - a.visited else next - nx;
      Scan(a.minY, a.visited + under, a.waste + under * (a.minY - y))
  }

  /** The whole scan from node i on. */
  ghost function ScanFrom(s: seq<Seg>, i: nat, x0: int, w: int, a: Scan): Scan
    requires i < |s|
    decreases |s| - i
  {
    if i + 1 < |s| && s[i].x < x0 + w then
      ScanFrom(s, i + 1, x0, w, Visit(a, s[i].x, s[i].y, s[i + 1].x, x0, w))
    else a
  }

  /** One turn of the scan's loop. */
  lemma ScanStep(s: seq<Seg>, i: nat, x0: int, w: int, a: Scan)
    requires i < |s|
    ensures ScanFrom(s, i, x0, w, a) ==
      if i + 1 < |s| && s[i].x < x0 + w
      then ScanFrom(s, i + 1, x0, w, Visit(a, s[i].x, s[i].y, s[i + 1].x, x0, w)) else a
  {
  }

  /** The waste the packer computes for a window at x. */
  ghost function Waste(s: seq<Seg>, x: int, w: int): int
    requires Increasing(s) && |s| >= 1 && s[0].x <= x
  {
    ScanFrom(s, At(s, x), x, w, Scan(0, 0, 0)).waste
  }

  /** How much of the window lies left of node i. */
  function Seen(s: seq<Seg>, i: nat, x0: int, w: int): int
    requires i < |s|
  {
    Max(0, Min(s[i].x - x0, w))
  }

  /** What holds each time the scan reaches node i: the maximum over the part of the
      window seen so far, and a waste that is never less than the real gap. */
  ghost predicate ScanInv(s: seq<Seg>, i: nat, x0: int, w: int, a: Scan)
    requires i < |s|
  {
    var t := Seen(s, i, x0, w);
    && a.minY == Rest(s, x0, t)
    && (s[i].x < x0 + w ==> a.visited >= t && a.waste - Gap(s, x0, t, a.minY) >= (a.visited - t) * a.minY)
    && (s[i].x >= x0 + w ==> a.waste >= Gap(s, x0, t, a.minY))
  }

  lemma {:induction false} SegmentFlat(s: seq<Seg>, width: int, i: nat, x0: int, b: int)
    requires Wf(s, width) && i + 1 < |s|
    requires s[i].x <= x0 && b <= s[i + 1].x
    ensures forall c :: x0 <= c < b ==> Height(s, c) == s[i].y
  {
    forall c | x0 <= c < b ensures Height(s, c) == s[i].y {
      HeightAt(s, i, c);
    }
  }

  lemma VisitLowKeepsInv(s: seq<Seg>, width: int, i: nat, x0: int, w: int, a: Scan)
    requires Wf(s, width) && i + 1 < |s| && 0 < w && 0 <= x0 && x0 + w <= width
    requires s[i].x < x0 + w && x0 < s[i + 1].x
    requires ScanInv(s, i, x0, w, a) && s[i].y <= a.minY
    ensures ScanInv(s, i + 1, x0, w, Visit(a, s[i].x, s[i].y, s[i + 1].x, x0, w))
  {
    var t, t' := Seen(s, i, x0, w), Seen(s, i + 1, x0, w);
    SegmentFlat(s, width, i, x0 + t, x0 + t');
    RestExtend(s, x0, t, t', s[i].y);
    GapExtend(s, x0, t, t', s[i].y, a.minY);
    VisitLowArithmetic(a, s[i].x, s[i].y, s[i + 1].x, x0, w, Gap(s, x0, t, a.minY));
  }

  lemma VisitLowArithmetic(a: Scan, nx: int, y: int, next: int, x0: int, w: int, gap: int)
    requires nx < x0 + w && nx < next && x0 < next && 0 < w && 0 <= y <= a.minY
    requires nx < x0 ==> a.minY == 0
    requires a.visited >= Max(0, nx - x0) && a.waste - gap >= (a.visited - Max(0, nx - x0)) * a.minY
    ensures var t, t', b := Max(0, nx - x0), Max(0, Min(next - x0, w)), Visit(a, nx, y, next, x0, w);
            && b.visited >= t'
            && b.waste - (gap + (t' - t) * (a.minY - y)) >= (b.visited - t') * a.minY >= 0
  {
    var t, t', b := Max(0, nx - x0), Max(0, Min(next - x0, w)), Visit(a, nx, y, next, x0, w);
    var d, len, under := a.visited - t, t' - t, b.visited - a.visited;
    if nx >= x0 {
      assert under <= len;
      LowNodeSlack(d, a.minY, y, len, under);
      assert d + under - len == b.visited - t' >= 0;
    }
  }

  lemma VisitHighKeepsInv(s: seq<Seg>, width: int, i: nat, x0: int, w: int, a: Scan)
    requires Wf(s, width) && i + 1 < |s| && 0 < w && 0 <= x0 && x0 + w <= width
    requires s[i].x < x0 + w && x0 < s[i + 1].x
    requires ScanInv(s, i, x0, w, a) && s[i].y > a.minY
    ensures ScanInv(s, i + 1, x0, w, Visit(a, s[i].x, s[i].y, s[i + 1].x, x0, w))
  {
    var t, t' := Seen(s, i, x0, w), Seen(s, i + 1, x0, w);
    var y, m := s[i].y, a.minY;
    SegmentFlat(s, width, i, x0 + t, x0 + t');
    RestExtend(s, x0, t, t', y);
    GapExtend(s, x0, t, t', y, y);
    GapRaise(s, x0, t, m, y);
    HighNodeSlack(a.visited, t, m, y);
  }

  lemma HighNodeSlack(v: int, t: int, m: int, y: int)
    requires 0 <= t <= v && 0 <= m < y
    ensures (v - t) * m + v * (y - m) - t * (y - m) == (v - t) * y >= 0
  {
    assert v * (y - m) - t * (y - m) == (v - t) * (y - m);
    assert (v - t) * m + (v - t) * (y - m) == (v - t) * y;
  }

  lemma LowNodeSlack(d: int, m: int, y: int, len: int, under: int)
    requires d >= 0 && 0 <= y <= m && under <= len
    ensures d * m + under * (m - y) - len * (m - y) >= (d + under - len) * m
  {
    assert under * (m - y) - len * (m - y) == (under - len) * m - (under - len) * y;
    assert (len - under) * y >= 0;
  }

  /** The scan's result, for every window: the y it returns is exactly the height the
      rectangle rests at, and the waste it returns never understates the covered gap. */
  lemma {:induction false} ScanResult(s: seq<Seg>, width: int, i: nat, x0: int, w: int, a: Scan)
    requires Wf(s, width) && i < |s| && 0 < w && 0 <= x0 && x0 + w <= width
    requires i + 1 < |s| ==> x0 < s[i + 1].x
    requires ScanInv(s, i, x0, w, a)
    ensures ScanFrom(s, i, x0, w, a).minY == Rest(s, x0, w)
    ensures ScanFrom(s, i, x0, w, a).waste >= Gap(s, x0, w, Rest(s, x0, w))
    decreases |s| - i
  {
    if i + 1 < |s| && s[i].x < x0 + w {
      var b := Visit(a, s[i].x, s[i].y, s[i + 1].x, x0, w);
      if s[i].y > a.minY {
        VisitHighKeepsInv(s, width, i, x0, w, a);
      } else {
        VisitLowKeepsInv(s, width, i, x0, w, a);
      }
      ScanResult(s, width, i + 1, x0, w, b);
    }
  }

  /** A scan that has counted exactly the columns it passed and exactly the gap below. */
  ghost predicate ScanExact(s: seq<Seg>, i: nat, x0: int, w: int, a: Scan)
    requires i < |s|
  {
    var t := Seen(s, i, x0, w);
    && a.minY == Rest(s, x0, t)
    && (s[i].x < x0 + w ==> a.visited == t)
    && a.waste == Gap(s, x0, t, a.minY)
  }

  lemma VisitKeepsExact(s: seq<Seg>, width: int, i: nat, x0: int, w: int, a: Scan)
    requires Wf(s, width) && i + 1 < |s| && 0 < w && 0 <= x0 && x0 + w <= width
    requires s[i].x < x0 + w && x0 < s[i + 1].x
    requires s[i].x >= x0 || s[i].y > 0
    requires ScanExact(s, i, x0, w, a)
    ensures ScanExact(s, i + 1, x0, w, Visit(a, s[i].x, s[i].y, s[i + 1].x, x0, w))
  {
    var t, t' := Seen(s, i, x0, w), Seen(s, i + 1, x0, w);
    var y, m := s[i].y, a.minY;
    SegmentFlat(s, width, i, x0 + t, x0 + t');
    RestExtend(s, x0, t, t', y);
    if y > m {
      GapExtend(s, x0, t, t', y, y);
      GapRaise(s, x0, t, m, y);
    } else {
      GapExtend(s, x0, t, t', y, m);
    }
  }

  lemma {:induction false} ScanExactResult(s: seq<Seg>, width: int, i: nat, x0: int, w: int, a: Scan)
    requires Wf(s, width) && i < |s| && 0 < w && 0 <= x0 && x0 + w <= width
    requires i + 1 < |s| ==> x0 < s[i + 1].x
    requires s[i].x >= x0 || s[i].y > 0
    requires ScanExact(s, i, x0, w, a)
    ensures ScanFrom(s, i, x0, w, a).waste == Gap(s, x0, w, Rest(s, x0, w))
    decreases |s| - i
  {
    if i + 1 < |s| && s[i].x < x0 + w {
      VisitKeepsExact(s, width, i, x0, w, a);
      ScanExactResult(s, width, i + 1, x0, w, Visit(a, s[i].x, s[i].y, s[i + 1].x, x0, w));
    }
  }

  /** The computed waste is the real one for every window that starts at a node or on a
      raised node; elsewhere it is at least the real one. */
  lemma {:induction false} WasteIsGap(s: seq<Seg>, width: int, x: int, w: int)
    requires Wf(s, width) && 0 < w && 0 <= x && x + w <= width
    ensures Waste(s, x, w) >= Gap(s, x, w, Rest(s, x, w))
    ensures s[At(s, x)].x == x || Height(s, x) > 0 ==> Waste(s, x, w) == Gap(s, x, w, Rest(s, x, w))
  {
    var i := At(s, x);
    ScanResult(s, width, i, x, w, Scan(0, 0, 0));
    if s[i].x == x || s[i].y > 0 {
      ScanExactResult(s, width, i, x, w, Scan(0, 0, 0));
    }
  }

  /** The smallest overcount: a window of two columns starting inside a zero-height node
      and ending on a node of height 1 covers one empty column, and the scan says two. */
  lemma WasteCanOvercount()
    ensures var s := [Seg(0, 0), Seg(2, 1), Seg(3, 0)];
            Wf(s, 3) && Gap(s, 1, 2, Rest(s, 1, 2)) == 1 && Waste(s, 1, 2) == 2
  {
    var s := [Seg(0, 0), Seg(2, 1), Seg(3, 0)];
    HeightAt(s, 0, 1);
    HeightAt(s, 1, 2);
    assert Rest(s, 1, 1) == 0;
    assert Rest(s, 1, 2) == 1;
    assert Gap(s, 1, 1, 1) == 1;
    assert At(s, 1) == 0;
    var b := Visit(Scan(0, 0, 0), 0, 0, 2, 1, 2);
    assert b == Scan(0, 2, 0);
    assert Visit(b, 2, 1, 3, 1, 2) == Scan(1, 3, 2);
    assert ScanFrom(s, 2, 1, 2, Scan(1, 3, 2)) == Scan(1, 3, 2);
  }

  // ---------- the two searches ----------

  /** (x, y) is the lowest resting place for a window of w columns, over every x it
      could start at, and the leftmost of the lowest. */
  ghost predicate BottomLeft(s: seq<Seg>, width: int, w: int, x: int, y: int) {
    && 0 <= x <= width - w
    && y == Rest(s, x, w)
    && forall x' :: 0 <= x' <= width - w ==> Rest(s, x', w) >= y && (Rest(s, x', w) == y ==> x <= x')
  }

  /** x' starts no lower than the node it lies on. */
  lemma {:induction false} RestFromNode(s: seq<Seg>, width: int, i: nat, x: int, w: int)
    requires Wf(s, width) && i + 1 < |s| && s[i].x <= x < s[i + 1].x && 0 < w
    requires x + w <= width
    ensures Rest(s, s[i].x, w) <= Rest(s, x, w)
  {
    var r := Rest(s, s[i].x, w);
    if r > 0 {
      RestAttained(s, s[i].x, w);
      var c :| s[i].x <= c < s[i].x + w && Height(s, c) == r;
      if c < x {
        HeightAt(s, i, c);
        HeightAt(s, i, x);
      }
    }
  }

  /** No lower resting place, and none as low further left, among the nodes before i. */
  ghost predicate BestOfNodes(s: seq<Seg>, n: nat, w: int, k: nat)
    requires n <= |s|
  {
    && k < n
    && forall j :: 0 <= j < n ==> Rest(s, s[k].x, w) <= Rest(s, s[j].x, w)
                                  && (Rest(s, s[j].x, w) == Rest(s, s[k].x, w) ==> k <= j)
  }

  /** Trying the left-aligned node positions is enough: the first best of them is the
      bottom-left place over all columns. */
  lemma {:induction false} NodesSuffice(s: seq<Seg>, width: int, n: nat, w: int, k: nat)
    requires Wf(s, width) && 0 < w <= width && n < |s|
    requires s[n].x + w > width && forall j :: 0 <= j < n ==> s[j].x + w <= width
    requires BestOfNodes(s, n, w, k)
    ensures BottomLeft(s, width, w, s[k].x, Rest(s, s[k].x, w))
  {
    forall x' | 0 <= x' <= width - w
      ensures Rest(s, x', w) >= Rest(s, s[k].x, w)
      ensures Rest(s, x', w) == Rest(s, s[k].x, w) ==> s[k].x <= x'
    {
      var i := At(s, x');
      assert i < n;
      RestFromNode(s, width, i, x', w);
    }
  }

  /** The places best-fit tries: left edge on a node, or right edge on a node. */
  ghost predicate Candidate(s: seq<Seg>, width: int, w: int, x: int) {
    && 0 <= x <= width - w
    && ((exists i :: 0 <= i < |s| && s[i].x == x) || (exists j :: 0 <= j < |s| && s[j].x == x + w))
  }

  /** What the search compares: a position, where the rectangle rests there, the waste. */
  datatype Score = Score(x: int, y: int, waste: int) {
    /** Best-fit prefers lower, then less waste, then further left. */
    predicate NoWorse(o: Score) {
      y < o.y || (y == o.y && (waste < o.waste || (waste == o.waste && x <= o.x)))
    }
  }

  ghost function ScoreAt(s: seq<Seg>, w: int, x: int): Score
    requires Increasing(s) && |s| >= 1 && s[0].x <= x
  {
    Score(x, Rest(s, x, w), Waste(s, x, w))
  }

  /** Of the positions tried, `best` is the one best-fit keeps; it keeps none only when
      none leaves room for h rows below `height`. */
  ghost predicate BestOf(tried: seq<Score>, height: int, h: int, found: bool, best: Score) {
    && (found ==> best in tried && best.y + h <= height)
    && forall t :: t in tried && t.y + h <= height ==> found && best.NoWorse(t)
  }

  lemma BestOfStep(tried: seq<Score>, height: int, h: int, found: bool, best: Score, t: Score)
    requires BestOf(tried, height, h, found, best)
    ensures t.y + h > height ==> BestOf(tried + [t], height, h, found, best)
    ensures t.y + h <= height && found && best.NoWorse(t) ==> BestOf(tried + [t], height, h, true, best)
    ensures t.y + h <= height && (!found || t.NoWorse(best)) ==> BestOf(tried + [t], height, h, true, t)
  {
  }

  ghost predicate Fits(s: seq<Seg>, height: int, w: int, h: int, x: int) {
    Rest(s, x, w) + h <= height
  }

  /** x is the candidate best-fit must choose: it fits and no candidate that fits is better. */
  ghost predicate BestFit(s: seq<Seg>, width: int, height: int, w: int, h: int, x: int)
    requires Wf(s, width)
  {
    && Candidate(s, width, w, x) && Fits(s, height, w, h, x)
    && forall x' :: Candidate(s, width, w, x') && Fits(s, height, w, h, x') ==>
         ScoreAt(s, w, x).NoWorse(ScoreAt(s, w, x'))
  }

  /** Of the candidates as low as itself it wastes least, and of those it is the leftmost. */
  lemma BestFitWastesLeast(s: seq<Seg>, width: int, height: int, w: int, h: int, x: int, x': int)
    requires Wf(s, width) && BestFit(s, width, height, w, h, x)
    requires Candidate(s, width, w, x') && Rest(s, x', w) == Rest(s, x, w)
    ensures Waste(s, x, w) < Waste(s, x', w) || (Waste(s, x, w) == Waste(s, x', w) && x <= x')
  {
  }

  /** Best-fit is also lowest: no column, candidate or not, has a lower resting place,
      and it finds nothing only when nothing fits anywhere. */
  lemma {:induction false} BestFitIsLowest(s: seq<Seg>, width: int, height: int, w: int, h: int, x': int)
    requires Wf(s, width) && 0 < w && 0 <= x' <= width - w && Fits(s, height, w, h, x')
    ensures exists x :: Candidate(s, width, w, x) && Fits(s, height, w, h, x)
    ensures forall x :: BestFit(s, width, height, w, h, x) ==> Rest(s, x, w) <= Rest(s, x', w)
  {
    var i := At(s, x');
    RestFromNode(s, width, i, x', w);
    assert Candidate(s, width, w, s[i].x);
  }

  // ---------- the splice ----------

  /** The first node at or after k that the splice does not free. */
  function Keep(s: seq<Seg>, k: nat, right: int): (r: nat)
    requires k < |s|
    ensures k <= r < |s|
    ensures r + 1 == |s| || right < s[r + 1].x
    ensures k < r ==> s[r].x <= right
    decreases |s| - k
  {
    if k + 1 < |s| && s[k + 1].x <= right then Keep(s, k + 1, right) else k
  }

  /** The first node the splice looks at when the placed rectangle starts at x on node i. */
  function First(s: seq<Seg>, i: nat, x: int): nat
    requires i < |s|
  {
    if s[i].x < x then i + 1 else i
  }

  /** The active list after placing w columns at x on node i with the top at `top`. */
  function Splice(s: seq<Seg>, i: nat, x: int, w: int, top: int): seq<Seg>
    requires i + 1 < |s|
  {
    var k := Keep(s, First(s, i, x), x + w);
    s[..First(s, i, x)] + [Seg(x, top), Seg(Max(s[k].x, x + w), s[k].y)] + s[k + 1..]
  }

  /** No node but the sentinel is above the target. */
  ghost predicate Low(s: seq<Seg>, height: int) {
    forall i :: 0 <= i < |s| - 1 ==> s[i].y <= height
  }

  lemma SpliceKeepsLow(s: seq<Seg>, height: int, i: nat, x: int, w: int, top: int)
    requires i + 1 < |s| && Low(s, height) && top <= height
    ensures Low(Splice(s, i, x, w, top), height)
  {
    var k0 := First(s, i, x);
    var k := Keep(s, k0, x + w);
    var r := Splice(s, i, x, w, top);
    forall j | 0 <= j < |r| - 1 ensures r[j].y <= height {
      if j < k0 {
        assert r[j] == s[j];
      } else if j >= k0 + 2 {
        assert r[j] == s[j - k0 - 1 + k];
      }
    }
  }

  /** Where the raised stretch ends: normally the rectangle's right edge, but up to the
      next node when a kept node reaches past it (possible only for align > 1). */
  function RaisedEnd(s: seq<Seg>, i: nat, x: int, w: int): int
    requires i + 1 < |s|
  {
    Max(s[Keep(s, First(s, i, x), x + w)].x, x + w)
  }

  lemma JoinIncreasing(a: seq<Seg>, b: seq<Seg>)
    requires Increasing(a) && Increasing(b)
    requires |a| > 0 && |b| > 0 ==> a[|a| - 1].x < b[0].x
    ensures Increasing(a + b)
  {
    var r := a + b;
    forall i, j | 0 <= i < j < |r| ensures r[i].x < r[j].x {
      if i < |a| <= j {
        assert a[i].x <= a[|a| - 1].x < b[0].x <= b[j - |a|].x;
      }
    }
  }

  /** A list's height over c is that of its tail once the tail has started. */
  lemma {:induction false} HeightJoin(a: seq<Seg>, b: seq<Seg>, c: int)
    requires Increasing(b)
    ensures Height(a + b, c) == if |b| > 0 && b[0].x <= c then Height(b, c) else Height(a, c)
  {
    if |b| == 0 {
      assert a + b == a;
    } else if b[|b| - 1].x > c {
      assert (a + b)[..|a + b| - 1] == a + b[..|b| - 1];
      HeightJoin(a, b[..|b| - 1], c);
    }
  }

  lemma SpliceKeepsShape(s: seq<Seg>, width: int, i: nat, x: int, w: int, top: int)
    requires Wf(s, width) && i + 1 < |s| && s[i].x <= x < s[i + 1].x
    requires 0 < w && x + w <= width && top >= 0
    ensures Wf(Splice(s, i, x, w, top), width)
  {
    var k0 := First(s, i, x);
    var k := Keep(s, k0, x + w);
    SpliceAnywhere(s, width, k0, k, Seg(x, top), Seg(RaisedEnd(s, i, x, w), s[k].y));
  }

  lemma SpliceAnywhere(s: seq<Seg>, width: int, k0: nat, k: nat, p: Seg, q: Seg)
    requires Wf(s, width) && k0 <= k < |s|
    requires k0 > 0 ==> s[k0 - 1].x < p.x
    requires p.x < q.x && (k + 1 < |s| ==> q.x < s[k + 1].x) && (k + 1 == |s| ==> q.x == width)
    requires p.y >= 0 && q.y >= 0 && (k0 == 0 ==> p.x == 0)
    ensures Wf(s[..k0] + [p, q] + s[k + 1..], width)
  {
    var r := s[0..k0] + [p, q] + s[k + 1..|s|];
    SpliceIncreases(s, k0, k, p, q);
    forall j | 0 <= j < |r| ensures r[j].y >= 0 {
      assert r[j] in s || r[j] == p || r[j] == q;
    }
    assert r == s[..k0] + [p, q] + s[k + 1..];
  }

  lemma SpliceIncreases(s: seq<Seg>, k0: nat, k: nat, p: Seg, q: Seg)
    requires Increasing(s) && k0 <= k < |s|
    requires k0 > 0 ==> s[k0 - 1].x < p.x
    requires p.x < q.x && (k + 1 < |s| ==> q.x < s[k + 1].x)
    ensures Increasing(s[0..k0] + [p, q] + s[k + 1..|s|])
  {
    SliceIncreasing(s, 0, k0);
    SliceIncreasing(s, k + 1, |s|);
    assert Increasing([p, q]);
    hide Increasing;
    JoinIncreasing(s[0..k0], [p, q]);
    JoinIncreasing(s[0..k0] + [p, q], s[k + 1..|s|]);
  }

  lemma SliceIncreasing(s: seq<Seg>, lo: nat, hi: nat)
    requires Increasing(s) && lo <= hi <= |s|
    ensures Increasing(s[lo..hi])
  {
  }

  /** The splice raises exactly the columns from x to RaisedEnd, all of them to `top`. */
  lemma {:induction false} SpliceHeight(s: seq<Seg>, width: int, i: nat, x: int, w: int, top: int, c: int)
    requires Wf(s, width) && i + 1 < |s| && s[i].x <= x < s[i + 1].x
    requires 0 < w && x + w <= width && top >= 0
    requires 0 <= c < width
    ensures Height(Splice(s, i, x, w, top), c)
         == if x <= c < RaisedEnd(s, i, x, w) then top else Height(s, c)
  {
    var k0 := First(s, i, x);
    var k := Keep(s, k0, x + w);
    HeightAnywhere(s, k0, k, Seg(x, top), Seg(RaisedEnd(s, i, x, w), s[k].y), c);
  }

  lemma {:induction false} HeightAnywhere(s: seq<Seg>, k0: nat, k: nat, p: Seg, q: Seg, c: int)
    requires Increasing(s) && k0 <= k < |s|
    requires s[k0].x >= p.x && s[k].x <= q.x && q.y == s[k].y
    requires p.x < q.x && (k + 1 < |s| ==> q.x < s[k + 1].x)
    ensures Height(s[..k0] + [p, q] + s[k + 1..], c) == if p.x <= c < q.x then p.y else Height(s, c)
  {
    hide Height;
    var a, m, b := s[..k0], [p, q], s[k + 1..];
    assert Increasing(b);
    HeightJoin(a + m, b, c);
    HeightJoin(a, m, c);
    HeightOfTwo(p, q, c);
    HeightSplit(s, k0, c);
    HeightSplit(s, k + 1, c);
    if q.x <= c && (k + 1 == |s| || c < s[k + 1].x) {
      HeightLast(s[..k + 1], c);
    }
  }

  lemma {:induction false} HeightSplit(s: seq<Seg>, k: nat, c: int)
    requires Increasing(s) && k <= |s|
    ensures Height(s, c) == if k < |s| && s[k].x <= c then Height(s[k..], c) else Height(s[..k], c)
  {
    assert s == s[..k] + s[k..];
    HeightJoin(s[..k], s[k..], c);
  }

  lemma {:induction false} HeightOfTwo(p: Seg, q: Seg, c: int)
    requires p.x < q.x
    ensures Height([p, q], c) == if q.x <= c then q.y else if p.x <= c then p.y else Height([], c)
  {
    assert [p, q][..1] == [p];
    assert [p][..0] == [];
  }

  lemma {:induction false} HeightLast(s: seq<Seg>, c: int)
    requires |s| > 0 && s[|s| - 1].x <= c
    ensures Height(s, c) == s[|s| - 1].y
  {
  }

  /** The skyline never falls: every column of the raised stretch was at or below the
      place the search returned, because the window it searched includes node i. */
  lemma SpliceNeverFalls(s: seq<Seg>, width: int, i: nat, x: int, w: int, aligned: int, h: int, c: int)
    requires Wf(s, width) && i + 1 < |s| && s[i].x <= x < s[i + 1].x
    requires 0 < w <= aligned && x + aligned <= width && h >= 0
    requires 0 <= c < width
    ensures Height(Splice(s, i, x, w, Rest(s, x, aligned) + h), c) >= Height(s, c)
  {
    SpliceHeight(s, width, i, x, w, Rest(s, x, aligned) + h, c);
    if x + w <= c < RaisedEnd(s, i, x, w) {
      HeightAt(s, i, c);
      HeightAt(s, i, x);
    }
  }

  /** There are at most width + 1 nodes in an active list. */
  lemma NodeCount(s: seq<Seg>, width: int)
    requires Wf(s, width)
    ensures |s| <= width + 1
  {
    NodeIndex(s, |s| - 1);
  }

  lemma NodeIndex(s: seq<Seg>, i: nat)
    requires i < |s| && Increasing(s) && s[0].x >= 0
    ensures i <= s[i].x
  {
    if i > 0 {
      NodeIndex(s, i - 1);
    }
  }

  // ---------- packed rectangles ----------

  predicate Inside(b: Box, width: int, height: int) {
    0 <= b.x && b.x + b.w <= width && 0 <= b.y && b.y + b.h <= height && 0 < b.w && 0 < b.h
  }

  predicate Apart(a: Box, b: Box) {
    a.x + a.w <= b.x || b.x + b.w <= a.x || a.y + a.h <= b.y || b.y + b.h <= a.y
  }

  /** The skyline is nowhere below the top of b. */
  ghost predicate Under(s: seq<Seg>, b: Box) {
    forall c :: b.x <= c < b.x + b.w ==> Height(s, c) >= b.y + b.h
  }

  /** Packing soundness: every placed rectangle lies in the target and under the
      skyline, and no two overlap. */
  ghost predicate Sound(s: seq<Seg>, boxes: seq<Box>, width: int, height: int) {
    && (forall i :: 0 <= i < |boxes| ==> Inside(boxes[i], width, height) && Under(s, boxes[i]))
    && (forall i, j :: 0 <= i < j < |boxes| ==> Apart(boxes[i], boxes[j]))
  }

  lemma {:induction false} UnderStaysUnder(s: seq<Seg>, width: int, i: nat, x: int, w: int, aligned: int, h: int, b: Box)
    requires Wf(s, width) && i + 1 < |s| && s[i].x <= x < s[i + 1].x
    requires 0 < w <= aligned && x + aligned <= width && h >= 0
    requires 0 <= b.x && b.x + b.w <= width && Under(s, b)
    ensures Under(Splice(s, i, x, w, Rest(s, x, aligned) + h), b)
  {
    hide Splice;
    var r := Splice(s, i, x, w, Rest(s, x, aligned) + h);
    forall c | b.x <= c < b.x + b.w ensures Height(r, c) >= b.y + b.h {
      assert Height(s, c) >= b.y + b.h;
      SpliceNeverFalls(s, width, i, x, w, aligned, h, c);
    }
  }

  /** Placing a rectangle where it rests over its aligned width, and splicing only its
      real width, keeps the packing sound. */
  lemma {:induction false} PlaceKeepsSound(s: seq<Seg>, boxes: seq<Box>, width: int, height: int,
                                           i: nat, x: int, w: int, aligned: int, h: int)
    requires Wf(s, width) && i + 1 < |s| && s[i].x <= x < s[i + 1].x && 0 <= x
    requires 0 < w <= aligned && x + aligned <= width && 0 < h
    requires Rest(s, x, aligned) + h <= height
    requires Sound(s, boxes, width, height)
    ensures Sound(Splice(s, i, x, w, Rest(s, x, aligned) + h),
                  boxes + [Box(x, Rest(s, x, aligned), w, h)], width, height)
  {
    hide Splice, Under;
    var y := Rest(s, x, aligned);
    var r, b := Splice(s, i, x, w, y + h), Box(x, y, w, h);
    forall j | 0 <= j < |boxes| ensures Under(r, boxes[j]) && Apart(boxes[j], b) {
      UnderStaysUnder(s, width, i, x, w, aligned, h, boxes[j]);
      ApartFromResting(s, boxes[j], x, w, aligned, h);
    }
    NewBoxUnder(s, width, i, x, w, aligned, h);
  }

  lemma {:induction false} ApartFromResting(s: seq<Seg>, b: Box, x: int, w: int, aligned: int, h: int)
    requires Under(s, b) && 0 < w <= aligned && 0 < b.w
    ensures Apart(b, Box(x, Rest(s, x, aligned), w, h))
  {
    if b.x < x + w && x < b.x + b.w {
      assert Height(s, Max(x, b.x)) <= Rest(s, x, aligned);
    }
  }

  lemma {:induction false} NewBoxUnder(s: seq<Seg>, width: int, i: nat, x: int, w: int, aligned: int, h: int)
    requires Wf(s, width) && i + 1 < |s| && s[i].x <= x < s[i + 1].x && 0 <= x
    requires 0 < w <= aligned && x + aligned <= width && 0 < h
    ensures Under(Splice(s, i, x, w, Rest(s, x, aligned) + h), Box(x, Rest(s, x, aligned), w, h))
  {
    hide Splice;
    var top := Rest(s, x, aligned) + h;
    var r := Splice(s, i, x, w, top);
    forall c | x <= c < x + w ensures Height(r, c) >= top {
      SpliceHeight(s, width, i, x, w, top, c);
    }
  }
}
