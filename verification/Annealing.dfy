/** The neighbours of core/libcorrect/tools/find_conv_optim_poly_annealing.c: a shuffle in
    place, a geometric number of flips, and the bits they flip. */
module Annealing {
  import opened PolySearch

  /** A 16-bit coefficient, lowest bit first. */
  type Bits = s: seq<bool> | |s| == 16 witness seq(16, _ => false)

  // ---------- shuffle ----------

  function Swap(s: seq<int>, i: nat, j: nat): (r: seq<int>)
    requires i < |s| && j < |s|
    ensures |r| == |s|
  {
    s[i := s[j]][j := s[i]]
  }

  /** The position a draw chooses for position i. */
  function Chosen(len: nat, i: nat, draw: nat): (j: nat)
    requires i < len
    ensures i <= j < len
  {
    draw % (len - i) + i
  }

  /** The shuffle from position i on, the i-th draw choosing the i-th element. */
  function Shuffled(s: seq<int>, i: nat, draws: nat -> nat): (r: seq<int>)
    requires i <= |s|
    ensures |r| == |s|
    decreases |s| - i
  {
    if i + 2 >= |s| then s else Shuffled(Swap(s, i, Chosen(|s|, i, draws(i))), i + 1, draws)
  }

  predicate AllDifferent(s: seq<int>) {
    forall i, j :: 0 <= i < j < |s| ==> s[i] != s[j]
  }

  /** The numbers from 0, each once, in some order. */
  predicate IsPermutation(s: seq<int>) {
    AllDifferent(s) && forall i :: 0 <= i < |s| ==> 0 <= s[i] < |s|
  }

  lemma SwapPermutes(s: seq<int>, i: nat, j: nat)
    requires i < |s| && j < |s|
    ensures multiset(Swap(s, i, j)) == multiset(s) && (IsPermutation(s) ==> IsPermutation(Swap(s, i, j)))
  {
  }

  /** Whatever is drawn, the shuffle only reorders. */
  lemma {:induction false} ShuffledPermutes(s: seq<int>, i: nat, draws: nat -> nat)
    requires i <= |s|
    ensures multiset(Shuffled(s, i, draws)) == multiset(s)
    ensures IsPermutation(s) ==> IsPermutation(Shuffled(s, i, draws))
    decreases |s| - i
  {
    if i + 2 < |s| {
      hide Swap, IsPermutation, Chosen;
      var j := Chosen(|s|, i, draws(i));
      SwapPermutes(s, i, j);
      ShuffledPermutes(Swap(s, i, j), i + 1, draws);
    }
  }

  // ---------- which orders the shuffle reaches ----------

  ghost predicate Reachable(s: seq<int>, t: seq<int>) {
    exists draws :: Shuffled(s, 0, draws) == t
  }

  function LastTwoSwapped(t: seq<int>): seq<int>
    requires |t| >= 2
  {
    Swap(t, |t| - 2, |t| - 1)
  }

  /** What lies before the position is settled, and the draw there settles the position. */
  lemma {:induction false} ShuffledSettles(s: seq<int>, i: nat, draws: nat -> nat)
    requires i <= |s|
    ensures Shuffled(s, i, draws)[..i] == s[..i]
    ensures i + 2 < |s| ==> Shuffled(s, i, draws)[i] == s[Chosen(|s|, i, draws(i))]
    decreases |s| - i
  {
    if i + 2 < |s| {
      var s' := Swap(s, i, Chosen(|s|, i, draws(i)));
      ShuffledSettles(s', i + 1, draws);
      assert Shuffled(s', i + 1, draws)[i] == s'[..i + 1][i];
      assert s'[..i + 1][..i] == s[..i];
      assert Shuffled(s', i + 1, draws)[..i] == Shuffled(s', i + 1, draws)[..i + 1][..i];
    }
  }

  /** No two runs of the shuffle differ in the order of the last two only. */
  lemma {:induction false} NotBothOrders(s: seq<int>, i: nat, draws: nat -> nat, others: nat -> nat)
    requires AllDifferent(s) && i + 2 <= |s|
    ensures Shuffled(s, i, draws) != LastTwoSwapped(Shuffled(s, i, others))
    decreases |s| - i
  {
    if i + 2 < |s| {
      var j, k := Chosen(|s|, i, draws(i)), Chosen(|s|, i, others(i));
      ShuffledSettles(s, i, draws);
      ShuffledSettles(s, i, others);
      if j == k {
        NotBothOrders(Swap(s, i, j), i + 1, draws, others);
      } else {
        assert s[j] != s[k];
        assert LastTwoSwapped(Shuffled(s, i, others))[i] == s[k];
      }
    }
  }

  lemma {:induction false} OnlyLaterDraws(s: seq<int>, i: nat, draws: nat -> nat, others: nat -> nat)
    requires i <= |s| && forall k: nat :: k >= i ==> draws(k) == others(k)
    ensures Shuffled(s, i, draws) == Shuffled(s, i, others)
    decreases |s| - i
  {
    if i + 2 < |s| {
      OnlyLaterDraws(Swap(s, i, Chosen(|s|, i, draws(i))), i + 1, draws, others);
    }
  }

  lemma FindFrom(s: seq<int>, t: seq<int>, i: nat) returns (j: nat)
    requires i < |s| == |t| && s[..i] == t[..i] && multiset(s) == multiset(t)
    ensures i <= j < |s| && s[j] == t[i]
    ensures multiset(s[i..]) == multiset(t[i..])
  {
    assert s == s[..i] + s[i..] && t == t[..i] + t[i..];
    assert multiset(s[i..]) == multiset(s) - multiset(s[..i]) == multiset(t[i..]);
    assert t[i..][0] in multiset(s[i..]);
    var k :| 0 <= k < |s| - i && s[i..][k] == t[i];
    j := i + k;
  }

  /** Draws that bring about a given order, but for the last two. */
  lemma DrawsFor(s: seq<int>, i: nat, t: seq<int>) returns (draws: nat -> nat)
    requires i + 2 <= |s| == |t| && s[..i] == t[..i] && multiset(s) == multiset(t)
    ensures Shuffled(s, i, draws) == t || Shuffled(s, i, draws) == LastTwoSwapped(t)
    decreases |s| - i
  {
    hide Chosen, Swap;
    var j := FindFrom(s, t, i);
    if i + 2 == |s| {
      draws := _ => 0;
      LastTwoAre(s, t, i);
    } else {
      var s' := Swap(s, i, j);
      SwapPermutes(s, i, j);
      SwapSettles(s, i, j, t);
      var rest := DrawsFor(s', i + 1, t);
      draws := (k: nat) => if k == i then j - i else rest(k);
      OnlyLaterDraws(s', i + 1, draws, rest);
      ChosenIs(|s|, i, j);
    }
  }

  lemma ChosenIs(len: nat, i: nat, j: nat)
    requires i <= j < len
    ensures Chosen(len, i, j - i) == j
  {
  }

  lemma SwapSettles(s: seq<int>, i: nat, j: nat, t: seq<int>)
    requires i <= j < |s| == |t| && s[..i] == t[..i] && s[j] == t[i]
    ensures Swap(s, i, j)[..i + 1] == t[..i + 1]
  {
    assert Swap(s, i, j)[..i + 1] == s[..i] + [t[i]] == t[..i + 1];
  }

  lemma LastTwoAre(s: seq<int>, t: seq<int>, i: nat)
    requires i + 2 == |s| == |t| && s[..i] == t[..i] && multiset(s[i..]) == multiset(t[i..])
    ensures s == t || s == LastTwoSwapped(t)
  {
    LastTwo(s, i);
    LastTwo(t, i);
    SamePair(s[i], s[i + 1], t[i], t[i + 1]);
    LastTwo(LastTwoSwapped(t), i);
  }

  lemma LastTwo(s: seq<int>, i: nat)
    requires i + 2 == |s|
    ensures s == s[..i] + [s[i], s[i + 1]] && multiset(s[i..]) == multiset{s[i], s[i + 1]}
  {
    assert s[i..] == [s[i], s[i + 1]];
  }

  lemma SamePair(a: int, b: int, c: int, d: int)
    requires multiset{a, b} == multiset{c, d}
    ensures (a == c && b == d) || (a == d && b == c)
  {
    assert a in multiset{c, d} && b in multiset{c, d};
    assert c in multiset{a, b} && d in multiset{a, b};
  }

  /** The shuffle stops one draw early: of every order of distinct elements and the order with
      the last two exchanged it reaches exactly one. */
  lemma HalfReachable(s: seq<int>, t: seq<int>)
    requires |s| >= 2 && AllDifferent(s) && multiset(s) == multiset(t)
    ensures |t| == |s| && (Reachable(s, t) <==> !Reachable(s, LastTwoSwapped(t)))
  {
    assert |t| == |multiset(t)| == |s|;
    var draws := DrawsFor(s, 0, t);
    assert Reachable(s, t) || Reachable(s, LastTwoSwapped(t));
    if Reachable(s, t) && Reachable(s, LastTwoSwapped(t)) {
      var d :| Shuffled(s, 0, d) == t;
      var e :| Shuffled(s, 0, e) == LastTwoSwapped(t);
      NotBothOrders(s, 0, e, d);
    }
  }

  lemma {:induction false} NothingDrawn(s: seq<int>, i: nat)
    requires i <= |s|
    ensures Shuffled(s, i, Zero) == s
    decreases |s| - i
  {
    if i + 2 < |s| {
      hide Chosen;
      ChosenIs(|s|, i, i);
      assert Swap(s, i, i) == s;
      NothingDrawn(s, i + 1);
    }
  }

  function Zero(k: nat): nat { 0 }

  /** Whatever is drawn, the shuffle never just exchanges the last two elements. */
  lemma {:induction false} LastTwoNotExchanged(s: seq<int>, draws: nat -> nat)
    requires |s| >= 2 && AllDifferent(s)
    ensures Shuffled(s, 0, draws) != LastTwoSwapped(s)
  {
    NothingDrawn(s, 0);
    NotBothOrders(s, 0, draws, Zero);
  }

  /** shuffle; the bound of its loop is len - 2 in unsigned arithmetic, so there must be two
      elements. */
  method Shuffle(a: array<int>, draws: nat -> nat)
    requires a.Length >= 2
    modifies a
    ensures a[..] == Shuffled(old(a[..]), 0, draws)
  {
    for i := 0 to a.Length - 2
      invariant Shuffled(a[..], i, draws) == Shuffled(old(a[..]), 0, draws)
    {
      var j := Chosen(a.Length, i, draws(i));
      ghost var was := a[..];
      var temp := a[i];
      a[i] := a[j];
      a[j] := temp;
      assert a[..] == Swap(was, i, j);
    }
  }

  // ---------- rand_geo ----------

  /** One more than the number of draws above the threshold that come first, up to max. */
  function Geo(above: nat -> bool, from: nat, max: int): int
    decreases max - from
  {
    if from + 1 < max && above(from) then Geo(above, from + 1, max) else from + 1
  }

  method RandGeo(above: nat -> bool, max: int) returns (geo: int)
    ensures geo == Geo(above, 0, max) && 1 <= geo && (max >= 1 ==> geo <= max)
    ensures forall k :: 0 <= k < geo - 1 ==> above(k)
    ensures geo < max ==> !above(geo - 1)
  {
    geo := 1;
    while geo < max
      invariant 1 <= geo && (max >= 1 ==> geo <= max)
      invariant Geo(above, geo - 1, max) == Geo(above, 0, max)
      invariant forall k :: 0 <= k < geo - 1 ==> above(k)
      decreases max - geo
    {
      if above(geo - 1) {
        geo := geo + 1;
      } else {
        break;
      }
    }
  }

  // ---------- next_neighbor ----------

  /** The bit of a coefficient that a number stands for: never the lowest or the highest. */
  function Place(w: nat, c: nat): (nat, nat)
    requires w >= 1
  {
    (High(w, c), Low(w, c) + 1)
  }

  /** The bits in which two lists of coefficients differ. */
  function Differences(a: seq<Bits>, b: seq<Bits>): set<(nat, nat)>
    requires |a| == |b|
  {
    set i: nat, k: nat | i < |a| && k < 16 && a[i][k] != b[i][k] :: (i, k)
  }

  function Places(w: nat, cs: seq<int>): set<(nat, nat)>
    requires w >= 1 && forall i :: 0 <= i < |cs| ==> cs[i] >= 0
  {
    set i | 0 <= i < |cs| :: Place(w, cs[i])
  }

  lemma PlaceDetermines(w: nat, c: nat, d: nat)
    requires w >= 1 && Place(w, c) == Place(w, d)
    ensures c == d
  {
    Composed(w, c);
    Composed(w, d);
  }

  lemma PlaceFits(w: nat, rate: nat, c: nat)
    requires w >= 1 && c < rate * w
    ensures Place(w, c).0 < rate && 1 <= Place(w, c).1 <= w
  {
    Composed(w, c);
    assert rate * w == w * rate == Compose(w, rate, 0);
    HighFits(w, c, rate);
  }

  function Flip(bits: seq<Bits>, place: (nat, nat)): (r: seq<Bits>)
    requires place.0 < |bits| && place.1 < 16
    ensures |r| == |bits|
  {
    bits[place.0 := bits[place.0][place.1 := !bits[place.0][place.1]]]
  }

  /** Flipping a bit that is as it was makes it the one more that differs. */
  lemma FlipDiffers(start: seq<Bits>, now: seq<Bits>, place: (nat, nat))
    requires |start| == |now| && place.0 < |now| && place.1 < 16 && place !in Differences(start, now)
    ensures Differences(start, Flip(now, place)) == Differences(start, now) + {place}
  {
    var next := Flip(now, place);
    forall i: nat, k: nat | i < |start| && k < 16
      ensures start[i][k] != next[i][k] <==> start[i][k] != now[i][k] || (i, k) == place
    {
    }
  }

  lemma PlacesGrow(w: nat, cs: seq<int>, n: nat)
    requires w >= 1 && n < |cs| && IsPermutation(cs)
    ensures Places(w, cs[..n + 1]) == Places(w, cs[..n]) + {Place(w, cs[n])}
    ensures Place(w, cs[n]) !in Places(w, cs[..n])
  {
    assert cs[..n + 1] == cs[..n] + [cs[n]];
    forall i | 0 <= i < n ensures Place(w, cs[..n][i]) != Place(w, cs[n]) {
      if Place(w, cs[i]) == Place(w, cs[n]) {
        PlaceDetermines(w, cs[i], cs[n]);
      }
    }
    forall p | p in Places(w, cs[..n + 1]) ensures p in Places(w, cs[..n]) + {Place(w, cs[n])} {
      var i :| 0 <= i < n + 1 && p == Place(w, cs[..n + 1][i]);
      if i < n {
        assert cs[..n + 1][i] == cs[..n][i];
      }
    }
    forall p | p in Places(w, cs[..n]) ensures p in Places(w, cs[..n + 1]) {
      var i :| 0 <= i < n && p == Place(w, cs[..n][i]);
      assert cs[..n + 1][i] == cs[..n][i];
    }
    assert cs[..n + 1][n] == cs[n];
  }

  /** The list coeffs before it is shuffled. */
  function Numbers(n: nat): (s: seq<int>)
    ensures |s| == n && IsPermutation(s)
  {
    seq(n, i requires 0 <= i < n => i)
  }

  /** The bits that the first k numbers of a list stand for, w to a coefficient. */
  ghost function FirstBits(cs: seq<int>, k: nat, w: nat): set<(int, int)>
    requires w >= 1 && k <= |cs|
  {
    set i | 0 <= i < k :: (cs[i] / w, cs[i] % w + 1)
  }

  lemma FirstBitsArePlaces(cs: seq<int>, k: nat, w: nat)
    requires w >= 1 && k <= |cs| && IsPermutation(cs)
    ensures PlacesUpTo(w, cs, k) == FirstBits(cs, k, w)
  {
    forall p | p in FirstBits(cs, k, w) ensures p in PlacesUpTo(w, cs, k) {
      var i :| 0 <= i < k && p == (cs[i] / w, cs[i] % w + 1);
      assert cs[..k][i] == cs[i] && p == Place(w, cs[i]);
    }
    forall p | p in PlacesUpTo(w, cs, k) ensures p in FirstBits(cs, k, w) {
      var i :| 0 <= i < k && p == Place(w, cs[..k][i]);
      assert cs[..k][i] == cs[i] && p == (cs[i] / w, cs[i] % w + 1);
    }
  }

  /** next_neighbor: the neighbour differs from the start in exactly as many bits as were
      drawn, at least one, none of them the lowest or the highest of its coefficient: those
      that come first in the shuffled list. */
  method NextNeighbor(start: seq<Bits>, neighbor: array<Bits>, order: nat, draws: nat -> nat, above: nat -> bool)
    returns (nflips: nat)
    requires 2 <= order <= 16 && neighbor.Length == |start| && |start| * (order - 2) >= 2
    modifies neighbor
    ensures nflips == Geo(above, 0, |start| * (order - 2)) && 1 <= nflips <= |start| * (order - 2)
    ensures |Differences(start, neighbor[..])| == nflips
    ensures var bits := FirstBits(Shuffled(Numbers(|start| * (order - 2)), 0, draws), nflips, order - 2);
      Differences(start, neighbor[..]) == bits
    ensures forall p :: p in Differences(start, neighbor[..]) ==> 1 <= p.1 <= order - 2
  {
    hide Geo, Shuffled, Place, Flip, Differences, Places, IsPermutation, Numbers, FirstBits;
    var w := order - 2;
    var n := |start| * w;
    assert w >= 1 && n >= 2;
    var coeffs := new int[n](i => i);
    InOrder(coeffs[..]);
    ShuffledPermutes(coeffs[..], 0, draws);
    Shuffle(coeffs, draws);
    ghost var cs := coeffs[..];
    forall k | 0 <= k < |start| {
      neighbor[k] := start[k];
    }
    assert neighbor[..] == start;
    NothingDiffers(start, w, cs);
    var geo := RandGeo(above, n);
    nflips := geo;
    for i := 0 to nflips
      invariant coeffs[..] == cs && IsPermutation(cs) && |cs| == n
      invariant Differences(start, neighbor[..]) == PlacesUpTo(w, cs, i)
      invariant |PlacesUpTo(w, cs, i)| == i
      invariant forall p :: p in PlacesUpTo(w, cs, i) ==> 1 <= p.1 <= w
    {
      InRange(cs, i);
      PlaceFits(w, |start|, cs[i]);
      PlacesGrow(w, cs, i);
      FlipDiffers(start, neighbor[..], Place(w, cs[i]));
      FlipBit(neighbor, Place(w, coeffs[i]));
    }
    FirstBitsArePlaces(cs, nflips, w);
  }

  /** The bits of the first n numbers. */
  ghost function PlacesUpTo(w: nat, cs: seq<int>, n: nat): set<(nat, nat)>
    requires w >= 1 && n <= |cs| && IsPermutation(cs)
  {
    Places(w, cs[..n])
  }

  method FlipBit(neighbor: array<Bits>, place: (nat, nat))
    requires place.0 < neighbor.Length && place.1 < 16
    modifies neighbor
    ensures neighbor[..] == Flip(old(neighbor[..]), place)
  {
    var bits := neighbor[place.0];
    neighbor[place.0] := bits[place.1 := !bits[place.1]];
  }

  lemma InOrder(s: seq<int>)
    requires forall i :: 0 <= i < |s| ==> s[i] == i
    ensures s == Numbers(|s|)
  {
  }

  lemma InRange(s: seq<int>, i: nat)
    requires IsPermutation(s) && i < |s|
    ensures 0 <= s[i] < |s|
  {
  }

  lemma NothingDiffers(start: seq<Bits>, w: nat, cs: seq<int>)
    requires w >= 1 && IsPermutation(cs)
    ensures Differences(start, start) == {} == PlacesUpTo(w, cs, 0)
  {
  }
}
