/** Which neighbours core/libcorrect/tools/find_conv_optim_poly_annealing.c can draw: every set
    of inner bits can be flipped, but for one that the shuffle's last draw would be needed for. */
module Neighbors {
  import opened PolySearch
  import opened Annealing

  // ---------- lists of numbers ----------

  lemma {:induction false} CountOnce(s: seq<int>, x: int)
    requires AllDifferent(s)
    ensures multiset(s)[x] == if x in s then 1 else 0
  {
    if |s| > 0 {
      var n := |s| - 1;
      CountOnce(s[..n], x);
      assert s == s[..n] + [s[n]];
    }
  }

  /** The numbers below n that are not in the list. */
  function Others(ds: seq<int>, n: nat): seq<int> {
    if n == 0 then [] else Others(ds, n - 1) + if n - 1 in ds then [] else [n - 1]
  }

  lemma {:induction false} OthersCount(ds: seq<int>, n: nat, x: int)
    ensures multiset(Others(ds, n))[x] == if 0 <= x < n && x !in ds then 1 else 0
  {
    if n > 0 {
      OthersCount(ds, n - 1, x);
    }
  }

  /** Different numbers below n. */
  predicate Below(ds: seq<int>, n: nat) {
    AllDifferent(ds) && forall i :: 0 <= i < |ds| ==> 0 <= ds[i] < n
  }

  lemma {:induction false} NumbersCount(n: nat, x: int)
    ensures multiset(Numbers(n))[x] == if 0 <= x < n then 1 else 0
  {
    CountOnce(Numbers(n), x);
    assert 0 <= x < n ==> Numbers(n)[x] == x;
  }

  lemma {:induction false} CompletedAt(ds: seq<int>, n: nat, x: int)
    requires Below(ds, n)
    ensures multiset(ds)[x] + multiset(Others(ds, n))[x] == if 0 <= x < n then 1 else 0
  {
    hide Others, AllDifferent;
    CountOnce(ds, x);
    OthersCount(ds, n, x);
  }

  /** They and the others are all of them. */
  lemma {:induction false} Completed(ds: seq<int>, n: nat)
    requires Below(ds, n)
    ensures multiset(ds + Others(ds, n)) == multiset(Numbers(n)) && |ds| + |Others(ds, n)| == n
  {
    hide Others, Below, Numbers;
    var t := ds + Others(ds, n);
    forall x ensures multiset(t)[x] == multiset(Numbers(n))[x] {
      CompletedAt(ds, n, x);
      NumbersCount(n, x);
    }
    SameSize(t, Numbers(n));
  }

  lemma SameSize(a: seq<int>, b: seq<int>)
    requires multiset(a) == multiset(b)
    ensures |a| == |b|
  {
    assert |multiset(a)| == |a| && |multiset(b)| == |b|;
  }

  // ---------- what the shuffle can bring first ----------

  /** A shuffled list that begins with the numbers of ds, in some order. */
  ghost predicate BeginsWith(cs: seq<int>, ds: seq<int>, n: nat) {
    |ds| <= |cs| && forall x :: 0 <= x < n ==> (x in cs[..|ds|] <==> x in ds)
  }

  /** Up to all but two can come first in any order. */
  lemma AnyFew(ds: seq<int>, n: nat) returns (draws: nat -> nat)
    requires Below(ds, n) && |ds| + 2 <= n
    ensures BeginsWith(Shuffled(Numbers(n), 0, draws), ds, n)
  {
    Completed(ds, n);
    var t := ds + Others(ds, n);
    draws := DrawsFor(Numbers(n), 0, t);
    assert t[..|ds|] == ds && LastTwoSwapped(t)[..|ds|] == ds;
  }

  lemma AllIn(cs: seq<int>, n: nat, x: int)
    requires multiset(cs) == multiset(Numbers(n))
    ensures x in cs <==> 0 <= x < n
  {
    NumbersCount(n, x);
    assert x in cs <==> x in multiset(cs);
  }

  /** All of them come first together. */
  lemma AllOfThem(ds: seq<int>, n: nat) returns (draws: nat -> nat)
    requires Below(ds, n) && |ds| == n
    ensures BeginsWith(Shuffled(Numbers(n), 0, draws), ds, n)
  {
    draws := Zero;
    var cs := Shuffled(Numbers(n), 0, draws);
    ShuffledPermutes(Numbers(n), 0, draws);
    Completed(ds, n);
    assert cs[..n] == cs && ds + Others(ds, n) == ds;
    forall x | 0 <= x < n ensures x in cs && x in ds {
      AllIn(cs, n, x);
      AllIn(ds, n, x);
    }
  }

  /** All but one come first when the one can come last. */
  lemma AllButLast(ds: seq<int>, n: nat, m: nat, draws: nat -> nat)
    requires Below(ds, n) && |ds| + 1 == n
    requires m < n && m !in ds && Shuffled(Numbers(n), 0, draws)[n - 1] == m
    ensures BeginsWith(Shuffled(Numbers(n), 0, draws), ds, n)
  {
    hide Shuffled, Others, Numbers, Below;
    var cs := Shuffled(Numbers(n), 0, draws);
    ShuffledPermutes(Numbers(n), 0, draws);
    Completed(ds, n);
    LoneOther(ds, n, m);
    assert cs == cs[..n - 1] + [m];
    forall x | 0 <= x < n ensures x in cs[..n - 1] <==> x in ds {
      AllButOne(cs[..n - 1], m, n, x);
      AllButOne(ds, m, n, x);
    }
  }

  lemma {:induction false} LoneOther(ds: seq<int>, n: nat, m: nat)
    requires Below(ds, n) && |ds| + 1 == n && m < n && m !in ds
    ensures Others(ds, n) == [m]
  {
    hide Others, Below;
    Completed(ds, n);
    var o := Others(ds, n);
    OthersCount(ds, n, m);
    assert m in multiset(o) && |o| == 1;
  }

  /** A list that m completes to all numbers has the others. */
  lemma {:induction false} AllButOne(s: seq<int>, m: nat, n: nat, x: int)
    requires multiset(s + [m]) == multiset(Numbers(n)) && 0 <= x < n
    ensures x in s <==> x != m
  {
    NumbersCount(n, x);
    NumbersCount(n, m);
    hide Numbers;
    assert multiset(s + [m])[x] == multiset(s)[x] + if x == m then 1 else 0;
    assert x in s <==> x in multiset(s);
    AllIn(s + [m], n, m);
  }

  /** With no draw before it but 0, a position is reached as it was. */
  lemma {:induction false} UntilDrawn(s: seq<int>, i: nat, m: nat, draws: nat -> nat)
    requires i <= m && m + 2 < |s| && forall k: nat :: k < m ==> draws(k) == 0
    ensures Shuffled(s, i, draws) == Shuffled(s, m, draws)
    decreases m - i
  {
    if i < m {
      hide Chosen;
      ChosenIs(|s|, i, i);
      assert Swap(s, i, i) == s;
      UntilDrawn(s, i + 1, m, draws);
    }
  }

  /** Any number but the last but one can come last. */
  lemma CanBeLast(n: nat, m: nat) returns (draws: nat -> nat)
    requires n >= 2 && m < n && m != n - 2
    ensures Shuffled(Numbers(n), 0, draws)[n - 1] == m
  {
    if m == n - 1 {
      draws := Zero;
      NothingDrawn(Numbers(n), 0);
    } else {
      hide Chosen;
      draws := (k: nat) => if k == m then n - 1 - m else 0;
      UntilDrawn(Numbers(n), 0, m, draws);
      ChosenIs(n, m, n - 1);
      var s := Swap(Numbers(n), m, n - 1);
      OnlyLaterDraws(s, m + 1, draws, Zero);
      NothingDrawn(s, m + 1);
    }
  }

  /** The last but one cannot: it stays there until it is drawn, and then it is settled. */
  lemma {:induction false} NeverLast(s: seq<int>, i: nat, draws: nat -> nat, p: nat)
    requires AllDifferent(s) && i + 2 <= |s| && p < |s| && (p < i || p == |s| - 2)
    ensures Shuffled(s, i, draws)[|s| - 1] != s[p]
    decreases |s| - i
  {
    if i + 2 < |s| {
      hide Chosen;
      var j := Chosen(|s|, i, draws(i));
      NeverLast(Swap(s, i, j), i + 1, draws, if p == j then i else p);
    }
  }

  // ---------- bits and their numbers ----------

  ghost predicate Inner(bits: set<(int, int)>, rate: nat, w: nat) {
    forall p :: p in bits ==> 0 <= p.0 < rate && 1 <= p.1 <= w
  }

  function Bit(x: int, w: nat): (int, int)
    requires w >= 1
  {
    (x / w, x % w + 1)
  }

  function Number(p: (int, int), w: nat): int {
    w * p.0 + (p.1 - 1)
  }

  lemma NumberOfBit(x: int, w: nat, rate: nat)
    requires w >= 1 && 0 <= x < rate * w
    ensures Number(Bit(x, w), w) == x && 0 <= x / w < rate && 0 <= x % w < w
  {
    PlaceFits(w, rate, x);
    Composed(w, x);
  }

  lemma BitOfNumber(p: (int, int), w: nat, rate: nat)
    requires w >= 1 && 0 <= p.0 < rate && 1 <= p.1 <= w
    ensures Bit(Number(p, w), w) == p && 0 <= Number(p, w) < rate * w
  {
    Decomposed(w, p.0, p.1 - 1);
    ComposedFits(w, p.0, p.1 - 1, rate);
    assert w * rate == rate * w == Compose(w, rate, 0);
  }

  /** The numbers of some bits. */
  lemma {:induction false} NumbersOf(bits: set<(int, int)>, rate: nat, w: nat) returns (ds: seq<int>)
    requires w >= 1 && Inner(bits, rate, w)
    ensures |ds| == |bits| && Below(ds, rate * w) && NumbersFor(ds, bits, w)
    decreases |bits|
  {
    hide Bit, Number, Below, NumbersFor;
    if bits == {} {
      ds := [];
      NothingBelow(bits, rate * w, w);
    } else {
      var p :| p in bits;
      var rest := NumbersOf(bits - {p}, rate, w);
      BitOfNumber(p, w, rate);
      OneMoreNumber(rest, bits, p, rate * w, w);
      ds := rest + [Number(p, w)];
    }
  }

  /** The list has the numbers of just these bits. */
  ghost predicate NumbersFor(ds: seq<int>, bits: set<(int, int)>, w: nat)
    requires w >= 1
  {
    && (forall i :: 0 <= i < |ds| ==> Bit(ds[i], w) in bits)
    && (forall p :: p in bits ==> Number(p, w) in ds)
  }

  lemma NothingBelow(bits: set<(int, int)>, n: nat, w: nat)
    requires w >= 1
    ensures bits == {} ==> Below([], n) && NumbersFor([], bits, w)
  {
  }

  lemma OneMoreNumber(rest: seq<int>, bits: set<(int, int)>, p: (int, int), n: nat, w: nat)
    requires w >= 1 && p in bits && Below(rest, n) && NumbersFor(rest, bits - {p}, w)
    requires 0 <= Number(p, w) < n && Bit(Number(p, w), w) == p
    ensures Below(rest + [Number(p, w)], n) && NumbersFor(rest + [Number(p, w)], bits, w)
  {
    hide Bit, Number;
    var ds := rest + [Number(p, w)];
    forall q | q in bits ensures Number(q, w) in ds {
      assert q == p || q in bits - {p};
      assert ds[|rest|] == Number(p, w);
    }
    forall i | 0 <= i < |rest| ensures rest[i] != Number(p, w) {
      assert Bit(rest[i], w) in bits - {p};
    }
  }

  /** When the numbers come first in the list, just the bits are flipped. */
  lemma BitsFlipped(bits: set<(int, int)>, ds: seq<int>, cs: seq<int>, rate: nat, w: nat)
    requires w >= 1 && Inner(bits, rate, w) && |cs| == rate * w && IsPermutation(cs)
    requires |ds| <= |cs| && Below(ds, rate * w) && NumbersFor(ds, bits, w) && BeginsWith(cs, ds, rate * w)
    ensures FirstBits(cs, |ds|, w) == bits
  {
    hide Bit, Number;
    forall p | p in FirstBits(cs, |ds|, w) ensures p in bits {
      var i := FirstBitAt(cs, |ds|, w, p);
      assert cs[..|ds|][i] == cs[i];
      assert cs[i] in ds;
    }
    forall p | p in bits ensures p in FirstBits(cs, |ds|, w) {
      BitOfNumber(p, w, rate);
      assert Number(p, w) in cs[..|ds|];
      var i :| 0 <= i < |ds| && cs[..|ds|][i] == Number(p, w);
      FirstBitHolds(cs, |ds|, w, i);
    }
  }

  lemma FirstBitAt(cs: seq<int>, k: nat, w: nat, p: (int, int)) returns (i: nat)
    requires w >= 1 && k <= |cs| && p in FirstBits(cs, k, w)
    ensures i < k && Bit(cs[i], w) == p
  {
    i :| 0 <= i < k && p == (cs[i] / w, cs[i] % w + 1);
  }

  lemma FirstBitHolds(cs: seq<int>, k: nat, w: nat, i: nat)
    requires w >= 1 && i < k <= |cs|
    ensures Bit(cs[i], w) in FirstBits(cs, k, w)
  {
  }

  /** Draws above the threshold for k flips. */
  function Above(k: nat): nat -> bool {
    (j: nat) => j + 1 < k
  }

  lemma {:induction false} GeoReaches(k: nat, i: nat, max: nat)
    requires i < k <= max
    ensures Geo(Above(k), i, max) == k
    decreases k - i
  {
    if i + 1 < k {
      GeoReaches(k, i + 1, max);
    }
  }

  lemma {:induction false} BitsCount(cs: seq<int>, k: nat, w: nat)
    requires w >= 1 && k <= |cs| && IsPermutation(cs)
    ensures |FirstBits(cs, k, w)| == k
  {
    hide IsPermutation, Place, Places, FirstBits;
    FirstBitsArePlaces(cs, k, w);
    if k == 0 {
      NoBits(cs, w);
    } else {
      BitsCount(cs, k - 1, w);
      FirstBitsArePlaces(cs, k - 1, w);
      PlacesGrow(w, cs, k - 1);
    }
  }

  lemma NoBits(cs: seq<int>, w: nat)
    requires w >= 1
    ensures FirstBits(cs, 0, w) == {}
  {
  }

  // ---------- the neighbours ----------

  /** Some draws flip just these bits. */
  ghost predicate CanFlip(bits: set<(int, int)>, rate: nat, order: nat)
    requires order > 2
  {
    exists draws: nat -> nat, above: nat -> bool ::
      FlippedBy(draws, above, rate, order) == bits
  }

  /** The bits next_neighbor flips. */
  ghost function FlippedBy(draws: nat -> nat, above: nat -> bool, rate: nat, order: nat): set<(int, int)>
    requires order > 2
  {
    var n := rate * (order - 2);
    var k := Geo(above, 0, n);
    if 0 <= k <= n then FirstBits(Shuffled(Numbers(n), 0, draws), k, order - 2) else {}
  }

  /** The one set of bits that is never flipped: all but the last but one. */
  ghost predicate OneMissing(bits: set<(int, int)>, rate: nat, order: nat)
    requires order > 2
  {
    var n := rate * (order - 2);
    |bits| == n - 1 && Bit(n - 2, order - 2) !in bits
  }

  /** Every set of inner bits that is not empty is flipped by some draws, except that one. */
  lemma EveryNeighborButOne(bits: set<(int, int)>, rate: nat, order: nat)
    requires order > 2 && rate * (order - 2) >= 2 && Inner(bits, rate, order - 2) && |bits| > 0
    ensures CanFlip(bits, rate, order) <==> !OneMissing(bits, rate, order)
  {
    var w := order - 2;
    var n := rate * w;
    var ds := NumbersOf(bits, rate, w);
    hide Bit, Number, Shuffled, FirstBits, Geo, BeginsWith, Below, NumbersFor, Numbers, Others, FlippedBy, IsPermutation;
    Completed(ds, n);
    if OneMissing(bits, rate, order) {
      NotFlipped(bits, rate, order);
    } else {
      var draws := DrawsThat(bits, ds, rate, order);
      GeoReaches(|ds|, 0, n);
      Flips(bits, ds, draws, rate, order);
    }
  }

  lemma Flips(bits: set<(int, int)>, ds: seq<int>, draws: nat -> nat, rate: nat, order: nat)
    requires order > 2 && Inner(bits, rate, order - 2)
    requires var n, w := rate * (order - 2), order - 2;
      && |ds| <= n && Below(ds, n) && NumbersFor(ds, bits, w) && Geo(Above(|ds|), 0, n) == |ds|
      && BeginsWith(Shuffled(Numbers(n), 0, draws), ds, n)
    ensures CanFlip(bits, rate, order)
  {
    hide Bit, Number, Shuffled, FirstBits, Geo, BeginsWith, Below, NumbersFor, Numbers, FlippedBy, IsPermutation, Inner, Above;
    var n := rate * (order - 2);
    ShuffledPermutes(Numbers(n), 0, draws);
    BitsFlipped(bits, ds, Shuffled(Numbers(n), 0, draws), rate, order - 2);
    FlippedFirst(draws, Above(|ds|), |ds|, rate, order);
    assert FlippedBy(draws, Above(|ds|), rate, order) == bits;
  }

  lemma FlippedFirst(draws: nat -> nat, above: nat -> bool, k: nat, rate: nat, order: nat)
    requires order > 2 && k <= rate * (order - 2) && Geo(above, 0, rate * (order - 2)) == k
    ensures FlippedBy(draws, above, rate, order) == FirstBits(Shuffled(Numbers(rate * (order - 2)), 0, draws), k, order - 2)
  {
    hide Geo, Shuffled, FirstBits;
  }

  lemma DrawsThat(bits: set<(int, int)>, ds: seq<int>, rate: nat, order: nat) returns (draws: nat -> nat)
    requires order > 2 && rate * (order - 2) >= 2 && !OneMissing(bits, rate, order) && |ds| == |bits|
    requires Below(ds, rate * (order - 2)) && NumbersFor(ds, bits, order - 2) && |ds| <= rate * (order - 2)
    ensures BeginsWith(Shuffled(Numbers(rate * (order - 2)), 0, draws), ds, rate * (order - 2))
  {
    hide Bit, Number, Shuffled, BeginsWith;
    var w := order - 2;
    var n := rate * w;
    if |ds| + 2 <= n {
      draws := AnyFew(ds, n);
    } else if |ds| == n {
      draws := AllOfThem(ds, n);
    } else {
      var m := Missing(ds, n);
      NumberOfBit(n - 2, w, rate);
      draws := CanBeLast(n, m);
      AllButLast(ds, n, m, draws);
    }
  }

  lemma Missing(ds: seq<int>, n: nat) returns (m: nat)
    requires Below(ds, n) && |ds| < n
    ensures m < n && m !in ds
  {
    Completed(ds, n);
    var o := Others(ds, n);
    OthersCount(ds, n, o[0]);
    assert o[0] in multiset(o);
    m := o[0];
  }

  lemma NotFlipped(bits: set<(int, int)>, rate: nat, order: nat)
    requires order > 2 && rate * (order - 2) >= 2 && OneMissing(bits, rate, order)
    ensures !CanFlip(bits, rate, order)
  {
    hide Bit, Shuffled, FirstBits, Geo;
    var w := order - 2;
    var n := rate * w;
    forall draws: nat -> nat, above: nat -> bool ensures FlippedBy(draws, above, rate, order) != bits {
      var cs := Shuffled(Numbers(n), 0, draws);
      ShuffledPermutes(Numbers(n), 0, draws);
      NeverLast(Numbers(n), 0, draws, n - 2);
      AllIn(cs, n, n - 2);
      var i :| 0 <= i < |cs| && cs[i] == n - 2;
      var k := Geo(above, 0, n);
      if 0 <= k <= n {
        BitsCount(cs, k, w);
        if k == n - 1 {
          FirstBitHolds(cs, k, w, i);
        }
      }
    }
  }
}
