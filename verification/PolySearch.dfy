/** The exhaustive search of core/libcorrect/tools/find_conv_optim_poly.c: the enumeration of
    all polynomials by adding 2 with carry, and the rounds that eliminate them. */
module PolySearch {
  import opened Common
  import opened Sorting

  type Poly = seq<int>

  function Power(base: nat, e: nat): nat {
    if e == 0 then 1 else base * Power(base, e - 1)
  }

  /** The coefficients are the odd numbers from startcoeff to maxcoeff. */
  function MaxCoeff(order: nat): int {
    Power(2, order) - 1
  }

  function StartCoeff(order: nat): int
    requires order >= 1
  {
    Power(2, order - 1) + 1
  }

  function NumPolys(order: nat): (n: nat)
    requires order >= 2
    ensures n >= 1
  {
    CoeffRange(order);
    (MaxCoeff(order) - StartCoeff(order)) / 2 + 1
  }

  lemma {:induction false} CoeffRange(order: nat)
    requires order >= 2
    ensures MaxCoeff(order) - StartCoeff(order) == 2 * (Power(2, order - 2) - 1) && Power(2, order - 2) >= 1
  {
    PowerIsPositive(2, order - 2);
    assert Power(2, order) == 2 * Power(2, order - 1);
    assert Power(2, order - 1) == 2 * Power(2, order - 2);
  }

  lemma LastPoly(order: nat)
    requires order >= 2
    ensures StartCoeff(order) + 2 * (NumPolys(order) - 1) == MaxCoeff(order)
  {
    CoeffRange(order);
    hide Power, MaxCoeff, StartCoeff;
  }

  lemma {:induction false} PowerIsPositive(base: nat, e: nat)
    requires base >= 1
    ensures Power(base, e) >= 1
  {
    if e > 0 {
      PowerIsPositive(base, e - 1);
    }
  }

  predicate Coeff(order: nat, c: int)
    requires order >= 2
  {
    StartCoeff(order) <= c <= MaxCoeff(order) && (c - StartCoeff(order)) % 2 == 0
  }

  /** The coefficients are the odd numbers of just `order` binary digits. */
  lemma CoeffIsOdd(order: nat, c: int)
    requires order >= 2
    ensures Coeff(order, c) <==> c % 2 == 1 && Power(2, order - 1) <= c < Power(2, order)
  {
    hide Power;
    PowerTwice(order - 2);
    PowerTwice(order - 1);
    OddBetween(Power(2, order - 2), c);
  }

  lemma PowerTwice(e: nat)
    ensures Power(2, e + 1) == 2 * Power(2, e)
  {
  }

  lemma OddBetween(p: int, c: int)
    ensures 2 * p + 1 <= c <= 4 * p - 1 && (c - (2 * p + 1)) % 2 == 0 <==> c % 2 == 1 && 2 * p <= c < 4 * p
  {
  }

  /** A polynomial for every output: `rate` coefficients. */
  predicate IsPoly(order: nat, rate: nat, p: Poly)
    requires order >= 2
  {
    |p| == rate && forall j :: 0 <= j < rate ==> Coeff(order, p[j])
  }

  // ---------- one digit and the rest ----------

  /** The number with lowest digit d above which q stands. */
  function Compose(base: nat, q: nat, d: nat): nat {
    base * q + d
  }

  function Low(base: nat, n: nat): nat
    requires base >= 1
  {
    n % base
  }

  function High(base: nat, n: nat): nat
    requires base >= 1
  {
    n / base
  }

  lemma NoLarger(k: nat, a: nat, b: nat)
    requires a <= b
    ensures k * a <= k * b
  {
  }

  lemma OneMore(k: nat, a: nat)
    ensures k * (a + 1) == k * a + k
  {
  }

  lemma Composed(base: nat, n: nat)
    requires base >= 1
    ensures Compose(base, High(base, n), Low(base, n)) == n && Low(base, n) < base
  {
  }

  lemma Decomposed(base: nat, q: nat, d: nat)
    requires d < base
    ensures High(base, Compose(base, q, d)) == q && Low(base, Compose(base, q, d)) == d
  {
    var n := Compose(base, q, d);
    Composed(base, n);
    OneMore(base, q);
    OneMore(base, n / base);
    Smaller(base, q, n / base + 1);
    Smaller(base, n / base, q + 1);
  }

  lemma CountsUp(base: nat, q: nat, d: nat)
    requires d < base
    ensures Compose(base, q, d) + 1 == if d + 1 < base then Compose(base, q, d + 1) else Compose(base, q + 1, 0)
  {
    OneMore(base, q);
  }

  lemma ComposedFits(base: nat, q: nat, d: nat, m: nat)
    requires d < base && q < m
    ensures Compose(base, q, d) < Compose(base, m, 0)
  {
    OneMore(base, q);
    NoLarger(base, q + 1, m);
  }

  lemma HighFits(base: nat, n: nat, m: nat)
    requires base >= 1 && n < Compose(base, m, 0)
    ensures High(base, n) < m
  {
    Composed(base, n);
    Smaller(base, High(base, n), m);
  }

  lemma PowerComposed(base: nat, e: nat)
    requires e >= 1
    ensures Power(base, e) == Compose(base, Power(base, e - 1), 0)
  {
  }

  // ---------- counting ----------

  /** The n-th polynomial: n in base NumPolys, lowest digit first. */
  function Nth(order: nat, rate: nat, n: nat): (p: Poly)
    requires order >= 2
    ensures |p| == rate
    decreases rate
  {
    if rate == 0 then []
    else [StartCoeff(order) + 2 * Low(NumPolys(order), n)] + Nth(order, rate - 1, High(NumPolys(order), n))
  }

  /** A coefficient's place among the coefficients. */
  function Digit(order: nat, c: int): (d: nat)
    requires order >= 2 && Coeff(order, c)
    ensures d < NumPolys(order) && c == StartCoeff(order) + 2 * d
  {
    LastPoly(order);
    (c - StartCoeff(order)) / 2
  }

  /** The number of a polynomial. */
  function Number(order: nat, p: Poly): (n: nat)
    requires order >= 2 && IsPoly(order, |p|, p)
  {
    if |p| == 0 then 0
    else
      assert Coeff(order, p[0]);
      Compose(NumPolys(order), Number(order, p[1..]), Digit(order, p[0]))
  }

  /** Adding 2 with carry. */
  function Successor(order: nat, p: Poly): (q: Poly)
    requires order >= 2
    ensures |q| == |p|
  {
    if |p| == 0 then []
    else if p[0] < MaxCoeff(order) then [p[0] + 2] + p[1..]
    else [StartCoeff(order)] + Successor(order, p[1..])
  }

  lemma {:induction false} FirstOfNth(order: nat, rate: nat, q: nat, d: nat)
    requires order >= 2 && rate > 0 && d < NumPolys(order)
    ensures Nth(order, rate, Compose(NumPolys(order), q, d)) == [StartCoeff(order) + 2 * d] + Nth(order, rate - 1, q)
  {
    hide StartCoeff, NumPolys, Compose, Low, High;
    Decomposed(NumPolys(order), q, d);
  }

  lemma {:induction false} SuccessorFirst(order: nat, p: Poly)
    requires order >= 2
    ensures Successor(order, p) ==
      if |p| == 0 then []
      else if p[0] < MaxCoeff(order) then [p[0] + 2] + p[1..]
      else [StartCoeff(order)] + Successor(order, p[1..])
  {
  }

  /** Adding 2 with carry is counting. */
  lemma SuccessorCounts(order: nat, rate: nat, n: nat)
    requires order >= 2
    ensures Successor(order, Nth(order, rate, n)) == Nth(order, rate, n + 1)
    decreases rate
  {
    hide StartCoeff, MaxCoeff, NumPolys, Compose, Low, High, Successor, Nth;
    LastPoly(order);
    SuccessorFirst(order, Nth(order, rate, n));
    if rate == 0 {
      assert Nth(order, rate, n) == [] == Nth(order, rate, n + 1);
    } else {
      var base := NumPolys(order);
      var q, d := High(base, n), Low(base, n);
      Composed(base, n);
      CountsUp(base, q, d);
      FirstOfNth(order, rate, q, d);
      if d + 1 < base {
        FirstOfNth(order, rate, q, d + 1);
      } else {
        FirstOfNth(order, rate, q + 1, 0);
        SuccessorCounts(order, rate - 1, q);
      }
    }
  }

  lemma {:induction false} NthIsPoly(order: nat, rate: nat, n: nat)
    requires order >= 2
    ensures IsPoly(order, rate, Nth(order, rate, n))
    decreases rate
  {
    LastPoly(order);
    hide StartCoeff, MaxCoeff, NumPolys, Compose, Low, High;
    if rate > 0 {
      Composed(NumPolys(order), n);
      NthIsPoly(order, rate - 1, High(NumPolys(order), n));
    }
  }

  lemma {:induction false} FirstDigit(order: nat, p: Poly)
    requires order >= 2 && IsPoly(order, |p|, p) && |p| > 0
    ensures Coeff(order, p[0]) && IsPoly(order, |p| - 1, p[1..])
    ensures Number(order, p) == Compose(NumPolys(order), Number(order, p[1..]), Digit(order, p[0]))
  {
    hide StartCoeff, NumPolys, Compose, Digit;
    assert Coeff(order, p[0]);
  }

  /** Counting reaches every number once: a number is that of its polynomial. */
  lemma {:induction false} NumberOfNth(order: nat, rate: nat, n: nat)
    requires order >= 2 && n < Power(NumPolys(order), rate)
    ensures IsPoly(order, rate, Nth(order, rate, n)) && Number(order, Nth(order, rate, n)) == n
    decreases rate
  {
    NthIsPoly(order, rate, n);
    if rate > 0 {
      hide StartCoeff, NumPolys, Number, Coeff, Nth, Compose, Low, High, Power, IsPoly;
      var base := NumPolys(order);
      var p, q, d := Nth(order, rate, n), High(base, n), Low(base, n);
      Composed(base, n);
      PowerComposed(base, rate);
      HighFits(base, n, Power(base, rate - 1));
      NumberOfNth(order, rate - 1, q);
      FirstOfNth(order, rate, q, d);
      assert p[1..] == Nth(order, rate - 1, q);
      FirstDigit(order, p);
    }
  }

  /** Every polynomial is the one of its number, and its number is in range. */
  lemma {:induction false} NthOfNumber(order: nat, p: Poly)
    requires order >= 2 && IsPoly(order, |p|, p)
    ensures Number(order, p) < Power(NumPolys(order), |p|) && Nth(order, |p|, Number(order, p)) == p
    decreases |p|
  {
    if |p| > 0 {
      hide StartCoeff, NumPolys, Number, Coeff, Nth, Compose, Power, IsPoly;
      FirstDigit(order, p);
      var base, q, d := NumPolys(order), Number(order, p[1..]), Digit(order, p[0]);
      NthOfNumber(order, p[1..]);
      FirstOfNth(order, |p|, q, d);
      PowerComposed(base, |p|);
      ComposedFits(base, q, d, Power(base, |p| - 1));
      assert p == [p[0]] + p[1..];
    }
  }

  /** A list of all polynomials: each occurs in it exactly once. */
  ghost predicate ListsAll(order: nat, rate: nat, list: seq<Poly>)
    requires order >= 2
  {
    && (forall i :: 0 <= i < |list| ==> IsPoly(order, rate, list[i]))
    && (forall p :: IsPoly(order, rate, p) ==> p in list)
    && (forall i, j :: 0 <= i < j < |list| ==> list[i] != list[j])
  }

  lemma {:induction false} CountedListsAll(order: nat, rate: nat, list: seq<Poly>)
    requires order >= 2 && |list| == Power(NumPolys(order), rate)
    requires forall i :: 0 <= i < |list| ==> list[i] == Nth(order, rate, i)
    ensures ListsAll(order, rate, list)
  {
    forall i | 0 <= i < |list| ensures IsPoly(order, rate, list[i]) {
      NthIsPoly(order, rate, i);
    }
    forall p | IsPoly(order, rate, p) ensures p in list {
      NthOfNumber(order, p);
      assert list[Number(order, p)] == p;
    }
    forall i, j | 0 <= i < j < |list| ensures list[i] != list[j] {
      NumberOfNth(order, rate, i);
      NumberOfNth(order, rate, j);
    }
  }

  /** The loop that adds 2 with carry, in place. */
  method AddTwo(order: nat, iterPoly: array<int>)
    requires order >= 2
    modifies iterPoly
    ensures iterPoly[..] == Successor(order, old(iterPoly[..]))
  {
    hide StartCoeff, MaxCoeff, Successor;
    ghost var was := iterPoly[..];
    var j := 0;
    assert was[0..] == was;
    while j < iterPoly.Length
      invariant j <= iterPoly.Length && iterPoly[j..] == was[j..]
      invariant Successor(order, was) == iterPoly[..j] + Successor(order, was[j..])
    {
      SuccessorFirst(order, was[j..]);
      assert was[j..][1..] == was[j + 1..] && was[j..][0] == iterPoly[j];
      ghost var done := iterPoly[..j];
      if iterPoly[j] < MaxCoeff(order) {
        Put(iterPoly, j, iterPoly[j] + 2);
        return;
      }
      Put(iterPoly, j, StartCoeff(order));
      Regroup(done, StartCoeff(order), Successor(order, was[j + 1..]));
      j := j + 1;
    }
    SuccessorFirst(order, was[j..]);
    assert iterPoly[..] == iterPoly[..j];
  }

  method Put(a: array<int>, j: nat, c: int)
    requires j < a.Length
    modifies a
    ensures a[..j + 1] == old(a[..j]) + [c] && a[j + 1..] == old(a[j + 1..])
    ensures a[..] == old(a[..j]) + ([c] + old(a[j + 1..])) && old(a[j..][1..]) == old(a[j + 1..])
  {
    a[j] := c;
  }

  lemma Regroup(a: Poly, c: int, b: Poly)
    ensures a + ([c] + b) == (a + [c]) + b
  {
  }

  /** The list of all polynomials the search starts with. */
  method Enumerate(order: nat, rate: nat) returns (exhaustive: seq<Poly>)
    requires order >= 2
    ensures |exhaustive| == Power(NumPolys(order), rate) && ListsAll(order, rate, exhaustive)
  {
    var convsLen := 1;
    for i := 0 to rate
      invariant convsLen == Power(NumPolys(order), i)
    {
      convsLen := NumPolys(order) * convsLen;
    }
    var iterPoly := new int[rate](_ => StartCoeff(order));
    FirstIsStart(order, rate, iterPoly[..]);
    exhaustive := [];
    for i := 0 to convsLen
      invariant |exhaustive| == i && iterPoly[..] == Nth(order, rate, i)
      invariant forall k :: 0 <= k < i ==> exhaustive[k] == Nth(order, rate, k)
    {
      exhaustive := exhaustive + [iterPoly[..]];
      SuccessorCounts(order, rate, i);
      AddTwo(order, iterPoly);
    }
    CountedListsAll(order, rate, exhaustive);
  }

  lemma {:induction false} FirstIsStart(order: nat, rate: nat, p: Poly)
    requires order >= 2 && |p| == rate && forall j :: 0 <= j < rate ==> p[j] == StartCoeff(order)
    ensures Nth(order, rate, 0) == p
    decreases rate
  {
    if rate > 0 {
      hide StartCoeff, NumPolys, Nth;
      assert Compose(NumPolys(order), 0, 0) == 0;
      FirstOfNth(order, rate, 0, 0);
      FirstIsStart(order, rate - 1, p[1..]);
      assert p == [p[0]] + p[1..];
    }
  }

  // ---------- elimination ----------

  const KEPT := 20
  const MAX_MSG_LEN := 50000000

  /** What a round measures: a cost for every polynomial. */
  type Cost = Poly -> real

  function ByCost(cost: Cost): (Poly, Poly) -> bool {
    (p, q) => cost(p) <= cost(q)
  }

  /** Cheapest first. */
  ghost predicate Sorted(list: seq<Poly>, cost: Cost) {
    Ordered(list, ByCost(cost))
  }

  /** Some of the list's polynomials, none more often than in the list. */
  predicate Among(some: seq<Poly>, list: seq<Poly>) {
    multiset(some) <= multiset(list)
  }

  /** The message length of a round, when the first one's is given: it doubles up to the limit. */
  function MessageAt(nBytes: nat, round: nat): nat {
    if round == 0 then nBytes
    else
      var before := MessageAt(nBytes, round - 1);
      if before >= 50_000_000 then before else Min(2 * before, 50_000_000)
  }

  /** In closed form, as far as the first length is within the limit. */
  lemma {:induction false} MessageDoubles(nBytes: nat, round: nat)
    requires nBytes <= 50_000_000
    ensures MessageAt(nBytes, round) == Min(nBytes * Power(2, round), 50_000_000)
  {
    if round > 0 {
      MessageDoubles(nBytes, round - 1);
      Twice(nBytes, Power(2, round - 1));
    }
  }

  lemma Twice(a: nat, b: nat)
    ensures a * (2 * b) == 2 * (a * b)
  {
  }

  lemma {:induction false} MessageAfter(nBytes: nat, round: nat)
    ensures MessageAt(MessageAt(nBytes, round), 1) == MessageAt(nBytes, round + 1)
  {
  }

  /** The end of a round: sorted by cost, the list is cut to its cheaper half, but not below
      20, and to just 20 once the message is long enough; the message doubles. */
  method EndRound(list: seq<Poly>, nBytes: nat, cost: Cost) returns (kept: seq<Poly>, nextBytes: nat)
    requires |list| > KEPT
    ensures 20 <= |kept| < |list|
    ensures |kept| == if nBytes >= 50_000_000 || |list| < 40 then 20 else |list| / 2
    ensures nextBytes == MessageAt(nBytes, 1)
    ensures Sorted(kept, cost) && Among(kept, list)
    ensures forall p, q :: p in kept && q in multiset(list) - multiset(kept) ==> cost(p) <= cost(q)
  {
    var ranked := Sort(list, ByCost(cost));
    SortPermutes(list, ByCost(cost));
    SortOrders(list, ByCost(cost));
    hide Sort;
    var newLen := if |ranked| / 2 < KEPT then KEPT else |ranked| / 2;
    nextBytes := nBytes;
    if nBytes >= MAX_MSG_LEN {
      newLen := KEPT;
    } else {
      nextBytes := if nBytes * 2 < MAX_MSG_LEN then nBytes * 2 else MAX_MSG_LEN;
    }
    kept := ranked[..newLen];
    CutKeepsCheaper(ranked, newLen, cost);
  }

  lemma CutKeepsCheaper(ranked: seq<Poly>, n: nat, cost: Cost)
    requires Sorted(ranked, cost) && n <= |ranked|
    ensures Sorted(ranked[..n], cost) && multiset(ranked[..n]) <= multiset(ranked)
    ensures forall p, q :: p in ranked[..n] && q in multiset(ranked) - multiset(ranked[..n]) ==> cost(p) <= cost(q)
  {
    hide Sorted;
    CutParts(ranked, n);
    CutIsSorted(ranked, n, cost);
    forall p, q | p in ranked[..n] && q in multiset(ranked) - multiset(ranked[..n]) ensures cost(p) <= cost(q) {
      assert q in ranked[n..];
      AcrossCut(ranked, n, cost, p, q);
    }
  }

  lemma CutParts(ranked: seq<Poly>, n: nat)
    requires n <= |ranked|
    ensures multiset(ranked[..n]) <= multiset(ranked)
    ensures multiset(ranked) - multiset(ranked[..n]) == multiset(ranked[n..])
  {
    assert ranked == ranked[..n] + ranked[n..];
  }

  lemma CutIsSorted(ranked: seq<Poly>, n: nat, cost: Cost)
    requires Sorted(ranked, cost) && n <= |ranked|
    ensures Sorted(ranked[..n], cost)
  {
  }

  lemma AcrossCut(ranked: seq<Poly>, n: nat, cost: Cost, p: Poly, q: Poly)
    requires Sorted(ranked, cost) && n <= |ranked| && p in ranked[..n] && q in ranked[n..]
    ensures cost(p) <= cost(q)
  {
    var i :| 0 <= i < n && ranked[..n][i] == p;
    var j :| 0 <= j < |ranked| - n && ranked[n..][j] == q;
    assert ranked[i] == p && ranked[n + j] == q;
  }

  /** The rounds, until no more than 20 are left. What a round measures depends on the length
      of its message. */
  method Eliminate(exhaustive: seq<Poly>, nBytes: nat, costs: (nat, nat) -> Cost)
    returns (winners: seq<Poly>, rounds: nat)
    ensures |winners| == if |exhaustive| > 20 then 20 else |exhaustive|
    ensures Among(winners, exhaustive)
    ensures rounds == 0 ==> winners == exhaustive
    ensures rounds > 0 ==> Sorted(winners, costs(rounds - 1, MessageAt(nBytes, rounds - 1)))
  {
    winners, rounds := exhaustive, 0;
    var n := nBytes;
    while |winners| > KEPT
      invariant Among(winners, exhaustive)
      invariant if |exhaustive| > KEPT then |winners| >= KEPT else winners == exhaustive
      invariant rounds == 0 ==> winners == exhaustive
      invariant rounds > 0 ==> Sorted(winners, costs(rounds - 1, MessageAt(nBytes, rounds - 1)))
      invariant n == MessageAt(nBytes, rounds)
      decreases |winners|
    {
      hide MessageAt;
      MessageAfter(nBytes, rounds);
      winners, n := EndRound(winners, n, costs(rounds, n));
      rounds := rounds + 1;
    }
  }

  /** The winners of a list without repetitions are all different. */
  lemma WinnersDiffer(winners: seq<Poly>, list: seq<Poly>, i: nat, j: nat)
    requires Among(winners, list) && i < j < |winners|
    requires forall a, b :: 0 <= a < b < |list| ==> list[a] != list[b]
    ensures winners[i] != winners[j]
  {
    if winners[i] == winners[j] {
      TwiceCounted(winners, i, j);
      var k := PlaceIn(list, winners[i]);
      OnceCounted(list, k);
      assert false;
    }
  }

  lemma PlaceIn(list: seq<Poly>, p: Poly) returns (k: nat)
    requires p in multiset(list)
    ensures k < |list| && list[k] == p
  {
    assert p in list;
    k :| 0 <= k < |list| && list[k] == p;
  }
}
