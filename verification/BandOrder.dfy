/** The band records of util/traficom_to_sdrpp_brown.py and the two sort orders it uses. */
module BandOrder {
  import opened Sorting

  datatype Band = Band(name: string, start: int, end: int, kind: string)

  const OTHER := "other"

  type Order = (Band, Band) -> bool

  // ---------- comparing text ----------

  predicate TextLe(a: string, b: string) {
    |a| == 0 || (|b| > 0 && (a[0] < b[0] || (a[0] == b[0] && TextLe(a[1..], b[1..]))))
  }

  /** The order of text: where two strings first differ, the smaller character decides, and a
      string comes before those it begins. */
  lemma {:induction false} TextLeAt(a: string, b: string, n: nat)
    requires n <= |a| && n <= |b| && a[..n] == b[..n]
    ensures n == |a| ==> TextLe(a, b)
    ensures n == |b| < |a| ==> !TextLe(a, b)
    ensures n < |a| && n < |b| && a[n] != b[n] ==> (TextLe(a, b) <==> a[n] < b[n])
    decreases n
  {
    if n > 0 {
      assert a[0] == a[..n][0] == b[..n][0] == b[0];
      assert a[1..][..n - 1] == a[..n][1..] == b[..n][1..] == b[1..][..n - 1];
      TextLeAt(a[1..], b[1..], n - 1);
    }
  }

  lemma {:induction false} TextLeTotal(a: string, b: string)
    ensures TextLe(a, b) || TextLe(b, a)
    decreases |a|
  {
    if |a| > 0 && |b| > 0 {
      TextLeTotal(a[1..], b[1..]);
    }
  }

  lemma {:induction false} TextLeTransitive(a: string, b: string, c: string)
    requires TextLe(a, b) && TextLe(b, c)
    ensures TextLe(a, c)
    decreases |a|
  {
    if |a| > 0 && a[0] == b[0] == c[0] {
      TextLeTransitive(a[1..], b[1..], c[1..]);
    }
  }

  lemma {:induction false} TextLeAntisymmetric(a: string, b: string)
    requires TextLe(a, b) && TextLe(b, a)
    ensures a == b
    decreases |a|
  {
    if |a| > 0 {
      TextLeAntisymmetric(a[1..], b[1..]);
      assert a == [a[0]] + a[1..] && b == [b[0]] + b[1..];
    }
  }

  // ---------- the two keys ----------

  /** The key of a name's own sort: start, end, specific types before "other", type. */
  predicate BeforeInGroup(a: Band, b: Band) {
    if a.start != b.start then a.start < b.start
    else if a.end != b.end then a.end < b.end
    else if (a.kind == OTHER) != (b.kind == OTHER) then b.kind == OTHER
    else TextLe(a.kind, b.kind)
  }

  /** The key of the final sort: start, end, type, folded name. */
  predicate BeforeInResult(fold: string -> string, a: Band, b: Band) {
    if a.start != b.start then a.start < b.start
    else if a.end != b.end then a.end < b.end
    else if a.kind != b.kind then TextLe(a.kind, b.kind)
    else TextLe(fold(a.name), fold(b.name))
  }

  function ResultOrder(fold: string -> string): Order {
    (a, b) => BeforeInResult(fold, a, b)
  }

  lemma GroupOrderIsTotal()
    ensures TotalOrder(BeforeInGroup)
  {
    forall a: Band, b: Band ensures BeforeInGroup(a, b) || BeforeInGroup(b, a) {
      TextLeTotal(a.kind, b.kind);
    }
    forall a: Band, b: Band, c: Band | BeforeInGroup(a, b) && BeforeInGroup(b, c) ensures BeforeInGroup(a, c) {
      if TextLe(a.kind, b.kind) && TextLe(b.kind, c.kind) {
        TextLeTransitive(a.kind, b.kind, c.kind);
      }
    }
  }

  lemma ResultOrderIsTotal(fold: string -> string)
    ensures TotalOrder(ResultOrder(fold))
  {
    var le := ResultOrder(fold);
    forall a: Band, b: Band ensures le(a, b) || le(b, a) {
      TextLeTotal(a.kind, b.kind);
      TextLeTotal(fold(a.name), fold(b.name));
    }
    forall a: Band, b: Band, c: Band | le(a, b) && le(b, c) ensures le(a, c) {
      ResultOrderTransitive(fold, a, b, c);
    }
  }

  lemma ResultOrderTransitive(fold: string -> string, a: Band, b: Band, c: Band)
    requires BeforeInResult(fold, a, b) && BeforeInResult(fold, b, c)
    ensures BeforeInResult(fold, a, c)
  {
    if TextLe(a.kind, b.kind) && TextLe(b.kind, c.kind) {
      TextLeTransitive(a.kind, b.kind, c.kind);
      if a.kind == c.kind {
        TextLeAntisymmetric(a.kind, b.kind);
      }
    }
    if TextLe(fold(a.name), fold(b.name)) && TextLe(fold(b.name), fold(c.name)) {
      TextLeTransitive(fold(a.name), fold(b.name), fold(c.name));
    }
  }

  // ---------- sorted lists ----------

  ghost predicate NoTies(s: seq<Band>, le: Order) {
    forall x, y :: x in s && y in s && le(x, y) && le(y, x) ==> x == y
  }

  lemma FirstIsLeast(s: seq<Band>, x: Band, le: Order)
    requires Ordered(s, le) && x in s
    ensures x == s[0] || le(s[0], x)
  {
    var i :| 0 <= i < |s| && s[i] == x;
  }

  /** Two ordered lists of the same bands are the same list, if no two of the bands tie. */
  lemma OrderedIsUnique(a: seq<Band>, b: seq<Band>, le: Order)
    requires Ordered(a, le) && Ordered(b, le) && multiset(a) == multiset(b) && NoTies(a, le)
    ensures a == b
    decreases |a|
  {
    assert |a| == |multiset(a)| == |multiset(b)| == |b|;
    if |a| > 0 {
      assert a[0] == b[0] by {
        assert a[0] in multiset(b) && b[0] in multiset(a);
        FirstIsLeast(a, b[0], le);
        FirstIsLeast(b, a[0], le);
      }
      RestIsSame(a, b);
      assert NoTies(a[1..], le) by {
        assert forall x :: x in a[1..] ==> x in a;
      }
      assert Ordered(a[1..], le) && Ordered(b[1..], le);
      OrderedIsUnique(a[1..], b[1..], le);
      assert a == [a[0]] + a[1..] && b == [b[0]] + b[1..];
    }
  }

  lemma RestIsSame(a: seq<Band>, b: seq<Band>)
    requires |a| > 0 && |b| > 0 && a[0] == b[0] && multiset(a) == multiset(b)
    ensures multiset(a[1..]) == multiset(b[1..])
  {
    assert a == [a[0]] + a[1..] && b == [b[0]] + b[1..];
    assert multiset(a[1..]) == multiset(a) - multiset{a[0]};
    assert multiset(b[1..]) == multiset(b) - multiset{b[0]};
  }
}
