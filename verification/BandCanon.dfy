/** When merging one name's bands reaches the canonical form: exactly when the types it may
    use hold at most one specific type. */
module BandCanon {
  import opened Common
  import opened Sorting
  import opened BandOrder
  import opened BandMerge

  // ---------- the canonical form ----------

  predicate Separated(bands: seq<Band>, touch: int) {
    forall i, j :: 0 <= i < j < |bands| ==> bands[i].end + touch < bands[j].start
  }

  /** No two of the bands have different specific types. */
  predicate OneKind(bands: seq<Band>) {
    forall i, j :: 0 <= i < |bands| && 0 <= j < |bands| ==> CompatibleType(bands[i].kind, bands[j].kind).Some?
  }

  lemma AbsorbSeparates(runs: seq<Run>, band: Band, touch: int)
    requires Separated(Bands(runs), touch) && Proper(Bands(runs))
    requires band.start <= band.end && forall k :: 0 <= k < |runs| ==>
      CompatibleType(runs[k].band.kind, band.kind).Some? && runs[k].band.start <= band.start
    ensures Separated(Bands(Absorb(runs, band, touch)), touch) && Proper(Bands(Absorb(runs, band, touch)))
  {
    hide Absorb;
    AbsorbFoldsNothing(runs, band, touch);
    var n := |runs| - 1;
    if n >= 0 && band.start <= runs[n].band.end + touch {
      assert FindBack(Bands(runs), |runs|, band, touch) == n;
    }
  }

  /** Sorted bands with at most one specific type merge into intervals more than `touch` apart. */
  lemma {:induction false} MergeSeparates(group: seq<Band>, fold: string -> string, key: string, touch: int)
    requires ByStart(group) && Proper(group) && SameName(group, fold, key) && touch >= 0 && OneKind(group)
    ensures Separated(Bands(Merge(group, touch)), touch) && Proper(Bands(Merge(group, touch)))
  {
    hide Absorb, Merge;
    MergeLast(group, touch);
    if |group| > 0 {
      var n := |group| - 1;
      var runs := Merge(group[..n], touch);
      MergeSeparates(group[..n], fold, key, touch);
      MergeIsSound(group[..n], fold, key, touch);
      forall k | 0 <= k < |runs|
        ensures CompatibleType(runs[k].band.kind, group[n].kind).Some? && runs[k].band.start <= group[n].start
      {
        RunFits(runs[k], group, n, fold, touch);
      }
      AbsorbSeparates(runs, group[n], touch);
    }
  }

  lemma RunFits(run: Run, group: seq<Band>, n: nat, fold: string -> string, touch: int)
    requires Sound(run, fold, touch) && n < |group| && ByStart(group) && OneKind(group)
    requires run.members <= multiset(group[..n])
    ensures CompatibleType(run.band.kind, group[n].kind).Some? && run.band.start <= group[n].start
  {
    var m :| m in run.members && m.kind == run.band.kind;
    assert m in multiset(group[..n]);
    assert m in group[..n];
    var a :| a in run.members && a.start == run.band.start;
    assert a in multiset(group[..n]);
    assert a in group[..n];
  }

  /** Merging what is already separated changes nothing. */
  lemma {:induction false} SeparatedStays(bands: seq<Band>, touch: int)
    requires Separated(bands, touch)
    ensures Bands(Merge(bands, touch)) == bands
  {
    if |bands| > 0 {
      var n := |bands| - 1;
      SeparatedStays(bands[..n], touch);
      var runs := Merge(bands[..n], touch);
      assert FindBack(Bands(runs), n, bands[n], touch) == -1;
      assert Bands(Merge(bands, touch)) == bands[..n] + [bands[n]];
    }
  }

  lemma SeparatedIsOrdered(bands: seq<Band>, touch: int)
    requires Separated(bands, touch) && Proper(bands) && touch >= 0
    ensures Ordered(bands, BeforeInGroup) && NoTies(bands, BeforeInGroup)
  {
    forall i, j | 0 <= i < j < |bands| ensures bands[i].start < bands[j].start {
      assert bands[i].end + touch < bands[j].start;
    }
  }

  // ---------- the canonical form is unique ----------

  /** Intervals of bands that hang together, more than `touch` apart. */
  ghost predicate Canonical(runs: seq<Run>, touch: int) {
    && Separated(Bands(runs), touch)
    && forall i :: 0 <= i < |runs| ==> Hull(runs[i]) && Covered(runs[i], touch) && Typed(runs[i])
  }

  lemma {:induction false} MemberOfSome(runs: seq<Run>, m: Band)
    requires m in Members(runs)
    ensures exists i :: 0 <= i < |runs| && m in runs[i].members
  {
    var n := |runs| - 1;
    if m !in runs[n].members {
      MemberOfSome(runs[..n], m);
      var i :| 0 <= i < n && m in runs[..n][i].members;
      assert m in runs[i].members;
    }
  }

  lemma {:induction false} MemberOfAll(runs: seq<Run>, i: nat)
    requires i < |runs|
    ensures runs[i].members <= Members(runs)
  {
    if i < |runs| - 1 {
      MemberOfAll(runs[..|runs| - 1], i);
    }
  }

  lemma LaterStarts(runs: seq<Run>, touch: int, i: nat, m: Band)
    requires Canonical(runs, touch) && 0 < i < |runs| && m in runs[i].members
    ensures runs[0].band.end + touch < runs[i].band.start <= m.start <= m.end
  {
    assert Bands(runs)[0].end + touch < Bands(runs)[i].start;
    assert Hull(runs[i]) && Covered(runs[i], touch);
  }

  /** The first interval holds exactly the bands that start no more than `touch` past its end. */
  lemma {:induction false} FirstHolds(runs: seq<Run>, touch: int, m: Band)
    requires Canonical(runs, touch) && touch >= 0 && |runs| > 0 && m in Members(runs)
    ensures runs[0].band.start <= m.start && m.start <= m.end
    ensures m in runs[0].members <==> m.start <= runs[0].band.end + touch
    ensures m in runs[0].members <==> m.end <= runs[0].band.end
  {
    MemberOfSome(runs, m);
    var i :| 0 <= i < |runs| && m in runs[i].members;
    assert Hull(runs[0]) && Covered(runs[0], touch);
    if i > 0 {
      LaterStarts(runs, touch, i, m);
      BoundsOrdered(runs[0], touch);
    }
  }

  lemma BoundsOrdered(run: Run, touch: int)
    requires Hull(run) && Covered(run, touch)
    ensures run.band.start <= run.band.end
  {
    var m :| m in run.members && m.start == run.band.start;
  }

  lemma {:induction false} FirstStartsNoLater(a: seq<Run>, b: seq<Run>, touch: int)
    requires Canonical(a, touch) && Canonical(b, touch) && touch >= 0
    requires |a| > 0 && |b| > 0 && Members(a) == Members(b)
    ensures a[0].band.start <= b[0].band.start
  {
    var m :| m in b[0].members && m.start == b[0].band.start;
    MemberOfAll(b, 0);
    FirstHolds(a, touch, m);
  }

  /** If b's first interval went on past a's, one of its bands would cross the gap. */
  lemma Bridge(a: seq<Run>, b: seq<Run>, touch: int) returns (m: Band)
    requires Canonical(a, touch) && Canonical(b, touch) && touch >= 0
    requires |a| > 0 && |b| > 0 && Members(a) == Members(b) && a[0].band.start == b[0].band.start
    requires a[0].band.end < b[0].band.end
    ensures m in Members(a) && m.start <= a[0].band.end + touch && a[0].band.end < m.end
  {
    hide Members;
    assert Hull(b[0]) && Covered(b[0], touch) && Hull(a[0]) && Covered(a[0], touch);
    var last :| last in b[0].members && last.end == b[0].band.end;
    MemberOfAll(b, 0);
    FirstHolds(a, touch, last);
    BoundsOrdered(a[0], touch);
    var p := a[0].band.end + touch + 1;
    assert Near(b[0].members, p, touch);
    m :| m in b[0].members && Reaches(m, p, touch);
  }

  lemma {:induction false} FirstEndsNoEarlier(a: seq<Run>, b: seq<Run>, touch: int)
    requires Canonical(a, touch) && Canonical(b, touch) && touch >= 0
    requires |a| > 0 && |b| > 0 && Members(a) == Members(b) && a[0].band.start == b[0].band.start
    ensures b[0].band.end <= a[0].band.end
  {
    hide Canonical, Members;
    if b[0].band.end > a[0].band.end {
      var m := Bridge(a, b, touch);
      FirstHolds(a, touch, m);
      assert false;
    }
  }

  /** The two intervals are the same but for the spelling of the name. */
  predicate Alike(a: Run, b: Run) {
    a.members == b.members && a.band.start == b.band.start && a.band.end == b.band.end && a.band.kind == b.band.kind
  }

  lemma FirstAlone(runs: seq<Run>, touch: int, i: nat, m: Band)
    requires Canonical(runs, touch) && touch >= 0 && 0 < i < |runs| && m in runs[i].members
    ensures m !in runs[0].members
  {
    LaterStarts(runs, touch, i, m);
    assert Hull(runs[0]);
  }

  /** No copy of a band of the first interval is in a later one. */
  lemma {:induction false} FirstHoldsAll(runs: seq<Run>, touch: int, m: Band)
    requires Canonical(runs, touch) && touch >= 0 && |runs| > 0 && m in runs[0].members
    ensures Members(runs)[m] == runs[0].members[m]
  {
    FirstAndRest(runs);
    if m in Members(runs[1..]) {
      MemberOfSome(runs[1..], m);
      var i :| 0 <= i < |runs| - 1 && m in runs[1..][i].members;
      FirstAlone(runs, touch, i + 1, m);
    }
  }

  lemma {:induction false} FirstsAgree(a: seq<Run>, b: seq<Run>, touch: int)
    requires Canonical(a, touch) && Canonical(b, touch) && touch >= 0
    requires |a| > 0 && |b| > 0 && Members(a) == Members(b)
    ensures Alike(a[0], b[0])
  {
    FirstStartsNoLater(a, b, touch);
    FirstStartsNoLater(b, a, touch);
    FirstEndsNoEarlier(a, b, touch);
    FirstEndsNoEarlier(b, a, touch);
    FirstMembersWithin(a, b, touch);
    FirstMembersWithin(b, a, touch);
    assert a[0].members == b[0].members;
    SameType(a[0], b[0]);
  }

  lemma {:induction false} FirstMembersWithin(a: seq<Run>, b: seq<Run>, touch: int)
    requires Canonical(a, touch) && Canonical(b, touch) && touch >= 0
    requires |a| > 0 && |b| > 0 && Members(a) == Members(b) && a[0].band.end == b[0].band.end
    ensures a[0].members <= b[0].members
  {
    hide Canonical, Members;
    MemberOfAll(a, 0);
    forall m | m in a[0].members ensures a[0].members[m] <= b[0].members[m] {
      FirstHolds(a, touch, m);
      FirstHolds(b, touch, m);
      FirstHoldsAll(a, touch, m);
      FirstHoldsAll(b, touch, m);
    }
  }

  lemma SameType(a: Run, b: Run)
    requires Typed(a) && Typed(b) && a.members == b.members
    ensures a.band.kind == b.band.kind
  {
    var m :| m in a.members && m.kind == a.band.kind;
    var n :| n in b.members && n.kind == b.band.kind;
    assert m in b.members && n in a.members;
  }

  lemma {:induction false} FirstAndRest(runs: seq<Run>)
    requires |runs| > 0
    ensures Members(runs) == runs[0].members + Members(runs[1..])
  {
    MembersOfConcat(runs[..1], runs[1..]);
    assert runs[..1] + runs[1..] == runs;
    assert Members(runs[..1]) == runs[0].members;
  }

  lemma RestIsCanonical(runs: seq<Run>, touch: int)
    requires Canonical(runs, touch) && |runs| > 0
    ensures Canonical(runs[1..], touch)
  {
    hide Hull, Covered, Typed;
    assert Bands(runs[1..]) == Bands(runs)[1..];
  }

  /** The canonical form of a set of bands is unique: the intervals of any two agree in
      bounds, type and bands. */
  lemma {:induction false} CanonicalIsUnique(a: seq<Run>, b: seq<Run>, touch: int)
    requires Canonical(a, touch) && Canonical(b, touch) && touch >= 0 && Members(a) == Members(b)
    ensures |a| == |b| && forall i :: 0 <= i < |a| ==> Alike(a[i], b[i])
    decreases |a|
  {
    hide Canonical, Alike, Members;
    if |a| == 0 || |b| == 0 {
      EmptyTogether(a, b, touch);
    } else {
      FirstsAgree(a, b, touch);
      RestIsCanonical(a, touch);
      RestIsCanonical(b, touch);
      FirstAndRest(a);
      FirstAndRest(b);
      SameRest(a[0], b[0], Members(a[1..]), Members(b[1..]));
      CanonicalIsUnique(a[1..], b[1..], touch);
      forall i | 0 <= i < |a| ensures Alike(a[i], b[i]) {
        if i > 0 {
          assert a[i] == a[1..][i - 1] && b[i] == b[1..][i - 1];
        }
      }
    }
  }

  lemma SameRest(a: Run, b: Run, restA: multiset<Band>, restB: multiset<Band>)
    requires Alike(a, b) && a.members + restA == b.members + restB
    ensures restA == restB
  {
    assert restA == a.members + restA - a.members;
    assert restB == b.members + restB - b.members;
  }

  lemma {:induction false} EmptyTogether(a: seq<Run>, b: seq<Run>, touch: int)
    requires Canonical(a, touch) && Canonical(b, touch) && Members(a) == Members(b) && (|a| == 0 || |b| == 0)
    ensures |a| == |b|
  {
    if |a| > 0 {
      HasMember(a, touch);
    }
    if |b| > 0 {
      HasMember(b, touch);
    }
  }

  lemma {:induction false} HasMember(runs: seq<Run>, touch: int)
    requires Canonical(runs, touch) && |runs| > 0
    ensures Members(runs) != multiset{}
  {
    assert Hull(runs[0]);
    var m :| m in runs[0].members && m.start == runs[0].band.start;
    MemberOfAll(runs, 0);
    assert m in Members(runs);
  }

  /** Merging sorted bands with at most one specific type gives their canonical form. */
  lemma {:induction false} MergeIsCanonical(group: seq<Band>, fold: string -> string, key: string, touch: int)
    requires ByStart(group) && Proper(group) && SameName(group, fold, key) && touch >= 0 && OneKind(group)
    ensures Canonical(Merge(group, touch), touch) && Members(Merge(group, touch)) == multiset(group)
  {
    MergeSeparates(group, fold, key, touch);
    MergeIsSound(group, fold, key, touch);
    MergePartitions(group, touch);
  }

  // ---------- maximal merging ----------

  predicate Connected(a: Band, b: Band, touch: int) {
    CompatibleType(a.kind, b.kind).Some? && a.start <= b.end + touch && b.start <= a.end + touch
  }

  /** No two intervals are left that the documented conditions would merge. */
  predicate Maximal(bands: seq<Band>, touch: int) {
    forall i, j :: 0 <= i < j < |bands| ==> !Connected(bands[i], bands[j], touch)
  }

  predicate Uses(bands: seq<Band>, kinds: set<string>) {
    forall i :: 0 <= i < |bands| ==> bands[i].kind in kinds
  }

  function Sorted(bands: seq<Band>): seq<Band> {
    Sort(bands, BeforeInGroup)
  }

  /** The documented conditions leave nothing to merge, whatever the bands of the name. */
  ghost predicate AlwaysMaximal(kinds: set<string>, fold: string -> string, key: string, touch: int) {
    forall bands: seq<Band> :: Uses(bands, kinds) && Proper(bands) && SameName(bands, fold, key) ==>
      Maximal(Bands(Merge(Sorted(bands), touch)), touch)
  }

  predicate OneSpecific(kinds: set<string>) {
    forall a, b :: a in kinds && b in kinds && a != OTHER && b != OTHER ==> a == b
  }

  lemma SortedIsByStart(bands: seq<Band>)
    ensures ByStart(Sorted(bands)) && multiset(Sorted(bands)) == multiset(bands)
  {
    GroupOrderIsTotal();
    SortOrders(bands, BeforeInGroup);
    SortPermutes(bands, BeforeInGroup);
  }

  /** Sorting keeps what is said of every band. */
  lemma SortedKeeps(bands: seq<Band>, fold: string -> string, key: string)
    requires Proper(bands) && SameName(bands, fold, key)
    ensures Proper(Sorted(bands)) && SameName(Sorted(bands), fold, key)
    ensures OneKind(bands) ==> OneKind(Sorted(bands))
  {
    SortPermutes(bands, BeforeInGroup);
    forall i | 0 <= i < |Sorted(bands)| ensures Sorted(bands)[i] in bands {
      assert Sorted(bands)[i] in multiset(Sorted(bands));
    }
  }

  lemma {:induction false} OneSpecificIsMaximal(bands: seq<Band>, kinds: set<string>,
                                                fold: string -> string, key: string, touch: int)
    requires OneSpecific(kinds) && Uses(bands, kinds) && Proper(bands) && SameName(bands, fold, key) && touch >= 0
    ensures Maximal(Bands(Merge(Sorted(bands), touch)), touch)
  {
    SortedIsByStart(bands);
    SortedKeeps(bands, fold, key);
    MergeSeparates(Sorted(bands), fold, key, touch);
  }

  /** Three bands of two specific types that the backward scan leaves apart: it stops at the
      short interval in between. */
  function Straddle(name: string, a: string, b: string, touch: int): seq<Band> {
    [Band(name, 0, touch + 2, a), Band(name, 1, 1, b), Band(name, touch + 2, touch + 2, a)]
  }

  lemma {:induction false} StraddleMerges(name: string, a: string, b: string, touch: int)
    requires a != b && a != OTHER && b != OTHER && touch >= 0
    ensures var s := Straddle(name, a, b, touch);
      Sorted(s) == s && Bands(Merge(s, touch)) == s && !Maximal(s, touch)
  {
    var s := Straddle(name, a, b, touch);
    StraddleSorted(name, a, b, touch);
    assert s[..1] == [s[0]] && s[..2] == [s[0], s[1]];
    var one := [Run(s[0], multiset{s[0]})];
    assert Merge(s[..1], touch) == one by {
      assert s[..1][..0] == [];
    }
    var two := one + [Run(s[1], multiset{s[1]})];
    assert Merge(s[..2], touch) == two by {
      assert s[..2][..1] == s[..1];
      assert FindBack(Bands(one), 1, s[1], touch) == -1;
    }
    assert FindBack(Bands(two), 2, s[2], touch) == -1;
    assert Merge(s, touch) == two + [Run(s[2], multiset{s[2]})];
    assert Connected(s[0], s[2], touch);
  }

  lemma StraddleSorted(name: string, a: string, b: string, touch: int)
    requires touch >= 0
    ensures Sorted(Straddle(name, a, b, touch)) == Straddle(name, a, b, touch)
  {
    var s := Straddle(name, a, b, touch);
    assert s[1..] == [s[1], s[2]] && s[1..][1..] == [s[2]] && s[1..][1..][1..] == [];
    assert Sort([s[2]], BeforeInGroup) == [s[2]];
    assert Sort([s[1], s[2]], BeforeInGroup) == [s[1], s[2]];
  }

  /** The documented conditions leave nothing to merge exactly when the types in use hold at
      most one specific type. */
  lemma MaximalIffOneSpecific(kinds: set<string>, fold: string -> string,
                              name: string, touch: int)
    requires touch >= 0
    ensures AlwaysMaximal(kinds, fold, fold(name), touch) <==> OneSpecific(kinds)
  {
    if OneSpecific(kinds) {
      forall bands: seq<Band> | Uses(bands, kinds) && Proper(bands) && SameName(bands, fold, fold(name))
        ensures Maximal(Bands(Merge(Sorted(bands), touch)), touch)
      {
        OneSpecificIsMaximal(bands, kinds, fold, fold(name), touch);
      }
    } else {
      var a, b :| a in kinds && b in kinds && a != OTHER && b != OTHER && a != b;
      var s := Straddle(name, a, b, touch);
      StraddleMerges(name, a, b, touch);
      assert Uses(s, kinds) && Proper(s) && SameName(s, fold, fold(name));
    }
  }
}
