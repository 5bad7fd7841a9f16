/** What merge_bands promises of its whole result, for every list of bands. */
module BandResults {
  import opened Common
  import opened Sorting
  import opened BandOrder
  import opened BandMerge
  import opened BandCanon
  import opened BandLists

  // ---------- groups ----------

  lemma {:induction false} GroupCounts(fold: Fold, bands: seq<Band>, key: string, b: Band)
    ensures multiset(Group(fold, bands, key))[b] == if fold(b.name) == key then multiset(bands)[b] else 0
  {
    if |bands| > 0 {
      var n := |bands| - 1;
      GroupCounts(fold, bands[..n], key, b);
      assert bands == bands[..n] + [bands[n]];
    }
  }

  lemma {:induction false} GroupHolds(fold: Fold, bands: seq<Band>, key: string)
    ensures SameName(Group(fold, bands, key), fold, key)
    ensures Proper(bands) ==> Proper(Group(fold, bands, key))
    ensures forall i :: 0 <= i < |Group(fold, bands, key)| ==> Group(fold, bands, key)[i] in bands
  {
    if |bands| > 0 {
      GroupHolds(fold, bands[..|bands| - 1], key);
    }
  }

  lemma {:induction false} GroupIsOrdered(fold: Fold, bands: seq<Band>, key: string, le: Order)
    requires Ordered(bands, le)
    ensures Ordered(Group(fold, bands, key), le)
  {
    if |bands| > 0 {
      var n := |bands| - 1;
      GroupIsOrdered(fold, bands[..n], key, le);
      GroupHolds(fold, bands[..n], key);
    }
  }

  predicate Distinct(keys: seq<string>) {
    forall i, j :: 0 <= i < j < |keys| ==> keys[i] != keys[j]
  }

  lemma {:induction false} KeysHold(fold: Fold, bands: seq<Band>)
    ensures Distinct(Keys(fold, bands))
    ensures forall b :: b in bands ==> fold(b.name) in Keys(fold, bands)
    ensures forall k :: k in Keys(fold, bands) ==> exists b :: b in bands && fold(b.name) == k
  {
    if |bands| > 0 {
      var n := |bands| - 1;
      KeysHold(fold, bands[..n]);
      assert bands == bands[..n] + [bands[n]];
      assert bands[n] in bands;
    }
  }

  lemma {:induction false} NoBandsNoGroup(fold: Fold, bands: seq<Band>, key: string)
    requires key !in Keys(fold, bands)
    ensures Group(fold, bands, key) == []
  {
    if |Group(fold, bands, key)| > 0 {
      GroupHasKey(fold, bands, key);
    }
  }

  lemma {:induction false} GroupHasKey(fold: Fold, bands: seq<Band>, key: string)
    requires |Group(fold, bands, key)| > 0
    ensures key in Keys(fold, bands)
  {
    GroupHolds(fold, bands, key);
    KeysHold(fold, bands);
    assert Group(fold, bands, key)[0] in bands;
  }

  // ---------- partition and soundness ----------

  lemma {:induction false} AllRunsMembers(fold: Fold, bands: seq<Band>, keys: seq<string>, touch: int, b: Band)
    requires Distinct(keys)
    ensures Members(AllRuns(fold, bands, keys, touch))[b] == if fold(b.name) in keys then multiset(bands)[b] else 0
  {
    if |keys| > 0 {
      hide Group, Merge, Members;
      var n := |keys| - 1;
      AllRunsMembers(fold, bands, keys[..n], touch, b);
      MembersOfConcat(AllRuns(fold, bands, keys[..n], touch), RunsOf(fold, bands, keys[n], touch));
      MergePartitions(Sorted(Group(fold, bands, keys[n])), touch);
      SortPermutes(Group(fold, bands, keys[n]), BeforeInGroup);
      GroupCounts(fold, bands, keys[n], b);
      assert keys == keys[..n] + [keys[n]];
    } else {
      assert Members([]) == multiset{};
    }
  }

  /** Each input band goes to exactly one interval, and nothing else does. */
  lemma IntervalsPartition(fold: Fold, bands: seq<Band>, touch: int)
    ensures Members(Intervals(fold, bands, touch)) == multiset(bands)
  {
    KeysHold(fold, bands);
    forall b ensures Members(Intervals(fold, bands, touch))[b] == multiset(bands)[b] {
      AllRunsMembers(fold, bands, Keys(fold, bands), touch, b);
    }
  }

  lemma GroupIsSound(fold: Fold, bands: seq<Band>, key: string, touch: int)
    requires Proper(bands) && touch >= 0
    ensures forall i :: 0 <= i < |RunsOf(fold, bands, key, touch)| ==>
      Sound(RunsOf(fold, bands, key, touch)[i], fold, touch) && fold(RunsOf(fold, bands, key, touch)[i].band.name) == key
  {
    hide Merge, Group, Sound;
    var group := Group(fold, bands, key);
    GroupHolds(fold, bands, key);
    SortedKeeps(group, fold, key);
    SortedIsByStart(group);
    MergeIsSound(Sorted(group), fold, key, touch);
  }

  lemma {:induction false} AllRunsSound(fold: Fold, bands: seq<Band>, keys: seq<string>, touch: int)
    requires Proper(bands) && touch >= 0
    ensures forall i :: 0 <= i < |AllRuns(fold, bands, keys, touch)| ==> Sound(AllRuns(fold, bands, keys, touch)[i], fold, touch)
  {
    hide Sound, RunsOf;
    if |keys| > 0 {
      AllRunsSound(fold, bands, keys[..|keys| - 1], touch);
      GroupIsSound(fold, bands, keys[|keys| - 1], touch);
    }
  }

  /** The result lists, in order, one band for each interval; every interval is the hull of
      its bands, has no gap wider than `touch`, has their one specific type or "other", and
      holds bands of one folded name only. */
  lemma MergedIsSound(fold: Fold, bands: seq<Band>, touch: int)
    requires Proper(bands) && touch >= 0
    ensures multiset(Merged(fold, bands, touch)) == multiset(Bands(Intervals(fold, bands, touch)))
    ensures Ordered(Merged(fold, bands, touch), ResultOrder(fold))
    ensures forall i :: 0 <= i < |Intervals(fold, bands, touch)| ==> Sound(Intervals(fold, bands, touch)[i], fold, touch)
  {
    hide Sound, AllRuns, Keys;
    ResultOrderIsTotal(fold);
    SortOrders(Bands(Intervals(fold, bands, touch)), ResultOrder(fold));
    SortPermutes(Bands(Intervals(fold, bands, touch)), ResultOrder(fold));
    AllRunsSound(fold, bands, Keys(fold, bands), touch);
  }

  /** In order means: by start, then end, then type, then folded name. */
  lemma MergedInOrder(fold: Fold, bands: seq<Band>, touch: int, i: nat, j: nat)
    requires i < j < |Merged(fold, bands, touch)|
    ensures var a, b := Merged(fold, bands, touch)[i], Merged(fold, bands, touch)[j];
      && a.start <= b.start
      && (a.start == b.start ==> a.end <= b.end)
      && (a.start == b.start && a.end == b.end ==> TextLe(a.kind, b.kind))
      && (a.start == b.start && a.end == b.end && a.kind == b.kind ==> TextLe(fold(a.name), fold(b.name)))
  {
    hide Intervals, Bands, TextLe;
    ResultOrderIsTotal(fold);
    SortOrders(Bands(Intervals(fold, bands, touch)), ResultOrder(fold));
    var m := Merged(fold, bands, touch);
    assert ResultOrder(fold)(m[i], m[j]);
    TextLeRefl(m[i].kind);
  }

  lemma {:induction false} TextLeRefl(a: string)
    ensures TextLe(a, a)
  {
    TextLeAt(a, a, |a|);
  }

  /** Within a name the bands are taken by start, then end, specific types first, then type. */
  lemma TakenInOrder(bands: seq<Band>, i: nat, j: nat)
    requires i < j < |Sorted(bands)|
    ensures var a, b := Sorted(bands)[i], Sorted(bands)[j];
      && a.start <= b.start
      && (a.start == b.start ==> a.end <= b.end)
      && (a.start == b.start && a.end == b.end && a.kind == "other" ==> b.kind == "other")
      && (a.start == b.start && a.end == b.end && (b.kind == "other" ==> a.kind == "other") ==> TextLe(a.kind, b.kind))
  {
    hide TextLe;
    GroupOrderIsTotal();
    SortOrders(bands, BeforeInGroup);
    assert BeforeInGroup(Sorted(bands)[i], Sorted(bands)[j]);
    TextLeRefl(Sorted(bands)[i].kind);
  }

  // ---------- names with at most one specific type ----------

  /** Every name uses at most one specific type. */
  ghost predicate OneKindPerName(fold: Fold, bands: seq<Band>) {
    forall key :: OneKind(Group(fold, bands, key))
  }

  lemma {:induction false} AllRunsBands(fold: Fold, bands: seq<Band>, keys: seq<string>, touch: int, b: Band)
    requires Distinct(keys) && Proper(bands) && touch >= 0
    ensures multiset(Bands(AllRuns(fold, bands, keys, touch)))[b] ==
      if fold(b.name) in keys then multiset(Bands(RunsOf(fold, bands, fold(b.name), touch)))[b] else 0
  {
    hide RunsOf, Bands, Sound;
    if |keys| == 0 {
      assert Bands([]) == [];
    } else {
      var n := |keys| - 1;
      var runs := RunsOf(fold, bands, keys[n], touch);
      AllRunsBands(fold, bands, keys[..n], touch, b);
      BandsOfConcat(AllRuns(fold, bands, keys[..n], touch), runs);
      assert keys == keys[..n] + [keys[n]];
      if fold(b.name) != keys[n] {
        GroupIsSound(fold, bands, keys[n], touch);
        assert b !in Bands(runs);
      }
    }
  }

  lemma RunsOfSeparated(fold: Fold, bands: seq<Band>, key: string, touch: int)
    requires Proper(bands) && touch >= 0 && OneKindPerName(fold, bands)
    ensures Separated(Bands(RunsOf(fold, bands, key, touch)), touch) && Proper(Bands(RunsOf(fold, bands, key, touch)))
  {
    hide Merge, Group;
    var group := Group(fold, bands, key);
    assert OneKind(group);
    GroupHolds(fold, bands, key);
    SortedKeeps(group, fold, key);
    SortedIsByStart(group);
    MergeSeparates(Sorted(group), fold, key, touch);
  }

  lemma SeparatedIsResultOrdered(fold: Fold, bands: seq<Band>, touch: int)
    requires Separated(bands, touch) && Proper(bands) && touch >= 0
    ensures Ordered(bands, ResultOrder(fold)) && NoTies(bands, ResultOrder(fold))
  {
    forall i, j | 0 <= i < j < |bands| ensures bands[i].start < bands[j].start {
      assert bands[i].end + touch < bands[j].start;
    }
  }

  /** The result's bands of one name, in list order, are that name's own merged intervals. */
  lemma {:induction false} GroupOfMerged(fold: Fold, bands: seq<Band>, key: string, touch: int)
    requires Proper(bands) && touch >= 0 && OneKindPerName(fold, bands)
    ensures Group(fold, Merged(fold, bands, touch), key) == Bands(RunsOf(fold, bands, key, touch))
  {
    var merged, own := Merged(fold, bands, touch), Bands(RunsOf(fold, bands, key, touch));
    var group := Group(fold, merged, key);
    assert multiset(group) == multiset(own) by {
      forall b ensures multiset(group)[b] == multiset(own)[b] {
        GroupOfMergedCounts(fold, bands, key, touch, b);
      }
    }
    hide Merged, RunsOf, Group, OneKindPerName;
    MergedIsSound(fold, bands, touch);
    GroupIsOrdered(fold, merged, key, ResultOrder(fold));
    RunsOfSeparated(fold, bands, key, touch);
    SeparatedIsResultOrdered(fold, own, touch);
    OrderedIsUnique(own, group, ResultOrder(fold));
  }

  lemma {:induction false} GroupOfMergedCounts(fold: Fold, bands: seq<Band>, key: string, touch: int, b: Band)
    requires Proper(bands) && touch >= 0
    ensures multiset(Group(fold, Merged(fold, bands, touch), key))[b] == multiset(Bands(RunsOf(fold, bands, key, touch)))[b]
  {
    hide Merged, RunsOf, Group, AllRuns, Keys, Bands, Sound;
    GroupCounts(fold, Merged(fold, bands, touch), key, b);
    MergedIsSound(fold, bands, touch);
    KeysHold(fold, bands);
    AllRunsBands(fold, bands, Keys(fold, bands), touch, b);
    if fold(b.name) != key {
      GroupIsSound(fold, bands, key, touch);
    } else if key !in Keys(fold, bands) {
      NoBandsNoRuns(fold, bands, key, touch);
    }
  }

  lemma {:induction false} NoBandsNoRuns(fold: Fold, bands: seq<Band>, key: string, touch: int)
    requires key !in Keys(fold, bands)
    ensures RunsOf(fold, bands, key, touch) == []
  {
    NoBandsNoGroup(fold, bands, key);
  }

  /** The canonical form: bands of one name in the result are more than `touch` apart. */
  lemma {:induction false} MergedIsCanonical(fold: Fold, bands: seq<Band>, key: string, touch: int)
    requires Proper(bands) && touch >= 0 && OneKindPerName(fold, bands)
    ensures Separated(Group(fold, Merged(fold, bands, touch), key), touch)
    ensures Canonical(RunsOf(fold, bands, key, touch), touch)
    ensures Members(RunsOf(fold, bands, key, touch)) == multiset(Group(fold, bands, key))
  {
    var group := Group(fold, bands, key);
    assert OneKind(group);
    hide Merged, Group, OneKindPerName, Canonical, Merge, Members;
    GroupOfMerged(fold, bands, key, touch);
    RunsOfSeparated(fold, bands, key, touch);
    GroupHolds(fold, bands, key);
    SortedKeeps(group, fold, key);
    SortedIsByStart(group);
    MergeIsCanonical(Sorted(group), fold, key, touch);
  }

  // ---------- merging again ----------

  lemma {:induction false} SecondRuns(fold: Fold, bands: seq<Band>, key: string, touch: int)
    requires Proper(bands) && touch >= 0 && OneKindPerName(fold, bands)
    ensures Bands(RunsOf(fold, Merged(fold, bands, touch), key, touch)) == Group(fold, Merged(fold, bands, touch), key)
  {
    hide Merged, Group, OneKindPerName, Merge;
    var group := Group(fold, Merged(fold, bands, touch), key);
    GroupOfMerged(fold, bands, key, touch);
    RunsOfSeparated(fold, bands, key, touch);
    SeparatedIsOrdered(group, touch);
    GroupOrderIsTotal();
    SortOrders(group, BeforeInGroup);
    SortPermutes(group, BeforeInGroup);
    OrderedIsUnique(group, Sorted(group), BeforeInGroup);
    SeparatedStays(group, touch);
  }

  lemma MergedHasNoTies(fold: Fold, bands: seq<Band>, touch: int)
    requires Proper(bands) && touch >= 0 && OneKindPerName(fold, bands)
    ensures NoTies(Merged(fold, bands, touch), ResultOrder(fold))
  {
    hide Merged, Group, OneKindPerName, RunsOf;
    var merged, le := Merged(fold, bands, touch), ResultOrder(fold);
    forall x, y | x in merged && y in merged && le(x, y) && le(y, x) ensures x == y {
      TiesShareName(fold, x, y);
      var key := fold(x.name);
      var group := Group(fold, merged, key);
      GroupCounts(fold, merged, key, x);
      GroupCounts(fold, merged, key, y);
      assert x in multiset(group) && y in multiset(group);
      GroupOfMerged(fold, bands, key, touch);
      RunsOfSeparated(fold, bands, key, touch);
      SeparatedIsResultOrdered(fold, group, touch);
    }
  }

  lemma TiesShareName(fold: Fold, x: Band, y: Band)
    requires BeforeInResult(fold, x, y) && BeforeInResult(fold, y, x)
    ensures fold(x.name) == fold(y.name) && x.start == y.start
  {
    if x.kind != y.kind {
      TextLeAntisymmetric(x.kind, y.kind);
    } else {
      TextLeAntisymmetric(fold(x.name), fold(y.name));
    }
  }

  lemma MergedIsProper(fold: Fold, bands: seq<Band>, touch: int)
    requires Proper(bands) && touch >= 0
    ensures Proper(Merged(fold, bands, touch))
  {
    hide Merged, AllRuns, Keys;
    var merged, runs := Merged(fold, bands, touch), Intervals(fold, bands, touch);
    MergedIsSound(fold, bands, touch);
    forall i | 0 <= i < |merged| ensures merged[i].start <= merged[i].end {
      assert merged[i] in multiset(Bands(runs));
      var k :| 0 <= k < |runs| && runs[k].band == merged[i];
      assert Sound(runs[k], fold, touch);
      BoundsOrdered(runs[k], touch);
    }
  }

  /** Merging again changes nothing. */
  lemma MergedTwice(fold: Fold, bands: seq<Band>, touch: int)
    requires Proper(bands) && touch >= 0 && OneKindPerName(fold, bands)
    ensures Merged(fold, Merged(fold, bands, touch), touch) == Merged(fold, bands, touch)
  {
    hide Merged, AllRuns, Keys, OneKindPerName, Sound, Group, RunsOf, Bands;
    var merged := Merged(fold, bands, touch);
    MergedIsProper(fold, bands, touch);
    MergedIsSound(fold, bands, touch);
    MergedIsSound(fold, merged, touch);
    MergedHasNoTies(fold, bands, touch);
    KeysHold(fold, merged);
    assert multiset(Bands(Intervals(fold, merged, touch))) == multiset(merged) by {
      forall b ensures multiset(Bands(Intervals(fold, merged, touch)))[b] == multiset(merged)[b] {
        AllRunsBands(fold, merged, Keys(fold, merged), touch, b);
        SecondRuns(fold, bands, fold(b.name), touch);
        GroupCounts(fold, merged, fold(b.name), b);
      }
    }
    OrderedIsUnique(merged, Merged(fold, merged, touch), ResultOrder(fold));
  }
}
