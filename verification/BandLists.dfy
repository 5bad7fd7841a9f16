/** merge_bands of util/traficom_to_sdrpp_brown.py as a whole: grouping by folded name,
    merging each group, sorting the result. */
module BandLists {
  import opened Common
  import opened Sorting
  import opened BandOrder
  import opened BandMerge
  import opened BandCanon

  type Fold = string -> string

  // ---------- grouping ----------

  /** The bands whose name folds to the key, in input order. */
  function Group(fold: Fold, bands: seq<Band>, key: string): seq<Band> {
    if |bands| == 0 then []
    else
      var last := bands[|bands| - 1];
      Group(fold, bands[..|bands| - 1], key) + if fold(last.name) == key then [last] else []
  }

  /** The folded names in the order of their first bands. */
  function Keys(fold: Fold, bands: seq<Band>): seq<string> {
    if |bands| == 0 then []
    else
      var keys, key := Keys(fold, bands[..|bands| - 1]), fold(bands[|bands| - 1].name);
      if key in keys then keys else keys + [key]
  }

  function RunsOf(fold: Fold, bands: seq<Band>, key: string, touch: int): seq<Run> {
    Merge(Sorted(Group(fold, bands, key)), touch)
  }

  /** The merged intervals of the given names, one name after the other. */
  function AllRuns(fold: Fold, bands: seq<Band>, keys: seq<string>, touch: int): seq<Run> {
    if |keys| == 0 then []
    else AllRuns(fold, bands, keys[..|keys| - 1], touch) + RunsOf(fold, bands, keys[|keys| - 1], touch)
  }

  function Intervals(fold: Fold, bands: seq<Band>, touch: int): seq<Run> {
    AllRuns(fold, bands, Keys(fold, bands), touch)
  }

  function Merged(fold: Fold, bands: seq<Band>, touch: int): seq<Band> {
    Sort(Bands(Intervals(fold, bands, touch)), ResultOrder(fold))
  }

  lemma BandsOfConcat(a: seq<Run>, b: seq<Run>)
    ensures Bands(a + b) == Bands(a) + Bands(b)
  {
  }

  // ---------- the program ----------

  /** The backward scan. */
  method ScanBack(merged: seq<Band>, band: Band, touch: int) returns (index: int)
    ensures index == FindBack(merged, |merged|, band, touch)
  {
    var i := |merged|;
    while i > 0
      invariant 0 <= i <= |merged|
      invariant FindBack(merged, |merged|, band, touch) == FindBack(merged, i, band, touch)
    {
      i := i - 1;
      if merged[i].end + touch < band.start {
        return -1;
      }
      if CompatibleType(merged[i].kind, band.kind).Some? {
        return i;
      }
    }
    return -1;
  }

  /** The forward loop, which deletes the intervals it folds in. */
  method FoldForward(merged: seq<Band>, i: nat, touch: int, ghost runs: seq<Run>) returns (folded: seq<Band>)
    requires i < |merged| && merged == Bands(runs)
    ensures folded == Bands(FoldIn(runs, i, i + 1, touch))
  {
    folded := merged;
    ghost var now := runs;
    var j := i + 1;
    while j < |folded|
      invariant i < j <= |folded| && folded == Bands(now)
      invariant FoldIn(now, i, j, touch) == FoldIn(runs, i, i + 1, touch)
      decreases |folded| - j
    {
      if folded[j].start > folded[i].end + touch {
        break;
      }
      var kind := CompatibleType(folded[i].kind, folded[j].kind);
      if kind.None? {
        j := j + 1;
      } else {
        var prev := Swallowed(folded[i], folded[j], kind.value);
        now := now[i := Run(prev, now[i].members + now[j].members)][..j] + now[j + 1..];
        folded := folded[i := prev][..j] + folded[j + 1..];
      }
    }
  }

  /** The body of the loop over one name's bands. */
  method AbsorbBand(merged: seq<Band>, candidate: Band, touch: int, ghost runs: seq<Run>) returns (now: seq<Band>)
    requires merged == Bands(runs)
    ensures now == Bands(Absorb(runs, candidate, touch))
  {
    hide FindBack, FoldIn;
    var index := ScanBack(merged, candidate, touch);
    if index < 0 {
      now := merged + [candidate];
    } else {
      var kind := CompatibleType(merged[index].kind, candidate.kind).value;
      var wider := merged[index := Extended(merged[index], candidate, kind)];
      now := FoldForward(wider, index, touch, runs[index := Joined(runs[index], candidate)]);
    }
  }

  /** The loop over one name's sorted bands. */
  method MergeGroup(group: seq<Band>, touch: int) returns (merged: seq<Band>)
    ensures merged == Bands(Merge(group, touch))
  {
    hide Absorb, Bands;
    merged := [];
    assert merged == Bands([]);
    for n := 0 to |group|
      invariant merged == Bands(Merge(group[..n], touch))
    {
      assert group[..n + 1][..n] == group[..n];
      merged := AbsorbBand(merged, group[n], touch, Merge(group[..n], touch));
    }
    assert group[..|group|] == group;
  }

  /** by_name: every folded name with its bands, and the names in order. */
  method GroupByName(fold: Fold, bands: seq<Band>) returns (byName: map<string, seq<Band>>, keys: seq<string>)
    ensures keys == Keys(fold, bands)
    ensures byName.Keys == set k | k in keys
    ensures forall k :: k in keys ==> byName[k] == Group(fold, bands, k)
  {
    byName, keys := map[], [];
    for n := 0 to |bands|
      invariant keys == Keys(fold, bands[..n])
      invariant byName.Keys == set k | k in keys
      invariant forall k :: k in keys ==> byName[k] == Group(fold, bands[..n], k)
      invariant forall k :: k !in keys ==> Group(fold, bands[..n], k) == []
    {
      assert bands[..n + 1][..n] == bands[..n];
      var key := fold(bands[n].name);
      if key in byName {
        byName := byName[key := byName[key] + [bands[n]]];
      } else {
        byName := byName[key := [bands[n]]];
        keys := keys + [key];
      }
    }
    assert bands[..|bands|] == bands;
  }

  method MergeBands(fold: Fold, bands: seq<Band>, touch: int) returns (merged: seq<Band>)
    ensures merged == Merged(fold, bands, touch)
  {
    hide Merge, Group, Keys, Sort, Bands;
    var byName, keys := GroupByName(fold, bands);
    merged := [];
    assert merged == Bands([]);
    for n := 0 to |keys|
      invariant merged == Bands(AllRuns(fold, bands, keys[..n], touch))
    {
      assert keys[..n + 1][..n] == keys[..n];
      var nameMerged := MergeGroup(Sorted(byName[keys[n]]), touch);
      BandsOfConcat(AllRuns(fold, bands, keys[..n], touch), RunsOf(fold, bands, keys[n], touch));
      merged := merged + nameMerged;
    }
    assert keys[..|keys|] == keys;
    merged := Sort(merged, ResultOrder(fold));
  }
}
