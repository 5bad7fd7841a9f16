/** merge_bands of util/traficom_to_sdrpp_brown.py for the bands of one name: the backward
    scan, the forward fold-in, and what the merged intervals mean. */
module BandMerge {
  import opened Common
  import opened BandOrder

  /** The merged type, or None when the types must stay separate. */
  function CompatibleType(left: string, right: string): Option<string> {
    if left == right then Some(left)
    else if left == OTHER then Some(right)
    else if right == OTHER then Some(left)
    else None
  }

  /** An output interval together with the input bands that went into it. */
  datatype Run = Run(band: Band, members: multiset<Band>)

  function Bands(runs: seq<Run>): (bands: seq<Band>)
    ensures |bands| == |runs|
    ensures forall k :: 0 <= k < |runs| ==> bands[k] == runs[k].band
  {
    seq(|runs|, k requires 0 <= k < |runs| => runs[k].band)
  }

  // ---------- one band into the intervals so far ----------

  /** The backward scan over the first n intervals: it gives up at the first one that ends
      too early, and answers the first compatible one before that, or -1. */
  function FindBack(bands: seq<Band>, n: nat, band: Band, touch: int): (i: int)
    requires n <= |bands|
    ensures -1 <= i < n
    ensures i >= 0 ==> CompatibleType(bands[i].kind, band.kind).Some? && band.start <= bands[i].end + touch
    ensures i >= 0 ==> forall k :: i < k < n ==> CompatibleType(bands[k].kind, band.kind).None?
  {
    if n == 0 || bands[n - 1].end + touch < band.start then -1
    else if CompatibleType(bands[n - 1].kind, band.kind).Some? then n - 1
    else FindBack(bands, n - 1, band, touch)
  }

  function Extended(prev: Band, band: Band, kind: string): Band {
    prev.(start := Min(prev.start, band.start), end := Max(prev.end, band.end), kind := kind)
  }

  function Swallowed(prev: Band, other: Band, kind: string): Band {
    prev.(end := Max(prev.end, other.end), kind := kind)
  }

  /** The forward loop that folds later intervals into interval i, from j on. */
  function FoldIn(runs: seq<Run>, i: nat, j: nat, touch: int): seq<Run>
    requires i < j <= |runs|
    decreases |runs| - j
  {
    if j == |runs| || runs[j].band.start > runs[i].band.end + touch then runs
    else
      var kind := CompatibleType(runs[i].band.kind, runs[j].band.kind);
      if kind.None? then FoldIn(runs, i, j + 1, touch)
      else
        var folded := Run(Swallowed(runs[i].band, runs[j].band, kind.value), runs[i].members + runs[j].members);
        FoldIn(runs[i := folded][..j] + runs[j + 1..], i, j, touch)
  }

  function Joined(run: Run, band: Band): Run
    requires CompatibleType(run.band.kind, band.kind).Some?
  {
    Run(Extended(run.band, band, CompatibleType(run.band.kind, band.kind).value), run.members + multiset{band})
  }

  function Absorb(runs: seq<Run>, band: Band, touch: int): seq<Run> {
    var i := FindBack(Bands(runs), |runs|, band, touch);
    if i < 0 then runs + [Run(band, multiset{band})]
    else FoldIn(runs[i := Joined(runs[i], band)], i, i + 1, touch)
  }

  function Merge(group: seq<Band>, touch: int): seq<Run> {
    if |group| == 0 then [] else Absorb(Merge(group[..|group| - 1], touch), group[|group| - 1], touch)
  }

  /** The forward loop never finds anything: every interval after the one the scan stopped at
      was passed over for its type, and stays incompatible with the merged type. */
  lemma {:induction false} AbsorbFoldsNothing(runs: seq<Run>, band: Band, touch: int)
    ensures var i := FindBack(Bands(runs), |runs|, band, touch);
      Absorb(runs, band, touch) ==
      if i < 0 then runs + [Run(band, multiset{band})] else runs[i := Joined(runs[i], band)]
  {
    var i := FindBack(Bands(runs), |runs|, band, touch);
    if i >= 0 {
      NothingToFold(runs[i := Joined(runs[i], band)], i, i + 1, touch);
    }
  }

  lemma {:induction false} NothingToFold(runs: seq<Run>, i: nat, j: nat, touch: int)
    requires i < j <= |runs|
    requires forall k :: j <= k < |runs| ==> CompatibleType(runs[i].band.kind, runs[k].band.kind).None?
    ensures FoldIn(runs, i, j, touch) == runs
    decreases |runs| - j
  {
    if j < |runs| {
      NothingToFold(runs, i, j + 1, touch);
    }
  }

  // ---------- when a band adds an interval ----------

  /** Types that may share an interval. */
  predicate Match(left: string, right: string) {
    left == right || left == "other" || right == "other"
  }

  /** The scan's answer, whatever it is: an interval is found exactly when it is the last one of
      a matching type and no interval from it on ends too early. */
  lemma {:induction false} FindsLastMatch(bands: seq<Band>, n: nat, band: Band, touch: int, i: nat)
    requires i < n <= |bands|
    ensures FindBack(bands, n, band, touch) == i <==>
      && Match(bands[i].kind, band.kind)
      && (forall k :: i < k < n ==> !Match(bands[k].kind, band.kind))
      && (forall k :: i <= k < n ==> band.start <= bands[k].end + touch)
    decreases n
  {
    if i < n - 1 {
      FindsLastMatch(bands, n - 1, band, touch, i);
    }
  }

  /** Nothing is found only when every interval of a matching type has one from it on that ends
      too early. */
  lemma {:induction false} FindsNothing(bands: seq<Band>, n: nat, band: Band, touch: int)
    requires n <= |bands| && FindBack(bands, n, band, touch) == -1
    ensures forall k :: 0 <= k < n && Match(bands[k].kind, band.kind) ==>
      exists j :: k <= j < n && bands[j].end + touch < band.start
    decreases n
  {
    if n > 0 && bands[n - 1].end + touch < band.start {
    } else if n > 0 {
      FindsNothing(bands, n - 1, band, touch);
      forall k | 0 <= k < n && Match(bands[k].kind, band.kind)
        ensures exists j :: k <= j < n && bands[j].end + touch < band.start
      {
        var j :| k <= j < n - 1 && bands[j].end + touch < band.start;
      }
    }
  }

  /** Behind every interval the band could join by its type, itself included, there is one that
      ends too early for the band. */
  ghost predicate Alone(runs: seq<Run>, band: Band, touch: int) {
    forall k :: 0 <= k < |runs| && Match(runs[k].band.kind, band.kind) ==>
      exists j :: k <= j < |runs| && runs[j].band.end + touch < band.start
  }

  /** A band adds an interval exactly in that case, and otherwise changes just the last interval
      whose type it matches. */
  lemma AddsIffAlone(runs: seq<Run>, band: Band, touch: int) returns (i: int)
    ensures Alone(runs, band, touch) ==> Absorb(runs, band, touch) == runs + [Run(band, multiset{band})]
    ensures !Alone(runs, band, touch) ==>
      && 0 <= i < |runs| && Match(runs[i].band.kind, band.kind)
      && (forall k :: i < k < |runs| ==> !Match(runs[k].band.kind, band.kind))
      && Absorb(runs, band, touch) == runs[i := Joined(runs[i], band)]
  {
    hide Absorb, Joined;
    AbsorbFoldsNothing(runs, band, touch);
    i := FindBack(Bands(runs), |runs|, band, touch);
    if i >= 0 {
      FindsLastMatch(Bands(runs), |runs|, band, touch, i);
      assert forall j :: i <= j < |runs| ==> band.start <= Bands(runs)[j].end + touch;
      assert !Alone(runs, band, touch);
    } else {
      FindsNothing(Bands(runs), |runs|, band, touch);
      forall k | 0 <= k < |runs| && Match(runs[k].band.kind, band.kind)
        ensures exists j :: k <= j < |runs| && runs[j].band.end + touch < band.start
      {
        var j :| k <= j < |runs| && Bands(runs)[j].end + touch < band.start;
        assert runs[j].band.end + touch < band.start;
      }
    }
  }

  // ---------- every band goes to exactly one interval ----------

  function Members(runs: seq<Run>): multiset<Band> {
    if |runs| == 0 then multiset{} else Members(runs[..|runs| - 1]) + runs[|runs| - 1].members
  }

  lemma MembersOfUpdate(runs: seq<Run>, i: nat, run: Run, extra: multiset<Band>)
    requires i < |runs| && run.members == runs[i].members + extra
    ensures Members(runs[i := run]) == Members(runs) + extra
  {
    var n := |runs| - 1;
    if i < n {
      MembersOfUpdate(runs[..n], i, run, extra);
      assert runs[i := run][..n] == runs[..n][i := run];
    } else {
      assert runs[i := run][..n] == runs[..n];
    }
  }

  lemma {:induction false} MembersOfConcat(a: seq<Run>, b: seq<Run>)
    ensures Members(a + b) == Members(a) + Members(b)
  {
    if |b| == 0 {
      assert a + b == a;
    } else {
      var n := |b| - 1;
      assert (a + b)[..|a| + n] == a + b[..n];
      MembersOfConcat(a, b[..n]);
    }
  }

  lemma {:induction false} MergePartitions(group: seq<Band>, touch: int)
    ensures Members(Merge(group, touch)) == multiset(group)
  {
    hide Absorb, Members, Merge;
    MergeLast(group, touch);
    if |group| > 0 {
      var n := |group| - 1;
      MergePartitions(group[..n], touch);
      AbsorbAdds(Merge(group[..n], touch), group[n], touch);
      assert group == group[..n] + [group[n]];
    }
  }

  lemma {:induction false} MergeLast(group: seq<Band>, touch: int)
    ensures |group| == 0 ==> Merge(group, touch) == [] && Members([]) == multiset{}
    ensures |group| > 0 ==>
      Merge(group, touch) == Absorb(Merge(group[..|group| - 1], touch), group[|group| - 1], touch)
  {
  }

  lemma {:induction false} AbsorbAdds(runs: seq<Run>, band: Band, touch: int)
    ensures Members(Absorb(runs, band, touch)) == Members(runs) + multiset{band}
  {
    hide Absorb;
    AbsorbFoldsNothing(runs, band, touch);
    var i := FindBack(Bands(runs), |runs|, band, touch);
    if i >= 0 {
      MembersOfUpdate(runs, i, Joined(runs[i], band), multiset{band});
    } else {
      assert (runs + [Run(band, multiset{band})])[..|runs|] == runs;
    }
  }

  // ---------- what an interval says about its bands ----------

  /** The interval runs from its bands' least start to their greatest end. */
  ghost predicate Hull(run: Run) {
    && (forall m :: m in run.members ==> run.band.start <= m.start && m.end <= run.band.end)
    && (exists m :: m in run.members && m.start == run.band.start)
    && (exists m :: m in run.members && m.end == run.band.end)
  }

  predicate Reaches(m: Band, p: int, touch: int) {
    m.start < p <= m.end + touch
  }

  ghost predicate Near(members: multiset<Band>, p: int, touch: int) {
    exists m :: m in members && Reaches(m, p, touch)
  }

  /** The bands hang together: before every point of the interval one of them starts that
      ends no more than `touch` short of it, so there is no wider gap. */
  ghost predicate Covered(run: Run, touch: int) {
    && (forall m :: m in run.members ==> m.start <= m.end)
    && (forall p :: run.band.start < p <= run.band.end ==> Near(run.members, p, touch))
  }

  /** The type is the one specific type among the bands, or "other" when there is none. */
  ghost predicate Typed(run: Run) {
    && (forall m :: m in run.members ==> m.kind == OTHER || m.kind == run.band.kind)
    && (exists m :: m in run.members && m.kind == run.band.kind)
  }

  /** The name is a band's, and all the bands fold to the same one. */
  ghost predicate Named(run: Run, fold: string -> string) {
    && (exists m :: m in run.members && m.name == run.band.name)
    && (forall m :: m in run.members ==> fold(m.name) == fold(run.band.name))
  }

  ghost predicate Sound(run: Run, fold: string -> string, touch: int) {
    Hull(run) && Covered(run, touch) && Typed(run) && Named(run, fold)
  }

  predicate ByStart(group: seq<Band>) {
    forall i, j :: 0 <= i < j < |group| ==> group[i].start <= group[j].start
  }

  predicate Proper(bands: seq<Band>) {
    forall i :: 0 <= i < |bands| ==> bands[i].start <= bands[i].end
  }

  predicate SameName(bands: seq<Band>, fold: string -> string, key: string) {
    forall i :: 0 <= i < |bands| ==> fold(bands[i].name) == key
  }

  lemma JoinedIsSound(run: Run, band: Band, fold: string -> string, touch: int)
    requires Sound(run, fold, touch) && touch >= 0 && band.start <= band.end
    requires run.band.start <= band.start <= run.band.end + touch && fold(band.name) == fold(run.band.name)
    requires CompatibleType(run.band.kind, band.kind).Some?
    ensures Sound(Joined(run, band), fold, touch)
  {
    hide Covered;
    var r := Joined(run, band);
    assert band in r.members;
    assert forall m :: m in run.members ==> m in r.members;
    assert forall m :: m in r.members ==> m in run.members || m == band;
    JoinedIsHull(run, band);
    JoinedIsCovered(run, band, touch);
  }

  lemma JoinedIsHull(run: Run, band: Band)
    requires Hull(run) && CompatibleType(run.band.kind, band.kind).Some? && run.band.start <= band.start
    ensures Hull(Joined(run, band))
  {
    var r := Joined(run, band);
    var a :| a in run.members && a.start == run.band.start;
    var e :| e in run.members && e.end == run.band.end;
    assert band in r.members && a in r.members && e in r.members;
    forall m | m in r.members ensures r.band.start <= m.start && m.end <= r.band.end {
      assert m in run.members || m == band;
    }
  }

  lemma JoinedIsCovered(run: Run, band: Band, touch: int)
    requires Hull(run) && Covered(run, touch) && touch >= 0 && band.start <= band.end
    requires CompatibleType(run.band.kind, band.kind).Some?
    requires run.band.start <= band.start <= run.band.end + touch
    ensures Covered(Joined(run, band), touch)
  {
    var r := Joined(run, band);
    assert forall m :: m in r.members ==> m in run.members || m == band;
    forall p | r.band.start < p <= r.band.end ensures Near(r.members, p, touch) {
      JoinedIsNear(run, band, touch, p);
    }
  }

  lemma JoinedIsNear(run: Run, band: Band, touch: int, p: int)
    requires Hull(run) && Covered(run, touch) && touch >= 0
    requires run.band.start <= band.start <= run.band.end + touch
    requires run.band.start < p <= Max(run.band.end, band.end)
    ensures Near(run.members + multiset{band}, p, touch)
  {
    var members := run.members + multiset{band};
    if p <= run.band.end {
      assert Near(run.members, p, touch);
      var m :| m in run.members && Reaches(m, p, touch);
      assert m in members;
    } else if p > band.start {
      assert band in members && Reaches(band, p, touch);
    } else {
      // between the end of the interval and the start of the band
      var e :| e in run.members && e.end == run.band.end;
      assert e in members && Reaches(e, p, touch);
    }
  }

  lemma SingleIsSound(band: Band, fold: string -> string, touch: int)
    requires touch >= 0 && band.start <= band.end
    ensures Sound(Run(band, multiset{band}), fold, touch)
  {
    var run := Run(band, multiset{band});
    assert band in run.members;
    forall p | band.start < p <= band.end ensures Near(run.members, p, touch) {
      assert Reaches(band, p, touch);
    }
  }

  /** Sound intervals of one name made from the bands seen. */
  ghost predicate Made(runs: seq<Run>, seen: multiset<Band>, fold: string -> string, key: string, touch: int) {
    forall i :: 0 <= i < |runs| ==>
      Sound(runs[i], fold, touch) && fold(runs[i].band.name) == key && runs[i].members <= seen
  }

  lemma AbsorbKeepsSound(runs: seq<Run>, seen: multiset<Band>, band: Band,
                         fold: string -> string, key: string, touch: int)
    requires Made(runs, seen, fold, key, touch) && touch >= 0
    requires band.start <= band.end && fold(band.name) == key && forall m :: m in seen ==> m.start <= band.start
    ensures Made(Absorb(runs, band, touch), seen + multiset{band}, fold, key, touch)
  {
    hide Absorb, Sound;
    AbsorbFoldsNothing(runs, band, touch);
    var i := FindBack(Bands(runs), |runs|, band, touch);
    if i >= 0 {
      StartsBefore(runs[i], seen, band, fold, touch);
      JoinedIsSound(runs[i], band, fold, touch);
    } else {
      SingleIsSound(band, fold, touch);
    }
  }

  lemma StartsBefore(run: Run, seen: multiset<Band>, band: Band, fold: string -> string, touch: int)
    requires Sound(run, fold, touch) && run.members <= seen && forall m :: m in seen ==> m.start <= band.start
    ensures run.band.start <= band.start
  {
    var m :| m in run.members && m.start == run.band.start;
  }

  /** Every interval merged from sorted bands of one name is sound. */
  lemma {:induction false} MergeIsSound(group: seq<Band>, fold: string -> string, key: string, touch: int)
    requires ByStart(group) && Proper(group) && SameName(group, fold, key) && touch >= 0
    ensures Made(Merge(group, touch), multiset(group), fold, key, touch)
  {
    hide Absorb, Merge;
    MergeLast(group, touch);
    if |group| > 0 {
      var n := |group| - 1;
      MergeIsSound(group[..n], fold, key, touch);
      forall m | m in multiset(group[..n]) ensures m.start <= group[n].start {
        assert m in group[..n];
      }
      AbsorbKeepsSound(Merge(group[..n], touch), multiset(group[..n]), group[n], fold, key, touch);
      assert group == group[..n] + [group[n]];
    }
  }
}
