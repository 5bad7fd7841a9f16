/** core/src/gui/smgui.cpp: the draw list as an object, its byte buffers as arrays. */
module DrawLists {
  import opened Common
  import opened DrawCodec
  import opened DrawWidgets
  import opened DrawReplay

  /** getItemSize. */
  method GetItemSize(elem: Elem) returns (n: int)
    ensures n == |Encode(elem)|
  {
    match elem
    case Step(_, _) => return 3;
    case Bool(_) => return 2;
    case Int(_) => return 5;
    case Float(_) => return 5;
    case Str(s) => return 3 + |s|;
  }

  /** A run of bytes copied into a buffer. */
  method Copy(bytes: seq<byte>, data: array<byte>, at: nat)
    requires at + |bytes| <= data.Length
    modifies data
    ensures data[..] == old(data[..at]) + bytes + old(data[at + |bytes|..])
  {
    for k := 0 to |bytes|
      invariant data[at..at + k] == bytes[..k]
      invariant data[..at] == old(data[..at]) && data[at + k..] == old(data[at + k..])
    {
      data[at + k] := bytes[k];
      assert data[at..at + k + 1] == data[at..at + k] + [bytes[k]];
    }
    assert data[..] == data[..at] + data[at..at + |bytes|] + data[at + |bytes|..];
  }

  /** storeItem at a position of the buffer, with `len` bytes left there. Without room it may
      have written the type byte. */
  method StoreItem(elem: Elem, data: array<byte>, at: nat, len: int) returns (count: int)
    requires len >= 0 ==> at + len <= data.Length
    modifies data
    ensures count == if ItemSize(elem) <= len then ItemSize(elem) else -1
    ensures count >= 0 ==> data[..] == old(data[..at]) + Encode(elem) + old(data[at + count..])
    ensures count < 0 ==> forall k :: 0 <= k < data.Length && k != at ==> data[k] == old(data[k])
  {
    if len < 1 {
      return -1;
    }
    var left := len - 1;
    data[at] := Encode(elem)[0];
    if ItemSize(elem) - 1 <= left {
      Copy(Encode(elem), data, at);
      count := ItemSize(elem);
    } else {
      count := -1;
    }
  }

  class DrawList {
    var elements: seq<Elem>

    constructor ()
      ensures elements == []
    {
      elements := [];
    }

    method PushStep(step: byte, forceSync: bool)
      modifies this
      ensures elements == old(elements) + [Step(step, forceSync)]
    {
      elements := elements + [Step(step, forceSync)];
    }

    /** The pushes of a widget function's arguments. */
    method PushAll(args: seq<Elem>)
      modifies this
      ensures elements == old(elements) + args
    {
      elements := elements + args;
    }

    method GetSize() returns (size: int)
      ensures size == |EncodeAll(elements)|
    {
      size := 0;
      for k := 0 to |elements|
        invariant size + Size(elements[k..]) == Size(elements)
      {
        var n := GetItemSize(elements[k]);
        assert elements[k..][1..] == elements[k + 1..];
        size := size + n;
      }
    }

    /** store writes the whole list and says how many bytes, or fails when the buffer is too
        small for it. */
    method Store(data: array<byte>, len: int) returns (n: int)
      requires 0 <= len <= data.Length
      modifies data
      ensures n == if Size(elements) <= len then Size(elements) else -1
      ensures n >= 0 ==> data[..] == EncodeAll(elements) + old(data[n..])
    {
      hide Encode, EncodeAll, Size, PartlyStored;
      ghost var was := data[..];
      var i, left := 0, len;
      NothingStored(was, elements);
      for k := 0 to |elements|
        invariant 0 <= i && 0 <= left && i + left == len
        invariant i + Size(elements[k..]) == Size(elements)
        invariant PartlyStored(data[..], was, i, elements[k..], elements)
      {
        ghost var before := data[..];
        var count := StoreItem(elements[k], data, i, left);
        SizeFirst(elements[k..]);
        assert elements[k..][1..] == elements[k + 1..];
        if count < 0 {
          return -1;
        }
        StoredOne(before, data[..], was, i, elements[k..], elements);
        i := i + count;
        left := left - count;
      }
      AllStored(data[..], was, i, elements[|elements|..], elements);
      n := i;
    }

    /** load replaces the list; it fails when an element cannot be read or the list is not
        one validate accepts, and keeps what it has read even then. */
    method Load(data: array<byte>, len: int) returns (ending: Ending)
      requires len <= data.Length
      modifies this
      ensures elements == LoadFrom(data[..], len).elements
      ensures ending ==
        var r := LoadFrom(data[..], len);
        if r.ending.Used? && !Valid(elements) then Failed else r.ending
    {
      hide LoadFrom, LoadItem, Valid, Prefixed;
      elements := [];
      var i, left := 0, len;
      assert data[0..] == data[..];
      PrefixedByNothing(LoadFrom(data[..], len));
      while left > 0
        invariant 0 <= i <= data.Length && left <= data.Length - i
        invariant LoadFrom(data[..], len) == Prefixed(elements, i, LoadFrom(data[i..], left))
        decreases left
      {
        LoadOneMore(elements, i, data[i..], left);
        var item := LoadItem(data[i..], left);
        if item.OutOfBuffer? {
          return PastBuffer;
        }
        if item.Refused? {
          return Failed;
        }
        assert data[i..][item.count..] == data[i + item.count..];
        i := i + item.count;
        left := left - item.count;
        elements := elements + [item.elem];
      }
      LoadOneMore(elements, i, data[i..], left);
      var ok := Validate();
      ending := if ok then Used(i) else Failed;
    }

    method CheckTypes(firstId: nat, kinds: seq<Kind>) returns (ok: bool)
      requires firstId <= |elements|
      ensures ok == HasTypes(elements[firstId..], kinds)
    {
      if firstId + |kinds| > |elements| {
        return false;
      }
      for k := 0 to |kinds|
        invariant forall j :: 0 <= j < k ==> KindOf(elements[firstId + j]) == kinds[j]
      {
        if kinds[k] != KindOf(elements[firstId + k]) {
          assert elements[firstId..][k] == elements[firstId + k];
          return false;
        }
      }
      ok := true;
    }

    method Validate() returns (ok: bool)
      ensures ok == Valid(elements)
    {
      hide Valid, Signature, HasTypes;
      var i := 0;
      assert elements[0..] == elements;
      while i < |elements|
        invariant 0 <= i <= |elements| && Valid(elements) == Valid(elements[i..])
        decreases |elements| - i
      {
        ValidFirst(elements[i..]);
        if !elements[i].Step? {
          return false;
        }
        var step := elements[i].step;
        ghost var at := i;
        i := i + 1;
        assert elements[at..][1..] == elements[i..];
        var typed := CheckTypes(i, Signature(step));
        if !typed {
          return false;
        }
        TypesLeft(elements[i..], Signature(step));
        assert elements[at..][1 + |Signature(step)|..] == elements[i + |Signature(step)|..];
        i := i + |Signature(step)|;
      }
      NothingIsValid(elements[i..]);
      ok := true;
    }

    /** The loop that leaves a closed popup or table: from element i, where a widget starts,
        to one past the first step with the given code, or to two past the last element. */
    method SkipPast(i: nat, closer: byte) returns (j: nat)
      requires i <= |elements| && Valid(elements[i..]) && |Signature(closer)| == 0
      ensures i < j <= |elements| + 1
      ensures var ws := Parse(elements[i..]);
        if j <= |elements| then elements[j..] == Flatten(ws[Skipped(ws, closer)..]) else Skipped(ws, closer) == |ws|
    {
      hide AllTyped, Flatten, Signature, Skipped, Valid, Parse;
      j := i;
      while j < |elements| && !(elements[j].Step? && elements[j].step == closer)
        invariant i <= j <= |elements|
        invariant ToCloser(elements[i..], closer) == j - i + ToCloser(elements[j..], closer)
      {
        assert elements[j..][1..] == elements[j + 1..];
        j := j + 1;
      }
      ParseFlattens(elements[i..]);
      CloserFound(Parse(elements[i..]), closer);
      assert elements[i..][j - i..] == elements[j..];
      if j < |elements| {
        assert elements[i..][j - i + 1..] == elements[j + 1..];
      }
      j := j + 1;
    }

    /** draw: the calls it makes, the changed list it leaves, the last change it reports. */
    method Draw(ui: Ui) returns (calls: seq<Call>, diff: Option<Diff>)
      requires Valid(elements)
      modifies this
      ensures var p := Played(Parse(old(elements)), ui, 0);
        calls == p.calls && elements == Flatten(p.list) && diff == p.diff
    {
      hide Valid, Parse, Flatten, Played, Drawing, AllTyped, Drawn;
      ghost var done, ws := [], Parse(elements);
      ghost var all := Played(ws, ui, 0);
      calls, diff := [], None;
      var i: nat := 0;
      StartDrawing(elements, ui);
      while i < |elements|
        invariant Drawing(elements, i, done, ws, calls, diff, ui, all)
        decreases |ws|
      {
        var was := elements;
        StillDrawing(elements, i, done, ws, calls, diff, ui, all);
        var next, call, change := DrawOne(i, ui, |calls|, ws);
        DrewOne(was, elements, i, next, done, ws, calls, diff, ui, all);
        ghost var k := if call.None? then 1 else Resume(ws, ui(|calls|));
        done := done + [DrawnWidget(ws[0], ui(|calls|))] + ws[1..k];
        ws := ws[k..];
        if call.Some? {
          calls := calls + [call.value];
        }
        if change.Some? {
          diff := change;
        }
        i := next;
      }
      DoneDrawing(elements, i, done, ws, calls, diff, ui, all);
    }

    /** One round of draw's loop: at a step element, which validate made sure of, it makes the
        step's call with the arguments that follow and moves on. */
    method DrawOne(i: nat, ui: Ui, n: nat, ghost ws: seq<Widget>)
      returns (next: nat, call: Option<Call>, diff: Option<Diff>)
      requires i < |elements| && elements[i..] == Flatten(ws) && AllTyped(ws) && |ws| > 0 && Typed(ws[0])
      modifies this
      ensures call == Drawn(ws[0].step, ws[0].args)
      ensures elements == old(elements[..i]) + Elements(DrawnWidget(ws[0], ui(n))) + Flatten(ws[1..])
      ensures diff == if call.None? then None else DiffOf(DrawnWidget(ws[0], ui(n)), ui(n))
      ensures var k := if call.None? then 1 else Resume(ws, ui(n));
        && (next <= |elements| ==> elements[next..] == Flatten(ws[k..]))
        && (next > |elements| ==> k == |ws|)
        && i < next
    {
      hide Flatten, Drawn, Signature, HasTypes, Advance, AllTyped, Valid, Parse;
      ghost var w, rest := ws[0], Flatten(ws[1..]);
      AtWidget(elements, i, ws);
      assert elements[i].Step?;
      var step, sync, at := elements[i].step, elements[i].forceSync, i + 1;
      AdvanceAgrees(step);
      DrawnPrefix(step, elements[at..]);
      call := Drawn(step, elements[at..]);
      if call.None? {
        UnknownHasNone(step, w.args);
        return at, call, None;
      }
      var r := ui(n);
      if Edits(step) {
        EditsHasTwo(step);
        elements := elements[at + 1 := EditedArg(step, elements[at + 1], r)];
      }
      AfterEdit(old(elements), elements, i, w, r, rest);
      diff := None;
      if r.result {
        if Edits(step) {
          LabelFirst(w);
          diff := Some(Diff(elements[at].s, Some(elements[at + 1]), sync));
        } else if step == BUTTON || step == RADIO_BUTTON {
          LabelFirst(w);
          diff := Some(Diff(elements[at].s, None, sync));
        }
      }
      next := at + Advance(step);
      assert elements[next..] == rest;
      var closer := Closer(step);
      if closer.Some? && !r.result {
        CloserHasNone(step);
        RestTyped(ws, 1);
        FlattenParses(ws[1..]);
        next := SkipPast(next, closer.value);
        SkippedRest(ws, closer.value);
      }
    }
  }

  /** The server's recording: where the widget functions push, and the sync flag asked for the
      next of them. */
  class Recorder {
    var forceSyncForNext: bool
    var rdl: DrawList?

    constructor ()
      ensures rdl == null && !forceSyncForNext
    {
      rdl, forceSyncForNext := null, false;
    }

    method StartRecord(dl: DrawList)
      modifies this`rdl
      ensures rdl == dl
    {
      rdl := dl;
    }

    method StopRecord()
      modifies this`rdl
      ensures rdl == null
    {
      rdl := null;
    }

    method ForceSync()
      modifies this`forceSyncForNext
      ensures forceSyncForNext
    {
      forceSyncForNext := true;
    }

    /** A widget function in server mode: its step, with the sync flag if it takes one, then
        its arguments. */
    method Widget(c: Call)
      modifies this`forceSyncForNext, rdl
      ensures rdl != null ==>
        rdl.elements == old(rdl.elements) + Elements(Recorded(c, TakesSync(c) && old(forceSyncForNext)))
      ensures forceSyncForNext == (old(forceSyncForNext) && (rdl == null || !TakesSync(c)))
    {
      hide Recorded, TakesSync;
      if rdl == null {
        return;
      }
      var w := Recorded(c, TakesSync(c) && forceSyncForNext);
      rdl.PushStep(w.step, w.sync);
      rdl.PushAll(w.args);
      if TakesSync(c) {
        forceSyncForNext := false;
      }
    }
  }

  /** A list that holds a recorded menu holds the longer menu after one more widget call. */
  lemma {:induction false} RecordedNext(items: seq<Item>, item: Item)
    ensures Flatten(RecordAll(items + [item])) == Flatten(RecordAll(items)) + Elements(Recorded(item.call, item.sync))
  {
    hide Recorded, Elements;
    if |items| == 0 {
      assert (items + [item])[1..] == [];
      FlattenFirst(Recorded(item.call, item.sync), []);
    } else {
      assert (items + [item])[1..] == items[1..] + [item];
      RecordedNext(items[1..], item);
      var w := Recorded(items[0].call, items[0].sync);
      FlattenFirst(w, RecordAll(items[1..]));
      FlattenFirst(w, RecordAll(items[1..] + [item]));
    }
  }

  /** How far draw has come: the elements are those of the widgets done and of those left,
      and what is left to do completes what was to be done in all. */
  ghost predicate Drawing(es: seq<Elem>, i: nat, done: seq<Widget>, ws: seq<Widget>,
                          calls: seq<Call>, diff: Option<Diff>, ui: Ui, all: Play) {
    && AllTyped(ws) && es == Flatten(done) + Flatten(ws)
    && (if i <= |es| then i == |Flatten(done)| else |ws| == 0)
    && var rest := Played(ws, ui, |calls|);
    all == Play(calls + rest.calls, done + rest.list, Later(diff, rest.diff))
  }

  /** The widget a known step leaves in the list. */
  function DrawnWidget(w: Widget, r: Reply): Widget
    requires Typed(w)
  {
    if Drawn(w.step, w.args).Some? then Edited(w, r) else w
  }

  lemma {:induction false} StartDrawing(es: seq<Elem>, ui: Ui)
    requires Valid(es)
    ensures Drawing(es, 0, [], Parse(es), [], None, ui, Played(Parse(es), ui, 0))
  {
    hide Parse, Valid, Played, Flatten, AllTyped;
    ParseFlattens(es);
    FlattenEmpty([]);
    assert Flatten([]) + Flatten(Parse(es)) == es;
  }

  lemma {:induction false} StillDrawing(es: seq<Elem>, i: nat, done: seq<Widget>, ws: seq<Widget>,
                                        calls: seq<Call>, diff: Option<Diff>, ui: Ui, all: Play)
    requires Drawing(es, i, done, ws, calls, diff, ui, all) && i < |es|
    ensures |ws| > 0 && AllTyped(ws) && Typed(ws[0]) && es[i..] == Flatten(ws) && es[..i] == Flatten(done)
  {
    hide Played, Signature, HasTypes, Flatten;
    FlattenEmpty(ws);
  }

  lemma {:induction false} DoneDrawing(es: seq<Elem>, i: nat, done: seq<Widget>, ws: seq<Widget>,
                                       calls: seq<Call>, diff: Option<Diff>, ui: Ui, all: Play)
    requires Drawing(es, i, done, ws, calls, diff, ui, all) && i >= |es|
    ensures all == Play(calls, done, diff) && es == Flatten(done)
  {
    hide Flatten;
    FlattenEmpty(ws);
  }

  lemma {:induction false} FlattenEmpty(ws: seq<Widget>)
    ensures |Flatten(ws)| == 0 <==> |ws| == 0
  {
  }

  lemma DrewOne(was: seq<Elem>, now: seq<Elem>, i: nat, next: nat, done: seq<Widget>, ws: seq<Widget>,
                calls: seq<Call>, diff: Option<Diff>, ui: Ui, all: Play)
    requires Drawing(was, i, done, ws, calls, diff, ui, all) && i < |was| && |ws| > 0 && Typed(ws[0])
    requires var w := DrawnWidget(ws[0], ui(|calls|)); now == was[..i] + Elements(w) + Flatten(ws[1..])
    requires var k := if Drawn(ws[0].step, ws[0].args).None? then 1 else Resume(ws, ui(|calls|));
      if next <= |now| then now[next..] == Flatten(ws[k..]) else k == |ws|
    ensures var c, r := Drawn(ws[0].step, ws[0].args), ui(|calls|);
      var w, k := DrawnWidget(ws[0], r), if c.None? then 1 else Resume(ws, r);
      Drawing(now, next, done + [w] + ws[1..k], ws[k..], if c.None? then calls else calls + [c.value],
              if c.None? then diff else Later(diff, DiffOf(w, r)), ui, all)
  {
    hide Drawn, DrawnWidget, Resume, Edited, DiffOf, Signature, HasTypes, Elements, Flatten;
    var c, r := Drawn(ws[0].step, ws[0].args), ui(|calls|);
    var w, k := DrawnWidget(ws[0], r), if c.None? then 1 else Resume(ws, r);
    StillDrawing(was, i, done, ws, calls, diff, ui, all);
    RestTyped(ws, k);
    FlattenParts(done, w, ws, k);
    assert now == Flatten(done + [w] + ws[1..k]) + Flatten(ws[k..]);
    DrewCompletes(done, ws, calls, diff, ui, all);
  }

  lemma {:induction false} FlattenConcat(a: seq<Widget>, b: seq<Widget>)
    ensures Flatten(a + b) == Flatten(a) + Flatten(b)
  {
    if |a| == 0 {
      assert a + b == b;
    } else {
      hide Elements;
      assert (a + b)[1..] == a[1..] + b;
      FlattenConcat(a[1..], b);
    }
  }

  lemma {:induction false} FlattenParts(done: seq<Widget>, w: Widget, ws: seq<Widget>, k: nat)
    requires 1 <= k <= |ws|
    ensures Flatten(done + [w] + ws[1..k]) + Flatten(ws[k..]) == Flatten(done) + Elements(w) + Flatten(ws[1..])
  {
    assert Flatten([w]) == Elements(w) by {
      assert [w][1..] == [];
    }
    hide Flatten, Elements;
    FlattenConcat(ws[1..k], ws[k..]);
    assert ws[1..k] + ws[k..] == ws[1..];
    FlattenConcat(done + [w], ws[1..k]);
    FlattenConcat(done, [w]);
    Regroup(Flatten(done) + Elements(w), Flatten(ws[1..k]), Flatten(ws[k..]));
  }

  lemma Regroup(a: seq<Elem>, b: seq<Elem>, c: seq<Elem>)
    ensures a + b + c == a + (b + c)
  {
  }

  lemma DrewCompletes(done: seq<Widget>, ws: seq<Widget>, calls: seq<Call>, diff: Option<Diff>,
                      ui: Ui, all: Play)
    requires AllTyped(ws) && |ws| > 0 && Typed(ws[0])
    requires var rest := Played(ws, ui, |calls|);
      all == Play(calls + rest.calls, done + rest.list, Later(diff, rest.diff))
    ensures var c, r := Drawn(ws[0].step, ws[0].args), ui(|calls|);
      var w, k := DrawnWidget(ws[0], r), if c.None? then 1 else Resume(ws, r);
      var calls', diff' := if c.None? then calls else calls + [c.value], if c.None? then diff else Later(diff, DiffOf(w, r));
      AllTyped(ws[k..]) &&
      var rest := Played(ws[k..], ui, |calls'|);
      all == Play(calls' + rest.calls, done + [w] + ws[1..k] + rest.list, Later(diff', rest.diff))
  {
    hide Drawn, Resume, Edited, DiffOf, Signature, HasTypes;
    var c := Drawn(ws[0].step, ws[0].args);
    RestTyped(ws, if c.None? then 1 else Resume(ws, ui(|calls|)));
    hide Played, AllTyped;
    if c.Some? {
      PlayedKnown(ws, ui, |calls|);
    } else {
      PlayedUnknown(ws, ui, |calls|);
      assert ws[1..1] == [];
    }
  }

  lemma {:induction false} AtWidget(es: seq<Elem>, i: nat, ws: seq<Widget>)
    requires i < |es| && es[i..] == Flatten(ws) && |ws| > 0 && Typed(ws[0])
    ensures es[i] == Step(ws[0].step, ws[0].sync) && HasTypes(es[i + 1..], Signature(ws[0].step))
    ensures var n := |Signature(ws[0].step)|;
      i + 1 + n <= |es| && es[i + 1..][..n] == ws[0].args && es[i + 1 + n..] == Flatten(ws[1..])
    ensures es == es[..i] + Elements(ws[0]) + Flatten(ws[1..]) && |ws[0].args| == |Signature(ws[0].step)|
  {
    hide Signature;
    var n := |Signature(ws[0].step)|;
    FirstOf(ws[0], Flatten(ws[1..]));
    assert es[i..] == Elements(ws[0]) + Flatten(ws[1..]);
    assert es[i + 1..] == es[i..][1..];
    assert es[i + 1 + n..] == es[i..][1 + n..];
    assert es == es[..i] + es[i..];
  }

  lemma DrawnPrefix(step: byte, a: seq<Elem>)
    requires HasTypes(a, Signature(step))
    ensures |Signature(step)| <= |a| && HasTypes(a[..|Signature(step)|], Signature(step))
    ensures Drawn(step, a[..|Signature(step)|]) == Drawn(step, a)
  {
  }

  lemma UnknownHasNone(step: byte, a: seq<Elem>)
    requires HasTypes(a, Signature(step)) && Drawn(step, a).None?
    ensures |Signature(step)| == 0 && !Edits(step)
  {
  }

  lemma EditsHasTwo(step: byte)
    requires Edits(step)
    ensures |Signature(step)| >= 2
  {
  }

  lemma LabelFirst(w: Widget)
    requires Typed(w) && (Edits(w.step) || w.step == BUTTON || w.step == RADIO_BUTTON)
    ensures |w.args| >= 2 && w.args[0].Str?
  {
  }

  lemma CloserHasNone(step: byte)
    requires Closer(step).Some?
    ensures |Signature(Closer(step).value)| == 0
  {
  }

  lemma RestTyped(ws: seq<Widget>, k: nat)
    requires AllTyped(ws) && k <= |ws|
    ensures AllTyped(ws[k..])
  {
  }

  lemma {:induction false} SkippedRest(ws: seq<Widget>, closer: byte)
    requires |ws| > 0
    ensures ws[1..][Skipped(ws[1..], closer)..] == ws[1 + Skipped(ws[1..], closer)..]
  {
  }

  lemma AfterEdit(was: seq<Elem>, now: seq<Elem>, i: nat, w: Widget, r: Reply, rest: seq<Elem>)
    requires i < |was| && Typed(w) && was == was[..i] + Elements(w) + rest && |Elements(w)| == 1 + |w.args|
    requires Edits(w.step) ==> |w.args| >= 2 && now == was[i + 2 := EditedArg(w.step, was[i + 2], r)]
    requires !Edits(w.step) ==> now == was
    ensures now == was[..i] + Elements(Edited(w, r)) + rest
    ensures now[i + 1 + |w.args|..] == rest && now[i + 1..i + 1 + |w.args|] == Edited(w, r).args
  {
    hide Typed, Signature, EditedArg;
    if Edits(w.step) {
      var e := EditedArg(w.step, w.args[1], r);
      assert was[i + 2] == Elements(w)[2] == w.args[1];
      assert Elements(Edited(w, r)) == Elements(w)[2 := e];
    }
  }

  /** Where in the elements the first step with the code is, or their number. */
  function ToCloser(es: seq<Elem>, closer: byte): (t: nat)
    ensures t <= |es|
  {
    if |es| == 0 || (es[0].Step? && es[0].step == closer) then 0 else 1 + ToCloser(es[1..], closer)
  }

  lemma {:induction false} ArgsPassed(args: seq<Elem>, rest: seq<Elem>, closer: byte)
    requires forall k :: 0 <= k < |args| ==> !args[k].Step?
    ensures ToCloser(args + rest, closer) == |args| + ToCloser(rest, closer)
  {
    if |args| == 0 {
      assert args + rest == rest;
    } else {
      assert (args + rest)[1..] == args[1..] + rest;
      ArgsPassed(args[1..], rest, closer);
    }
  }

  lemma NoStepArgs(w: Widget)
    requires Typed(w)
    ensures forall k :: 0 <= k < |w.args| ==> !w.args[k].Step?
  {
    forall k | 0 <= k < |w.args| ensures !w.args[k].Step? {
      assert KindOf(w.args[k]) == Signature(w.step)[k];
      NoStepKinds(w.step, k);
    }
  }

  lemma NoStepKinds(step: byte, k: nat)
    requires k < |Signature(step)|
    ensures Signature(step)[k] != StepKind
  {
  }

  /** The first closing step in the elements is the closing step of a widget: arguments are
      never steps. */
  lemma {:induction false} CloserFound(ws: seq<Widget>, closer: byte)
    requires AllTyped(ws) && |Signature(closer)| == 0
    ensures var t, k := ToCloser(Flatten(ws), closer), Skipped(ws, closer);
      if t < |Flatten(ws)| then Flatten(ws)[t + 1..] == Flatten(ws[k..]) else k == |ws|
  {
    if |ws| > 0 {
      hide ToCloser, Elements, Typed, Signature, HasTypes;
      var w, rest := ws[0], Flatten(ws[1..]);
      assert Typed(w);
      assert Flatten(ws) == Elements(w) + rest;
      if w.step == closer {
        AtCloser(w, rest);
      } else {
        WidgetPassed(w, rest, closer);
        CloserFound(ws[1..], closer);
        var t := ToCloser(rest, closer);
        if t < |rest| {
          DropPast(Elements(w), rest, t + 1);
        }
      }
    }
  }

  lemma {:induction false} AtCloser(w: Widget, rest: seq<Elem>)
    requires Typed(w) && |Signature(w.step)| == 0
    ensures ToCloser(Elements(w) + rest, w.step) == 0 && (Elements(w) + rest)[1..] == rest
  {
    hide Signature;
  }

  lemma {:induction false} WidgetPassed(w: Widget, rest: seq<Elem>, closer: byte)
    requires Typed(w) && w.step != closer
    ensures ToCloser(Elements(w) + rest, closer) == |Elements(w)| + ToCloser(rest, closer)
  {
    NoStepArgs(w);
    hide Signature;
    ArgsPassed(w.args, rest, closer);
    assert (Elements(w) + rest)[1..] == w.args + rest;
  }

  lemma DropPast(a: seq<Elem>, b: seq<Elem>, n: nat)
    requires n <= |b|
    ensures (a + b)[|a| + n..] == b[n..]
  {
  }

  lemma TypesLeft(es: seq<Elem>, kinds: seq<Kind>)
    requires HasTypes(es, kinds)
    ensures |kinds| <= |es|
  {
  }

  lemma {:induction false} NothingIsValid(es: seq<Elem>)
    requires |es| == 0
    ensures Valid(es)
  {
  }

  /** What is loaded in all, when `done` is loaded already and `rest` is still to come. */
  ghost function Prefixed(done: seq<Elem>, i: nat, rest: Loaded): Loaded {
    Loaded(done + rest.elements, After(i, rest.ending))
  }

  lemma PrefixedByNothing(all: Loaded)
    ensures Prefixed([], 0, all) == all
  {
  }

  /** What the next round of load's loop leaves to be loaded. */
  lemma LoadOneMore(done: seq<Elem>, i: nat, data: seq<byte>, left: int)
    requires left <= |data|
    ensures left <= 0 ==> Prefixed(done, i, LoadFrom(data, left)) == Loaded(done, Used(i))
    ensures left > 0 ==>
      match LoadItem(data, left)
      case OutOfBuffer => Prefixed(done, i, LoadFrom(data, left)) == Loaded(done, PastBuffer)
      case Refused => Prefixed(done, i, LoadFrom(data, left)) == Loaded(done, Failed)
      case Read(elem, n) =>
        Prefixed(done, i, LoadFrom(data, left)) == Prefixed(done + [elem], i + n, LoadFrom(data[n..], left - n))
  {
    hide LoadFrom, LoadItem;
    LoadStops(data, left);
    if left > 0 && LoadItem(data, left).Read? {
      var e, n := LoadItem(data, left).elem, LoadItem(data, left).count;
      LoadStep(data, left, e, n);
      var rest := LoadFrom(data[n..], left - n).elements;
      assert done + ([e] + rest) == done + [e] + rest;
    }
  }

  /** The first i bytes now, with the bytes of the elements left, are the whole list's bytes;
      the others are as they were. */
  ghost predicate PartlyStored(now: seq<byte>, was: seq<byte>, i: nat, left: seq<Elem>, all: seq<Elem>) {
    i <= |now| == |was| && now[..i] + EncodeAll(left) == EncodeAll(all) && now[i..] == was[i..]
  }

  lemma {:induction false} NothingStored(was: seq<byte>, all: seq<Elem>)
    ensures PartlyStored(was, was, 0, all[0..], all) && Size(all[0..]) == Size(all)
  {
    hide EncodeAll, Size;
    assert all[0..] == all;
  }

  lemma {:induction false} SizeFirst(es: seq<Elem>)
    requires |es| > 0
    ensures Size(es) == ItemSize(es[0]) + Size(es[1..])
  {
  }

  lemma {:induction false} AllStored(now: seq<byte>, was: seq<byte>, i: nat, left: seq<Elem>, all: seq<Elem>)
    requires PartlyStored(now, was, i, left, all) && |left| == 0
    ensures now == EncodeAll(all) + was[i..] && i == Size(all) && Size(left) == 0
  {
    assert now == now[..i] + now[i..];
  }

  lemma StoredOne(before: seq<byte>, after: seq<byte>, was: seq<byte>, i: nat,
                  left: seq<Elem>, all: seq<Elem>)
    requires PartlyStored(before, was, i, left, all) && |left| > 0 && i + ItemSize(left[0]) <= |before|
    requires after == before[..i] + Encode(left[0]) + before[i + ItemSize(left[0])..]
    ensures PartlyStored(after, was, i + ItemSize(left[0]), left[1..], all)
  {
    assert EncodeAll(left) == Encode(left[0]) + EncodeAll(left[1..]);
    hide Encode, EncodeAll, ItemSize;
    PutMiddle(before, after, i, Encode(left[0]), EncodeAll(left[1..]));
    var n := i + |Encode(left[0])|;
    assert before[n..] == before[i..][n - i..] && was[n..] == was[i..][n - i..];
  }

  lemma PutMiddle(before: seq<byte>, after: seq<byte>, i: nat, put: seq<byte>, rest: seq<byte>)
    requires i + |put| <= |before| && after == before[..i] + put + before[i + |put|..]
    ensures after[..i + |put|] + rest == before[..i] + (put + rest) && after[i + |put|..] == before[i + |put|..]
  {
    assert after[..i + |put|] == before[..i] + put;
  }
}
