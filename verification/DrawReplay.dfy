/** A server's menu drawn elsewhere: recorded, stored, loaded, validated and drawn, it is the
    same menu, and what the user changes comes back to the widget it belongs to. */
module DrawReplay {
  import opened Common
  import opened DrawCodec
  import opened DrawWidgets

  /** A widget call in server mode, with the sync flag its step is recorded with. */
  datatype Item = Item(call: Call, sync: bool)

  function RecordAll(items: seq<Item>): (ws: seq<Widget>)
    ensures |ws| == |items|
  {
    if |items| == 0 then [] else [Recorded(items[0].call, items[0].sync)] + RecordAll(items[1..])
  }

  lemma {:induction false} RecordAllIsTyped(items: seq<Item>)
    ensures AllTyped(RecordAll(items))
  {
    if |items| > 0 {
      hide Typed, Recorded;
      RecordedIsTyped(items[0].call, items[0].sync);
      RecordAllIsTyped(items[1..]);
    }
  }

  /** Does call d end what call c begins? */
  predicate Ends(c: Call, d: Call) {
    (c.BeginPopup? && d.EndPopup?) || (c.BeginTable? && d.EndTable?)
  }

  /** The calls after c that are not made when c finds its popup or table closed: up to the
      first that ends it. */
  function Hidden(c: Call, items: seq<Item>): (n: nat)
    ensures n <= |items|
  {
    if |items| == 0 then 0 else if Ends(c, items[0].call) then 1 else 1 + Hidden(c, items[1..])
  }

  /** The first call made after the first, given what the user did at the first. */
  function Next(items: seq<Item>, r: Reply): (k: nat)
    requires |items| > 0
    ensures 1 <= k <= |items|
  {
    var c := items[0].call;
    1 + if (c.BeginPopup? || c.BeginTable?) && !r.result then Hidden(c, items[1..]) else 0
  }

  /** The server's calls as the user sees them: without what is in closed popups and tables. */
  function Shown(items: seq<Item>, ui: Ui, n: nat): seq<Call>
    decreases |items|
  {
    if |items| == 0 then [] else [items[0].call] + Shown(items[Next(items, ui(n))..], ui, n + 1)
  }

  lemma CloserIs(c: Call, sync: bool)
    ensures Closer(Recorded(c, sync).step) ==
      if c.BeginPopup? then Some(END_POPUP) else if c.BeginTable? then Some(END_TABLE) else None
  {
  }

  lemma EndIs(d: Call, sync: bool)
    ensures Recorded(d, sync).step == END_POPUP <==> d.EndPopup?
    ensures Recorded(d, sync).step == END_TABLE <==> d.EndTable?
  {
  }

  lemma {:induction false} SkippedIsHidden(c: Call, sync: bool, items: seq<Item>)
    requires c.BeginPopup? || c.BeginTable?
    ensures Closer(Recorded(c, sync).step).Some?
    ensures Skipped(RecordAll(items), Closer(Recorded(c, sync).step).value) == Hidden(c, items)
  {
    hide Recorded, Closer;
    CloserIs(c, sync);
    if |items| > 0 {
      EndIs(items[0].call, items[0].sync);
      SkippedIsHidden(c, sync, items[1..]);
    }
  }

  lemma {:induction false} RecordAllFrom(items: seq<Item>, k: nat)
    requires k <= |items|
    ensures RecordAll(items)[k..] == RecordAll(items[k..])
  {
    if k > 0 {
      RecordAllFrom(items[1..], k - 1);
    }
  }

  // ---------- what the user leaves behind ----------

  /** The call with the value the user left in its variable. An input text is copied back only
      when the function says it changed. */
  function Changed(c: Call, r: Reply): Call {
    match c
    case Combo(name, _, items, height) => Combo(name, r.i, items, height)
    case SliderInt(name, _, min, max, format, flags) => SliderInt(name, r.i, min, max, format, flags)
    case InputInt(name, _, step, fast, flags) => InputInt(name, r.i, step, fast, flags)
    case SliderFloatWithSteps(name, _, fmin, fmax, fstep, format) =>
      SliderFloatWithSteps(name, r.bits, fmin, fmax, fstep, format)
    case SliderFloat(name, _, fmin, fmax, format, flags) => SliderFloat(name, r.bits, fmin, fmax, format, flags)
    case Checkbox(name, _) => Checkbox(name, r.b)
    case InputText(name, s, size, flags) => InputText(name, if r.result then r.s else s, size, flags)
    case _ => c
  }

  /** The change a call reports: its name, the user's value, and the sync flag it was recorded
      with. */
  function Report(c: Call, sync: bool, r: Reply): Option<Diff> {
    if !r.result then None
    else
      match c
      case Combo(name, _, _, _) => Some(Diff(name, Some(Int(r.i)), sync))
      case SliderInt(name, _, _, _, _, _) => Some(Diff(name, Some(Int(r.i)), sync))
      case InputInt(name, _, _, _, _) => Some(Diff(name, Some(Int(r.i)), sync))
      case SliderFloatWithSteps(name, _, _, _, _, _) => Some(Diff(name, Some(Float(r.bits)), sync))
      case SliderFloat(name, _, _, _, _, _) => Some(Diff(name, Some(Float(r.bits)), sync))
      case Checkbox(name, _) => Some(Diff(name, Some(Bool(r.b)), sync))
      case InputText(name, _, _, _) => Some(Diff(name, Some(Str(r.s)), sync))
      case Button(name, _, _) => Some(Diff(name, None, sync))
      case RadioButton(name, _) => Some(Diff(name, None, sync))
      case _ => None
  }

  /** The menu afterwards: every call shown with the user's value, the hidden ones as they were. */
  function Afterwards(items: seq<Item>, ui: Ui, n: nat): seq<Item>
    decreases |items|
  {
    if |items| == 0 then []
    else
      var k := Next(items, ui(n));
      [Item(Changed(items[0].call, ui(n)), items[0].sync)] + items[1..k] + Afterwards(items[k..], ui, n + 1)
  }

  /** The last change reported. */
  function LastReport(items: seq<Item>, ui: Ui, n: nat): Option<Diff>
    decreases |items|
  {
    if |items| == 0 then None
    else
      var later := LastReport(items[Next(items, ui(n))..], ui, n + 1);
      if later.Some? then later else Report(items[0].call, items[0].sync, ui(n))
  }

  /** What a widget does to its arguments in the list is what the user does to its call. */
  lemma EditedIsChanged(c: Call, sync: bool, r: Reply)
    ensures Typed(Recorded(c, sync)) && Edited(Recorded(c, sync), r) == Recorded(Changed(c, r), sync)
  {
    RecordedIsTyped(c, sync);
    hide Signature, HasTypes, Drawn;
  }

  lemma ReportedIs(c: Call, sync: bool, r: Reply)
    ensures Typed(Recorded(Changed(c, r), sync)) && DiffOf(Recorded(Changed(c, r), sync), r) == Report(c, sync, r)
  {
    RecordedIsTyped(Changed(c, r), sync);
    hide Signature, HasTypes, Drawn;
  }

  /** Drawing a recorded menu makes the calls that are shown, leaves the user's values in the
      list and everything else as it was, and reports the last change. */
  lemma {:induction false} PlayedIsShown(items: seq<Item>, ui: Ui, n: nat)
    requires AllTyped(RecordAll(items))
    ensures Played(RecordAll(items), ui, n) ==
      Play(Shown(items, ui, n), RecordAll(Afterwards(items, ui, n)), LastReport(items, ui, n))
    decreases |items|
  {
    if |items| > 0 {
      hide AllTyped, Recorded, Played, RecordAll, Next, Changed, Report;
      var k := Next(items, ui(n));
      RecordAllFrom(items, k);
      RecordAllIsTyped(items[k..]);
      FirstPlayed(items, ui, n);
      PlayedIsShown(items[k..], ui, n + 1);
      RecordAllParts(Item(Changed(items[0].call, ui(n)), items[0].sync), items[1..k], Afterwards(items[k..], ui, n + 1));
    } else {
      hide AllTyped, Recorded, Next;
    }
  }

  lemma {:induction false} FirstPlayed(items: seq<Item>, ui: Ui, n: nat)
    requires AllTyped(RecordAll(items)) && |items| > 0
    requires AllTyped(RecordAll(items)[Next(items, ui(n))..])
    ensures var k := Next(items, ui(n));
      var rest := Played(RecordAll(items)[k..], ui, n + 1);
      Played(RecordAll(items), ui, n) ==
      Play([items[0].call] + rest.calls,
           [Recorded(Changed(items[0].call, ui(n)), items[0].sync)] + RecordAll(items[1..k]) + rest.list,
           Later(Report(items[0].call, items[0].sync, ui(n)), rest.diff))
  {
    hide AllTyped, Typed, Recorded, Drawn, Played, Edited, DiffOf, Changed, Report, Resume, Next;
    var c, sync, k := items[0].call, items[0].sync, Next(items, ui(n));
    DrawsWhatWasRecorded(c, sync);
    EditedIsChanged(c, sync, ui(n));
    ReportedIs(c, sync, ui(n));
    ResumeIsNext(items, ui(n));
    PlayedKnown(RecordAll(items), ui, n);
    RecordAllSlice(items, k);
  }

  lemma {:induction false} RecordAllSlice(items: seq<Item>, k: nat)
    requires 1 <= k <= |items|
    ensures RecordAll(items)[1..k] == RecordAll(items[1..k])
  {
    hide Recorded;
    RecordAllTake(items[1..], k - 1);
    assert items[1..][..k - 1] == items[1..k];
  }

  lemma {:induction false} RecordAllTake(items: seq<Item>, k: nat)
    requires k <= |items|
    ensures RecordAll(items)[..k] == RecordAll(items[..k])
  {
    hide Recorded;
    if k > 0 {
      RecordAllTake(items[1..], k - 1);
      assert items[..k][1..] == items[1..][..k - 1];
    }
  }

  lemma {:induction false} RecordAllParts(first: Item, hidden: seq<Item>, rest: seq<Item>)
    ensures RecordAll([first] + hidden + rest) ==
      [Recorded(first.call, first.sync)] + RecordAll(hidden) + RecordAll(rest)
  {
    hide Recorded;
    RecordAllJoin(hidden, rest);
    assert ([first] + hidden + rest)[1..] == hidden + rest;
  }

  lemma {:induction false} RecordAllJoin(a: seq<Item>, b: seq<Item>)
    ensures RecordAll(a + b) == RecordAll(a) + RecordAll(b)
  {
    hide Recorded;
    if |a| == 0 {
      assert a + b == b;
    } else {
      assert (a + b)[1..] == a[1..] + b;
      RecordAllJoin(a[1..], b);
    }
  }

  lemma {:induction false} ResumeIsNext(items: seq<Item>, r: Reply)
    requires |items| > 0
    ensures Resume(RecordAll(items), r) == Next(items, r)
  {
    hide Recorded, Closer, Skipped, Hidden;
    CloserIs(items[0].call, items[0].sync);
    RecordAllFrom(items, 1);
    if items[0].call.BeginPopup? || items[0].call.BeginTable? {
      SkippedIsHidden(items[0].call, items[0].sync, items[1..]);
    }
  }

  /** The menu a server records, sent as bytes, loads back whole, passes validate, and is drawn
      as the server's own calls, argument for argument, less what closed popups and tables
      hide. */
  lemma {:induction false} MenuArrives(items: seq<Item>, rest: seq<byte>, ui: Ui)
    requires AllShort(Flatten(RecordAll(items)))
    ensures var es := Flatten(RecordAll(items));
      var r := LoadFrom(EncodeAll(es) + rest, Size(es));
      && r == Loaded(es, Used(Size(es))) && Valid(r.elements)
      && Played(Parse(r.elements), ui, 0) ==
         Play(Shown(items, ui, 0), RecordAll(Afterwards(items, ui, 0)), LastReport(items, ui, 0))
  {
    hide Flatten, Played, Shown, Valid, Parse, LoadFrom, RecordAll, Afterwards, LastReport;
    RecordAllIsTyped(items);
    LoadsBack(Flatten(RecordAll(items)), rest);
    FlattenParses(RecordAll(items));
    PlayedIsShown(items, ui, 0);
  }

  // ---------- the way back ----------

  /** What a widget function in server mode makes of the change set last: not for it, or taken
      up as its call with the new value. An input text that is as long as its buffer is taken
      up too, although its final zero then goes to the byte after the buffer. */
  datatype Answer = NotMine | Taken(call: Call) | TakenPastBuffer(call: Call)

  function Heard(c: Call, id: Text, value: Option<Elem>): Answer {
    match c
    case Combo(name, _, items, height) =>
      if id == name && Holds(value, IntKind) then Taken(Combo(name, value.value.i, items, height)) else NotMine
    case SliderInt(name, _, min, max, format, flags) =>
      if id == name && Holds(value, IntKind) then Taken(SliderInt(name, value.value.i, min, max, format, flags)) else NotMine
    case InputInt(name, _, step, fast, flags) =>
      if id == name && Holds(value, IntKind) then Taken(InputInt(name, value.value.i, step, fast, flags)) else NotMine
    case SliderFloatWithSteps(name, _, fmin, fmax, fstep, format) =>
      if id == name && Holds(value, FloatKind)
      then Taken(SliderFloatWithSteps(name, value.value.bits, fmin, fmax, fstep, format)) else NotMine
    case SliderFloat(name, _, fmin, fmax, format, flags) =>
      if id == name && Holds(value, FloatKind)
      then Taken(SliderFloat(name, value.value.bits, fmin, fmax, format, flags)) else NotMine
    case Checkbox(name, _) =>
      if id == name && Holds(value, BoolKind) then Taken(Checkbox(name, value.value.b)) else NotMine
    case InputText(name, _, size, flags) =>
      if id == name && Holds(value, StrKind) && |value.value.s| <= size then
        var call := InputText(name, value.value.s, size, flags);
        if |value.value.s| < size then Taken(call) else TakenPastBuffer(call)
      else NotMine
    case Button(name, _, _) => if id == name then Taken(c) else NotMine
    case RadioButton(name, _) => if id == name then Taken(c) else NotMine
    case _ => NotMine
  }

  predicate Holds(value: Option<Elem>, kind: Kind) {
    value.Some? && KindOf(value.value) == kind
  }

  /** A change made in the drawn menu reaches the server's widget with the user's value, and
      stays within the widget's own buffer, unless it is an input text that is not shorter than
      that buffer: a longer one is not taken up, one just as long overruns it. */
  lemma ChangeComesBack(c: Call, sync: bool, r: Reply)
    requires Report(c, sync, r).Some?
    ensures var d := Report(c, sync, r).value;
      d.sync == sync &&
      Heard(c, d.id, d.value) ==
      if c.InputText? && |r.s| > c.size then NotMine
      else if c.InputText? && |r.s| == c.size then TakenPastBuffer(Changed(c, r))
      else Taken(Changed(c, r))
  {
  }

  /** The name a widget goes by. */
  function NameOf(c: Call): Option<Text> {
    match c
    case Combo(name, _, _, _) => Some(name)
    case SliderInt(name, _, _, _, _, _) => Some(name)
    case InputInt(name, _, _, _, _) => Some(name)
    case SliderFloatWithSteps(name, _, _, _, _, _) => Some(name)
    case SliderFloat(name, _, _, _, _, _) => Some(name)
    case Checkbox(name, _) => Some(name)
    case InputText(name, _, _, _) => Some(name)
    case Button(name, _, _) => Some(name)
    case RadioButton(name, _) => Some(name)
    case _ => None
  }

  /** No widget takes up a change made at a widget of another name. */
  lemma OthersDoNotHear(c: Call, sync: bool, r: Reply, other: Call)
    requires Report(c, sync, r).Some? && NameOf(other) != NameOf(c)
    ensures Heard(other, Report(c, sync, r).value.id, Report(c, sync, r).value.value) == NotMine
  {
  }

  /** Every widget that reports changes takes the sync flag asked for it. */
  lemma ReportersTakeSync(c: Call, sync: bool, r: Reply)
    requires Report(c, sync, r).Some?
    ensures TakesSync(c)
  {
  }
}
