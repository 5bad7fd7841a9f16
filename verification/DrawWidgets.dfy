/** What the draw lists of core/src/gui/smgui.cpp mean: the widget calls a server records,
    the argument types validate asks for, the calls draw makes. */
module DrawWidgets {
  import opened Common
  import opened DrawCodec

  type Text = seq<byte>

  /** The widget functions with their arguments; float arguments by their bits. */
  datatype Call =
    | FillWidth | SameLine | BeginDisabled | EndDisabled
    | Combo(name: Text, v: int32, items: Text, height: int32)
    | Button(name: Text, x: word, y: word)
    | Columns(count: int32, id: Text, border: bool)
    | NextColumn
    | RadioButton(name: Text, active: bool)
    | BeginGroup | EndGroup
    | LeftLabel(name: Text)
    | SliderInt(name: Text, v: int32, min: int32, max: int32, format: int32, flags: int32)
    | SliderFloatWithSteps(name: Text, f: word, fmin: word, fmax: word, fstep: word, format: int32)
    | InputInt(name: Text, v: int32, step: int32, fast: int32, flags: int32)
    | Checkbox(name: Text, b: bool)
    | SliderFloat(name: Text, f: word, fmin: word, fmax: word, format: int32, flags: int32)
    | InputText(name: Text, s: Text, size: int32, flags: int32)
    | PlainText(s: Text)
    | TextColored(cx: word, cy: word, cz: word, cw: word, s: Text)
    | OpenPopup(id: Text, flags: int32)
    | BeginPopup(id: Text, flags: int32)
    | EndPopup
    | BeginTable(id: Text, column: int32, flags: int32, x: word, y: word, inner: word)
    | EndTable
    | TableNextRow(flags: int32, rowHeight: word)
    | TableSetColumnIndex(n: int32)
    | SetNextItemWidth(width: word)
    | PopStyleColor(popped: word)
    | PushStyleColor(n: int32, cx: word, cy: word, cz: word, cw: word)
    | CollapsingHeader(name: Text)

  const FILL_WIDTH: byte := 0x00
  const SAME_LINE: byte := 0x01
  const BEGIN_DISABLED: byte := 0x02
  const END_DISABLED: byte := 0x03
  const COMBO: byte := 0x80
  const BUTTON: byte := 0x81
  const COLUMNS: byte := 0x82
  const NEXT_COLUMN: byte := 0x83
  const RADIO_BUTTON: byte := 0x84
  const BEGIN_GROUP: byte := 0x85
  const END_GROUP: byte := 0x86
  const LEFT_LABEL: byte := 0x87
  const SLIDER_INT: byte := 0x88
  const SLIDER_FLOAT_WITH_STEPS: byte := 0x89
  const INPUT_INT: byte := 0x8A
  const CHECKBOX: byte := 0x8B
  const SLIDER_FLOAT: byte := 0x8C
  const INPUT_TEXT: byte := 0x8D
  const TEXT: byte := 0x8E
  const TEXT_COLORED: byte := 0x8F
  const OPEN_POPUP: byte := 0x90
  const BEGIN_POPUP: byte := 0x91
  const END_POPUP: byte := 0x92
  const BEGIN_TABLE: byte := 0x93
  const END_TABLE: byte := 0x94
  const TABLE_NEXT_ROW: byte := 0x95
  const TABLE_SET_COLUMN_INDEX: byte := 0x96
  const SET_NEXT_ITEM_WIDTH: byte := 0x97
  const POP_STYLE_COLOR: byte := 0x98
  const PUSH_STYLE_COLOR: byte := 0x99
  const COLLAPSING_HEADER: byte := 0x9A

  // ---------- the list as validate sees it ----------

  datatype Kind = StepKind | BoolKind | IntKind | FloatKind | StrKind

  function KindOf(e: Elem): Kind {
    match e
    case Step(_, _) => StepKind
    case Bool(_) => BoolKind
    case Int(_) => IntKind
    case Float(_) => FloatKind
    case Str(_) => StrKind
  }

  /** The argument types validate wants after a step; steps it does not list have none. */
  function Signature(step: byte): seq<Kind> {
    if step == COMBO then [StrKind, IntKind, StrKind, IntKind]
    else if step == BUTTON then [StrKind, FloatKind, FloatKind]
    else if step == COLUMNS then [IntKind, StrKind, BoolKind]
    else if step == RADIO_BUTTON then [StrKind, BoolKind]
    else if step == LEFT_LABEL then [StrKind]
    else if step == SLIDER_INT then [StrKind, IntKind, IntKind, IntKind, IntKind, IntKind]
    else if step == SLIDER_FLOAT_WITH_STEPS then [StrKind, FloatKind, FloatKind, FloatKind, FloatKind, IntKind]
    else if step == INPUT_INT then [StrKind, IntKind, IntKind, IntKind, IntKind]
    else if step == CHECKBOX then [StrKind, BoolKind]
    else if step == SLIDER_FLOAT then [StrKind, FloatKind, FloatKind, FloatKind, IntKind, IntKind]
    else if step == INPUT_TEXT then [StrKind, StrKind, IntKind, IntKind]
    else if step == TEXT then [StrKind]
    else if step == TEXT_COLORED then [FloatKind, FloatKind, FloatKind, FloatKind, StrKind]
    else if step == OPEN_POPUP then [StrKind, IntKind]
    else if step == BEGIN_POPUP then [StrKind, IntKind]
    else if step == BEGIN_TABLE then [StrKind, IntKind, IntKind, FloatKind, FloatKind, FloatKind]
    else if step == TABLE_NEXT_ROW then [IntKind, FloatKind]
    else if step == TABLE_SET_COLUMN_INDEX then [IntKind]
    else if step == SET_NEXT_ITEM_WIDTH then [FloatKind]
    else if step == POP_STYLE_COLOR then [FloatKind]
    else if step == PUSH_STYLE_COLOR then [IntKind, FloatKind, FloatKind, FloatKind, FloatKind]
    else if step == COLLAPSING_HEADER then [StrKind]
    else []
  }

  /** checkTypes: enough elements are left and they have the types. */
  predicate HasTypes(es: seq<Elem>, kinds: seq<Kind>) {
    |kinds| <= |es| && forall k :: 0 <= k < |kinds| ==> KindOf(es[k]) == kinds[k]
  }

  /** validate. */
  predicate Valid(es: seq<Elem>) {
    |es| == 0 ||
    (es[0].Step? && HasTypes(es[1..], Signature(es[0].step)) && Valid(es[1 + |Signature(es[0].step)|..]))
  }

  lemma {:induction false} ValidFirst(es: seq<Elem>)
    requires |es| > 0
    ensures Valid(es) <==>
      es[0].Step? && HasTypes(es[1..], Signature(es[0].step)) && Valid(es[1 + |Signature(es[0].step)|..])
  {
    hide Signature, HasTypes;
  }

  // ---------- the list as a list of widgets ----------

  datatype Widget = Widget(step: byte, sync: bool, args: seq<Elem>)

  /** The arguments are as many as the step takes, of its types. */
  predicate Typed(w: Widget) {
    |w.args| == |Signature(w.step)| && HasTypes(w.args, Signature(w.step))
  }

  predicate AllTyped(ws: seq<Widget>) {
    forall k :: 0 <= k < |ws| ==> Typed(ws[k])
  }

  function Elements(w: Widget): seq<Elem> {
    [Step(w.step, w.sync)] + w.args
  }

  function Flatten(ws: seq<Widget>): seq<Elem> {
    if |ws| == 0 then [] else Elements(ws[0]) + Flatten(ws[1..])
  }

  function FirstWidget(es: seq<Elem>): (w: Widget)
    requires |es| > 0 && es[0].Step? && HasTypes(es[1..], Signature(es[0].step))
    ensures Typed(w)
  {
    Widget(es[0].step, es[0].forceSync, es[1..1 + |Signature(es[0].step)|])
  }

  /** What follows the first widget. */
  function AfterFirst(es: seq<Elem>): (rest: seq<Elem>)
    requires |es| > 0 && Valid(es)
    ensures Valid(rest) && |rest| < |es|
  {
    es[1 + |Signature(es[0].step)|..]
  }

  function Parse(es: seq<Elem>): (ws: seq<Widget>)
    requires Valid(es)
    ensures AllTyped(ws)
  {
    if |es| == 0 then [] else [FirstWidget(es)] + Parse(AfterFirst(es))
  }

  lemma {:induction false} ParseFlattens(es: seq<Elem>)
    requires Valid(es)
    ensures Flatten(Parse(es)) == es
  {
    if |es| > 0 {
      FirstIsWidget(es);
      hide Valid, Flatten, FirstWidget, AfterFirst, Elements;
      ParseFlattens(AfterFirst(es));
      FlattenFirst(FirstWidget(es), Parse(AfterFirst(es)));
    }
  }

  lemma {:induction false} FirstIsWidget(es: seq<Elem>)
    requires Valid(es) && |es| > 0
    ensures es[0].Step? && HasTypes(es[1..], Signature(es[0].step))
    ensures es == Elements(FirstWidget(es)) + AfterFirst(es)
  {
    hide Signature;
  }

  lemma {:induction false} FlattenFirst(w: Widget, ws: seq<Widget>)
    ensures Flatten([w] + ws) == Elements(w) + Flatten(ws)
  {
    assert ([w] + ws)[1..] == ws;
  }

  lemma {:induction false} FlattenParses(ws: seq<Widget>)
    requires AllTyped(ws)
    ensures Valid(Flatten(ws)) && Parse(Flatten(ws)) == ws
  {
    if |ws| > 0 {
      hide Signature;
      var w, rest, es := ws[0], Flatten(ws[1..]), Flatten(ws);
      FlattenParses(ws[1..]);
      var n := |Signature(w.step)|;
      assert Typed(w);
      FirstOf(w, rest);
    }
  }

  lemma FirstOf(w: Widget, rest: seq<Elem>)
    requires Typed(w)
    ensures var es := Elements(w) + rest; var n := |Signature(w.step)|;
      es[0] == Step(w.step, w.sync) && es[1..1 + n] == w.args && es[1 + n..] == rest && HasTypes(es[1..], Signature(w.step))
  {
    hide Signature;
    var es, n := Elements(w) + rest, |Signature(w.step)|;
    assert es[1..] == w.args + rest;
  }

  /** validate accepts exactly the lists that are widgets with the arguments of their steps. */
  lemma {:induction false} ValidIff(es: seq<Elem>)
    ensures Valid(es) <==> exists ws :: AllTyped(ws) && Flatten(ws) == es
  {
    if Valid(es) {
      ParseFlattens(es);
    }
    forall ws | AllTyped(ws) && Flatten(ws) == es ensures Valid(es) {
      FlattenParses(ws);
    }
  }

  // ---------- recording ----------

  /** What a widget function pushes in server mode, whatever its sync flag. */
  function Recorded(c: Call, sync: bool): Widget {
    match c
    case FillWidth => Widget(FILL_WIDTH, sync, [])
    case SameLine => Widget(SAME_LINE, sync, [])
    case BeginDisabled => Widget(BEGIN_DISABLED, sync, [])
    case EndDisabled => Widget(END_DISABLED, sync, [])
    case Combo(name, v, items, height) => Widget(COMBO, sync, [Str(name), Int(v), Str(items), Int(height)])
    case Button(name, x, y) => Widget(BUTTON, sync, [Str(name), Float(x), Float(y)])
    case Columns(count, id, border) => Widget(COLUMNS, sync, [Int(count), Str(id), Bool(border)])
    case NextColumn => Widget(NEXT_COLUMN, sync, [])
    case RadioButton(name, active) => Widget(RADIO_BUTTON, sync, [Str(name), Bool(active)])
    case BeginGroup => Widget(BEGIN_GROUP, sync, [])
    case EndGroup => Widget(END_GROUP, sync, [])
    case LeftLabel(name) => Widget(LEFT_LABEL, sync, [Str(name)])
    case SliderInt(name, v, min, max, format, flags) =>
      Widget(SLIDER_INT, sync, [Str(name), Int(v), Int(min), Int(max), Int(format), Int(flags)])
    case SliderFloatWithSteps(name, f, fmin, fmax, fstep, format) =>
      Widget(SLIDER_FLOAT_WITH_STEPS, sync, [Str(name), Float(f), Float(fmin), Float(fmax), Float(fstep), Int(format)])
    case InputInt(name, v, step, fast, flags) =>
      Widget(INPUT_INT, sync, [Str(name), Int(v), Int(step), Int(fast), Int(flags)])
    case Checkbox(name, b) => Widget(CHECKBOX, sync, [Str(name), Bool(b)])
    case SliderFloat(name, f, fmin, fmax, format, flags) =>
      Widget(SLIDER_FLOAT, sync, [Str(name), Float(f), Float(fmin), Float(fmax), Int(format), Int(flags)])
    case InputText(name, s, size, flags) => Widget(INPUT_TEXT, sync, [Str(name), Str(s), Int(size), Int(flags)])
    case PlainText(s) => Widget(TEXT, sync, [Str(s)])
    case TextColored(cx, cy, cz, cw, s) => Widget(TEXT_COLORED, sync, [Float(cx), Float(cy), Float(cz), Float(cw), Str(s)])
    case OpenPopup(id, flags) => Widget(OPEN_POPUP, sync, [Str(id), Int(flags)])
    case BeginPopup(id, flags) => Widget(BEGIN_POPUP, sync, [Str(id), Int(flags)])
    case EndPopup => Widget(END_POPUP, sync, [])
    case BeginTable(id, column, flags, x, y, inner) =>
      Widget(BEGIN_TABLE, sync, [Str(id), Int(column), Int(flags), Float(x), Float(y), Float(inner)])
    case EndTable => Widget(END_TABLE, sync, [])
    case TableNextRow(flags, rowHeight) => Widget(TABLE_NEXT_ROW, sync, [Int(flags), Float(rowHeight)])
    case TableSetColumnIndex(n) => Widget(TABLE_SET_COLUMN_INDEX, sync, [Int(n)])
    case SetNextItemWidth(width) => Widget(SET_NEXT_ITEM_WIDTH, sync, [Float(width)])
    case PopStyleColor(popped) => Widget(POP_STYLE_COLOR, sync, [Float(popped)])
    case PushStyleColor(n, cx, cy, cz, cw) => Widget(PUSH_STYLE_COLOR, sync, [Int(n), Float(cx), Float(cy), Float(cz), Float(cw)])
    case CollapsingHeader(name) => Widget(COLLAPSING_HEADER, sync, [Str(name)])
  }

  /** Every widget function records arguments of the types validate asks for. */
  lemma RecordedIsTyped(c: Call, sync: bool)
    ensures Typed(Recorded(c, sync))
  {
    if TakesSync(c) {
      SyncedIsTyped(c, sync);
    } else {
      UnsyncedIsTyped(c, sync);
    }
  }

  lemma SyncedIsTyped(c: Call, sync: bool)
    requires TakesSync(c)
    ensures Typed(Recorded(c, sync))
  {
    var w := Recorded(c, sync);
    assert |w.args| == |Signature(w.step)|;
    forall k | 0 <= k < |w.args| ensures KindOf(w.args[k]) == Signature(w.step)[k] {
    }
  }

  lemma UnsyncedIsTyped(c: Call, sync: bool)
    requires !TakesSync(c)
    ensures Typed(Recorded(c, sync))
  {
    var w := Recorded(c, sync);
    assert |w.args| == |Signature(w.step)|;
    forall k | 0 <= k < |w.args| ensures KindOf(w.args[k]) == Signature(w.step)[k] {
    }
  }

  /** The functions that record, and use up, the sync flag asked for the next widget. */
  predicate TakesSync(c: Call) {
    c.Combo? || c.Button? || c.Columns? || c.RadioButton? || c.LeftLabel? || c.SliderInt? || c.CollapsingHeader?
    || c.SliderFloatWithSteps? || c.InputInt? || c.Checkbox? || c.SliderFloat? || c.InputText?
  }

  // ---------- drawing ----------

  /** The call draw makes for a step, reading each argument with the field it reads; None for
      a step it does not know. */
  function Drawn(step: byte, a: seq<Elem>): Option<Call>
    requires HasTypes(a, Signature(step))
  {
    if step == FILL_WIDTH then Some(FillWidth)
    else if step == SAME_LINE then Some(SameLine)
    else if step == BEGIN_DISABLED then Some(BeginDisabled)
    else if step == END_DISABLED then Some(EndDisabled)
    else if step == COMBO then Some(Combo(a[0].s, a[1].i, a[2].s, a[3].i))
    else if step == BUTTON then Some(Button(a[0].s, a[1].bits, a[2].bits))
    else if step == COLUMNS then Some(Columns(a[0].i, a[1].s, a[2].b))
    else if step == NEXT_COLUMN then Some(NextColumn)
    else if step == RADIO_BUTTON then Some(RadioButton(a[0].s, a[1].b))
    else if step == BEGIN_GROUP then Some(BeginGroup)
    else if step == END_GROUP then Some(EndGroup)
    else if step == LEFT_LABEL then Some(LeftLabel(a[0].s))
    else if step == SLIDER_INT then Some(SliderInt(a[0].s, a[1].i, a[2].i, a[3].i, a[4].i, a[5].i))
    else if step == SLIDER_FLOAT_WITH_STEPS then
      Some(SliderFloatWithSteps(a[0].s, a[1].bits, a[2].bits, a[3].bits, a[4].bits, a[5].i))
    else if step == INPUT_INT then Some(InputInt(a[0].s, a[1].i, a[2].i, a[3].i, a[4].i))
    else if step == CHECKBOX then Some(Checkbox(a[0].s, a[1].b))
    else if step == SLIDER_FLOAT then Some(SliderFloat(a[0].s, a[1].bits, a[2].bits, a[3].bits, a[4].i, a[5].i))
    else if step == INPUT_TEXT then Some(InputText(a[0].s, a[1].s, a[2].i, a[3].i))
    else if step == TEXT then Some(PlainText(a[0].s))
    else if step == TEXT_COLORED then Some(TextColored(a[0].bits, a[1].bits, a[2].bits, a[3].bits, a[4].s))
    else if step == OPEN_POPUP then Some(OpenPopup(a[0].s, a[1].i))
    else if step == BEGIN_POPUP then Some(BeginPopup(a[0].s, a[1].i))
    else if step == END_POPUP then Some(EndPopup)
    else if step == BEGIN_TABLE then Some(BeginTable(a[0].s, a[1].i, a[2].i, a[3].bits, a[4].bits, a[5].bits))
    else if step == END_TABLE then Some(EndTable)
    else if step == TABLE_NEXT_ROW then Some(TableNextRow(a[0].i, a[1].bits))
    else if step == TABLE_SET_COLUMN_INDEX then Some(TableSetColumnIndex(a[0].i))
    else if step == SET_NEXT_ITEM_WIDTH then Some(SetNextItemWidth(a[0].bits))
    else if step == POP_STYLE_COLOR then Some(PopStyleColor(a[0].bits))
    else if step == PUSH_STYLE_COLOR then Some(PushStyleColor(a[0].i, a[1].bits, a[2].bits, a[3].bits, a[4].bits))
    else if step == COLLAPSING_HEADER then Some(CollapsingHeader(a[0].s))
    else None
  }

  /** How far draw moves its index past the arguments of a step. */
  function Advance(step: byte): nat {
    if step == COMBO || step == INPUT_TEXT then 4
    else if step == BUTTON || step == COLUMNS then 3
    else if step == RADIO_BUTTON || step == CHECKBOX || step == OPEN_POPUP || step == BEGIN_POPUP || step == TABLE_NEXT_ROW then 2
    else if step == LEFT_LABEL || step == TEXT || step == TABLE_SET_COLUMN_INDEX || step == SET_NEXT_ITEM_WIDTH
         || step == POP_STYLE_COLOR || step == COLLAPSING_HEADER then 1
    else if step == SLIDER_INT || step == SLIDER_FLOAT_WITH_STEPS || step == SLIDER_FLOAT || step == BEGIN_TABLE then 6
    else if step == INPUT_INT || step == TEXT_COLORED || step == PUSH_STYLE_COLOR then 5
    else 0
  }

  /** draw and validate agree on how many arguments every step has. */
  lemma AdvanceAgrees(step: byte)
    ensures Advance(step) == |Signature(step)|
  {
  }

  /** What a widget function recorded is what draw calls, argument for argument. */
  lemma DrawsWhatWasRecorded(c: Call, sync: bool)
    ensures Typed(Recorded(c, sync)) && Drawn(Recorded(c, sync).step, Recorded(c, sync).args) == Some(c)
  {
    RecordedIsTyped(c, sync);
    hide Signature, HasTypes;
  }

  /** What the user does at one call: the function's result, and the value left in the
      variable it was given. */
  datatype Reply = Reply(result: bool, b: bool, i: int32, bits: word, s: Text)

  type Ui = nat -> Reply

  predicate EditsInt(step: byte) { step == COMBO || step == SLIDER_INT || step == INPUT_INT }

  predicate EditsFloat(step: byte) { step == SLIDER_FLOAT || step == SLIDER_FLOAT_WITH_STEPS }

  /** The argument the widget function may change, afterwards. An input text is copied back
      only when the function says it changed. */
  function EditedArg(step: byte, old_: Elem, r: Reply): Elem {
    if EditsInt(step) then Int(r.i)
    else if EditsFloat(step) then Float(r.bits)
    else if step == CHECKBOX then Bool(r.b)
    else if step == INPUT_TEXT && r.result then Str(r.s)
    else old_
  }

  predicate Edits(step: byte) {
    EditsInt(step) || EditsFloat(step) || step == CHECKBOX || step == INPUT_TEXT
  }

  function Edited(w: Widget, r: Reply): (w': Widget)
    requires Typed(w)
    ensures Typed(w') && |w'.args| == |w.args|
  {
    if Edits(w.step) then w.(args := w.args[1 := EditedArg(w.step, w.args[1], r)]) else w
  }

  /** The change draw reports to its caller; buttons report no value. */
  datatype Diff = Diff(id: Text, value: Option<Elem>, sync: bool)

  function DiffOf(w: Widget, r: Reply): Option<Diff>
    requires Typed(w)
  {
    if !r.result then None
    else if Edits(w.step) then Some(Diff(w.args[0].s, Some(w.args[1]), w.sync))
    else if w.step == BUTTON || w.step == RADIO_BUTTON then Some(Diff(w.args[0].s, None, w.sync))
    else None
  }

  /** The step that ends what a popup or table step begins. */
  function Closer(step: byte): Option<byte> {
    if step == BEGIN_POPUP then Some(END_POPUP)
    else if step == BEGIN_TABLE then Some(END_TABLE)
    else None
  }

  /** How many widgets are skipped: up to the first one with the step, it included. */
  function Skipped(ws: seq<Widget>, closer: byte): (n: nat)
    ensures n <= |ws|
  {
    if |ws| == 0 then 0 else if ws[0].step == closer then 1 else 1 + Skipped(ws[1..], closer)
  }

  /** The first widget drawn after the first, given what the user did at the first. */
  function Resume(ws: seq<Widget>, r: Reply): (k: nat)
    requires |ws| > 0
    ensures 1 <= k <= |ws|
  {
    var closer := Closer(ws[0].step);
    1 + if closer.Some? && !r.result then Skipped(ws[1..], closer.value) else 0
  }

  datatype Play = Play(calls: seq<Call>, list: seq<Widget>, diff: Option<Diff>)

  function Later(a: Option<Diff>, b: Option<Diff>): Option<Diff> {
    if b.Some? then b else a
  }

  /** The meaning of drawing a list: the calls made, the list afterwards, the last change. */
  function Played(ws: seq<Widget>, ui: Ui, n: nat): (p: Play)
    requires AllTyped(ws)
    ensures AllTyped(p.list) && |p.list| == |ws|
    decreases |ws|
  {
    if |ws| == 0 then Play([], [], None)
    else
      var w := ws[0];
      assert Typed(w);
      var c := Drawn(w.step, w.args);
      if c.None? then
        var rest := Played(ws[1..], ui, n);
        Play(rest.calls, [w] + rest.list, rest.diff)
      else
        var r := ui(n);
        var k := Resume(ws, r);
        var rest := Played(ws[k..], ui, n + 1);
        Play([c.value] + rest.calls, [Edited(w, r)] + ws[1..k] + rest.list, Later(DiffOf(Edited(w, r), r), rest.diff))
  }

  lemma {:induction false} PlayedUnknown(ws: seq<Widget>, ui: Ui, n: nat)
    requires AllTyped(ws) && |ws| > 0 && Typed(ws[0]) && Drawn(ws[0].step, ws[0].args).None?
    ensures var rest := Played(ws[1..], ui, n);
      Played(ws, ui, n) == Play(rest.calls, [ws[0]] + rest.list, rest.diff)
  {
    hide Typed, Drawn, Edited, DiffOf, Closer, HasTypes, Signature, Skipped, Resume;
  }

  lemma PlayedKnown(ws: seq<Widget>, ui: Ui, n: nat)
    requires AllTyped(ws) && |ws| > 0 && Typed(ws[0]) && Drawn(ws[0].step, ws[0].args).Some?
    ensures var w, r, k := ws[0], ui(n), Resume(ws, ui(n));
      var rest := Played(ws[k..], ui, n + 1);
      Played(ws, ui, n) ==
      Play([Drawn(w.step, w.args).value] + rest.calls, [Edited(w, r)] + ws[1..k] + rest.list,
           Later(DiffOf(Edited(w, r), r), rest.diff))
  {
    hide Typed, Drawn, Edited, DiffOf, Closer, HasTypes, Signature, Skipped, Resume;
  }
}
