/** Undo and redo of core/src/imgui/imstb_textedit.h on values: what a record means as an
    edit, what the operations do to the two stacks, and why the text always is the version
    the history says it is. */
module UndoModel {

  const UNDO_STATE_COUNT := 99
  const UNDO_CHAR_COUNT := 999

  type Text = seq<char>

  /** At `at`, delete `del` characters and insert `ins`. */
  datatype Edit = Edit(at: nat, del: nat, ins: seq<char>)

  predicate Applies(e: Edit, t: Text) {
    e.at + e.del <= |t|
  }

  function Apply(e: Edit, t: Text): (r: Text)
    requires Applies(e, t)
  {
    t[..e.at] + e.ins + t[e.at + e.del..]
  }

  /** The edit that takes Apply(e, t) back to t. */
  function Inverse(e: Edit, t: Text): Edit
    requires Applies(e, t)
  {
    Edit(e.at, |e.ins|, t[e.at..e.at + e.del])
  }

  lemma InverseReverts(e: Edit, t: Text)
    requires Applies(e, t)
    ensures Applies(Inverse(e, t), Apply(e, t))
    ensures Apply(Inverse(e, t), Apply(e, t)) == t
    ensures Inverse(Inverse(e, t), Apply(e, t)) == e
  {
    var r := Apply(e, t);
    assert r[e.at..e.at + |e.ins|] == e.ins;
    assert r[..e.at] == t[..e.at];
    assert r[e.at + |e.ins|..] == t[e.at + e.del..];
    assert t == t[..e.at] + t[e.at..e.at + e.del] + t[e.at + e.del..];
  }

  /** All the characters a stack stores, oldest record first. */
  function Stored(edits: seq<Edit>): seq<char> {
    if |edits| == 0 then [] else edits[0].ins + Stored(edits[1..])
  }

  lemma {:induction false} StoredJoin(a: seq<Edit>, b: seq<Edit>)
    ensures Stored(a + b) == Stored(a) + Stored(b)
  {
    if |a| == 0 {
      assert a + b == b;
    } else {
      assert (a + b)[1..] == a[1..] + b;
      StoredJoin(a[1..], b);
    }
  }

  lemma StoredOne(e: Edit)
    ensures Stored([e]) == e.ins
  {
    assert Stored([e][1..]) == [];
  }

  lemma {:induction false} StoredLast(edits: seq<Edit>)
    requires |edits| > 0
    ensures Stored(edits) == Stored(edits[..|edits| - 1]) + edits[|edits| - 1].ins
  {
    hide Stored;
    var a, e := edits[..|edits| - 1], edits[|edits| - 1];
    StoredJoin(a, [e]);
    StoredOne(e);
    assert edits == a + [e];
  }

  // ---------- the operations ----------

  /** The text, the undo stack (newest last) and the redo stack (newest first). */
  datatype Model = Model(text: Text, undo: seq<Edit>, redo: seq<Edit>) {
    /** Every undo edit, newest first, applies to the text the ones before it leave. */
    ghost predicate Sane() {
      UndoApplies(text, undo) && RedoApplies(text, redo)
    }
  }

  ghost predicate UndoApplies(t: Text, undo: seq<Edit>)
    decreases |undo|
  {
    |undo| == 0 ||
    (Applies(undo[|undo| - 1], t) && UndoApplies(Apply(undo[|undo| - 1], t), undo[..|undo| - 1]))
  }

  ghost predicate RedoApplies(t: Text, redo: seq<Edit>)
    decreases |redo|
  {
    |redo| == 0 || (Applies(redo[0], t) && RedoApplies(Apply(redo[0], t), redo[1..]))
  }

  /** Drops the oldest records until `n` more characters fit. */
  function Shrink(undo: seq<Edit>, n: nat): (r: seq<Edit>)
    requires n <= UNDO_CHAR_COUNT
    ensures |r| <= |undo| && r == undo[|undo| - |r|..]
    ensures |Stored(r)| + n <= UNDO_CHAR_COUNT
    ensures |r| < |undo| ==> |Stored(undo[|undo| - |r| - 1..])| + n > UNDO_CHAR_COUNT
    decreases |undo|
  {
    if |Stored(undo)| + n > UNDO_CHAR_COUNT then
      var r := Shrink(undo[1..], n);
      assert undo[|undo| - |r|..] == undo[1..][|undo| - 1 - |r|..];
      assert |r| < |undo| - 1 ==> undo[|undo| - |r| - 1..] == undo[1..][|undo| - 2 - |r|..];
      assert |r| == |undo| - 1 ==> undo[|undo| - |r| - 1..] == undo;
      r
    else undo
  }

  /** What is left of the undo stack when a record of `n` characters is added. */
  function Room(undo: seq<Edit>, n: nat): seq<Edit>
    requires n <= UNDO_CHAR_COUNT
  {
    Shrink(if |undo| == UNDO_STATE_COUNT then undo[1..] else undo, n)
  }

  /** An edit by the user: the text changes, the redo stack goes, and the reverse edit is
      pushed, or, when it could never fit, the whole undo stack goes. */
  function Edited(m: Model, e: Edit): Model
    requires Applies(e, m.text)
  {
    Model(Apply(e, m.text),
          if e.del > UNDO_CHAR_COUNT then [] else Room(m.undo, e.del) + [Inverse(e, m.text)],
          [])
  }

  function Newest(m: Model): Edit
    requires |m.undo| > 0
  {
    m.undo[|m.undo| - 1]
  }

  /** The undo records alone leave no space for what the next undo deletes. */
  predicate NoSpace(m: Model)
    requires |m.undo| > 0
  {
    Newest(m).del > 0 && |Stored(m.undo)| + Newest(m).del >= UNDO_CHAR_COUNT
  }

  /** There would be space, but the redo records are in it. */
  predicate Crowded(m: Model)
    requires |m.undo| > 0
  {
    && Newest(m).del > 0 && !NoSpace(m)
    && |Stored(m.undo)| + Newest(m).del + |Stored(m.redo)| > UNDO_CHAR_COUNT
  }

  /** There is room to keep what the next undo deletes. */
  predicate HasRoom(m: Model) {
    |m.undo| > 0 ==> !NoSpace(m) && !Crowded(m)
  }

  /** The newest redo record happens to look like the one the next undo should write. */
  predicate LooksAlike(m: Model)
    requires |m.undo| > 0
  {
    && |m.redo| > 0 && m.redo[0].at == Newest(m).at
    && |m.redo[0].ins| == Newest(m).del && m.redo[0].del == |Newest(m).ins|
  }

  function Undone(m: Model): Model
    requires |m.undo| > 0 ==> Applies(m.undo[|m.undo| - 1], m.text)
  {
    if |m.undo| == 0 then m else
      var u := m.undo[|m.undo| - 1];
      Model(Apply(u, m.text), m.undo[..|m.undo| - 1], [Inverse(u, m.text)] + m.redo)
  }

  function Redone(m: Model): Model
    requires |m.redo| > 0 ==> Applies(m.redo[0], m.text)
  {
    if |m.redo| == 0 then m else
      var r := m.redo[0];
      Model(Apply(r, m.text), m.undo + [Inverse(r, m.text)], m.redo[1..])
  }

  /** Redo after undo restores the text and both stacks exactly. */
  lemma RedoUndoes(m: Model)
    requires m.Sane() && |m.undo| > 0
    ensures Undone(m).Sane() && Redone(Undone(m)) == m
  {
    var u := m.undo[|m.undo| - 1];
    InverseReverts(u, m.text);
    var n := Undone(m);
    assert n.redo[1..] == m.redo;
    assert m.undo == m.undo[..|m.undo| - 1] + [u];
  }

  /** And undo after redo. */
  lemma UndoRedoes(m: Model)
    requires m.Sane() && |m.redo| > 0
    ensures Redone(m).Sane() && Undone(Redone(m)) == m
  {
    var r := m.redo[0];
    InverseReverts(r, m.text);
    var n := Redone(m);
    assert n.undo[..|n.undo| - 1] == m.undo;
    assert m.redo == [r] + m.redo[1..];
  }

  lemma {:induction false} SuffixApplies(t: Text, undo: seq<Edit>, k: nat)
    requires UndoApplies(t, undo) && k <= |undo|
    ensures UndoApplies(t, undo[k..])
    decreases |undo|
  {
    if k < |undo| {
      var u := undo[|undo| - 1];
      assert undo[k..][..|undo| - k - 1] == undo[..|undo| - 1][k..];
      SuffixApplies(Apply(u, t), undo[..|undo| - 1], k);
    }
  }

  /** An edit needs of the stacks only that the undo records apply; the redo records go. */
  lemma EditKeepsSane(m: Model, e: Edit)
    requires UndoApplies(m.text, m.undo) && Applies(e, m.text)
    ensures Edited(m, e).Sane()
  {
    hide Room;
    if e.del <= UNDO_CHAR_COUNT {
      var kept := Room(m.undo, e.del);
      RoomIsSuffix(m.undo, e.del);
      SuffixApplies(m.text, m.undo, |m.undo| - |kept|);
      InverseReverts(e, m.text);
      var n := Edited(m, e);
      assert n.undo[..|n.undo| - 1] == kept;
    }
  }

  lemma RoomIsSuffix(undo: seq<Edit>, n: nat)
    requires n <= UNDO_CHAR_COUNT
    ensures |Room(undo, n)| <= |undo| && Room(undo, n) == undo[|undo| - |Room(undo, n)|..]
  {
    if |undo| == UNDO_STATE_COUNT {
      var r := Room(undo, n);
      assert undo[1..][|undo| - 1 - |r|..] == undo[|undo| - |r|..];
    }
  }

  // ---------- runs against the history of versions ----------

  datatype Op = DoEdit(e: Edit) | DoUndo | DoRedo

  predicate Allowed(m: Model, op: Op) {
    match op
    case DoEdit(e) => Applies(e, m.text)
    case DoUndo => HasRoom(m)
    case DoRedo => true
  }

  function Step(m: Model, op: Op): Model
    requires op.DoEdit? ==> Applies(op.e, m.text)
    requires |m.undo| > 0 ==> Applies(m.undo[|m.undo| - 1], m.text)
    requires |m.redo| > 0 ==> Applies(m.redo[0], m.text)
  {
    match op
    case DoEdit(e) => Edited(m, e)
    case DoUndo => Undone(m)
    case DoRedo => Redone(m)
  }

  /** A version of the text, and how many characters the step from it towards the present, or
      from the present towards it, deletes when it is done forwards. */
  datatype Version = Version(text: Text, deleted: nat)

  /** The reference: whole versions of the text before and after the present one. */
  datatype History = History(past: seq<Version>, present: Text, future: seq<Version>)

  /** The last k of a list. */
  function LastOf<T>(s: seq<T>, k: nat): (r: seq<T>)
    requires k <= |s|
    ensures |r| == k
  {
    s[|s| - k..]
  }

  /** How many of the newest versions can stay with `room` characters and `slots` records. */
  function Kept(past: seq<Version>, room: nat, slots: nat): (k: nat)
    ensures k <= |past|
    decreases |past|
  {
    if |past| == 0 || slots == 0 || past[|past| - 1].deleted > room then 0
    else 1 + Kept(past[..|past| - 1], room - past[|past| - 1].deleted, slots - 1)
  }

  function Total(past: seq<Version>): nat
    decreases |past|
  {
    if |past| == 0 then 0 else Total(past[..|past| - 1]) + past[|past| - 1].deleted
  }

  /** The reference operation. An edit keeps as many versions as 99 records with 999 characters
      allow, itself included; one that deletes more than that keeps none. */
  function Recorded(h: History, op: Op): History
    requires op.DoEdit? ==> Applies(op.e, h.present)
  {
    match op
    case DoEdit(e) =>
      if e.del > 999 then History([], Apply(e, h.present), [])
      else
        var keep := Kept(h.past, 999 - e.del, 98);
        History(LastOf(h.past, keep) + [Version(h.present, e.del)], Apply(e, h.present), [])
    case DoUndo =>
      if |h.past| == 0 then h
      else
        var v := h.past[|h.past| - 1];
        History(h.past[..|h.past| - 1], v.text, [Version(h.present, v.deleted)] + h.future)
    case DoRedo =>
      if |h.future| == 0 then h
      else
        var v := h.future[0];
        History(h.past + [Version(h.present, v.deleted)], v.text, h.future[1..])
  }

  /** What fits is kept whole; what does not loses no more versions than it must. */
  lemma {:induction false} KeptIsMost(past: seq<Version>, room: nat, slots: nat)
    ensures var k := Kept(past, room, slots);
      && k <= slots && Total(LastOf(past, k)) <= room
      && (k < |past| ==> k == slots || Total(LastOf(past, k + 1)) > room)
    decreases |past|
  {
    hide Total, Kept, LastOf;
    var k, n := Kept(past, room, slots), |past| - 1;
    KeptStep(past, room, slots);
    NoTotal(LastOf(past, 0));
    if k > 0 {
      KeptIsMost(past[..n], room - past[n].deleted, slots - 1);
      LastTotal(past, k);
      if k < |past| {
        LastTotal(past, k + 1);
      }
    } else if |past| > 0 {
      LastTotal(past, 1);
      NoTotal(LastOf(past[..n], 0));
    }
  }

  lemma {:induction false} KeptStep(past: seq<Version>, room: nat, slots: nat)
    ensures if |past| == 0 || slots == 0 || past[|past| - 1].deleted > room then Kept(past, room, slots) == 0
      else Kept(past, room, slots) == 1 + Kept(past[..|past| - 1], room - past[|past| - 1].deleted, slots - 1)
  {
  }

  lemma NoTotal(past: seq<Version>)
    ensures |past| == 0 ==> Total(past) == 0
  {
  }

  lemma {:induction false} LastTotal(past: seq<Version>, k: nat)
    requires 0 < k <= |past|
    ensures var n := |past| - 1; Total(LastOf(past, k)) == Total(LastOf(past[..n], k - 1)) + past[n].deleted
  {
    assert LastOf(past, k)[..k - 1] == LastOf(past[..|past| - 1], k - 1);
  }

  /** The stacks of edits and the history of versions tell the same story. */
  ghost predicate Tells(m: Model, h: History) {
    && m.text == h.present && PastTold(m.text, m.undo, h.past) && FutureTold(m.text, m.redo, h.future)
    && |h.past| + |h.future| <= 99
  }

  ghost predicate PastTold(t: Text, undo: seq<Edit>, past: seq<Version>)
    decreases |undo|
  {
    && |undo| == |past|
    && (|undo| > 0 ==>
          var u, p := undo[|undo| - 1], past[|past| - 1];
          && Applies(u, t) && Apply(u, t) == p.text && |u.ins| == p.deleted
          && PastTold(p.text, undo[..|undo| - 1], past[..|past| - 1]))
  }

  ghost predicate FutureTold(t: Text, redo: seq<Edit>, future: seq<Version>)
    decreases |redo|
  {
    && |redo| == |future|
    && (|redo| > 0 ==>
          var r, f := redo[0], future[0];
          && Applies(r, t) && Apply(r, t) == f.text && r.del == f.deleted
          && FutureTold(f.text, redo[1..], future[1..]))
  }

  lemma {:induction false} PastSuffix(t: Text, undo: seq<Edit>, past: seq<Version>, k: nat)
    requires PastTold(t, undo, past) && k <= |undo|
    ensures PastTold(t, undo[k..], past[k..])
    decreases |undo|
  {
    if k < |undo| {
      var n := |undo| - 1;
      assert undo[k..][..n - k] == undo[..n][k..] && past[k..][..n - k] == past[..n][k..];
      PastSuffix(past[n].text, undo[..n], past[..n], k);
    }
  }

  lemma {:induction false} PastStored(t: Text, undo: seq<Edit>, past: seq<Version>)
    requires PastTold(t, undo, past)
    ensures |Stored(undo)| == Total(past)
    decreases |undo|
  {
    if |undo| > 0 {
      StoredLast(undo);
      PastStored(past[|past| - 1].text, undo[..|undo| - 1], past[..|past| - 1]);
    }
  }

  /** An edit that deletes n characters forgets nothing while 98 records and 999 - n characters
      hold it all, and otherwise only as many of the oldest records as it must. */
  lemma EditForgets(undo: seq<Edit>, n: nat)
    requires |undo| <= 99 && n <= 999
    ensures var kept := |Room(undo, n)|;
      && kept <= |undo| && Room(undo, n) == LastOf(undo, kept)
      && kept <= 98 && |Stored(LastOf(undo, kept))| + n <= 999
      && (kept < |undo| ==> kept == 98 || |Stored(LastOf(undo, kept + 1))| + n > 999)
  {
    hide Stored, Shrink, LastOf;
    ShrinkIsLast(undo, n);
    if |undo| == UNDO_STATE_COUNT {
      ShrinkIsLast(undo[1..], n);
      var k := |Shrink(undo[1..], n)|;
      LastOfRest(undo, k);
      if k < |undo| - 1 {
        LastOfRest(undo, k + 1);
      }
    }
  }

  lemma ShrinkIsLast(undo: seq<Edit>, n: nat)
    requires n <= 999
    ensures var k := |Shrink(undo, n)|;
      && k <= |undo| && Shrink(undo, n) == LastOf(undo, k) && |Stored(LastOf(undo, k))| + n <= 999
      && (k < |undo| ==> |Stored(LastOf(undo, k + 1))| + n > 999)
  {
    hide Stored, Shrink;
  }

  lemma {:induction false} LastOfRest(undo: seq<Edit>, k: nat)
    requires k < |undo|
    ensures LastOf(undo[1..], k) == LastOf(undo, k)
  {
  }

  lemma {:induction false} LastOfMore(undo: seq<Edit>, i: nat, j: nat)
    requires i <= j <= |undo|
    ensures |Stored(LastOf(undo, i))| <= |Stored(LastOf(undo, j))|
  {
    hide Stored;
    var first := undo[|undo| - j..|undo| - i];
    assert LastOf(undo, j) == first + LastOf(undo, i);
    StoredJoin(first, LastOf(undo, i));
  }

  /** So the model keeps as many records as the reference keeps versions. */
  lemma {:induction false} KeptAgrees(t: Text, undo: seq<Edit>, past: seq<Version>, n: nat)
    requires PastTold(t, undo, past) && |past| <= 99 && n <= 999
    ensures |undo| == |past| && |Room(undo, n)| == Kept(past, 999 - n, 98)
    ensures Room(undo, n) == LastOf(undo, Kept(past, 999 - n, 98))
  {
    hide Room, Stored, Kept, Total, PastTold, LastOf;
    PastCounts(t, undo, past);
    EditForgets(undo, n);
    KeptIsMost(past, 999 - n, 98);
    var a, b := |Room(undo, n)|, Kept(past, 999 - n, 98);
    PastLastStored(t, undo, past, b);
    if a < b {
      LastOfMore(undo, a + 1, b);
    } else if b < a {
      PastLastStored(t, undo, past, b + 1);
      LastOfMore(undo, b + 1, a);
    }
  }

  lemma {:induction false} PastCounts(t: Text, undo: seq<Edit>, past: seq<Version>)
    requires PastTold(t, undo, past)
    ensures |undo| == |past|
  {
  }

  lemma {:induction false} PastLastStored(t: Text, undo: seq<Edit>, past: seq<Version>, k: nat)
    requires PastTold(t, undo, past) && k <= |undo|
    ensures |undo| == |past| && |Stored(LastOf(undo, k))| == Total(LastOf(past, k))
    ensures PastTold(t, LastOf(undo, k), LastOf(past, k))
  {
    hide Stored, Total;
    PastSuffix(t, undo, past, |undo| - k);
    PastStored(t, LastOf(undo, k), LastOf(past, k));
  }

  /** One operation keeps the story. */
  lemma StepTells(m: Model, h: History, op: Op)
    requires Tells(m, h) && Allowed(m, op)
    ensures Tells(Step(m, op), Recorded(h, op))
  {
    match op {
      case DoEdit(e) => EditTells(m, h, e);
      case DoUndo => UndoTells(m, h);
      case DoRedo => RedoTells(m, h);
    }
  }

  lemma {:induction false} EditTells(m: Model, h: History, e: Edit)
    requires Tells(m, h) && Applies(e, m.text)
    ensures Tells(Edited(m, e), Recorded(h, DoEdit(e)))
  {
    hide Room, Inverse, Apply, PastTold, Kept, Edited, Recorded, LastOf;
    EditedParts(m, h, e);
    NothingTold(Apply(e, m.text));
    if e.del <= 999 {
      var k := Kept(h.past, 999 - e.del, 98);
      KeptAgrees(m.text, m.undo, h.past, e.del);
      KeptIsMost(h.past, 999 - e.del, 98);
      PastLastStored(m.text, m.undo, h.past, k);
      PushTells(m.text, e, LastOf(m.undo, k), LastOf(h.past, k));
    }
  }

  lemma EditedParts(m: Model, h: History, e: Edit)
    requires Applies(e, m.text) && m.text == h.present
    ensures Edited(m, e) == Model(Apply(e, m.text), if e.del > 999 then [] else Room(m.undo, e.del) + [Inverse(e, m.text)], [])
    ensures Recorded(h, DoEdit(e)) ==
      History(if e.del > 999 then [] else LastOf(h.past, Kept(h.past, 999 - e.del, 98)) + [Version(h.present, e.del)],
              Apply(e, m.text), [])
  {
    hide Room, Inverse, Apply, Kept, LastOf;
  }

  lemma {:induction false} NothingTold(t: Text)
    ensures PastTold(t, [], []) && FutureTold(t, [], [])
  {
  }

  /** The inverse of an edit, on top of a told stack, tells the text before the edit. */
  lemma {:induction false} PushTells(t: Text, e: Edit, kept: seq<Edit>, past: seq<Version>)
    requires Applies(e, t) && PastTold(t, kept, past)
    ensures PastTold(Apply(e, t), kept + [Inverse(e, t)], past + [Version(t, e.del)])
  {
    InverseReverts(e, t);
    InverseStores(e, t);
    hide Apply, Inverse;
    var u := Inverse(e, t);
    assert (kept + [u])[..|kept|] == kept && (past + [Version(t, e.del)])[..|past|] == past;
  }

  lemma InverseStores(e: Edit, t: Text)
    requires Applies(e, t)
    ensures |Inverse(e, t).ins| == e.del && Inverse(e, t).del == |e.ins|
  {
  }

  lemma UndoTells(m: Model, h: History)
    requires Tells(m, h)
    ensures Tells(Undone(m), Recorded(h, DoUndo))
  {
    if |m.undo| > 0 {
      InverseReverts(m.undo[|m.undo| - 1], m.text);
      assert Undone(m).redo[1..] == m.redo && Recorded(h, DoUndo).future[1..] == h.future;
    }
  }

  lemma RedoTells(m: Model, h: History)
    requires Tells(m, h)
    ensures Tells(Redone(m), Recorded(h, DoRedo))
  {
    if |m.redo| > 0 {
      var n := Redone(m);
      InverseReverts(m.redo[0], m.text);
      assert n.undo[..|n.undo| - 1] == m.undo;
      assert Recorded(h, DoRedo).past[..|h.past|] == h.past;
    }
  }

  /** A run of allowed operations, and the history recorded along it. */
  ghost predicate Runs(m: Model, h: History, ops: seq<Op>, m': Model, h': History)
    requires Tells(m, h)
    decreases |ops|
  {
    if |ops| == 0 then m' == m && h' == h
    else
      Allowed(m, ops[0]) &&
      (StepTells(m, h, ops[0]);
       var n := Step(m, ops[0]);
       Runs(n, Recorded(h, ops[0]), ops[1..], m', h'))
  }

  /** For every run of edits, undos and redos with room, the text is the version the
      history predicts. */
  lemma {:induction false} RunTells(m: Model, h: History, ops: seq<Op>, m': Model, h': History)
    requires Tells(m, h) && Runs(m, h, ops, m', h')
    ensures Tells(m', h')
    decreases |ops|
  {
    if |ops| > 0 {
      StepTells(m, h, ops[0]);
      var n := Step(m, ops[0]);
      RunTells(n, Recorded(h, ops[0]), ops[1..], m', h');
    }
  }

  // ---------- the states without room are reached ----------

  function Empty(): Model { Model([], [], []) }

  function NoHistory(): History { History([], [], []) }

  /** Two insertions, the second behind the first, and one undo. */
  function InsertTwiceAndUndo(a: Text, b: Text): seq<Op> {
    [DoEdit(Edit(0, 0, a)), DoEdit(Edit(|a|, 0, b)), DoUndo]
  }

  lemma {:induction false} InsertionKept(t: Text, undo: seq<Edit>, at: nat, s: Text)
    requires at <= |t| && |undo| < UNDO_STATE_COUNT && |Stored(undo)| <= UNDO_CHAR_COUNT
    ensures var m := Edited(Model(t, undo, []), Edit(at, 0, s));
      m.text == t[..at] + s + t[at..] && m.undo == undo + [Edit(at, |s|, [])] && m.redo == []
  {
    hide Stored;
    assert t[at..at + 0] == [];
  }

  lemma {:induction false} OnlyDeletions(undo: seq<Edit>)
    requires forall k :: 0 <= k < |undo| ==> undo[k].ins == []
    ensures Stored(undo) == []
  {
    if |undo| > 0 {
      OnlyDeletions(undo[1..]);
    }
  }

  lemma FirstInsertion(a: Text)
    ensures var m, op := Model(a, [Edit(0, |a|, [])], []), DoEdit(Edit(0, 0, a));
      Tells(Empty(), NoHistory()) && Allowed(Empty(), op) && Step(Empty(), op) == m &&
      Recorded(NoHistory(), op) == History([Version([], 0)], a, []) && Tells(m, History([Version([], 0)], a, []))
  {
    InsertionKept([], [], 0, a);
    StepTells(Empty(), NoHistory(), DoEdit(Edit(0, 0, a)));
  }

  lemma SecondInsertion(a: Text, b: Text)
    requires Tells(Model(a, [Edit(0, |a|, [])], []), History([Version([], 0)], a, []))
    ensures var m, h, op := Model(a, [Edit(0, |a|, [])], []), History([Version([], 0)], a, []), DoEdit(Edit(|a|, 0, b));
      var m', h' := Model(a + b, [Edit(0, |a|, []), Edit(|a|, |b|, [])], []), History([Version([], 0), Version(a, 0)], a + b, []);
      Allowed(m, op) && Step(m, op) == m' && Recorded(h, op) == h' && Tells(m', h')
  {
    hide Tells, Edited, Stored;
    OnlyDeletions([Edit(0, |a|, [])]);
    InsertionKept(a, [Edit(0, |a|, [])], |a|, b);
    StepTells(Model(a, [Edit(0, |a|, [])], []), History([Version([], 0)], a, []), DoEdit(Edit(|a|, 0, b)));
    assert a[..|a|] + b + a[|a|..] == a + b;
    assert [Version([], 0)] + [Version(a, 0)] == [Version([], 0), Version(a, 0)];
  }

  lemma SecondUndone(a: Text, b: Text)
    requires |b| < UNDO_CHAR_COUNT
    requires Tells(Model(a + b, [Edit(0, |a|, []), Edit(|a|, |b|, [])], []), History([Version([], 0), Version(a, 0)], a + b, []))
    ensures var m, h := Model(a + b, [Edit(0, |a|, []), Edit(|a|, |b|, [])], []), History([Version([], 0), Version(a, 0)], a + b, []);
      var m', h' := Model(a, [Edit(0, |a|, [])], [Edit(|a|, 0, b)]), History([Version([], 0)], a, [Version(a + b, 0)]);
      Allowed(m, DoUndo) && Step(m, DoUndo) == m' && Recorded(h, DoUndo) == h' && Tells(m', h')
  {
    var m, h := Model(a + b, [Edit(0, |a|, []), Edit(|a|, |b|, [])], []), History([Version([], 0), Version(a, 0)], a + b, []);
    OnlyDeletions(m.undo);
    assert (a + b)[..|a|] + [] + (a + b)[|a| + |b|..] == a && (a + b)[|a|..|a| + |b|] == b;
    assert m.undo[..1] == [Edit(0, |a|, [])] && h.past[..1] == [Version([], 0)];
    StepTells(m, h, DoUndo);
  }

  lemma {:induction false} RunsOneMore(m: Model, h: History, op: Op, n: Model, k: History, ops: seq<Op>,
                                       m': Model, h': History)
    requires Tells(m, h) && Allowed(m, op) && n == Step(m, op)
    requires k == Recorded(h, op) && Tells(n, k) && Runs(n, k, ops, m', h')
    ensures Runs(m, h, [op] + ops, m', h')
  {
    assert ([op] + ops)[1..] == ops;
  }

  lemma LeftWithoutRoom(a: Text, b: Text)
    requires 0 < |a| && |b| < UNDO_CHAR_COUNT
    ensures var m := Model(a, [Edit(0, |a|, [])], [Edit(|a|, 0, b)]);
      (NoSpace(m) <==> |a| >= UNDO_CHAR_COUNT) && (Crowded(m) <==> |a| < UNDO_CHAR_COUNT < |a| + |b|) && !LooksAlike(m)
  {
    OnlyDeletions([Edit(0, |a|, [])]);
    StoredOne(Edit(|a|, 0, b));
  }

  /** One insertion into the empty text leaves no space for its own undo when it has 999
      characters or more. */
  lemma {:induction false} SpaceRunsOut(a: Text)
    ensures Tells(Empty(), NoHistory())
    ensures var m := Model(a, [Edit(0, |a|, [])], []);
      Runs(Empty(), NoHistory(), [DoEdit(Edit(0, 0, a))], m, History([Version([], 0)], a, [])) &&
      (NoSpace(m) <==> |a| >= UNDO_CHAR_COUNT)
  {
    hide Tells, Step, Recorded, Stored, Allowed;
    var m, h, op := Model(a, [Edit(0, |a|, [])], []), History([Version([], 0)], a, []), DoEdit(Edit(0, 0, a));
    FirstInsertion(a);
    RunsOneMore(Empty(), NoHistory(), op, m, h, [], m, h);
    OnlyDeletions(m.undo);
    assert [op] + [] == [op];
  }

  /** Runs from the empty text that end without room for the next undo: with no space at all
      when the first insertion has 999 characters or more; crowded, and with a newest redo
      record unlike the one to be written, when both together have more than 999. */
  lemma RoomRunsOut(a: Text, b: Text)
    requires 0 < |a| && |b| < UNDO_CHAR_COUNT
    ensures Tells(Empty(), NoHistory())
    ensures var m := Model(a, [Edit(0, |a|, [])], [Edit(|a|, 0, b)]);
      && Runs(Empty(), NoHistory(), InsertTwiceAndUndo(a, b), m, History([Version([], 0)], a, [Version(a + b, 0)]))
      && (NoSpace(m) <==> |a| >= UNDO_CHAR_COUNT)
      && (Crowded(m) <==> |a| < UNDO_CHAR_COUNT < |a| + |b|)
      && !LooksAlike(m)
  {
    hide Tells, Step, Recorded, Stored, NoSpace, Crowded, LooksAlike, Allowed;
    var first, second, again := Edit(0, |a|, []), Edit(|a|, |b|, []), Edit(|a|, 0, b);
    var m1, m2, m := Model(a, [first], []), Model(a + b, [first, second], []), Model(a, [first], [again]);
    var h1, h2, h := History([Version([], 0)], a, []), History([Version([], 0), Version(a, 0)], a + b, []), History([Version([], 0)], a, [Version(a + b, 0)]);
    var ops := InsertTwiceAndUndo(a, b);
    FirstInsertion(a);
    SecondInsertion(a, b);
    SecondUndone(a, b);
    assert ops[2..] == [DoUndo] && ops[1..] == [DoEdit(Edit(|a|, 0, b))] + ops[2..];
    RunsOneMore(m2, h2, DoUndo, m, h, [], m, h);
    RunsOneMore(m1, h1, ops[1], m2, h2, ops[2..], m, h);
    RunsOneMore(Empty(), NoHistory(), ops[0], m1, h1, ops[1..], m, h);
    assert [ops[0]] + ops[1..] == ops;
    LeftWithoutRoom(a, b);
  }

  function UndoTimes(m: Model, n: nat): (r: Model)
    requires m.Sane() && n <= |m.undo|
    ensures r.Sane() && |r.undo| == |m.undo| - n && |r.redo| == |m.redo| + n
    decreases n
  {
    if n == 0 then m else
      RedoUndoes(m);
      UndoTimes(Undone(m), n - 1)
  }

  function RedoTimes(m: Model, n: nat): (r: Model)
    requires m.Sane() && n <= |m.redo|
    ensures r.Sane()
    decreases n
  {
    if n == 0 then m else
      UndoRedoes(m);
      RedoTimes(Redone(m), n - 1)
  }

  lemma {:induction false} PastSane(t: Text, undo: seq<Edit>, past: seq<Version>)
    requires PastTold(t, undo, past)
    ensures UndoApplies(t, undo)
    decreases |undo|
  {
    if |undo| > 0 {
      PastSane(past[|past| - 1].text, undo[..|undo| - 1], past[..|past| - 1]);
    }
  }

  lemma {:induction false} FutureSane(t: Text, redo: seq<Edit>, future: seq<Version>)
    requires FutureTold(t, redo, future)
    ensures RedoApplies(t, redo)
    decreases |redo|
  {
    if |redo| > 0 {
      FutureSane(future[0].text, redo[1..], future[1..]);
    }
  }

  lemma ToldIsSane(m: Model, h: History)
    requires Tells(m, h)
    ensures m.Sane()
  {
    PastSane(m.text, m.undo, h.past);
    FutureSane(m.text, m.redo, h.future);
  }

  /** Undoing n times gives the text n versions back. */
  lemma {:induction false} UndoTimesText(m: Model, h: History, n: nat)
    requires Tells(m, h) && n <= |m.undo|
    ensures m.Sane()
    ensures UndoTimes(m, n).text == if n == 0 then h.present else h.past[|h.past| - n].text
    decreases n
  {
    ToldIsSane(m, h);
    if n > 0 {
      hide Redone, Apply, Inverse, FutureTold, UndoApplies, RedoApplies;
      RedoUndoes(m);
      UndoTells(m, h);
      UndoTimesText(Undone(m), Recorded(h, DoUndo), n - 1);
    }
  }

  /** Edits that can be made one after the other. */
  ghost predicate AllApply(t: Text, edits: seq<Edit>)
    decreases |edits|
  {
    |edits| == 0 || (Applies(edits[0], t) && AllApply(Apply(edits[0], t), edits[1..]))
  }

  ghost function EditedAll(m: Model, edits: seq<Edit>): Model
    requires AllApply(m.text, edits)
    decreases |edits|
  {
    if |edits| == 0 then m else EditedAll(Edited(m, edits[0]), edits[1..])
  }

  function Deleted(edits: seq<Edit>): nat {
    if |edits| == 0 then 0 else edits[0].del + Deleted(edits[1..])
  }

  /** While 99 records and 999 characters hold them all, edits are all remembered. */
  lemma {:induction false} AllRemembered(m: Model, h: History, edits: seq<Edit>) returns (h': History)
    requires Tells(m, h) && AllApply(m.text, edits)
    requires |h.past| + |edits| <= 99 && Total(h.past) + Deleted(edits) <= 999
    ensures Tells(EditedAll(m, edits), h') && |h'.past| == |h.past| + |edits| && h.past <= h'.past
    ensures |edits| > 0 ==> h'.past[|h.past|].text == h.present
    decreases |edits|
  {
    if |edits| == 0 {
      h' := h;
    } else {
      hide Edited, Kept, Total, PastTold, FutureTold, Apply, Recorded;
      var e := edits[0];
      EditTells(m, h, e);
      RecordedWhole(h, e);
      MoreTotal(h.past, Version(h.present, e.del));
      h' := AllRemembered(Edited(m, e), Recorded(h, DoEdit(e)), edits[1..]);
    }
  }

  lemma RecordedWhole(h: History, e: Edit)
    requires Applies(e, h.present) && |h.past| <= 98 && Total(h.past) + e.del <= 999
    ensures Recorded(h, DoEdit(e)) == History(h.past + [Version(h.present, e.del)], Apply(e, h.present), [])
  {
    hide Kept, Total, Apply;
    AllKept(h.past, 999 - e.del, 98);
  }

  lemma {:induction false} AllKept(past: seq<Version>, room: nat, slots: nat)
    requires Total(past) <= room && |past| <= slots
    ensures Kept(past, room, slots) == |past|
    decreases |past|
  {
    if |past| > 0 {
      AllKept(past[..|past| - 1], room - past[|past| - 1].deleted, slots - 1);
    }
  }

  lemma MoreTotal(past: seq<Version>, v: Version)
    ensures Total(past + [v]) == Total(past) + v.deleted
  {
    assert (past + [v])[..|past|] == past;
  }

  lemma EditedNone(m: Model, edits: seq<Edit>)
    requires AllApply(m.text, edits)
    ensures |edits| == 0 ==> EditedAll(m, edits) == m
  {
  }

  /** From the first text at most 99 edits that delete at most 999 characters in all are all
      undone by as many undos. */
  lemma {:induction false} AllUndone(t: Text, edits: seq<Edit>)
    requires AllApply(t, edits) && |edits| <= 99 && Deleted(edits) <= 999
    ensures var m := EditedAll(Model(t, [], []), edits);
      m.Sane() && |m.undo| == |edits| && UndoTimes(m, |edits|).text == t
  {
    hide EditedAll, AllApply, UndoTimes, PastTold, FutureTold;
    var m := Model(t, [], []);
    var h := History([], t, []);
    NothingTold(t);
    NoTotal(h.past);
    var h' := AllRemembered(m, h, edits);
    var m' := EditedAll(m, edits);
    PastCounts(m'.text, m'.undo, h'.past);
    UndoTimesText(m', h', |edits|);
    EditedNone(m, edits);
  }

  /** n redos after n undos restore everything: text, undo stack and redo stack. */
  lemma {:induction false} RedoTimesUndoes(m: Model, n: nat)
    requires m.Sane() && n <= |m.undo|
    ensures RedoTimes(UndoTimes(m, n), n) == m
    decreases n
  {
    if n > 0 {
      hide Redone;
      RedoUndoes(m);
      RedoTimesUndoes(Undone(m), n - 1);
      RedoTimesLast(UndoTimes(m, n), n);
    }
  }

  /** The last of n redos can be taken apart from the first n - 1. */
  lemma RedoTimesLast(m: Model, n: nat)
    requires m.Sane() && 0 < n <= |m.redo|
    ensures |RedoTimes(m, n - 1).redo| == |m.redo| - (n - 1)
    ensures RedoTimes(m, n) == Redone(RedoTimes(m, n - 1))
    decreases n
  {
    UndoRedoes(m);
    if n > 1 {
      RedoTimesLast(Redone(m), n - 1);
    }
  }
}
