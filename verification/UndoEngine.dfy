/** The undo engine of core/src/imgui/imstb_textedit.h in its own form: two stacks of
    records growing towards each other in one array, their characters growing towards each
    other in one buffer, and memmove to compact either. */
module UndoEngine {
  import opened UndoModel

  /** StbUndoRecord. */
  datatype Record = Record(where: int, insertLength: int, deleteLength: int, charStorage: int)

  /** The record of an edit whose characters start at `base`. */
  function RecordOf(e: Edit, base: int): Record {
    Record(e.at, |e.ins|, e.del, if |e.ins| == 0 then -1 else base)
  }

  /** The records of a stack whose characters are laid out from `base` on without gaps. */
  function Records(edits: seq<Edit>, base: int): (r: seq<Record>)
    ensures |r| == |edits|
  {
    if |edits| == 0 then [] else [RecordOf(edits[0], base)] + Records(edits[1..], base + |edits[0].ins|)
  }

  lemma {:induction false} RecordsJoin(a: seq<Edit>, b: seq<Edit>, base: int)
    ensures Records(a + b, base) == Records(a, base) + Records(b, base + |Stored(a)|)
  {
    if |a| == 0 {
      assert a + b == b;
    } else {
      assert (a + b)[1..] == a[1..] + b;
      RecordsJoin(a[1..], b, base + |a[0].ins|);
    }
  }

  lemma {:induction false} RecordsLast(a: seq<Edit>, base: int)
    requires |a| > 0
    ensures var n := |a| - 1; Records(a, base) == Records(a[..n], base) + [RecordOf(a[n], base + |Stored(a[..n])|)]
  {
    hide Records;
    var n := |a| - 1;
    assert a == a[..n] + [a[n]];
    RecordsJoin(a[..n], [a[n]], base);
    RecordsOne(a[n], base + |Stored(a[..n])|);
  }

  lemma {:induction false} RecordsOne(e: Edit, base: int)
    ensures Records([e], base) == [RecordOf(e, base)]
  {
    assert [e][1..] == [];
  }

  function Shift(r: Record, d: int): Record {
    if r.charStorage >= 0 then r.(charStorage := r.charStorage + d) else r
  }

  function ShiftAll(rs: seq<Record>, d: int): (r: seq<Record>)
    ensures |r| == |rs|
  {
    if |rs| == 0 then [] else [Shift(rs[0], d)] + ShiftAll(rs[1..], d)
  }

  lemma {:induction false} ShiftAllAt(rs: seq<Record>, d: int, i: nat)
    requires i < |rs|
    ensures ShiftAll(rs, d)[i] == Shift(rs[i], d)
  {
    if i > 0 {
      ShiftAllAt(rs[1..], d, i - 1);
    }
  }

  /** Moving a stack's characters by d is moving its records' storage by d. */
  lemma {:induction false} RecordsShift(a: seq<Edit>, base: int, d: int)
    requires base >= 0
    ensures Records(a, base + d) == ShiftAll(Records(a, base), d)
  {
    if |a| > 0 {
      var n := |a[0].ins|;
      RecordsShift(a[1..], base + n, d);
      assert Records(a[1..], base + d + n) == ShiftAll(Records(a[1..], base + n), d);
      assert Records(a, base) == [RecordOf(a[0], base)] + Records(a[1..], base + n);
    }
  }

  /** However far the redo stack is redone, the undo record it writes has room. */
  predicate RedoFits(redo: seq<Edit>, undoChars: int, redoChars: int)
    decreases |redo|
  {
    |redo| == 0 ||
    (undoChars + redo[0].del <= redoChars && RedoFits(redo[1..], undoChars + redo[0].del, redoChars + |redo[0].ins|))
  }

  lemma {:induction false} RedoFitsLess(redo: seq<Edit>, undoChars: int, redoChars: int, undoChars': int, redoChars': int)
    requires RedoFits(redo, undoChars, redoChars) && undoChars' - undoChars <= redoChars' - redoChars
    ensures RedoFits(redo, undoChars', redoChars')
    decreases |redo|
  {
    if |redo| > 0 {
      RedoFitsLess(redo[1..], undoChars + redo[0].del, redoChars + |redo[0].ins|,
                   undoChars' + redo[0].del, redoChars' + |redo[0].ins|);
    }
  }

  lemma {:induction false} RedoFitsPrefix(redo: seq<Edit>, undoChars: int, redoChars: int, n: nat)
    requires RedoFits(redo, undoChars, redoChars) && n <= |redo|
    ensures RedoFits(redo[..n], undoChars, redoChars)
    decreases |redo|
  {
    if n > 0 {
      assert redo[..n][1..] == redo[1..][..n - 1];
      RedoFitsPrefix(redo[1..], undoChars + redo[0].del, redoChars + |redo[0].ins|, n - 1);
    }
  }

  /** memmove within one array. */
  method Move<T>(a: array<T>, dst: nat, src: nat, n: nat)
    requires dst + n <= a.Length && src + n <= a.Length
    modifies a
    ensures a[dst..dst + n] == old(a[src..src + n])
    ensures a[..dst] == old(a[..dst]) && a[dst + n..] == old(a[dst + n..])
  {
    forall i | 0 <= i < n {
      a[dst + i] := a[src + i];
    }
  }

  class Editor {
    const undoRec: array<Record>
    const undoChar: array<char>
    var undoPoint: int
    var redoPoint: int
    var undoCharPoint: int
    var redoCharPoint: int
    var text: Text
    var cursor: int
    var selectStart: int
    var selectEnd: int

    ghost var Undos: seq<Edit>
    ghost var Redos: seq<Edit>

    ghost predicate Sized() {
      undoRec.Length == UNDO_STATE_COUNT && undoChar.Length == UNDO_CHAR_COUNT
    }

    /** The undo stack lies at the front of both arrays. */
    ghost predicate UndoPart(n: int, chars: int)
      reads this`Undos, undoRec, undoChar
    {
      && Sized() && 0 <= n <= UNDO_STATE_COUNT && 0 <= chars <= UNDO_CHAR_COUNT
      && undoRec[..n] == Records(Undos, 0) && undoChar[..chars] == Stored(Undos)
    }

    /** The redo stack lies at the back of both. */
    ghost predicate RedoPart()
      reads this`Redos, this`redoPoint, this`redoCharPoint, undoRec, undoChar
    {
      && Sized() && 0 <= redoPoint <= UNDO_STATE_COUNT && 0 <= redoCharPoint <= UNDO_CHAR_COUNT
      && undoRec[redoPoint..] == Records(Redos, redoCharPoint) && undoChar[redoCharPoint..] == Stored(Redos)
    }

    ghost predicate Layout()
      reads this`undoPoint, this`undoCharPoint, this`redoPoint, this`redoCharPoint, this`Undos, this`Redos
      reads undoRec, undoChar
    {
      && UndoPart(undoPoint, undoCharPoint) && RedoPart()
      && undoPoint <= redoPoint && undoCharPoint <= redoCharPoint
      && RedoFits(Redos, undoCharPoint, redoCharPoint)
    }

    ghost function Abs(): Model
      reads this`text, this`Undos, this`Redos
    {
      Model(text, Undos, Redos)
    }

    /** The two stacks lie apart. */
    ghost predicate Apart()
      reads this`undoPoint, this`undoCharPoint, this`redoPoint, this`redoCharPoint
    {
      0 <= undoPoint <= redoPoint <= UNDO_STATE_COUNT && 0 <= undoCharPoint <= redoCharPoint <= UNDO_CHAR_COUNT
    }

    /** What every undo leaves, and all that an edit needs: the undo stack is laid out well and
        its edits still apply. Nothing is said about the redo records. */
    ghost predicate Undoable()
      reads this`undoPoint, this`undoCharPoint, this`Undos, this`text, undoRec, undoChar
    {
      UndoPart(undoPoint, undoCharPoint) && UndoApplies(text, Undos)
    }

    /** A well laid out state whose edits all still apply. */
    ghost predicate Valid()
      reads this`undoPoint, this`undoCharPoint, this`redoPoint, this`redoCharPoint, this`Undos, this`Redos, this`text
      reads undoRec, undoChar
    {
      Layout() && Abs().Sane()
    }

    /** stb_textedit_clear_state. */
    constructor (t: Text)
      ensures Valid() && fresh(undoRec) && fresh(undoChar)
      ensures Abs() == Model(t, [], []) && cursor == selectStart == selectEnd == 0
    {
      undoRec := new Record[UNDO_STATE_COUNT](_ => Record(0, 0, 0, 0));
      undoChar := new char[UNDO_CHAR_COUNT](_ => ' ');
      undoPoint, undoCharPoint := 0, 0;
      redoPoint, redoCharPoint := UNDO_STATE_COUNT, UNDO_CHAR_COUNT;
      text := t;
      cursor, selectStart, selectEnd := 0, 0, 0;
      Undos, Redos := [], [];
    }

    /** stb_textedit_flush_redo. */
    method FlushRedo()
      requires UndoPart(undoPoint, undoCharPoint)
      modifies this`redoPoint, this`redoCharPoint, this`Redos
      ensures Layout() && Redos == [] && redoPoint == UNDO_STATE_COUNT && redoCharPoint == UNDO_CHAR_COUNT
    {
      hide Records, Stored, RedoFits;
      redoPoint := UNDO_STATE_COUNT;
      redoCharPoint := UNDO_CHAR_COUNT;
      Redos := [];
      RedoEmpty();
      NoneFits();
    }

    /** stb_textedit_discard_undo: forgets the oldest undo record. */
    method DiscardUndo()
      requires UndoPart(undoPoint, undoCharPoint)
      modifies this`undoPoint, this`undoCharPoint, this`Undos, undoRec, undoChar
      ensures UndoPart(undoPoint, undoCharPoint)
      ensures Undos == if |old(Undos)| > 0 then old(Undos)[1..] else []
      ensures undoRec[old(undoPoint)..] == old(undoRec[undoPoint..])
      ensures undoChar[old(undoCharPoint)..] == old(undoChar[undoCharPoint..])
      ensures undoPoint <= old(undoPoint) && undoCharPoint <= old(undoCharPoint)
    {
      if undoPoint > 0 {
        hide Records, Stored, ShiftAll;
        DiscardUndoChars();
        ghost var kept := undoRec[..undoPoint];
        undoPoint := undoPoint - 1;
        Move(undoRec, 0, 1, undoPoint);
        assert undoRec[..undoPoint] == kept[1..];
        assert undoRec[old(undoPoint)..] == undoRec[undoPoint..][1..];
        Undos := Undos[1..];
      }
    }

    /** Its second half: the records but the oldest move one slot up. */
    method SlideRecordsUp()
      requires Sized() && 0 <= redoPoint < UNDO_STATE_COUNT
      modifies undoRec
      ensures undoRec[redoPoint + 1..] == old(undoRec[redoPoint..])[..UNDO_STATE_COUNT - redoPoint - 1]
      ensures undoRec[redoPoint] == old(undoRec[redoPoint]) && undoRec[..redoPoint] == old(undoRec[..redoPoint])
    {
      ghost var kept := undoRec[redoPoint..];
      assert undoRec[redoPoint..UNDO_STATE_COUNT - 1] == kept[..|kept| - 1];
      Move(undoRec, redoPoint + 1, redoPoint, UNDO_STATE_COUNT - redoPoint - 1);
      assert undoRec[redoPoint + 1..] == undoRec[redoPoint + 1..UNDO_STATE_COUNT] == kept[..|kept| - 1];
      assert undoRec[redoPoint] == undoRec[..redoPoint + 1][redoPoint] == kept[0];
      assert undoRec[..redoPoint] == undoRec[..redoPoint + 1][..redoPoint];
    }

    /** Its first half: the oldest record's characters go, and all others slide down. */
    method DiscardUndoChars()
      requires UndoPart(undoPoint, undoCharPoint) && undoPoint > 0
      modifies this`undoCharPoint, undoRec, undoChar
      ensures 0 <= undoCharPoint <= old(undoCharPoint) && |Undos| > 0
      ensures undoRec[..undoPoint][1..] == Records(Undos[1..], 0)
      ensures undoChar[..undoCharPoint] == Stored(Undos[1..])
      ensures undoRec[undoPoint..] == old(undoRec[undoPoint..])
      ensures undoChar[old(undoCharPoint)..] == old(undoChar[undoCharPoint..])
    {
      hide Records, Stored, ShiftAll;
      ghost var rest := Undos[1..];
      RecordsFirst(Undos, undoRec[..undoPoint]);
      if undoRec[0].charStorage >= 0 {
        var n := undoRec[0].insertLength;
        ghost var chars := undoChar[..undoCharPoint];
        undoCharPoint := undoCharPoint - n;
        Move(undoChar, 0, n, undoCharPoint);
        assert undoChar[..undoCharPoint] == chars[n..];
        assert undoChar[old(undoCharPoint)..] == undoChar[undoCharPoint..][n..];
        ShiftRecords(0, undoPoint, -n);
        RecordsShift(rest, n, -n);
      }
    }

    /** Adds d to where every stored record in [lo, hi) keeps its characters. */
    method ShiftRecords(lo: nat, hi: nat, d: int)
      requires lo <= hi <= undoRec.Length
      modifies undoRec
      ensures undoRec[lo..hi] == ShiftAll(old(undoRec[lo..hi]), d)
      ensures undoRec[..lo] == old(undoRec[..lo]) && undoRec[hi..] == old(undoRec[hi..])
    {
      ghost var recs := undoRec[..];
      var i := lo;
      while i < hi
        invariant lo <= i <= hi
        invariant forall j :: 0 <= j < undoRec.Length ==> undoRec[j] == if lo <= j < i then Shift(recs[j], d) else recs[j]
      {
        if undoRec[i].charStorage >= 0 {
          undoRec[i] := undoRec[i].(charStorage := undoRec[i].charStorage + d);
        }
        i := i + 1;
      }
      assert undoRec[..lo] == recs[..lo] && undoRec[hi..] == recs[hi..];
      forall j | 0 <= j < hi - lo ensures undoRec[lo..hi][j] == ShiftAll(recs[lo..hi], d)[j] {
        ShiftAllAt(recs[lo..hi], d, j);
      }
    }

    /** stb_textedit_discard_redo: forgets the oldest redo record. The slot the newest
        record moves out of keeps a copy of it. */
    method DiscardRedo()
      requires RedoPart()
      modifies this`redoPoint, this`redoCharPoint, this`Redos, undoRec, undoChar
      ensures RedoPart()
      ensures |old(Redos)| == 0 ==> Redos == [] && redoPoint == old(redoPoint)
      ensures |old(Redos)| > 0 ==> Redos == old(Redos)[..|old(Redos)| - 1] && redoPoint == old(redoPoint) + 1
      ensures |old(Redos)| > 0 ==> SameShape(undoRec[redoPoint - 1], old(undoRec[redoPoint]))
      ensures redoCharPoint >= old(redoCharPoint)
      ensures undoRec[..old(redoPoint)] == old(undoRec[..redoPoint])
      ensures undoChar[..old(redoCharPoint)] == old(undoChar[..redoCharPoint])
    {
      var k := UNDO_STATE_COUNT - 1;
      if redoPoint <= k {
        hide Records, Stored, ShiftAll, RedoFits;
        assert |Redos| == |Records(Redos, redoCharPoint)| by { RecordsLength(Redos, redoCharPoint); }
        DiscardRedoChars();
        SlideRecordsUp();
        redoPoint := redoPoint + 1;
        Redos := Redos[..|Redos| - 1];
      }
    }

    /** Its first half: the oldest record's characters go, and all others slide up. */
    method DiscardRedoChars()
      requires RedoPart() && redoPoint < UNDO_STATE_COUNT
      modifies this`redoCharPoint, undoRec, undoChar
      ensures Sized() && old(redoCharPoint) <= redoCharPoint <= UNDO_CHAR_COUNT && |Redos| > 0
      ensures undoRec[redoPoint..][..|Redos| - 1] == Records(Redos[..|Redos| - 1], redoCharPoint)
      ensures undoChar[redoCharPoint..] == Stored(Redos[..|Redos| - 1])
      ensures SameShape(undoRec[redoPoint], old(undoRec[redoPoint]))
      ensures undoRec[..redoPoint] == old(undoRec[..redoPoint])
      ensures undoChar[..old(redoCharPoint)] == old(undoChar[..redoCharPoint])
    {
      hide Records, Stored, ShiftAll;
      var k := UNDO_STATE_COUNT - 1;
      ghost var m := |Redos| - 1;
      ghost var base, recs := redoCharPoint, undoRec[redoPoint..];
      RecordsOldest(Redos, recs, base);
      assert undoRec[k] == recs[m];
      if undoRec[k].charStorage >= 0 {
        var n := undoRec[k].insertLength;
        RaiseChars(n);
        ghost var before := undoRec[redoPoint..k];
        assert before == recs[..m];
        ShiftRecords(redoPoint, k, n);
        RecordsShift(Redos[..m], base, n);
        ShiftKeepsShape(before, n);
        RaisedRecords(k, m, before, n, recs);
      }
    }

    lemma {:induction false} RaisedRecords(k: nat, m: nat, before: seq<Record>, n: int, recs: seq<Record>)
      requires 0 <= redoPoint <= k < undoRec.Length && m == k - redoPoint == |before|
      requires undoRec[redoPoint..k] == ShiftAll(before, n)
      requires |recs| > m && undoRec[k] == recs[m] && before == recs[..m]
      requires m > 0 ==> SameShape(ShiftAll(before, n)[0], before[0])
      ensures undoRec[redoPoint..][..m] == ShiftAll(before, n)
      ensures SameShape(undoRec[redoPoint], recs[0])
    {
      hide ShiftAll;
      assert undoRec[redoPoint..][..m] == undoRec[redoPoint..k];
      assert m > 0 ==> undoRec[redoPoint] == undoRec[redoPoint..k][0];
    }

    /** Slides the redo characters up by n, over the last n. */
    method RaiseChars(n: nat)
      requires Sized() && 0 <= redoCharPoint && redoCharPoint + n <= UNDO_CHAR_COUNT
      modifies this`redoCharPoint, undoChar
      ensures redoCharPoint == old(redoCharPoint) + n
      ensures undoChar[redoCharPoint..] == old(undoChar[redoCharPoint..])[..UNDO_CHAR_COUNT - redoCharPoint]
      ensures undoChar[..old(redoCharPoint)] == old(undoChar[..redoCharPoint])
    {
      ghost var base, chars := redoCharPoint, undoChar[redoCharPoint..];
      redoCharPoint := redoCharPoint + n;
      Move(undoChar, redoCharPoint, redoCharPoint - n, UNDO_CHAR_COUNT - redoCharPoint);
      assert undoChar[redoCharPoint..] == undoChar[redoCharPoint..UNDO_CHAR_COUNT];
      assert undoChar[..base] == undoChar[..redoCharPoint][..base];
    }

    /** stb_text_create_undo_record and stb_text_createundo: makes room by forgetting the
        oldest undo records, and returns where the caller must put `insertLen` characters
        (-1, the source's NULL, when there are none to put or no room can be made). */
    method CreateUndo(pos: nat, insertLen: nat, deleteLen: nat) returns (storage: int)
      requires UndoPart(undoPoint, undoCharPoint)
      modifies this`undoPoint, this`redoPoint, this`undoCharPoint, this`redoCharPoint, this`Undos, this`Redos
      modifies undoRec, undoChar
      ensures Layout() && Redos == [] && redoPoint == UNDO_STATE_COUNT && redoCharPoint == UNDO_CHAR_COUNT
      ensures insertLen > UNDO_CHAR_COUNT ==> Undos == [] && storage == -1
      ensures insertLen <= UNDO_CHAR_COUNT ==>
                && 0 <= undoCharPoint - insertLen <= undoCharPoint <= undoChar.Length
                && Undos == Room(old(Undos), insertLen)
                           + [Edit(pos, deleteLen, undoChar[undoCharPoint - insertLen..undoCharPoint])]
                && storage == if insertLen == 0 then -1 else undoCharPoint - insertLen
    {
      hide Records, Stored, Shrink, Room, RedoFits, UndoApplies, RedoApplies, Layout;
      ghost var undos := Undos;
      FlushRedo();
      SameLength();
      if undoPoint == UNDO_STATE_COUNT {
        DiscardUndo();
      }
      SameLength();
      if insertLen > UNDO_CHAR_COUNT {
        ForgetUndos();
        return -1;
      }
      RoomShrinks(undos, Undos, insertLen);
      MakeUndoSpace(insertLen);
      storage := WriteRecord(pos, insertLen, deleteLen);
    }

    /** The way out of stb_text_create_undo_record for characters that cannot fit at all. */
    method ForgetUndos()
      requires Sized() && Redos == [] && redoPoint == UNDO_STATE_COUNT && redoCharPoint == UNDO_CHAR_COUNT
      modifies this`undoPoint, this`undoCharPoint, this`Undos
      ensures Layout() && Undos == []
    {
      hide Records, Stored, RedoFits;
      undoPoint := 0;
      undoCharPoint := 0;
      Undos := [];
      NothingStored();
      NoneFits();
      RedoEmpty();
    }

    /** Forgets the oldest undo records until n more characters have space. */
    method MakeUndoSpace(n: nat)
      requires UndoPart(undoPoint, undoCharPoint) && undoPoint < UNDO_STATE_COUNT && n <= UNDO_CHAR_COUNT
      modifies this`undoPoint, this`undoCharPoint, this`Undos, undoRec, undoChar
      ensures UndoPart(undoPoint, undoCharPoint) && undoPoint < UNDO_STATE_COUNT
      ensures undoCharPoint + n <= UNDO_CHAR_COUNT && Undos == Shrink(old(Undos), n)
    {
      hide Records, Stored, Shrink;
      ghost var start := Undos;
      SameLength();
      while undoCharPoint + n > UNDO_CHAR_COUNT
        invariant UndoPart(undoPoint, undoCharPoint) && undoPoint < UNDO_STATE_COUNT
        invariant undoCharPoint == |Stored(Undos)| && Shrink(Undos, n) == Shrink(start, n)
        decreases |Undos|
      {
        ShrinkStep(Undos, n);
        DiscardUndo();
        SameLength();
      }
      ShrinkDone(Undos, n);
    }

    lemma SameLength()
      requires UndoPart(undoPoint, undoCharPoint)
      ensures |Undos| == undoPoint && undoCharPoint == |Stored(Undos)|
    {
      RecordsLength(Undos, 0);
    }

    lemma RedoEmpty()
      requires Sized() && Redos == [] && redoPoint == UNDO_STATE_COUNT && redoCharPoint == UNDO_CHAR_COUNT
      ensures RedoPart()
    {
    }

    /** Takes the next record and, if there are characters to come, their space. */
    method WriteRecord(pos: nat, insertLen: nat, deleteLen: nat) returns (storage: int)
      requires UndoPart(undoPoint, undoCharPoint) && undoPoint < UNDO_STATE_COUNT
      requires undoCharPoint + insertLen <= UNDO_CHAR_COUNT
      requires Redos == [] && redoPoint == UNDO_STATE_COUNT && redoCharPoint == UNDO_CHAR_COUNT
      modifies this`undoPoint, this`undoCharPoint, this`Undos, undoRec
      ensures Layout() && undoCharPoint == old(undoCharPoint) + insertLen
      ensures Undos == old(Undos) + [Edit(pos, deleteLen, undoChar[undoCharPoint - insertLen..undoCharPoint])]
      ensures storage == if insertLen == 0 then -1 else undoCharPoint - insertLen
    {
      hide Records, Stored, RedoFits;
      NoneFits();
      ghost var e := Edit(pos, deleteLen, undoChar[undoCharPoint..undoCharPoint + insertLen]);
      SameLength();
      RecordsPush(Undos, e);
      if insertLen == 0 {
        undoRec[undoPoint] := Record(pos, insertLen, deleteLen, -1);
        storage := -1;
      } else {
        undoRec[undoPoint] := Record(pos, insertLen, deleteLen, undoCharPoint);
        storage := undoCharPoint;
        undoCharPoint := undoCharPoint + insertLen;
      }
      undoPoint := undoPoint + 1;
      assert undoRec[..undoPoint] == old(undoRec[..undoPoint]) + [RecordOf(e, old(undoCharPoint))];
      assert undoChar[..undoCharPoint] == old(undoChar[..undoCharPoint]) + e.ins;
      Undos := Undos + [e];
      RedoEmpty();
    }

    /** The copying loop of the makeundo functions. */
    method SaveText(storage: nat, where: nat, len: nat)
      requires storage + len <= undoChar.Length && where + len <= |text|
      modifies undoChar
      ensures undoChar[storage..storage + len] == text[where..where + len]
      ensures undoChar[..storage] == old(undoChar[..storage])
      ensures undoChar[storage + len..] == old(undoChar[storage + len..])
    {
      ghost var chars := undoChar[..];
      var i := 0;
      while i < len
        invariant 0 <= i <= len
        invariant forall j :: 0 <= j < undoChar.Length ==>
                    undoChar[j] == if storage <= j < storage + i then text[where + j - storage] else chars[j]
      {
        undoChar[storage + i] := text[where + i];
        i := i + 1;
      }
    }

    /** stb_text_makeundo_replace; the insert and delete forms are its special cases. */
    method MakeUndo(where: nat, oldLength: nat, newLength: nat)
      requires UndoPart(undoPoint, undoCharPoint) && where + oldLength <= |text|
      modifies this`undoPoint, this`redoPoint, this`undoCharPoint, this`redoCharPoint, this`Undos, this`Redos
      modifies undoRec, undoChar
      ensures Layout() && Redos == []
      ensures Undos == if oldLength > UNDO_CHAR_COUNT then []
                      else Room(old(Undos), oldLength) + [Edit(where, newLength, text[where..where + oldLength])]
    {
      hide Records, Stored, Room, RedoFits;
      var p := CreateUndo(where, oldLength, newLength);
      if p >= 0 {
        FillRecord(p, where, oldLength);
      } else if oldLength == 0 {
        assert undoChar[undoCharPoint - oldLength..undoCharPoint] == text[where..where + oldLength];
      }
    }

    /** Copies the text into the space the newest undo record has. */
    method FillRecord(p: nat, where: nat, len: nat)
      requires Layout() && Redos == [] && redoPoint == UNDO_STATE_COUNT && redoCharPoint == UNDO_CHAR_COUNT
      requires |Undos| > 0 && |Undos[|Undos| - 1].ins| == len && p + len == undoCharPoint && where + len <= |text|
      modifies this`Undos, undoChar
      ensures Layout()
      ensures var n := |old(Undos)| - 1;
              Undos == old(Undos)[..n] + [old(Undos)[n].(ins := text[where..where + len])]
    {
      hide Records, Stored, RedoFits;
      ghost var n, chars, ins := |Undos| - 1, undoChar[..undoCharPoint], text[where..where + len];
      assert chars[..p] == undoChar[..p];
      SaveText(p, where, len);
      assert undoChar[..undoCharPoint] == undoChar[..p] + undoChar[p..undoCharPoint];
      LastReplaced(Undos, ins, chars);
      Undos := Undos[..n] + [Undos[n].(ins := ins)];
      RedoEmpty();
    }

    method MakeUndoInsert(where: nat, length: nat)
      requires UndoPart(undoPoint, undoCharPoint) && where <= |text|
      modifies this`undoPoint, this`redoPoint, this`undoCharPoint, this`redoCharPoint, this`Undos, this`Redos
      modifies undoRec, undoChar
      ensures Layout() && Redos == [] && Undos == Room(old(Undos), 0) + [Edit(where, length, [])]
    {
      hide Records, Stored, Shrink, Room, RedoFits, Layout;
      var p := CreateUndo(where, 0, length);
      assert undoChar[undoCharPoint..undoCharPoint] == [];
    }

    /** The part of stb_text_undo that keeps the characters an undo is about to delete:
        forgets redo records until there is space, then fills in the record at the slot
        below the redo stack. When it had to forget any, that slot holds the shape of the
        newest redo record and not the one written before. */
    method StoreForRedo(u: Record)
      requires Sized() && 1 <= redoPoint <= UNDO_STATE_COUNT && 0 <= undoCharPoint <= redoCharPoint <= UNDO_CHAR_COUNT
      requires 0 < u.deleteLength && undoCharPoint + u.deleteLength < UNDO_CHAR_COUNT
      requires undoCharPoint + u.deleteLength > redoCharPoint ==> RedoPart()
      requires 0 <= u.where && u.where + u.deleteLength <= |text|
      modifies this`redoPoint, this`redoCharPoint, this`Redos, undoRec, undoChar
      ensures old(redoPoint) <= redoPoint <= UNDO_STATE_COUNT && undoCharPoint <= redoCharPoint
      ensures redoCharPoint + u.deleteLength <= UNDO_CHAR_COUNT
      ensures (old(RedoPart()) ==> RedoBelow(u.deleteLength)) && Redos <= old(Redos) && 1 <= redoPoint
      ensures redoPoint == old(redoPoint) + |old(Redos)| - |Redos|
      ensures undoRec[..old(redoPoint) - 1] == old(undoRec[..redoPoint - 1])
      ensures undoChar[..undoCharPoint] == old(undoChar[..undoCharPoint])
      ensures undoChar[redoCharPoint..redoCharPoint + u.deleteLength] == text[u.where..u.where + u.deleteLength]
      ensures undoRec[redoPoint - 1].charStorage == redoCharPoint && redoCharPoint + u.deleteLength >= old(redoCharPoint)
      ensures if undoCharPoint + u.deleteLength <= old(redoCharPoint)
              then Redos == old(Redos) && SameShape(undoRec[redoPoint - 1], old(undoRec[redoPoint - 1]))
              else |old(Redos)| > 0 && SameShape(undoRec[redoPoint - 1], RecordOf(old(Redos)[0], 0))
    {
      hide Records, Stored;
      ghost var base := redoPoint;
      MakeRedoSpace(u.deleteLength);
      ghost var tail, chars, front := undoRec[redoPoint..], undoChar[redoCharPoint..], undoRec[..base];
      assert redoPoint == base ==> undoRec[redoPoint - 1] == front[base - 1];
      ghost var low := undoChar[..undoCharPoint];
      redoCharPoint := redoCharPoint - u.deleteLength;
      undoRec[redoPoint - 1] := undoRec[redoPoint - 1].(charStorage := redoCharPoint);
      ghost var mid := undoChar[..redoCharPoint];
      SaveText(redoCharPoint, u.where, u.deleteLength);
      assert undoRec[redoPoint..] == tail && undoChar[redoCharPoint + u.deleteLength..] == chars;
      assert undoRec[..base - 1] == front[..base - 1];
      assert undoChar[..undoCharPoint] == mid[..undoCharPoint] == low;
    }

    /** Forgets the oldest redo records, if it must, until `need` more characters have space. The source
        also bails out when there is no record left to forget; that cannot happen. */
    method MakeRedoSpace(need: int)
      requires Sized() && 1 <= redoPoint <= UNDO_STATE_COUNT && 0 <= undoCharPoint <= redoCharPoint <= UNDO_CHAR_COUNT
      requires 0 < need && undoCharPoint + need < UNDO_CHAR_COUNT
      requires undoCharPoint + need > redoCharPoint ==> RedoPart()
      modifies this`redoPoint, this`redoCharPoint, this`Redos, undoRec, undoChar
      ensures (old(RedoPart()) ==> RedoPart()) && old(redoPoint) <= redoPoint <= UNDO_STATE_COUNT
      ensures undoCharPoint + need <= redoCharPoint <= UNDO_CHAR_COUNT && old(redoCharPoint) <= redoCharPoint
      ensures Redos <= old(Redos) && redoPoint == old(redoPoint) + |old(Redos)| - |Redos|
      ensures undoRec[..old(redoPoint)] == old(undoRec[..redoPoint])
      ensures undoChar[..undoCharPoint] == old(undoChar[..undoCharPoint])
      ensures if undoCharPoint + need <= old(redoCharPoint) then redoPoint == old(redoPoint)
              else |old(Redos)| > 0 && redoPoint > old(redoPoint)
                   && SameShape(undoRec[redoPoint - 1], RecordOf(old(Redos)[0], 0))
    {
      hide Records, Stored;
      ghost var redos, base, start, laid := Redos, redoPoint, redoCharPoint, RedoPart();
      while undoCharPoint + need > redoCharPoint
        invariant (laid ==> RedoPart()) && base <= redoPoint <= UNDO_STATE_COUNT && start <= redoCharPoint <= UNDO_CHAR_COUNT
        invariant Redos <= redos && redoPoint == base + |redos| - |Redos|
        invariant undoRec[..base] == old(undoRec[..redoPoint]) && undoChar[..start] == old(undoChar[..redoCharPoint])
        invariant redoPoint == base ==> redoCharPoint == start
        invariant redoPoint > base ==> |redos| > 0 && undoCharPoint + need > start
                                       && SameShape(undoRec[redoPoint - 1], RecordOf(redos[0], 0))
        decreases UNDO_STATE_COUNT - redoPoint
      {
        RedoNotEmpty();
        ghost var front, chars := undoRec[..redoPoint], undoChar[..redoCharPoint];
        DiscardRedo();
        assert undoRec[..base] == front[..base];
        assert undoChar[..start] == chars[..start];
      }
      assert undoChar[..undoCharPoint] == undoChar[..start][..undoCharPoint];
    }

    /** Undoing u has to forget redo records to save what it deletes. */
    ghost predicate Forgets(u: Edit)
      reads this`undoCharPoint, this`redoCharPoint
    {
      0 < u.del && undoCharPoint + u.del < UNDO_CHAR_COUNT && undoCharPoint + u.del > redoCharPoint
    }

    /** In a well laid out state it has to just when the model is crowded. */
    lemma ForgetsIsCrowded()
      requires Layout() && |Undos| > 0
      ensures Forgets(Newest(Abs())) <==> Crowded(Abs())
    {
      hide Records, Stored, RedoFits;
      SameLength();
      RedoStored();
    }

    /** The redo stack without the record in the slot below it, whose `len` characters lie
        below its own. */
    ghost predicate RedoBelow(len: int)
      reads this`Redos, this`redoPoint, this`redoCharPoint, undoRec, undoChar
    {
      && Sized() && 0 <= redoPoint <= UNDO_STATE_COUNT && 0 <= redoCharPoint && 0 <= len && redoCharPoint + len <= UNDO_CHAR_COUNT
      && undoRec[redoPoint..] == Records(Redos, redoCharPoint + len) && undoChar[redoCharPoint + len..] == Stored(Redos)
    }

    lemma RedoNotEmpty()
      requires RedoPart() && redoCharPoint < UNDO_CHAR_COUNT
      ensures |Redos| > 0 && redoPoint < UNDO_STATE_COUNT && |Redos| == UNDO_STATE_COUNT - redoPoint
      ensures SameShape(undoRec[redoPoint], RecordOf(Redos[0], 0))
    {
      RecordsLength(Redos, redoCharPoint);
      assert undoRec[redoPoint..][0] == RecordOf(Redos[0], redoCharPoint);
    }

    /** The first part of stb_text_undo: writes the redo record for the undo record u. */
    method WriteRedoRecord(u: Record, ghost m: Model) returns (ghost len: int)
      requires Sized() && 1 <= undoPoint && Apart()
      requires |m.undo| > 0 && Applies(Newest(m), m.text) && m.text == text && m.redo == Redos
      requires undoCharPoint == |Stored(m.undo)| && (Forgets(Newest(m)) ==> RedoPart())
      requires SameShape(u, RecordOf(Newest(m), 0))
      modifies this`redoPoint, this`redoCharPoint, this`Redos, undoRec, undoChar
      ensures Apart() && 0 <= len && old(redoCharPoint) <= redoCharPoint + len <= UNDO_CHAR_COUNT
      ensures (old(RedoPart()) ==> RedoBelow(len)) && Redos <= m.redo
      ensures undoRec[..undoPoint - 1] == old(undoRec[..undoPoint - 1])
      ensures undoChar[..undoCharPoint] == old(undoChar[..undoCharPoint])
      ensures SlotWritten(m, old(Forgets(Newest(m))), Redos, undoRec[redoPoint - 1], redoCharPoint, len,
                          undoChar[redoCharPoint..redoCharPoint + len])
    {
      hide Records, Stored;
      ghost var tail, front := undoRec[redoPoint..], undoRec[..undoPoint - 1];
      undoRec[redoPoint - 1] := Record(u.where, u.deleteLength, u.insertLength, -1);
      assert undoRec[redoPoint..] == tail && undoRec[..undoPoint - 1] == front;
      len := 0;
      if u.deleteLength != 0 {
        if undoCharPoint + u.deleteLength >= UNDO_CHAR_COUNT {
          undoRec[redoPoint - 1] := undoRec[redoPoint - 1].(insertLength := 0);
          assert undoRec[redoPoint..] == tail && undoRec[..undoPoint - 1] == front;
        } else {
          ghost var below := undoRec[..redoPoint - 1];
          assert below[..undoPoint - 1] == front;
          StoreForRedo(u);
          assert undoRec[..undoPoint - 1] == below[..undoPoint - 1];
          len := u.deleteLength;
        }
      }
    }

    /** Slot and characters below the redo stack become its newest record. */
    lemma {:induction false} RedoPushed(e: Edit, redos: seq<Edit>)
      requires RedoBelow(|e.ins|) && 1 <= redoPoint && redos == [e] + Redos
      requires undoRec[redoPoint - 1] == RecordOf(e, redoCharPoint)
      requires undoChar[redoCharPoint..redoCharPoint + |e.ins|] == e.ins
      ensures undoRec[redoPoint - 1..] == Records(redos, redoCharPoint)
      ensures undoChar[redoCharPoint..] == Stored(redos)
    {
      ghost var high, n := undoChar[redoCharPoint..], |e.ins|;
      assert redos[1..] == Redos;
      assert undoRec[redoPoint - 1..] == [undoRec[redoPoint - 1]] + undoRec[redoPoint..];
      assert high[..n] == e.ins && high[n..] == undoChar[redoCharPoint + n..];
      assert high == high[..n] + high[n..];
    }

    /** The newest undo record, as a record. */
    lemma NewestRecord()
      requires UndoPart(undoPoint, undoCharPoint) && |Undos| > 0
      ensures undoPoint > 0
      ensures var n := |Undos| - 1; var e, base := Undos[n], |Stored(Undos[..n])|;
              && undoRec[undoPoint - 1] == RecordOf(e, base)
              && undoRec[..undoPoint - 1] == Records(Undos[..n], 0)
              && undoCharPoint == base + |e.ins|
              && undoChar[..base] == Stored(Undos[..n])
              && undoChar[base..undoCharPoint] == e.ins
    {
      hide Records, Stored;
      var n := |Undos| - 1;
      RecordsLength(Undos, 0);
      RecordsLast(Undos, 0);
      RecordsLength(Undos[..n], 0);
      StoredLast(Undos);
      var recs, chars := undoRec[..undoPoint], undoChar[..undoCharPoint];
      assert recs[undoPoint - 1] == undoRec[undoPoint - 1] && undoRec[..undoPoint - 1] == recs[..undoPoint - 1];
      var base := |Stored(Undos[..n])|;
      assert undoChar[..base] == chars[..base] && undoChar[base..undoCharPoint] == chars[base..];
    }

    /** stb_text_undo. The text always gets what the newest undo record says. The redo record
        written is the edit that takes the text back if there was room, or if the record it
        wrongly copies the shape of looks alike; otherwise it is not, and only Undoable() is
        left. From there, too, undo goes on, as long as it need not forget redo records. */
    method TextUndo()
      requires UndoPart(undoPoint, undoCharPoint) && Apart() && (|Undos| > 0 ==> Applies(Newest(Abs()), text))
      requires |Undos| > 0 && Forgets(Newest(Abs())) ==> RedoPart()
      modifies this`undoPoint, this`redoPoint, this`undoCharPoint, this`redoCharPoint, this`Undos, this`Redos
      modifies this`text, this`cursor, undoRec, undoChar
      ensures UndoPart(undoPoint, undoCharPoint) && Apart() && (old(Undoable()) ==> Undoable())
      ensures |old(Undos)| == 0 ==> Abs() == old(Abs()) && cursor == old(cursor) && (old(Layout()) ==> Layout())
      ensures old(Valid()) && HasRoom(old(Abs())) ==> Valid()
      ensures |old(Undos)| > 0 ==>
                var m := old(Abs()); var u := Newest(m);
                && text == Apply(u, m.text) && cursor == u.at + |u.ins| && Undos == m.undo[..|m.undo| - 1]
                && 0 <= redoPoint < undoRec.Length
                && (Denotes(undoRec[redoPoint], undoChar[..], Inverse(u, m.text))
                    <==> !NoSpace(m) && (old(Forgets(Newest(Abs()))) ==> LooksAlike(m)))
      ensures |old(Undos)| > 0 && old(Layout()) ==>
                var m := old(Abs()); var u := Newest(m);
                && (old(Forgets(Newest(Abs()))) <==> Crowded(m))
                && (HasRoom(m) ==> Layout() && Abs() == Undone(m))
                && (NoSpace(m) ==> Layout() && Redos == [Edit(u.at, |u.ins|, [])] + m.redo)
                && (Crowded(m) && LooksAlike(m) ==>
                      Layout() && |Redos| > 0 && Redos[0] == Inverse(u, m.text) && Redos[1..] <= m.redo)
    {
      hide Records, Stored, Denotes, NoSpace, Crowded, LooksAlike, Apply, Layout, UndoPart, Apart, Forgets;
      hide UndoApplies, RedoApplies;
      ghost var m := Abs();
      if Unused() {
        NothingToUndo(m);
        return;
      }
      UndoStaysSane(m);
      UndoStaysUndoable(m);
      if Layout() {
        ForgetsIsCrowded();
      }
      PushedMeans(m);
      ghost var kept := UndoNewest();
    }

    predicate Unused()
      reads this, undoRec, undoChar
      requires UndoPart(undoPoint, undoCharPoint)
      ensures Unused() <==> |Undos| == 0
    {
      SameLength();
      undoPoint == 0
    }

    /** stb_text_undo when there is a record to undo. */
    method UndoNewest() returns (ghost kept: seq<Edit>)
      requires UndoPart(undoPoint, undoCharPoint) && Apart() && |Undos| > 0 && Applies(Newest(Abs()), text)
      requires Forgets(Newest(Abs())) ==> RedoPart()
      modifies this`undoPoint, this`redoPoint, this`undoCharPoint, this`redoCharPoint, this`Undos, this`Redos
      modifies this`text, this`cursor, undoRec, undoChar
      ensures UndoPart(undoPoint, undoCharPoint) && Apart()
      ensures var m, forgot := old(Abs()), old(Forgets(Newest(Abs()))); var u := Newest(m);
              && text == Apply(u, m.text) && cursor == u.at + |u.ins|
              && Undos == m.undo[..|m.undo| - 1]
              && kept <= m.redo && (!forgot ==> kept == m.redo)
              && (old(Layout()) && Exact(m, forgot) ==> Layout() && Redos == [Pushed(m)] + kept)
              && 0 <= redoPoint < undoRec.Length
              && (Denotes(undoRec[redoPoint], undoChar[..], Inverse(u, m.text))
                  <==> !NoSpace(m) && (forgot ==> LooksAlike(m)))
    {
      hide Records, Stored, SlotWritten, Denotes, NoSpace, LooksAlike, RedoFits, Apply, Exact, Pushed;
      ghost var m, forgot, laid := Abs(), Forgets(Newest(Abs())), Layout();
      SpaceIs(m);
      ghost var len := SaveAndCarryOut();
      kept := Redos;
      ghost var saved := undoChar[redoCharPoint..redoCharPoint + len];
      SlotMeans(m, forgot, Redos, undoRec[redoPoint - 1], redoCharPoint, len, undoChar[..], saved);
      if laid {
        FitsAfterUndo(m.redo, Redos, undoCharPoint, redoCharPoint, Pushed(m), old(undoCharPoint), old(redoCharPoint), len);
      }
      Commit(Pushed(m), laid && Exact(m, forgot), len);
    }

    lemma SpaceIs(m: Model)
      requires UndoPart(undoPoint, undoCharPoint) && |Undos| > 0 && m == Abs()
      ensures Forgets(Newest(m)) ==> !NoSpace(m)
    {
      SameLength();
    }

    /** All of stb_text_undo but the moving of the stack tops. */
    method SaveAndCarryOut() returns (ghost len: int)
      requires UndoPart(undoPoint, undoCharPoint) && Apart() && |Undos| > 0 && Applies(Newest(Abs()), text)
      requires Forgets(Newest(Abs())) ==> RedoPart()
      modifies this`redoPoint, this`undoCharPoint, this`redoCharPoint, this`Redos
      modifies this`text, this`cursor, undoRec, undoChar
      ensures 1 <= undoPoint <= redoPoint <= UNDO_STATE_COUNT
      ensures 0 <= undoCharPoint <= redoCharPoint <= redoCharPoint + len <= UNDO_CHAR_COUNT
      ensures old(redoCharPoint) <= redoCharPoint + len
      ensures undoCharPoint == old(undoCharPoint) - |Newest(old(Abs())).ins|
      ensures undoRec[..undoPoint - 1] == Records(Undos[..|Undos| - 1], 0)
      ensures undoChar[..undoCharPoint] == Stored(Undos[..|Undos| - 1])
      ensures (old(RedoPart()) ==> RedoBelow(len)) && Redos <= old(Redos) && old(undoCharPoint) <= redoCharPoint
      ensures SlotWritten(old(Abs()), old(Forgets(Newest(Abs()))), Redos, undoRec[redoPoint - 1], redoCharPoint, len,
                          undoChar[redoCharPoint..redoCharPoint + len])
      ensures var u := Newest(old(Abs())); text == Apply(u, old(text)) && cursor == u.at + |u.ins|
    {
      hide Records, Stored, SlotWritten, RedoFits, Apply, RedoPart, RedoBelow;
      SameLength();
      NewestRecord();
      ghost var m := Abs();
      ghost var e, base := Newest(m), undoCharPoint - |Newest(m).ins|;
      ghost var chars := undoChar[..undoCharPoint];
      assert chars[base..] == undoChar[base..undoCharPoint] && chars[..base] == undoChar[..base];
      var u := undoRec[undoPoint - 1];
      len := WriteRedoRecord(u, m);
      assert undoChar[base..undoCharPoint] == chars[base..] && undoChar[..base] == chars[..base];
      CarryOut(u, e, base);
    }

    /** The second part of stb_text_undo: the deletion, then the insertion. */
    method CarryOut(u: Record, ghost e: Edit, ghost base: nat)
      requires Applies(e, text) && u == RecordOf(e, base) && undoCharPoint == base + |e.ins| <= undoChar.Length
      requires undoChar[base..undoCharPoint] == e.ins
      modifies this`text, this`cursor, this`undoCharPoint
      ensures text == Apply(e, old(text)) && cursor == e.at + |e.ins| && undoCharPoint == base
    {
      if u.deleteLength != 0 {
        text := text[..u.where] + text[u.where + u.deleteLength..];
      }
      if u.insertLength != 0 {
        text := text[..u.where] + undoChar[u.charStorage..u.charStorage + u.insertLength] + text[u.where..];
        undoCharPoint := undoCharPoint - u.insertLength;
      }
      cursor := u.where + u.insertLength;
    }

    /** The end of stb_text_undo: both stack tops move down over the slot. */
    method Commit(ghost pushed: Edit, ghost exact: bool, ghost len: int)
      requires Sized() && 1 <= undoPoint && Apart() && |Undos| > 0
      requires undoRec[..undoPoint - 1] == Records(Undos[..|Undos| - 1], 0)
      requires undoChar[..undoCharPoint] == Stored(Undos[..|Undos| - 1])
      requires exact ==> RedoBelow(len) && |pushed.ins| == len && undoRec[redoPoint - 1] == RecordOf(pushed, redoCharPoint)
                         && undoChar[redoCharPoint..redoCharPoint + len] == pushed.ins
                         && RedoFits([pushed] + Redos, undoCharPoint, redoCharPoint)
      modifies this`undoPoint, this`redoPoint, this`Undos, this`Redos
      ensures UndoPart(undoPoint, undoCharPoint) && Apart() && Undos == old(Undos)[..|old(Undos)| - 1]
      ensures redoPoint == old(redoPoint) - 1
      ensures exact ==> Layout() && Redos == [pushed] + old(Redos)
    {
      hide Records, Stored, RedoFits;
      if exact {
        RedoPushed(pushed, [pushed] + Redos);
      }
      undoPoint := undoPoint - 1;
      redoPoint := redoPoint - 1;
      Undos := Undos[..|Undos| - 1];
      if exact {
        Redos := [pushed] + Redos;
      }
    }

    lemma RedoStored()
      requires RedoPart()
      ensures |Stored(Redos)| == UNDO_CHAR_COUNT - redoCharPoint
    {
    }

    /** The newest redo record, as a record. */
    lemma NextRecord()
      requires Layout() && |Redos| > 0
      ensures Sized() && 0 <= redoPoint < UNDO_STATE_COUNT && 0 <= redoCharPoint
      ensures var e := Redos[0];
              && undoRec[redoPoint] == RecordOf(e, redoCharPoint)
              && redoCharPoint + |e.ins| <= UNDO_CHAR_COUNT
              && undoChar[redoCharPoint..redoCharPoint + |e.ins|] == e.ins
              && undoRec[redoPoint + 1..] == Records(Redos[1..], redoCharPoint + |e.ins|)
              && undoChar[redoCharPoint + |e.ins|..] == Stored(Redos[1..])
              && undoCharPoint + e.del <= redoCharPoint
              && RedoFits(Redos[1..], undoCharPoint + e.del, redoCharPoint + |e.ins|)
    {
      var e, tail, chars := Redos[0], undoRec[redoPoint..], undoChar[redoCharPoint..];
      RecordsLength(Redos, redoCharPoint);
      NewestRedo(Redos, redoCharPoint);
      hide Records, Stored;
      assert undoRec[redoPoint] == tail[0] && undoRec[redoPoint + 1..] == tail[1..];
      assert undoChar[redoCharPoint..redoCharPoint + |e.ins|] == chars[..|e.ins|];
      assert undoChar[redoCharPoint + |e.ins|..] == chars[|e.ins|..];
    }

    /** The record at the end of the redo stack is an edit of the text whose characters come
        next, and what it deletes has space. */
    ghost predicate Redoable()
      reads this`redoPoint, this`redoCharPoint, this`undoCharPoint, this`text, undoRec
    {
      && 0 <= redoPoint < undoRec.Length && 0 <= undoCharPoint <= redoCharPoint <= UNDO_CHAR_COUNT
      && var r := undoRec[redoPoint];
      && 0 <= r.where && 0 <= r.deleteLength && r.where + r.deleteLength <= |text|
      && 0 <= r.insertLength <= UNDO_CHAR_COUNT - redoCharPoint && (0 < r.insertLength ==> r.charStorage == redoCharPoint)
      && undoCharPoint + r.deleteLength <= redoCharPoint
    }

    ghost function NextEdit(): Edit
      requires Sized() && Redoable()
      reads this`redoPoint, this`redoCharPoint, this`undoCharPoint, this`text, undoRec, undoChar
    {
      var r := undoRec[redoPoint];
      Edit(r.where, r.deleteLength, undoChar[redoCharPoint..redoCharPoint + r.insertLength])
    }

    /** So it is in a well laid out state when the newest redo edit applies, and then it is
        that edit: the source's way out for a full buffer cannot be taken, because the redo
        record was derived from an undo record that gave back its characters. */
    lemma RedoReady()
      requires Layout() && redoPoint < UNDO_STATE_COUNT
      ensures |Redos| > 0 && (Redoable() <==> Applies(Redos[0], text)) && (Redoable() ==> NextEdit() == Redos[0])
    {
      hide Records, Stored, RedoFits;
      RecordsLength(Redos, redoCharPoint);
      NextRecord();
    }

    lemma InRange()
      requires UndoPart(undoPoint, undoCharPoint) && Apart()
      ensures Sized() && redoPoint <= UNDO_STATE_COUNT
    {
    }

    lemma NoRedo()
      requires Layout()
      ensures |Redos| == 0 <==> redoPoint == UNDO_STATE_COUNT
    {
      hide Records, Stored, RedoFits;
      RecordsLength(Redos, redoCharPoint);
    }

    /** stb_text_redo: carries out the edit its record says and pushes the reverse edit; in a
        well laid out state this is the model's redo. */
    method TextRedo()
      requires UndoPart(undoPoint, undoCharPoint) && Apart() && (redoPoint < UNDO_STATE_COUNT ==> Redoable())
      modifies this`undoPoint, this`redoPoint, this`undoCharPoint, this`redoCharPoint, this`Undos, this`Redos
      modifies this`text, this`cursor, undoRec, undoChar
      ensures UndoPart(undoPoint, undoCharPoint) && Apart() && (old(Undoable()) ==> Undoable())
      ensures old(redoPoint) == UNDO_STATE_COUNT ==> Abs() == old(Abs()) && cursor == old(cursor)
      ensures old(redoPoint) < UNDO_STATE_COUNT ==>
                var e := old(NextEdit());
                && text == Apply(e, old(text)) && Undos == old(Undos) + [Inverse(e, old(text))]
                && cursor == e.at + |e.ins| && redoPoint == old(redoPoint) + 1
      ensures old(Layout()) ==>
                && Layout() && (|old(Redos)| > 0 ==> Applies(old(Redos)[0], old(text)))
                && Abs() == Redone(old(Abs()))
      ensures old(Valid()) ==> Valid()
    {
      hide Records, Stored, RedoFits, Apply, UndoApplies, RedoApplies, Layout, UndoPart, Apart, Inverse;
      InRange();
      ghost var m, laid := Abs(), Layout();
      if laid {
        NoRedo();
      }
      if redoPoint == UNDO_STATE_COUNT {
        return;
      }
      ghost var e := NextEdit();
      if laid {
        RedoReady();
        RedoStaysSane(m);
      }
      RedoStaysUndoable(m, e);
      RedoNewest(e, laid);
    }

    /** stb_text_redo when there is a record to redo. */
    method RedoNewest(ghost e: Edit, ghost laid: bool)
      requires UndoPart(undoPoint, undoCharPoint) && Apart() && redoPoint < UNDO_STATE_COUNT
      requires Redoable() && e == NextEdit()
      requires laid ==> Layout() && |Redos| > 0 && e == Redos[0]
      modifies this`undoPoint, this`redoPoint, this`undoCharPoint, this`redoCharPoint, this`Undos, this`Redos
      modifies this`text, this`cursor, undoRec, undoChar
      ensures UndoPart(undoPoint, undoCharPoint) && Apart()
      ensures Applies(e, old(text)) && text == Apply(e, old(text)) && Undos == old(Undos) + [Inverse(e, old(text))]
      ensures cursor == e.at + |e.ins| && redoPoint == old(redoPoint) + 1
      ensures laid ==> Layout() && Redos == Later(old(Redos))
    {
      hide Records, Stored, RedoFits, Apply, Applies, Inverse, Layout, RestLaid, UndoPart, RestRecords, RestChars, Replayed;
      hide Redoable, NextEdit, RedoIs, Apart, Later;
      NextApplies(e);
      ghost var inv, recs, chars := Inverse(e, text), RestRecords(), RestChars(e);
      ghost var low, high := undoCharPoint + e.del, redoCharPoint + |e.ins|;
      if laid {
        NextRest(e);
      }
      Replay(e);
      CommitRedo(inv, recs, chars);
      if laid {
        Redos := Later(Redos);
        assert RestLaid(recs, chars, Redos, low, high);
        LaidAgain(recs, chars);
      }
    }

    /** The redo records but the newest, and their characters. */
    ghost function RestRecords(): seq<Record>
      requires Sized() && 0 <= redoPoint < UNDO_STATE_COUNT
      reads this`redoPoint, undoRec
    {
      undoRec[redoPoint + 1..]
    }

    ghost function RestChars(e: Edit): seq<char>
      reads this`redoCharPoint, undoChar
    {
      if 0 <= redoCharPoint && redoCharPoint + |e.ins| <= undoChar.Length then undoChar[redoCharPoint + |e.ins|..] else []
    }

    /** With the undo record written and its characters, but neither top moved. */
    ghost predicate Replayed(undos: seq<Edit>, recs: seq<Record>, chars: seq<char>)
      reads this`undoPoint, this`undoCharPoint, this`redoPoint, this`redoCharPoint, undoRec, undoChar
    {
      && Sized() && Apart() && redoPoint < UNDO_STATE_COUNT
      && undoRec[..undoPoint + 1] == Records(undos, 0) && undoChar[..undoCharPoint] == Stored(undos)
      && undoRec[redoPoint + 1..] == recs && undoChar[redoCharPoint..] == chars
    }

    /** All of stb_text_redo but the moving of the stack tops. */
    method Replay(ghost e: Edit)
      requires UndoPart(undoPoint, undoCharPoint) && Apart() && redoPoint < UNDO_STATE_COUNT
      requires Redoable() && e == NextEdit()
      modifies this`undoCharPoint, this`redoCharPoint, this`text, this`cursor, undoRec, undoChar
      ensures Applies(e, old(text)) && text == Apply(e, old(text)) && cursor == e.at + |e.ins|
      ensures Replayed(Undos + [Inverse(e, old(text))], old(RestRecords()), old(RestChars(e)))
      ensures undoCharPoint == old(undoCharPoint) + e.del && redoCharPoint == old(redoCharPoint) + |e.ins|
    {
      hide Records, Stored, Apply, Inverse;
      SameLength();
      var r := undoRec[redoPoint];
      HighChars(undoChar[redoCharPoint..], |e.ins|);
      WriteUndoRecord(r, e);
      HighChars(undoChar[redoCharPoint..], |e.ins|);
      CarryOutRedo(r, e);
    }

    lemma NextApplies(e: Edit)
      requires UndoPart(undoPoint, undoCharPoint) && Redoable() && e == NextEdit()
      ensures Sized() && 0 <= redoPoint < UNDO_STATE_COUNT && Applies(e, text)
    {
    }

    lemma NextRest(e: Edit)
      requires Layout() && |Redos| > 0 && e == Redos[0]
      ensures redoPoint < UNDO_STATE_COUNT
      ensures RestLaid(RestRecords(), RestChars(e), Later(Redos), undoCharPoint + e.del, redoCharPoint + |e.ins|)
    {
      hide Records, Stored, RedoFits, Layout;
      NextRecord();
    }

    /** Reads the two ends of the redo characters off their buffer. */
    lemma HighChars(high: seq<char>, n: nat)
      requires 0 <= redoCharPoint && redoCharPoint + n <= undoChar.Length && high == undoChar[redoCharPoint..]
      ensures undoChar[redoCharPoint..redoCharPoint + n] == high[..n] && undoChar[redoCharPoint + n..] == high[n..]
    {
    }

    /** The end of stb_text_redo: both stack tops move up. */
    method CommitRedo(ghost inv: Edit, ghost recs: seq<Record>, ghost chars: seq<char>)
      requires Replayed(Undos + [inv], recs, chars)
      modifies this`undoPoint, this`redoPoint, this`Undos
      ensures UndoPart(undoPoint, undoCharPoint) && Apart() && Undos == old(Undos) + [inv]
      ensures redoPoint == old(redoPoint) + 1 && RedoIs(recs, chars)
    {
      hide Records, Stored;
      undoPoint := undoPoint + 1;
      redoPoint := redoPoint + 1;
      Undos := Undos + [inv];
    }

    ghost predicate RedoIs(recs: seq<Record>, chars: seq<char>)
      reads this`redoPoint, this`redoCharPoint, undoRec, undoChar
    {
      && Sized() && 0 <= redoPoint <= UNDO_STATE_COUNT && 0 <= redoCharPoint <= UNDO_CHAR_COUNT
      && undoRec[redoPoint..] == recs && undoChar[redoCharPoint..] == chars
    }

    lemma LaidAgain(recs: seq<Record>, chars: seq<char>)
      requires UndoPart(undoPoint, undoCharPoint) && Apart() && RedoIs(recs, chars)
      requires RestLaid(recs, chars, Redos, undoCharPoint, redoCharPoint)
      ensures Layout()
    {
      hide Records, Stored, RedoFits;
    }

    /** The part of stb_text_redo that writes the undo record for the redo record r. */
    method WriteUndoRecord(r: Record, ghost e: Edit)
      requires UndoPart(undoPoint, undoCharPoint) && undoPoint <= redoPoint < UNDO_STATE_COUNT
      requires SameShape(r, RecordOf(e, 0)) && Applies(e, text) && undoCharPoint + e.del <= redoCharPoint
      requires redoCharPoint <= UNDO_CHAR_COUNT
      modifies this`undoCharPoint, undoRec, undoChar
      ensures undoCharPoint == old(undoCharPoint) + e.del
      ensures undoRec[..undoPoint + 1] == Records(Undos + [Inverse(e, text)], 0)
      ensures undoChar[..undoCharPoint] == Stored(Undos + [Inverse(e, text)])
      ensures undoRec[redoPoint + 1..] == old(undoRec[redoPoint + 1..])
      ensures undoChar[redoCharPoint..] == old(undoChar[redoCharPoint..])
    {
      hide Records, Stored;
      ghost var inv := Inverse(e, text);
      RecordsPush(Undos, inv);
      SameLength();
      ghost var recs, chars, high := undoRec[..undoPoint], undoChar[..undoCharPoint], undoChar[redoCharPoint..];
      undoRec[undoPoint] := Record(r.where, r.deleteLength, r.insertLength, -1);
      if r.deleteLength != 0 {
        undoRec[undoPoint] := undoRec[undoPoint].(charStorage := undoCharPoint);
        SaveText(undoCharPoint, r.where, r.deleteLength);
        undoCharPoint := undoCharPoint + r.deleteLength;
        assert undoChar[redoCharPoint..] == undoChar[undoCharPoint..][redoCharPoint - undoCharPoint..] == high;
      }
      assert undoRec[..undoPoint + 1] == recs + [RecordOf(inv, old(undoCharPoint))];
      assert undoChar[..undoCharPoint] == chars + inv.ins;
    }

    /** The part of stb_text_redo that changes the text. */
    method CarryOutRedo(r: Record, ghost e: Edit)
      requires SameShape(r, RecordOf(e, 0)) && (|e.ins| > 0 ==> r.charStorage == redoCharPoint) && Applies(e, text)
      requires 0 <= redoCharPoint && redoCharPoint + |e.ins| <= undoChar.Length
      requires undoChar[redoCharPoint..redoCharPoint + |e.ins|] == e.ins
      modifies this`text, this`cursor, this`redoCharPoint
      ensures text == Apply(e, old(text)) && cursor == e.at + |e.ins| && redoCharPoint == old(redoCharPoint) + |e.ins|
    {
      if r.deleteLength != 0 {
        text := text[..r.where] + text[r.where + r.deleteLength..];
      }
      if r.insertLength != 0 {
        text := text[..r.where] + undoChar[r.charStorage..r.charStorage + r.insertLength] + text[r.where..];
        redoCharPoint := redoCharPoint + r.insertLength;
      }
      cursor := r.where + r.insertLength;
    }

    // ---------- edits ----------

    lemma ValidIsUndoable()
      requires Valid()
      ensures Undoable() && Apart()
    {
    }

    /** stb_textedit_delete. */
    method Delete(where: nat, len: nat)
      requires Undoable() && where + len <= |text|
      modifies this`undoPoint, this`redoPoint, this`undoCharPoint, this`redoCharPoint, this`Undos, this`Redos
      modifies this`text, undoRec, undoChar
      ensures Valid() && Abs() == Edited(old(Abs()), Edit(where, len, []))
    {
      hide Records, Stored, Room, RedoFits, UndoApplies, RedoApplies, Layout;
      EditKeepsSane(Abs(), Edit(where, len, []));
      MakeUndo(where, len, 0);
      text := text[..where] + text[where + len..];
      assert text == Apply(Edit(where, len, []), old(text));
    }

    /** stb_textedit_delete_selection, with the clamp it starts with. */
    method DeleteSelection()
      requires Undoable() && 0 <= selectStart && 0 <= selectEnd && 0 <= cursor
      modifies this`undoPoint, this`redoPoint, this`undoCharPoint, this`redoCharPoint, this`Undos, this`Redos
      modifies this`text, this`cursor, this`selectStart, this`selectEnd, undoRec, undoChar
      ensures Undoable() && (old(Valid()) ==> Valid())
      ensures var n := |old(text)|;
              var a, b := Lesser(old(selectStart), n), Lesser(old(selectEnd), n);
              if old(selectStart) == old(selectEnd) || a == b then
                && Abs() == old(Abs()) && 0 <= cursor <= |text|
              else
                && Valid() && Abs() == Edited(old(Abs()), Edit(Lesser(a, b), if a < b then b - a else a - b, []))
                && selectStart == selectEnd == cursor == Lesser(a, b) <= |text|
    {
      hide Records, Stored, Edited, UndoApplies, RedoApplies, Layout, UndoPart;
      Clamp();
      ghost var m := Abs();
      if selectStart != selectEnd {
        if selectStart < selectEnd {
          DeletedLength(m, selectStart, selectEnd - selectStart);
          Delete(selectStart, selectEnd - selectStart);
          ValidIsUndoable();
          cursor := selectStart;
          selectEnd := selectStart;
        } else {
          DeletedLength(m, selectEnd, selectStart - selectEnd);
          Delete(selectEnd, selectStart - selectEnd);
          ValidIsUndoable();
          cursor := selectEnd;
          selectStart := selectEnd;
        }
      }
    }

    /** stb_textedit_clamp. */
    method Clamp()
      requires 0 <= selectStart && 0 <= selectEnd && 0 <= cursor
      modifies this`cursor, this`selectStart, this`selectEnd
      ensures 0 <= cursor <= |text|
      ensures old(selectStart) == old(selectEnd) ==> selectStart == old(selectStart) && selectEnd == old(selectEnd)
      ensures old(selectStart) != old(selectEnd) ==>
                selectStart == Lesser(old(selectStart), |text|) && selectEnd == Lesser(old(selectEnd), |text|)
    {
      var n := |text|;
      if selectStart != selectEnd {
        if selectStart > n { selectStart := n; }
        if selectEnd > n { selectEnd := n; }
        if selectStart == selectEnd { cursor := selectStart; }
      }
      if cursor > n { cursor := n; }
    }

    /** stb_textedit_paste_internal, when the client accepts the characters: first the
        selection goes, as one edit, then the text comes in at the cursor, as another. */
    method Paste(s: seq<char>) returns (ghost mid: Model, ghost at: nat)
      requires Undoable() && 0 <= selectStart && 0 <= selectEnd && 0 <= cursor
      modifies this`undoPoint, this`redoPoint, this`undoCharPoint, this`redoCharPoint, this`Undos, this`Redos
      modifies this`text, this`cursor, this`selectStart, this`selectEnd, undoRec, undoChar
      ensures Valid() && at <= |mid.text| && Abs() == Edited(mid, Edit(at, 0, s)) && cursor == at + |s|
      ensures mid == old(Abs()) || exists a, n :: Applies(Edit(a, n, []), old(text)) && 0 < n
                                     && mid == Edited(old(Abs()), Edit(a, n, [])) && at == a
    {
      hide Records, Stored, Room, RedoFits, UndoApplies, RedoApplies, Layout;
      Clamp();
      DeleteSelection();
      mid, at := Abs(), cursor;
      EditKeepsSane(mid, Edit(at, 0, s));
      text := text[..cursor] + s + text[cursor..];
      assert mid.text[at..at + 0] == [];
      MakeUndoInsert(cursor, |s|);
      cursor := cursor + |s|;
    }

    /** Two calls of a client: whatever redo record an undo leaves, the edit after it makes the
        state sound again, with a record to undo and nothing that crowds it. */
    method UndoThenPaste(s: seq<char>)
      requires Valid() && 0 <= selectStart && 0 <= selectEnd && 0 <= cursor
      modifies this`undoPoint, this`redoPoint, this`undoCharPoint, this`redoCharPoint, this`Undos, this`Redos
      modifies this`text, this`cursor, this`selectStart, this`selectEnd, undoRec, undoChar
      ensures Valid() && |Undos| > 0 && !Crowded(Abs())
    {
      hide Records, Stored, RedoFits, UndoApplies, RedoApplies, Layout, UndoPart, RedoPart, Apart, Room, Denotes;
      ReadyToUndo();
      TextUndo();
      ghost var mid, at := Paste(s);
      EditedIsNewest(mid, Edit(at, 0, s));
    }

    lemma ReadyToUndo()
      requires Valid()
      ensures UndoPart(undoPoint, undoCharPoint) && Apart() && RedoPart() && Undoable()
      ensures |Undos| > 0 ==> Applies(Newest(Abs()), text)
    {
    }

    /** The insert-mode branch of stb_textedit_key: one character is typed over another. */
    method TypeOver(c: char)
      requires Undoable() && 0 <= cursor < |text|
      modifies this`undoPoint, this`redoPoint, this`undoCharPoint, this`redoCharPoint, this`Undos, this`Redos
      modifies this`text, this`cursor, undoRec, undoChar
      ensures Valid() && Abs() == Edited(old(Abs()), Edit(old(cursor), 1, [c])) && cursor == old(cursor) + 1
    {
      hide Records, Stored, Room, RedoFits, UndoApplies, RedoApplies, Layout;
      EditKeepsSane(Abs(), Edit(cursor, 1, [c]));
      MakeUndo(cursor, 1, 1);
      text := text[..cursor] + text[cursor + 1..];
      text := text[..cursor] + [c] + text[cursor..];
      assert text == Apply(Edit(cursor, 1, [c]), old(text));
      cursor := cursor + 1;
    }
  }

  lemma UndoStaysSane(m: Model)
    requires |m.undo| > 0
    ensures m.Sane() ==> Applies(Newest(m), m.text) && Undone(m).Sane()
  {
    if m.Sane() {
      RedoUndoes(m);
    }
  }

  /** After an edit short enough to be kept there is a record, and nothing crowds it. */
  lemma EditedIsNewest(m: Model, e: Edit)
    requires Applies(e, m.text) && e.del <= UNDO_CHAR_COUNT
    ensures var n := Edited(m, e);
      |n.undo| > 0 && Newest(n) == Inverse(e, m.text) && n.redo == [] && !Crowded(n)
  {
    hide Room;
  }

  lemma DeletedLength(m: Model, where: nat, len: nat)
    requires where + len <= |m.text|
    ensures |Edited(m, Edit(where, len, [])).text| == |m.text| - len
  {
  }

  lemma UndoStaysUndoable(m: Model)
    requires |m.undo| > 0
    ensures UndoApplies(m.text, m.undo) ==>
      Applies(Newest(m), m.text) && UndoApplies(Apply(Newest(m), m.text), m.undo[..|m.undo| - 1])
  {
  }

  /** The stack without its first edit. */
  ghost function Later(edits: seq<Edit>): seq<Edit> {
    if |edits| > 0 then edits[1..] else []
  }

  /** Records and characters are those of a redo stack, which the undo records leave space. */
  ghost predicate RestLaid(recs: seq<Record>, chars: seq<char>, redo: seq<Edit>, undoChars: int, redoChars: int) {
    recs == Records(redo, redoChars) && chars == Stored(redo) && RedoFits(redo, undoChars, redoChars)
  }

  lemma RedoStaysUndoable(m: Model, e: Edit)
    requires Applies(e, m.text)
    ensures UndoApplies(m.text, m.undo) ==> UndoApplies(Apply(e, m.text), m.undo + [Inverse(e, m.text)])
  {
    InverseReverts(e, m.text);
    hide Apply, Inverse;
    assert (m.undo + [Inverse(e, m.text)])[..|m.undo|] == m.undo;
  }

  lemma RedoStaysSane(m: Model)
    requires |m.redo| > 0
    ensures m.Sane() ==> Applies(m.redo[0], m.text) && Redone(m).Sane()
  {
    if m.Sane() {
      UndoRedoes(m);
    }
  }

  function Lesser(a: int, b: int): int { if a < b then a else b }

  /** Record r, with its characters in the buffer, is the edit e. */
  predicate Denotes(r: Record, chars: seq<char>, e: Edit) {
    && r.where == e.at && r.deleteLength == e.del && r.insertLength == |e.ins|
    && (|e.ins| > 0 ==>
          0 <= r.charStorage && r.charStorage + |e.ins| <= |chars|
          && chars[r.charStorage..r.charStorage + |e.ins|] == e.ins)
  }

  /** What stb_text_undo leaves in the slot of the redo record, case by case; `forgot` says
      whether it had to forget redo records. */
  ghost predicate SlotWritten(m: Model, forgot: bool, kept: seq<Edit>, slot: Record, storage: int, len: int, saved: seq<char>)
    requires |m.undo| > 0 && Applies(Newest(m), m.text)
  {
    var u := Newest(m);
    if u.del == 0 || NoSpace(m) then
      len == 0 && !forgot && kept == m.redo && slot == Record(u.at, 0, |u.ins|, -1)
    else
      && len == u.del && slot.charStorage == storage && storage >= 0 && saved == m.text[u.at..u.at + u.del]
      && kept <= m.redo
      && if !forgot then kept == m.redo && SameShape(slot, Record(u.at, u.del, |u.ins|, -1))
         else |m.redo| > 0 && SameShape(slot, RecordOf(m.redo[0], 0))
  }

  /** The redo edit the slot stands for, when the slot is well formed. */
  ghost function Pushed(m: Model): Edit
    requires |m.undo| > 0 && Applies(Newest(m), m.text)
  {
    if NoSpace(m) then Edit(Newest(m).at, |Newest(m).ins|, []) else Inverse(Newest(m), m.text)
  }

  ghost predicate Exact(m: Model, forgot: bool)
    requires |m.undo| > 0
  {
    forgot ==> LooksAlike(m)
  }

  lemma SlotMeans(m: Model, forgot: bool, kept: seq<Edit>, slot: Record, storage: int, len: int,
                  chars: seq<char>, saved: seq<char>)
    requires |m.undo| > 0 && Applies(Newest(m), m.text) && 0 <= storage && 0 <= len && storage + len <= |chars|
    requires saved == chars[storage..storage + len] && SlotWritten(m, forgot, kept, slot, storage, len, saved)
    ensures Exact(m, forgot) ==>
              |Pushed(m).ins| == len && slot == RecordOf(Pushed(m), storage) && saved == Pushed(m).ins
    ensures Pushed(m).del == |Newest(m).ins| && kept <= m.redo && (!forgot ==> kept == m.redo)
    ensures Denotes(slot, chars, Inverse(Newest(m), m.text)) <==> !NoSpace(m) && (forgot ==> LooksAlike(m))
  {
    hide Stored;
    var u := Newest(m);
    assert |m.text[u.at..u.at + u.del]| == u.del;
  }

  lemma PushedMeans(m: Model)
    requires |m.undo| > 0
    ensures Exact(m, false) && (LooksAlike(m) ==> Exact(m, true)) && (Crowded(m) ==> !NoSpace(m) && !HasRoom(m))
    ensures HasRoom(m) || NoSpace(m) ==> !Crowded(m)
    ensures Applies(Newest(m), m.text) && (HasRoom(m) || Crowded(m)) ==> Pushed(m) == Inverse(Newest(m), m.text)
    ensures Applies(Newest(m), m.text) && NoSpace(m) ==> Pushed(m) == Edit(Newest(m).at, |Newest(m).ins|, [])
  {
  }

  lemma NothingToUndo(m: Model)
    requires |m.undo| == 0
    ensures HasRoom(m) && Undone(m) == m
  {
  }

  lemma {:induction false} FitsAfterUndo(redo: seq<Edit>, kept: seq<Edit>, undoChars: int, redoChars: int, e: Edit,
                                         undoChars0: int, redoChars0: int, len: int)
    requires RedoFits(redo, undoChars0, redoChars0) && kept <= redo
    requires undoChars + e.del == undoChars0 <= redoChars && redoChars0 <= redoChars + len
    ensures |e.ins| == len ==> RedoFits([e] + kept, undoChars, redoChars)
  {
    if |e.ins| == len {
      RedoFitsPrefix(redo, undoChars0, redoChars0, |kept|);
      assert redo[..|kept|] == kept;
      RedoFitsLess(kept, undoChars0, redoChars0, undoChars0, redoChars + |e.ins|);
      assert ([e] + kept)[1..] == kept;
    }
  }

  lemma NothingStored()
    ensures Records([], 0) == [] && Stored([]) == []
  {
  }

  lemma {:induction false} RoomShrinks(undo: seq<Edit>, start: seq<Edit>, n: nat)
    requires start == if |undo| == UNDO_STATE_COUNT then undo[1..] else undo
    ensures n <= UNDO_CHAR_COUNT ==> Room(undo, n) == Shrink(start, n)
  {
  }

  lemma NoneFits()
    ensures forall a, b :: RedoFits([], a, b)
  {
  }

  lemma {:induction false} ShrinkStep(undo: seq<Edit>, n: nat)
    requires n <= UNDO_CHAR_COUNT && |Stored(undo)| + n > UNDO_CHAR_COUNT
    ensures |undo| > 0 && Shrink(undo[1..], n) == Shrink(undo, n)
  {
  }

  lemma {:induction false} ShrinkDone(undo: seq<Edit>, n: nat)
    requires |Stored(undo)| + n <= UNDO_CHAR_COUNT
    ensures Shrink(undo, n) == undo
  {
  }

  lemma {:induction false} RecordsPush(undo: seq<Edit>, e: Edit)
    ensures Records(undo + [e], 0) == Records(undo, 0) + [RecordOf(e, |Stored(undo)|)]
    ensures Stored(undo + [e]) == Stored(undo) + e.ins
  {
    hide Records, Stored;
    RecordsJoin(undo, [e], 0);
    RecordsOne(e, |Stored(undo)|);
    StoredJoin(undo, [e]);
    StoredOne(e);
  }

  /** Filling in a record's characters leaves the records as they are. */
  lemma LastReplaced(undo: seq<Edit>, ins: seq<char>, chars: seq<char>)
    requires |undo| > 0 && chars == Stored(undo) && |ins| == |undo[|undo| - 1].ins|
    ensures |ins| <= |chars|
    ensures var n := |undo| - 1;
            var undo' := undo[..n] + [undo[n].(ins := ins)];
            && Records(undo', 0) == Records(undo, 0)
            && Stored(undo') == chars[..|chars| - |ins|] + ins
  {
    hide Records, Stored;
    var n := |undo| - 1;
    assert undo == undo[..n] + [undo[n]];
    RecordsPush(undo[..n], undo[n]);
    RecordsPush(undo[..n], undo[n].(ins := ins));
  }

  /** Alike in everything but where the characters are. */
  predicate SameShape(a: Record, b: Record) {
    a.where == b.where && a.insertLength == b.insertLength && a.deleteLength == b.deleteLength
  }

  lemma {:induction false} ShiftKeepsShape(rs: seq<Record>, d: int)
    ensures |rs| > 0 ==> SameShape(ShiftAll(rs, d)[0], rs[0])
  {
  }

  lemma {:induction false} RecordsLength(edits: seq<Edit>, base: int)
    ensures |Records(edits, base)| == |edits|
  {
  }

  lemma {:induction false} RecordsOldest(redo: seq<Edit>, rs: seq<Record>, base: int)
    requires rs == Records(redo, base) && |rs| > 0
    ensures |redo| == |rs|
    ensures var m := |redo| - 1;
            && rs[..m] == Records(redo[..m], base)
            && rs[m] == RecordOf(redo[m], base + |Stored(redo[..m])|)
            && Stored(redo) == Stored(redo[..m]) + redo[m].ins
            && (|redo[m].ins| == 0 ==> Stored(redo) == Stored(redo[..m]))
  {
    hide Records, Stored;
    RecordsLast(redo, base);
    StoredLast(redo);
  }

  lemma NewestRedo(redo: seq<Edit>, base: int)
    requires |redo| > 0
    ensures Records(redo, base) == [RecordOf(redo[0], base)] + Records(redo[1..], base + |redo[0].ins|)
    ensures Stored(redo) == redo[0].ins + Stored(redo[1..])
  {
  }

  lemma {:induction false} RecordsFirst(undo: seq<Edit>, rs: seq<Record>)
    requires |undo| > 0 && rs == Records(undo, 0)
    ensures rs[0] == RecordOf(undo[0], 0) && rs[1..] == Records(undo[1..], |undo[0].ins|)
    ensures Stored(undo) == undo[0].ins + Stored(undo[1..])
    ensures ShiftAll(rs, -|undo[0].ins|)[1..] == ShiftAll(rs[1..], -|undo[0].ins|)
    ensures |undo[0].ins| == 0 ==> Stored(undo) == Stored(undo[1..])
  {
  }
}
