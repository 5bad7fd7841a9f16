/** The draw-list elements of core/src/gui/smgui.cpp and their byte format. */
module DrawCodec {
  import opened Common

  type int32 = x: int | -0x8000_0000 <= x < 0x8000_0000
  type word = x: int | 0 <= x < 0x1_0000_0000

  /** A float is kept as its 32 bits, which is all the format ever looks at. */
  datatype Elem =
    | Step(step: byte, forceSync: bool)
    | Bool(b: bool)
    | Int(i: int32)
    | Float(bits: word)
    | Str(s: seq<byte>)

  const TAG_STEP: byte := 0
  const TAG_BOOL: byte := 1
  const TAG_INT: byte := 2
  const TAG_FLOAT: byte := 3
  const TAG_STRING: byte := 4

  /** The longest length the two bytes before a string can say. */
  const STRING_LIMIT := 0x1_0000

  // ---------- little-endian words ----------

  function Le32(n: word): (s: seq<byte>)
    ensures |s| == 4
  {
    [n % 256, n / 256 % 256, n / 0x1_0000 % 256, n / 0x100_0000]
  }

  function FromLe32(s: seq<byte>): word
    requires |s| == 4
  {
    (s[0] as int) + 256 * (s[1] as int) + 0x1_0000 * (s[2] as int) + 0x100_0000 * (s[3] as int)
  }

  /** The word that holds a signed integer, and back. */
  function Unsigned(i: int32): word {
    if i < 0 then i + 0x1_0000_0000 else i
  }

  function Signed(n: word): int32 {
    if n >= 0x8000_0000 then n - 0x1_0000_0000 else n
  }

  lemma Le32Back(n: word)
    ensures FromLe32(Le32(n)) == n
  {
    var q := n / 256;
    assert n == 256 * q + n % 256;
    assert q == 256 * (q / 256) + q % 256 && q / 256 == n / 0x1_0000;
    var r := n / 0x1_0000;
    assert r == 256 * (r / 256) + r % 256 && r / 256 == n / 0x100_0000;
  }

  // ---------- writing ----------

  function Byte(b: bool): byte {
    if b then 1 else 0
  }

  /** The bytes storeItem writes. A string's length is cut to 16 bits, its bytes are not. */
  function Encode(e: Elem): (s: seq<byte>)
    ensures |s| == ItemSize(e)
  {
    match e
    case Step(step, forceSync) => [TAG_STEP, step, Byte(forceSync)]
    case Bool(b) => [TAG_BOOL, Byte(b)]
    case Int(i) => [TAG_INT] + Le32(Unsigned(i))
    case Float(bits) => [TAG_FLOAT] + Le32(bits)
    case Str(s) => [TAG_STRING, |s| % 256, |s| / 256 % 256] + s
  }

  /** The bytes store writes; exactly as many as getSize says. */
  function EncodeAll(es: seq<Elem>): (s: seq<byte>)
    ensures |s| == Size(es)
  {
    if |es| == 0 then [] else Encode(es[0]) + EncodeAll(es[1..])
  }

  /** getItemSize. */
  function ItemSize(e: Elem): nat {
    match e
    case Step(_, _) => 3
    case Bool(_) => 2
    case Int(_) => 5
    case Float(_) => 5
    case Str(s) => 3 + |s|
  }

  /** getSize. */
  function Size(es: seq<Elem>): nat {
    if |es| == 0 then 0 else ItemSize(es[0]) + Size(es[1..])
  }

  /** Bytes as the digits of a number in base 256, the lowest first. */
  function Weighed(b: seq<byte>): int {
    if |b| == 0 then 0 else (b[0] as int) + 256 * Weighed(b[1..])
  }

  /** The bytes of every kind of element, as a reader of another make must take them. */
  lemma Format(e: Elem)
    ensures var b := Encode(e);
      match e
      case Step(step, forceSync) => b == [0, step, if forceSync then 1 else 0]
      case Bool(v) => b == [1, if v then 1 else 0]
      case Int(i) =>
        b[0] == 2 && Weighed(b[1..]) == if i < 0 then i + 0x1_0000_0000 else i
      case Float(bits) => b[0] == 3 && Weighed(b[1..]) == bits
      case Str(s) => b[0] == 4 && (|s| < 0x1_0000 ==> Weighed(b[1..3]) == |s|) && b[3..] == s
  {
    match e {
      case Int(i) =>
        Le32Back(Unsigned(i));
        WeighedIs(Le32(Unsigned(i)));
      case Float(bits) =>
        Le32Back(bits);
        WeighedIs(Le32(bits));
      case Str(s) =>
        WeighedTwo(|s| % 256, |s| / 256 % 256);
        assert Encode(e)[1..3] == [|s| % 256, |s| / 256 % 256];
      case _ =>
    }
  }

  lemma WeighedIs(b: seq<byte>)
    requires |b| == 4
    ensures Weighed(b) == FromLe32(b)
  {
    WeighedTwo(b[2], b[3]);
    assert b[1..][1..] == [b[2], b[3]];
  }

  lemma WeighedTwo(lo: byte, hi: byte)
    ensures Weighed([lo, hi]) == (lo as int) + 256 * (hi as int)
  {
    assert [lo, hi][1..] == [hi] && [hi][1..] == [];
    assert Weighed([hi]) == hi as int;
  }

  // ---------- reading ----------

  /** What loadItem comes to. OutOfBuffer: the next byte it looks at is not in the buffer, and
      what the program does then is not determined. */
  datatype LoadedItem = Read(elem: Elem, count: nat) | Refused | OutOfBuffer

  /** How load ends: with so many bytes used, with -1, or outside the buffer. */
  datatype Ending = Used(count: nat) | Failed | PastBuffer

  datatype Loaded = Loaded(elements: seq<Elem>, ending: Ending)

  function FromLe16(lo: byte, hi: byte): int {
    (lo as int) + 256 * (hi as int)
  }

  /** loadItem: the element whose bytes come first, and how many they are. Its length checks
      leave out the type byte, so it may look at the byte after the first `len`, which is
      outside the buffer when the buffer has no more than those. */
  function LoadItem(data: seq<byte>, len: int): (r: LoadedItem)
    requires 1 <= len <= |data|
    ensures r.Read? ==> 2 <= r.count <= len + 1 && r.count <= |data|
    ensures r.Read? ==> ItemSize(r.elem) == r.count && Short(r.elem)
    ensures r.OutOfBuffer? ==> len == |data|
  {
    var tag := data[0];
    if tag == TAG_STEP && len >= 2 then
      if |data| < 3 then OutOfBuffer else Read(Step(data[1], data[2] != 0), 3)
    else if tag == TAG_BOOL && len >= 1 then
      if |data| < 2 then OutOfBuffer else Read(Bool(data[1] != 0), 2)
    else if tag == TAG_INT && len >= 4 then
      if |data| < 5 then OutOfBuffer else Read(Int(Signed(FromLe32(data[1..5]))), 5)
    else if tag == TAG_FLOAT && len >= 4 then
      if |data| < 5 then OutOfBuffer else Read(Float(FromLe32(data[1..5])), 5)
    else if tag == TAG_STRING && len >= 2 then
      if |data| < 3 then OutOfBuffer
      else
        var slen := FromLe16(data[1], data[2]);
        if len < slen + 2 then Refused
        else if |data| < 3 + slen then OutOfBuffer
        else Read(Str(data[3..3 + slen]), 3 + slen)
    else Refused
  }

  /** load without its check of the list: the elements read, and how it ends. */
  function LoadFrom(data: seq<byte>, len: int): (r: Loaded)
    requires len <= |data|
    ensures AllShort(r.elements)
    ensures r.ending.Used? ==> r.ending.count == Size(r.elements)
    decreases len
  {
    if len <= 0 then Loaded([], Used(0))
    else
      match LoadItem(data, len)
      case Refused => Loaded([], Failed)
      case OutOfBuffer => Loaded([], PastBuffer)
      case Read(elem, n) =>
        var rest := LoadFrom(data[n..], len - n);
        Loaded([elem] + rest.elements, After(n, rest.ending))
  }

  /** How a load ends that has used n bytes before. */
  function After(n: nat, ending: Ending): Ending {
    if ending.Used? then Used(n + ending.count) else ending
  }

  /** Strings whose length fits its two bytes. */
  predicate Short(e: Elem) {
    e.Str? ==> |e.s| < STRING_LIMIT
  }

  predicate AllShort(es: seq<Elem>) {
    forall k :: 0 <= k < |es| ==> Short(es[k])
  }

  lemma LoadsWhatWasStored(e: Elem, rest: seq<byte>, len: int)
    requires Short(e) && ItemSize(e) <= len <= ItemSize(e) + |rest|
    ensures LoadItem(Encode(e) + rest, len) == Read(e, ItemSize(e))
  {
    hide Le32, FromLe32;
    var data := Encode(e) + rest;
    match e
    case Step(_, _) =>
    case Bool(_) =>
    case Int(i) =>
      assert data[1..5] == Le32(Unsigned(i));
      Le32Back(Unsigned(i));
    case Float(bits) =>
      assert data[1..5] == Le32(bits);
      Le32Back(bits);
    case Str(s) => LoadsString(s, rest, len);
  }

  lemma LoadsString(s: seq<byte>, rest: seq<byte>, len: int)
    requires |s| < STRING_LIMIT && 3 + |s| <= len <= 3 + |s| + |rest|
    ensures LoadItem(Encode(Str(s)) + rest, len) == Read(Str(s), 3 + |s|)
  {
    var lo, hi := |s| % 256, |s| / 256 % 256;
    Le16Back(|s|);
    hide FromLe16;
    var data := [TAG_STRING, lo, hi] + s + rest;
    assert data[3..3 + |s|] == s;
  }

  lemma Le16Back(n: nat)
    requires n < STRING_LIMIT
    ensures FromLe16(n % 256, n / 256 % 256) == n
  {
  }

  lemma {:induction false} LoadsFirst(e: Elem, rest: seq<byte>, len: int)
    requires Short(e) && ItemSize(e) <= len <= ItemSize(e) + |rest|
    ensures var r := LoadFrom(rest, len - ItemSize(e));
      LoadFrom(Encode(e) + rest, len) == Loaded([e] + r.elements, After(ItemSize(e), r.ending))
  {
    hide LoadFrom, LoadItem, Encode, After;
    LoadsWhatWasStored(e, rest, len);
    LoadStep(Encode(e) + rest, len, e, ItemSize(e));
    assert (Encode(e) + rest)[ItemSize(e)..] == rest;
  }

  lemma LoadStep(data: seq<byte>, len: int, e: Elem, n: nat)
    requires 1 <= len <= |data| && LoadItem(data, len) == Read(e, n)
    ensures var r := LoadFrom(data[n..], len - n);
      LoadFrom(data, len) == Loaded([e] + r.elements, After(n, r.ending))
  {
    hide LoadItem, After;
  }

  lemma {:induction false} LoadStops(data: seq<byte>, len: int)
    requires len <= |data|
    ensures len <= 0 ==> LoadFrom(data, len) == Loaded([], Used(0))
    ensures len >= 1 && LoadItem(data, len).Refused? ==> LoadFrom(data, len) == Loaded([], Failed)
    ensures len >= 1 && LoadItem(data, len).OutOfBuffer? ==> LoadFrom(data, len) == Loaded([], PastBuffer)
  {
  }

  lemma {:induction false} EncodeFirst(es: seq<Elem>)
    requires |es| > 0
    ensures EncodeAll(es) == Encode(es[0]) + EncodeAll(es[1..]) && Size(es) == ItemSize(es[0]) + Size(es[1..])
  {
  }

  /** Loading the bytes of a list whose strings fit gives the list back and uses them all. */
  lemma {:induction false} LoadsBack(es: seq<Elem>, rest: seq<byte>)
    requires AllShort(es)
    ensures LoadFrom(EncodeAll(es) + rest, Size(es)) == Loaded(es, Used(Size(es)))
  {
    hide LoadFrom, LoadItem, Encode, EncodeAll;
    if |es| == 0 {
      LoadStops(EncodeAll(es) + rest, 0);
    } else {
      EncodeFirst(es);
      var others := EncodeAll(es[1..]) + rest;
      assert EncodeAll(es) + rest == Encode(es[0]) + others;
      LoadsFirst(es[0], others, Size(es));
      LoadsBack(es[1..], rest);
    }
  }

  /** What store writes loads back as the list, all of it used, exactly when every string is
      shorter than 65536 bytes; whatever comes after the stored bytes, also when nothing does. */
  lemma {:induction false} RoundTripIff(es: seq<Elem>, rest: seq<byte>)
    ensures LoadFrom(EncodeAll(es) + rest, Size(es)) == Loaded(es, Used(Size(es))) <==> AllShort(es)
  {
    if AllShort(es) {
      LoadsBack(es, rest);
    }
  }

  // ---------- when load looks past its length ----------

  /** Bytes as the format has them: whole elements one after the other; or with a last element
      that lacks exactly one byte, be it the second byte of a string's length; or neither. */
  datatype Form = Whole | Cut | Broken

  /** The size of the element that comes first, type byte included, as far as its bytes tell. */
  function Claimed(d: seq<byte>): Option<nat>
    requires |d| > 0
  {
    if d[0] == TAG_STEP then Some(3)
    else if d[0] == TAG_BOOL then Some(2)
    else if d[0] == TAG_INT || d[0] == TAG_FLOAT then Some(5)
    else if d[0] == TAG_STRING then Some(if |d| < 3 then 3 else 3 + FromLe16(d[1], d[2]))
    else None
  }

  function Walk(d: seq<byte>): Form {
    if |d| == 0 then Whole
    else
      match Claimed(d)
      case None => Broken
      case Some(n) => if n <= |d| then Walk(d[n..]) else if n == |d| + 1 then Cut else Broken
  }

  /** How a load of the first `len` bytes of a buffer ends, told by a walk over them. */
  function WalkedEnding(data: seq<byte>, len: nat): Ending
    requires len <= |data|
  {
    match Walk(data[..len])
    case Whole => Used(len)
    case Broken => Failed
    case Cut =>
      if len == |data| then PastBuffer
      else if Walk(data[..len + 1]) == Whole then Used(len + 1)
      else Failed
  }

  lemma {:induction false} WalkFirst(d: seq<byte>, n: nat)
    requires |d| > 0 && Claimed(d) == Some(n)
    ensures n <= |d| ==> Walk(d) == Walk(d[n..])
    ensures n > |d| ==> Walk(d) == if n == |d| + 1 then Cut else Broken
  {
    hide Claimed;
  }

  lemma ReadIsClaimed(data: seq<byte>, len: int)
    requires 1 <= len <= |data| && LoadItem(data, len).Read?
    ensures var n := LoadItem(data, len).count;
      (n <= len ==> Claimed(data[..len]) == Some(n)) &&
      (n == len + 1 ==> Claimed(data[..len]) == Some(n) && Claimed(data[..n]) == Some(n))
  {
    hide FromLe32, FromLe16;
  }

  /** An element that is refused, or not in the buffer: it lacks more than its last byte, or it
      lacks just that and the byte after does not make it whole. */
  lemma {:induction false} NotReadWalk(data: seq<byte>, len: int)
    requires 1 <= len <= |data| && !LoadItem(data, len).Read?
    ensures LoadItem(data, len).OutOfBuffer? ==> len == |data| && Walk(data) == Cut
    ensures LoadItem(data, len).Refused? ==>
      Walk(data[..len]) == Broken ||
      (len < |data| && Walk(data[..len]) == Cut && Walk(data[..len + 1]) != Whole)
  {
    hide FromLe32, FromLe16;
    assert data[..|data|] == data;
  }

  /** For every buffer, length and content: load uses the given length exactly when its bytes
      are whole elements; it looks at the byte after them exactly when the last element lacks
      one byte, and then that byte decides, if there is one. */
  lemma {:induction false} EndsAsWalked(data: seq<byte>, len: nat)
    requires len <= |data|
    ensures LoadFrom(data, len).ending == WalkedEnding(data, len)
    decreases len
  {
    hide LoadFrom, LoadItem, Walk, Claimed;
    LoadStops(data, len);
    if len == 0 {
      NothingIsWhole(data[..len]);
    } else if LoadItem(data, len).Read? {
      var e, n := LoadItem(data, len).elem, LoadItem(data, len).count;
      LoadStep(data, len, e, n);
      ReadIsClaimed(data, len);
      WalkFirst(data[..len], n);
      if n == len + 1 {
        WalkFirst(data[..n], n);
        NothingIsWhole(data[..n][n..]);
        LoadStops(data[n..], len - n);
      } else {
        assert data[..len][n..] == data[n..][..len - n];
        EndsAsWalked(data[n..], len - n);
        LongerWalk(data, len, n);
      }
    } else {
      NotReadWalk(data, len);
      assert data[..|data|] == data;
    }
  }

  lemma {:induction false} NothingIsWhole(d: seq<byte>)
    ensures |d| == 0 ==> Walk(d) == Whole
  {
  }

  /** With one byte more, too, the rest of the walk starts after the first element. */
  lemma LongerWalk(data: seq<byte>, len: nat, n: nat)
    requires 1 <= len <= |data| && 2 <= n <= len && Claimed(data[..len]) == Some(n)
    ensures len < |data| ==> Walk(data[..len + 1]) == Walk(data[n..][..len + 1 - n])
  {
    if len < |data| {
      LongerClaim(data, len, n);
      hide Claimed, Walk;
      WalkFirst(data[..len + 1], n);
      assert data[..len + 1][n..] == data[n..][..len + 1 - n];
    }
  }

  lemma LongerClaim(data: seq<byte>, len: nat, n: nat)
    requires 1 <= len < |data| && n <= len && Claimed(data[..len]) == Some(n)
    ensures Claimed(data[..len + 1]) == Some(n)
  {
    hide FromLe16;
  }

  /** Unless the last element lacks one byte, load looks at no byte after the first `len`: the
      same bytes with others or none after them load the same. */
  lemma {:induction false} StaysInside(data: seq<byte>, len: nat)
    requires len <= |data| && Walk(data[..len]) != Cut
    ensures LoadFrom(data, len) == LoadFrom(data[..len], len)
    decreases len
  {
    hide LoadFrom, LoadItem, Walk, Claimed;
    LoadStops(data, len);
    LoadStops(data[..len], len);
    if len > 0 {
      SameItem(data, len);
      if LoadItem(data, len).Read? {
        var e, n := LoadItem(data, len).elem, LoadItem(data, len).count;
        ReadIsClaimed(data, len);
        WalkFirst(data[..len], n);
        LoadStep(data, len, e, n);
        LoadStep(data[..len], len, e, n);
        assert data[..len][n..] == data[n..][..len - n];
        StaysInside(data[n..], len - n);
      }
    }
  }

  lemma SameItem(data: seq<byte>, len: nat)
    requires 1 <= len <= |data| && Walk(data[..len]) != Cut
    ensures LoadItem(data, len) == LoadItem(data[..len], len)
    ensures !LoadItem(data, len).OutOfBuffer?
  {
    hide FromLe32, FromLe16;
    if LoadItem(data, len).Read? {
      ReadIsClaimed(data, len);
      SameSlice(data, len);
    }
  }

  lemma SameSlice(data: seq<byte>, len: nat)
    requires len <= |data|
    ensures forall a, b :: 0 <= a <= b <= len ==> data[..len][a..b] == data[a..b]
  {
  }

  /** So load never looks past what store has written. */
  lemma {:induction false} StoredIsWhole(es: seq<Elem>)
    requires AllShort(es)
    ensures Walk(EncodeAll(es)) == Whole
  {
    hide LoadFrom, Walk, EncodeAll;
    var d := EncodeAll(es);
    assert d + [] == d && d[..|d|] == d;
    LoadsBack(es, []);
    EndsAsWalked(d, |d|);
  }

  /** A load that succeeds past its length, one that fails past it, and both in buffers that
      have no such byte. */
  lemma LooksPast(next: byte)
    ensures LoadFrom([TAG_BOOL, next], 1) == Loaded([Bool(next != 0)], Used(2))
    ensures LoadFrom([TAG_STRING, 1, next], 2) == Loaded([], Failed)
    ensures LoadFrom([TAG_BOOL], 1) == Loaded([], PastBuffer) && LoadFrom([TAG_STRING, 1], 2) == Loaded([], PastBuffer)
  {
    hide LoadFrom;
    LoadStep([TAG_BOOL, next], 1, Bool(next != 0), 2);
    LoadStops([TAG_BOOL, next][2..], -1);
    LoadStops([TAG_STRING, 1, next], 2);
    LoadStops([TAG_BOOL], 1);
    LoadStops([TAG_STRING, 1], 2);
  }
}
