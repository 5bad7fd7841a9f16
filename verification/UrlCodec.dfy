/** Percent-encoding in core/src/EmbeddableWebServer.h: URLDecode and strdupEscapeForURL. */
module UrlCodec {
  import opened Common

  const SPACE: byte := 32
  const PERCENT: byte := 37
  const AMPERSAND: byte := 38
  const PLUS: byte := 43

  /** What scanning two characters as a hexadecimal number gives. */
  type Hex = (byte, byte) -> Option<byte>

  datatype UrlPart = WholeURL | Parameter

  // ---------- the meaning of an encoded string ----------

  function CutAt(s: seq<byte>, end: byte): seq<byte> {
    if |s| == 0 || s[0] == end then [] else [s[0]] + CutAt(s[1..], end)
  }

  /** The part of the string that is decoded. */
  function Subject(s: seq<byte>, part: UrlPart): seq<byte> {
    if part == Parameter then CutAt(s, AMPERSAND) else s
  }

  function Unescape(s: seq<byte>, hex: Hex): seq<byte> {
    if |s| == 0 then []
    else if s[0] == PERCENT then
      if |s| < 3 then []
      else
        var b := hex(s[1], s[2]);
        (if b.Some? then [b.value] else []) + Unescape(s[3..], hex)
    else [if s[0] == PLUS then SPACE else s[0]] + Unescape(s[1..], hex)
  }

  // ---------- escaping ----------

  predicate Acceptable(c: byte) {
    65 <= c <= 90 || 97 <= c <= 122 || 48 <= c <= 57 || c == 46 || c == 47 || c == 45
  }

  function HexDigit(n: nat): byte
    requires n < 16
  {
    if n < 10 then 48 + n else 87 + n
  }

  function EscapeOne(c: byte): seq<byte> {
    if Acceptable(c) then [c] else [PERCENT, HexDigit(c / 16), HexDigit(c % 16)]
  }

  function Escape(s: seq<byte>): seq<byte> {
    if |s| == 0 then [] else EscapeOne(s[0]) + Escape(s[1..])
  }

  /** Two lower-case hexadecimal digits scan to their number. */
  ghost predicate ReadsHex(hex: Hex) {
    forall c: byte :: hex(HexDigit(c / 16), HexDigit(c % 16)) == Some(c)
  }

  /** An escaped string decodes to the string. */
  lemma {:induction false} UnescapeEscape(s: seq<byte>, hex: Hex)
    requires ReadsHex(hex)
    ensures Unescape(Escape(s), hex) == s
  {
    if |s| > 0 {
      UnescapeEscape(s[1..], hex);
      var one, rest := EscapeOne(s[0]), Escape(s[1..]);
      if Acceptable(s[0]) {
        assert (one + rest)[1..] == rest;
      } else {
        assert (one + rest)[3..] == rest;
      }
    }
  }

  /** Escaped bytes are letters, digits, and four signs: nothing a request line or a
      parameter would end at. */
  lemma {:induction false} EscapeIsPlain(s: seq<byte>)
    ensures forall k :: 0 <= k < |Escape(s)| ==> Acceptable(Escape(s)[k]) || Escape(s)[k] == PERCENT
  {
    if |s| > 0 {
      EscapeIsPlain(s[1..]);
    }
  }

  lemma {:induction false} CutNothing(s: seq<byte>, end: byte)
    requires end !in s
    ensures CutAt(s, end) == s
  {
    if |s| > 0 {
      CutNothing(s[1..], end);
    }
  }

  lemma {:induction false} CutAfter(t: seq<byte>, rest: seq<byte>, end: byte)
    requires end !in t && |rest| > 0 && rest[0] == end
    ensures CutAt(t + rest, end) == t
  {
    if |t| == 0 {
      assert t + rest == rest;
    } else {
      assert (t + rest)[1..] == t[1..] + rest;
      CutAfter(t[1..], rest, end);
    }
  }

  /** So an escaped string also decodes to the string as a parameter, at the end or before
      the next one. */
  lemma {:induction false} ParameterOfEscape(s: seq<byte>, rest: seq<byte>, hex: Hex)
    requires ReadsHex(hex)
    ensures Unescape(Subject(Escape(s), Parameter), hex) == s
    ensures |rest| > 0 && rest[0] as char == '&' ==> Unescape(Subject(Escape(s) + rest, Parameter), hex) == s
  {
    EscapeIsPlain(s);
    CutNothing(Escape(s), AMPERSAND);
    UnescapeEscape(s, hex);
    if |rest| > 0 && rest[0] == AMPERSAND {
      CutAfter(Escape(s), rest, AMPERSAND);
    }
  }

  /** Decoding never lengthens. */
  lemma {:induction false} UnescapeShortens(s: seq<byte>, hex: Hex)
    ensures |Unescape(s, hex)| <= |s|
  {
    if |s| == 0 {
    } else if s[0] == PERCENT {
      if |s| >= 3 {
        UnescapeShortens(s[3..], hex);
      }
    } else {
      UnescapeShortens(s[1..], hex);
    }
  }

  /** Letters, digits, and three signs go unescaped, and no others; every other byte becomes its
      two digits. */
  lemma EscapesExactly(c: byte)
    ensures var ch := c as char;
      EscapeOne(c) ==
      if 'A' <= ch <= 'Z' || 'a' <= ch <= 'z' || '0' <= ch <= '9' || ch == '.' || ch == '/' || ch == '-' then [c]
      else ['%' as int, "0123456789abcdef"[c / 16] as int, "0123456789abcdef"[c % 16] as int]
  {
    var digits := "0123456789abcdef";
    forall n | 0 <= n < 16 ensures digits[n] as int == HexDigit(n) {
    }
  }

  // ---------- any spelling ----------

  /** The ways a byte can be spelled: as itself, a space as a plus, or by two characters that
      should be its digits. */
  datatype Piece = Itself(c: byte) | Plus | Digits(high: byte, low: byte)

  predicate Proper(p: Piece) {
    p.Itself? ==> p.c as char != '%' && p.c as char != '+'
  }

  function SpelledOne(p: Piece): seq<byte> {
    match p
    case Itself(c) => [c]
    case Plus => ['+' as int]
    case Digits(high, low) => ['%' as int, high, low]
  }

  /** The byte meant; two characters that are no number mean none. */
  function MeantOne(p: Piece, hex: Hex): seq<byte> {
    match p
    case Itself(c) => [c]
    case Plus => [' ' as int]
    case Digits(high, low) => if hex(high, low).Some? then [hex(high, low).value] else []
  }

  function Spelled(pieces: seq<Piece>): seq<byte> {
    if |pieces| == 0 then [] else SpelledOne(pieces[0]) + Spelled(pieces[1..])
  }

  function Meant(pieces: seq<Piece>, hex: Hex): seq<byte> {
    if |pieces| == 0 then [] else MeantOne(pieces[0], hex) + Meant(pieces[1..], hex)
  }

  /** An escape cut short by the end of the string. */
  predicate CutShort(tail: seq<byte>) {
    |tail| <= 2 && (|tail| > 0 ==> tail[0] as char == '%')
  }

  /** Every spelling decodes to the bytes meant; an escape cut short at its end means nothing. */
  lemma {:induction false} SpelledDecodes(pieces: seq<Piece>, tail: seq<byte>, hex: Hex)
    requires (forall k :: 0 <= k < |pieces| ==> Proper(pieces[k])) && CutShort(tail)
    ensures Unescape(Spelled(pieces) + tail, hex) == Meant(pieces, hex)
  {
    if |pieces| == 0 {
      assert Spelled(pieces) + tail == tail;
    } else {
      hide SpelledOne, MeantOne, Unescape, Proper;
      SpelledDecodes(pieces[1..], tail, hex);
      var rest := Spelled(pieces[1..]) + tail;
      assert Proper(pieces[0]) && Spelled(pieces) + tail == SpelledOne(pieces[0]) + rest;
      UnescapeOne(pieces[0], rest, hex);
    }
  }

  lemma UnescapeOne(p: Piece, rest: seq<byte>, hex: Hex)
    requires Proper(p)
    ensures Unescape(SpelledOne(p) + rest, hex) == MeantOne(p, hex) + Unescape(rest, hex)
  {
    match p
    case Itself(c) => assert ([c] + rest)[1..] == rest;
    case Plus => assert ([PLUS] + rest)[1..] == rest;
    case Digits(high, low) => assert ([PERCENT, high, low] + rest)[3..] == rest;
  }

  /** And every string is such a spelling, so this says what any string decodes to. */
  lemma {:induction false} EveryStringSpells(s: seq<byte>) returns (pieces: seq<Piece>, tail: seq<byte>)
    ensures s == Spelled(pieces) + tail && CutShort(tail) && forall k :: 0 <= k < |pieces| ==> Proper(pieces[k])
  {
    if |s| == 0 || (s[0] == PERCENT && |s| < 3) {
      pieces, tail := [], s;
    } else {
      var first, n := Itself(s[0]), 1;
      if s[0] == PLUS {
        first := Plus;
      } else if s[0] == PERCENT {
        first, n := Digits(s[1], s[2]), 3;
      }
      var rest;
      rest, tail := EveryStringSpells(s[n..]);
      pieces := [first] + rest;
      assert pieces[1..] == rest && s == s[..n] + s[n..];
    }
  }

  // ---------- the program ----------

  datatype DecodeState = Normal | FirstDigit | SecondDigit(first: byte)

  /** What of the string is still to be decoded: an escape begun counts again. */
  function Pending(state: DecodeState, rest: seq<byte>): seq<byte> {
    match state
    case Normal => rest
    case FirstDigit => [PERCENT] + rest
    case SecondDigit(first) => [PERCENT, first] + rest
  }

  function NextState(state: DecodeState, c: byte): DecodeState {
    match state
    case Normal => if c == PERCENT then FirstDigit else Normal
    case FirstDigit => SecondDigit(c)
    case SecondDigit(_) => Normal
  }

  /** The byte, if any, that a character completes. */
  function Completed(state: DecodeState, c: byte, hex: Hex): Option<byte> {
    match state
    case Normal => if c == PERCENT then None else Some(if c == PLUS then SPACE else c)
    case FirstDigit => None
    case SecondDigit(first) => hex(first, c)
  }

  function Listed(b: Option<byte>): seq<byte> {
    if b.Some? then [b.value] else []
  }

  lemma DecodeOne(state: DecodeState, rest: seq<byte>, hex: Hex)
    requires |rest| > 0
    ensures Unescape(Pending(state, rest), hex) ==
      Listed(Completed(state, rest[0], hex)) + Unescape(Pending(NextState(state, rest[0]), rest[1..]), hex)
  {
    match state
    case Normal => assert rest[0] == PERCENT ==> [PERCENT] + rest[1..] == rest;
    case FirstDigit => assert [PERCENT, rest[0]] + rest[1..] == [PERCENT] + rest;
    case SecondDigit(first) => assert ([PERCENT, first] + rest)[3..] == rest[1..];
  }

  lemma SubjectFirst(s: seq<byte>, part: UrlPart)
    ensures if |s| == 0 || (part == Parameter && s[0] == AMPERSAND) then Subject(s, part) == []
      else Subject(s, part) == [s[0]] + Subject(s[1..], part)
  {
  }

  /** One round of URLDecode's loop. */
  method DecodeChar(state: DecodeState, c: byte, decoded: array<byte>, deci: nat,
                    hex: Hex) returns (next: DecodeState, n: nat)
    requires deci < decoded.Length
    modifies decoded
    ensures next == NextState(state, c) && deci <= n <= deci + 1
    ensures n <= decoded.Length && decoded[..n] == old(decoded[..deci]) + Listed(Completed(state, c, hex))
    ensures decoded[deci + 1..] == old(decoded[deci + 1..])
  {
    n := deci;
    match state {
      case Normal =>
        if c == PERCENT {
          next := FirstDigit;
        } else {
          decoded[deci] := if c == PLUS then SPACE else c;
          n := deci + 1;
          next := Normal;
        }
      case FirstDigit =>
        next := SecondDigit(c);
      case SecondDigit(first) =>
        var b := hex(first, c);
        if b.Some? {
          decoded[deci] := b.value;
          n := deci + 1;
        }
        next := Normal;
    }
  }

  /** URLDecode of a string without its final null. It fails when the buffer is full and
      there is more; what it has decoded by then stays. */
  method URLDecode(encoded: seq<byte>, decoded: array<byte>, capacity: nat, part: UrlPart, hex: Hex)
    returns (ok: bool, length: nat)
    requires 0 < capacity <= decoded.Length
    modifies decoded
    ensures length < capacity && decoded[length] == 0
    ensures ok ==> decoded[..length] == Unescape(Subject(encoded, part), hex)
    ensures !ok ==> length == capacity - 1 < |Subject(encoded, part)| && decoded[..length] <= Unescape(Subject(encoded, part), hex)
    ensures decoded[capacity..] == old(decoded[capacity..])
  {
    hide Unescape, Subject, Pending, NextState, Completed;
    var state, deci, i := Normal, 0, 0;
    ok := true;
    ghost var subject := Subject(encoded, part);
    ghost var left := subject;
    StartDecoding(encoded, part, hex);
    while true
      invariant i <= |encoded| && deci <= i && deci < capacity && i + |left| == |subject|
      invariant ok && left == Subject(encoded[i..], part)
      invariant Unescape(subject, hex) == decoded[..deci] + Unescape(Pending(state, left), hex)
      invariant decoded[capacity..] == old(decoded[capacity..])
      decreases |encoded| - i
    {
      SubjectFirst(encoded[i..], part);
      if i == |encoded| || (encoded[i] == AMPERSAND && part == Parameter) {
        break;
      }
      if deci >= capacity - 1 {
        ok := false;
        break;
      }
      DecodeOne(state, left, hex);
      ghost var tail := decoded[deci + 1..];
      state, deci := DecodeChar(state, encoded[i], decoded, deci, hex);
      assert encoded[i..][1..] == encoded[i + 1..];
      left := left[1..];
      i := i + 1;
    }
    ghost var out := decoded[..deci];
    decoded[deci] := 0;
    length := deci;
    assert decoded[..length] == out;
    if ok {
      NothingLeft(state, hex);
    }
  }

  lemma StartDecoding(encoded: seq<byte>, part: UrlPart, hex: Hex)
    ensures Subject(encoded, part) == Subject(encoded[0..], part)
    ensures Unescape(Subject(encoded, part), hex) == [] + Unescape(Pending(Normal, Subject(encoded, part)), hex)
  {
    assert encoded[0..] == encoded;
  }

  lemma NothingLeft(state: DecodeState, hex: Hex)
    ensures Unescape(Pending(state, []), hex) == []
  {
  }

  /** One round of strdupEscapeForURL's loop. */
  method AppendEscaped(escaped: seq<byte>, c: byte) returns (longer: seq<byte>)
    ensures longer == escaped + EscapeOne(c)
  {
    if Acceptable(c) {
      longer := escaped + [c];
    } else {
      longer := escaped + [PERCENT, HexDigit(c / 16), HexDigit(c % 16)];
    }
  }

  /** strdupEscapeForURL. */
  method EscapeForURL(s: seq<byte>) returns (escaped: seq<byte>)
    ensures escaped == Escape(s)
  {
    hide Escape, EscapeOne;
    escaped := [];
    var p := 0;
    assert s[0..] == s && escaped + Escape(s) == Escape(s);
    while p < |s|
      invariant p <= |s| && escaped + Escape(s[p..]) == Escape(s)
    {
      EscapeFirst(s[p..]);
      assert s[p..][1..] == s[p + 1..];
      Regroup(escaped, EscapeOne(s[p]), Escape(s[p + 1..]));
      escaped := AppendEscaped(escaped, s[p]);
      p := p + 1;
    }
    EscapeFirst(s[p..]);
  }

  lemma Regroup(a: seq<byte>, b: seq<byte>, c: seq<byte>)
    ensures a + b + c == a + (b + c)
  {
  }

  lemma {:induction false} EscapeFirst(s: seq<byte>)
    ensures Escape(s) == if |s| == 0 then [] else EscapeOne(s[0]) + Escape(s[1..])
  {
  }
}
