/** The string operations WARC headers go through, on UTF-8 bytes: trimming,
  ASCII case folding, unsigned numbers and UTF-8 validity. */
module Text {
  import opened Bytes

  const SPACE: byte := 32
  const TAB: byte := 9
  const COLON: byte := 58
  const DOT: byte := 46
  const PLUS: byte := 43

  // ── white space ──

  predicate White1(a: byte) { 9 <= a <= 13 || a == 32 }
  predicate White2(a: byte, b: byte) { a == 0xC2 && (b == 0x85 || b == 0xA0) }
  predicate White3(a: byte, b: byte, c: byte)
  {
    || (a == 0xE1 && b == 0x9A && c == 0x80)
    || (a == 0xE2 && b == 0x80 && (0x80 <= c <= 0x8A || c == 0xA8 || c == 0xA9 || c == 0xAF))
    || (a == 0xE2 && b == 0x81 && c == 0x9F)
    || (a == 0xE3 && b == 0x80 && c == 0x80)
  }

  /** Bytes of the Unicode white-space character at the front of `s`; 0 for none. */
  function WhiteAtStart(s: bytes): (n: nat)
    ensures n <= |s|
  {
    if |s| >= 1 && White1(s[0]) then 1
    else if |s| >= 2 && White2(s[0], s[1]) then 2
    else if |s| >= 3 && White3(s[0], s[1], s[2]) then 3 else 0
  }

  function WhiteAtEnd(s: bytes): (n: nat)
    ensures n <= |s|
  {
    var k := |s|;
    if k >= 1 && White1(s[k - 1]) then 1
    else if k >= 2 && White2(s[k - 2], s[k - 1]) then 2
    else if k >= 3 && White3(s[k - 3], s[k - 2], s[k - 1]) then 3 else 0
  }

  function TrimStart(s: bytes): bytes
    decreases |s|
  {
    if WhiteAtStart(s) == 0 then s else TrimStart(s[WhiteAtStart(s)..])
  }

  function TrimEnd(s: bytes): bytes
    decreases |s|
  {
    if WhiteAtEnd(s) == 0 then s else TrimEnd(s[..|s| - WhiteAtEnd(s)])
  }

  function Trim(s: bytes): bytes
  {
    TrimEnd(TrimStart(s))
  }

  /** No white space at either end. */
  predicate Trimmed(s: bytes)
  {
    WhiteAtStart(s) == 0 && WhiteAtEnd(s) == 0
  }

  lemma TrimOfTrimmed(s: bytes)
    requires Trimmed(s)
    ensures Trim(s) == s
  {
  }

  /** Trailing CR and LF bytes removed, all of them. */
  function StripEol(s: bytes): bytes
  {
    if s == [] || (s[|s| - 1] != CR && s[|s| - 1] != LF) then s else StripEol(s[..|s| - 1])
  }

  // ── case ──

  function LowerByte(b: byte): byte
  {
    if 65 <= b <= 90 then b + 32 else b
  }

  function Lower(s: bytes): bytes
  {
    seq(|s|, i requires 0 <= i < |s| => LowerByte(s[i]))
  }

  predicate EqIgnoreCase(a: bytes, b: bytes)
  {
    Lower(a) == Lower(b)
  }

  lemma LowerTwice(s: bytes)
    ensures Lower(Lower(s)) == Lower(s)
  {
  }

  // ── unsigned decimal numbers ──

  predicate Digit(b: byte) { 48 <= b <= 57 }

  predicate AllDigits(s: bytes)
  {
    forall i | 0 <= i < |s| :: Digit(s[i])
  }

  /** Value of a non-empty string of digits. */
  function Digits(s: bytes): Option<nat>
  {
    if s == [] || !Digit(s[|s| - 1]) then None
    else if |s| == 1 then Some(s[0] as int - 48)
    else match Digits(s[..|s| - 1])
      case None => None
      case Some(v) => Some(10 * v + (s[|s| - 1] as int - 48))
  }

  /** Parse as an unsigned number no larger than `max`; one leading `+` is allowed. */
  function ParseUnsigned(s: bytes, max: nat): Option<nat>
  {
    match Digits(if |s| > 1 && s[0] == PLUS then s[1..] else s)
    case None => None
    case Some(v) => if v <= max then Some(v) else None
  }

  const U8_MAX := 0xFF
  const U64_MAX := 0xFFFF_FFFF_FFFF_FFFF

  function Decimal(n: nat): (s: bytes)
    ensures s != []
  {
    if n < 10 then [n + 48] else Decimal(n / 10) + [n % 10 + 48]
  }

  lemma {:induction false} DecimalDigits(n: nat)
    ensures Digits(Decimal(n)) == Some(n)
    ensures AllDigits(Decimal(n))
  {
    if n >= 10 {
      DecimalDigits(n / 10);
      var s := Decimal(n);
      assert s[..|s| - 1] == Decimal(n / 10);
    }
  }

  /** Printing and parsing a number are inverse, up to the width of the type. */
  lemma ParseInvertsDecimal(n: nat, max: nat)
    ensures ParseUnsigned(Decimal(n), max) == if n <= max then Some(n) else None
    ensures Trimmed(Decimal(n))
  {
    DecimalDigits(n);
    var s := Decimal(n);
    assert Digit(s[0]) && Digit(s[|s| - 1]);
  }

  // ── UTF-8 (RFC 3629 section 4) ──

  predicate Tail(b: byte) { 0x80 <= b <= 0xBF }

  /** Length of the well-formed character at the front of `s`; 0 for none. */
  function Utf8Char(s: bytes): (n: nat)
    ensures n <= |s|
  {
    if s == [] then 0
    else if s[0] <= 0x7F then 1
    else if |s| >= 2 && 0xC2 <= s[0] <= 0xDF && Tail(s[1]) then 2
    else if |s| >= 3 && Tail(s[1]) && Tail(s[2]) &&
            ((s[0] == 0xE0 && s[1] >= 0xA0) || 0xE1 <= s[0] <= 0xEC || (s[0] == 0xED && s[1] <= 0x9F) ||
              0xEE <= s[0] <= 0xEF) then 3
    else if |s| >= 4 && Tail(s[1]) && Tail(s[2]) && Tail(s[3]) &&
            ((s[0] == 0xF0 && s[1] >= 0x90) || 0xF1 <= s[0] <= 0xF3 || (s[0] == 0xF4 && s[1] <= 0x8F)) then 4
    else 0
  }

  predicate ValidUtf8(s: bytes)
  {
    s == [] || (Utf8Char(s) > 0 && ValidUtf8(s[Utf8Char(s)..]))
  }

  lemma CharStays(a: bytes, b: bytes)
    requires Utf8Char(a) > 0
    ensures Utf8Char(a + b) == Utf8Char(a)
  {
  }

  lemma {:induction false} ValidUtf8Concat(a: bytes, b: bytes)
    requires ValidUtf8(a) && ValidUtf8(b)
    ensures ValidUtf8(a + b)
    decreases |a|
  {
    hide Utf8Char;
    if a == [] {
      assert a + b == b;
    } else {
      var n := Utf8Char(a);
      CharStays(a, b);
      assert (a + b)[n..] == a[n..] + b;
      ValidUtf8Concat(a[n..], b);
    }
  }

  lemma {:induction false} AsciiIsUtf8(s: bytes)
    requires forall i | 0 <= i < |s| :: s[i] <= 0x7F
    ensures ValidUtf8(s)
  {
    if s != [] { AsciiIsUtf8(s[1..]); }
  }
}
