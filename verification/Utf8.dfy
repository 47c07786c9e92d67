/** UTF-8 text made of any bytes: whatever is not well formed becomes U+FFFD. */
module Utf8 {
  import opened Bytes
  import opened Text

  /** U+FFFD, the replacement character. */
  const REPLACEMENT: bytes := [0xEF, 0xBF, 0xBD]

  /** The first two bytes of a character of three. */
  predicate Leads3(a: byte, b: byte)
  {
    Tail(b) && ((a == 0xE0 && b >= 0xA0) || 0xE1 <= a <= 0xEC || (a == 0xED && b <= 0x9F) || 0xEE <= a <= 0xEF)
  }

  /** The first two bytes of a character of four. */
  predicate Leads4(a: byte, b: byte)
  {
    Tail(b) && ((a == 0xF0 && b >= 0x90) || 0xF1 <= a <= 0xF3 || (a == 0xF4 && b <= 0x8F))
  }

  /** How much of `s` one replacement stands for: as much of a character as is there. */
  function BadLength(s: bytes): (n: nat)
    requires s != [] && Utf8Char(s) == 0
    ensures 0 < n <= |s|
  {
    if |s| >= 2 && Leads3(s[0], s[1]) then 2
    else if |s| >= 2 && Leads4(s[0], s[1]) then if |s| >= 3 && Tail(s[2]) then 3 else 2
    else 1
  }

  function FromUtf8Lossy(s: bytes): bytes
    decreases |s|
  {
    if s == [] then []
    else if Utf8Char(s) > 0 then s[..Utf8Char(s)] + FromUtf8Lossy(s[Utf8Char(s)..])
    else REPLACEMENT + FromUtf8Lossy(s[BadLength(s)..])
  }

  /** Text in front stays as it is. */
  lemma {:induction false} LossyAfterText(a: bytes, b: bytes)
    requires ValidUtf8(a)
    ensures FromUtf8Lossy(a + b) == a + FromUtf8Lossy(b)
    decreases |a|
  {
    hide Utf8Char, BadLength;
    if a == [] {
      assert a + b == b;
    } else {
      var n := Utf8Char(a);
      CharStays(a, b);
      assert (a + b)[n..] == a[n..] + b && (a + b)[..n] == a[..n];
      LossyAfterText(a[n..], b);
      assert a[..n] + (a[n..] + FromUtf8Lossy(b)) == a + FromUtf8Lossy(b);
    }
  }

  lemma LossyOfText(s: bytes)
    requires ValidUtf8(s)
    ensures FromUtf8Lossy(s) == s
  {
    hide ValidUtf8;
    LossyAfterText(s, []);
    assert s + [] == s;
  }

  /** Behind text, text is text exactly when it is so by itself. */
  lemma {:induction false} ValidBehindText(a: bytes, b: bytes)
    requires ValidUtf8(a)
    ensures ValidUtf8(a + b) <==> ValidUtf8(b)
    decreases |a|
  {
    hide Utf8Char;
    if a == [] {
      assert a + b == b;
    } else {
      var n := Utf8Char(a);
      CharStays(a, b);
      assert (a + b)[n..] == a[n..] + b;
      ValidBehindText(a[n..], b);
    }
  }

  /** One character. */
  predicate IsChar(ch: bytes)
  {
    ch != [] && Utf8Char(ch) == |ch|
  }

  lemma CharIsText(ch: bytes)
    requires IsChar(ch)
    ensures ValidUtf8(ch)
  {
    assert ch[|ch|..] == [];
  }

  /** Text that is not empty is one character and text behind it. */
  lemma FirstChar(s: bytes)
    requires ValidUtf8(s) && s != []
    ensures var n := Utf8Char(s);
      && 0 < n <= |s| && IsChar(s[..n]) && ValidUtf8(s[n..]) && s == s[..n] + s[n..]
      && (n == |s| ==> s[..n] == s)
  {
    hide Utf8Char, IsChar;
    PrefixIsChar(s);
  }

  lemma PrefixIsChar(s: bytes)
    requires Utf8Char(s) > 0
    ensures IsChar(s[..Utf8Char(s)])
  {
  }

  /** And it is text and one character behind that. */
  lemma {:induction false} LastChar(s: bytes) returns (q: bytes, ch: bytes)
    requires ValidUtf8(s) && s != []
    ensures s == q + ch && ValidUtf8(q) && IsChar(ch)
    decreases |s|
  {
    hide Utf8Char, IsChar, ValidUtf8;
    var n := Utf8Char(s);
    FirstChar(s);
    if n == |s| {
      NoText();
      q, ch := [], s;
    } else {
      var r;
      r, ch := LastChar(s[n..]);
      CharIsText(s[..n]);
      ValidUtf8Concat(s[..n], r);
      Assoc(s[..n], r, ch);
      q := s[..n] + r;
    }
  }

  lemma NoText()
    ensures ValidUtf8([]) && forall s: bytes :: [] + s == s
  {
  }
}
