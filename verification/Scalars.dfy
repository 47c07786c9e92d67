/** Text as characters and text as bytes: UTF-8 (section 3 of RFC 3629) as an encoding of
  strings, and trimming as the same on both sides. */
module Scalars {
  import opened Bytes
  import opened Text
  import opened Utf8
  import opened CachedText
  import OcrFiles

  /** One character in UTF-8. */
  function Encode(c: char): (b: bytes)
    ensures 1 <= |b| <= 4
  {
    var n := c as int;
    if n < 0x80 then [n]
    else if n < 0x800 then [0xC0 + n / 0x40, 0x80 + n % 0x40]
    else if n < 0x1_0000 then [0xE0 + n / 0x1000, 0x80 + n / 0x40 % 0x40, 0x80 + n % 0x40]
    else [0xF0 + n / 0x4_0000, 0x80 + n / 0x1000 % 0x40, 0x80 + n / 0x40 % 0x40, 0x80 + n % 0x40]
  }

  function EncodeAll(s: string): bytes
  {
    if s == "" then [] else Encode(s[0]) + EncodeAll(s[1..])
  }

  // ── the characters of UTF-8 ──

  lemma ThreeBytes(n: int)
    requires 0x800 <= n < 0xD800 || 0xE000 <= n < 0x1_0000
    ensures var a, b := n / 0x1000, n / 0x40 % 0x40;
      0 <= a <= 0xF && (a == 0 ==> b >= 0x20) && (a == 0xD ==> b < 0x20)
  {
  }

  lemma FourBytes(n: int)
    requires 0x1_0000 <= n < 0x11_0000
    ensures var a, b := n / 0x4_0000, n / 0x1000 % 0x40;
      0 <= a <= 4 && (a == 0 ==> b >= 0x10) && (a == 4 ==> b <= 0xF)
  {
  }

  lemma EncodedIsChar(c: char)
    ensures IsChar(Encode(c))
  {
    var n := c as int;
    if n >= 0x1_0000 { FourBytes(n); } else if n >= 0x800 { ThreeBytes(n); }
  }

  /** Six more bits behind a number. */
  function Behind(n: int, tail: byte): int
  {
    n * 0x40 + (tail as int - 0x80)
  }

  /** The number a character of UTF-8 stands for. */
  function Scalar(ch: bytes): int
    requires IsChar(ch)
  {
    var lead: int := ch[0];
    if |ch| == 1 then lead
    else if |ch| == 2 then Behind(lead - 0xC0, ch[1])
    else if |ch| == 3 then Behind(Behind(lead - 0xE0, ch[1]), ch[2])
    else Behind(Behind(Behind(lead - 0xF0, ch[1]), ch[2]), ch[3])
  }

  lemma BehindParts(n: int, tail: byte)
    requires Tail(tail)
    ensures Behind(n, tail) / 0x40 == n && Behind(n, tail) % 0x40 == tail - 0x80
  {
  }

  lemma ScalarIsChar(ch: bytes)
    requires IsChar(ch)
    ensures 0 <= Scalar(ch) < 0xD800 || 0xE000 <= Scalar(ch) < 0x11_0000
    ensures Encode(Scalar(ch) as char) == ch
  {
    if |ch| == 3 { ScalarOfThree(ch); } else if |ch| == 4 { ScalarOfFour(ch); } else { ScalarOfShort(ch); }
  }

  lemma ScalarOfShort(ch: bytes)
    requires IsChar(ch) && |ch| <= 2
    ensures 0 <= Scalar(ch) < 0xD800 && Encode(Scalar(ch) as char) == ch
  {
    if |ch| == 2 { BehindParts(ch[0] as int - 0xC0, ch[1]); }
  }

  lemma ScalarOfThree(ch: bytes)
    requires IsChar(ch) && |ch| == 3
    ensures 0x800 <= Scalar(ch) < 0xD800 || 0xE000 <= Scalar(ch) < 0x1_0000
    ensures Encode(Scalar(ch) as char) == ch
  {
    var lead: int := ch[0];
    BehindParts(lead - 0xE0, ch[1]);
    BehindParts(Behind(lead - 0xE0, ch[1]), ch[2]);
    Shifted(Scalar(ch));
  }

  lemma ScalarOfFour(ch: bytes)
    requires IsChar(ch) && |ch| == 4
    ensures 0x1_0000 <= Scalar(ch) < 0x11_0000
    ensures Encode(Scalar(ch) as char) == ch
  {
    var lead: int := ch[0];
    BehindParts(lead - 0xF0, ch[1]);
    BehindParts(Behind(lead - 0xF0, ch[1]), ch[2]);
    BehindParts(Behind(Behind(lead - 0xF0, ch[1]), ch[2]), ch[3]);
    Shifted(Scalar(ch));
  }

  lemma Shifted(n: int)
    ensures n / 0x1000 == n / 0x40 / 0x40 && n / 0x4_0000 == n / 0x40 / 0x40 / 0x40
  {
  }

  lemma {:induction false} EncodedIsText(s: string)
    ensures ValidUtf8(EncodeAll(s))
  {
    if s != "" {
      hide Encode, IsChar, Utf8Char;
      EncodedIsChar(s[0]);
      EncodedIsText(s[1..]);
      CharIsText(Encode(s[0]));
      ValidUtf8Concat(Encode(s[0]), EncodeAll(s[1..]));
    }
  }

  lemma {:induction false} TextIsEncoded(b: bytes) returns (s: string)
    requires ValidUtf8(b)
    ensures EncodeAll(s) == b
    decreases |b|
  {
    hide Encode, IsChar, Utf8Char, ValidUtf8, Scalar;
    if b == [] {
      s := "";
    } else {
      var n := Utf8Char(b);
      FirstChar(b);
      var more := TextIsEncoded(b[n..]);
      ScalarIsChar(b[..n]);
      s := [Scalar(b[..n]) as char] + more;
      assert s[1..] == more;
    }
  }

  /** Well-formed UTF-8 is exactly what encoding a string of characters gives. */
  lemma TextExactly(b: bytes)
    ensures ValidUtf8(b) <==> exists s :: EncodeAll(s) == b
  {
    if ValidUtf8(b) { var s := TextIsEncoded(b); }
    if s :| EncodeAll(s) == b { EncodedIsText(s); }
  }

  // ── white space ──

  /** At the front of a text stands white space exactly when its first character is. */
  lemma WhiteInFront(c: char, t: bytes)
    ensures WhiteAtStart(Encode(c) + t) == if White(c) then |Encode(c)| else 0
  {
    var n, s := c as int, Encode(c) + t;
  }

  lemma WhiteBehind(t: bytes, c: char)
    ensures WhiteAtEnd(t + Encode(c)) == if White(c) then |Encode(c)| else 0
  {
    var n, s := c as int, t + Encode(c);
  }

  lemma {:induction false} TrimStartAgrees(s: string)
    ensures TrimStart(EncodeAll(s)) == EncodeAll(TrimStringStart(s))
  {
    hide Encode, WhiteAtStart, White;
    if s == "" {
      NothingWhite();
    } else {
      var b, t := Encode(s[0]), EncodeAll(s[1..]);
      WhiteInFront(s[0], t);
      assert (b + t)[|b|..] == t;
      TrimStartAgrees(s[1..]);
    }
  }

  lemma NothingWhite()
    ensures WhiteAtStart([]) == 0 && WhiteAtEnd([]) == 0
  {
  }

  lemma {:induction false} EncodeSnoc(s: string, c: char)
    ensures EncodeAll(s + [c]) == EncodeAll(s) + Encode(c)
  {
    hide Encode;
    if s == "" {
      assert (s + [c])[1..] == "" && EncodeAll("") == [];
    } else {
      assert (s + [c])[1..] == s[1..] + [c];
      EncodeSnoc(s[1..], c);
    }
  }

  lemma {:induction false} TrimEndAgrees(s: string)
    ensures TrimEnd(EncodeAll(s)) == EncodeAll(TrimStringEnd(s))
    decreases |s|
  {
    hide Encode, WhiteAtEnd, White, EncodeAll;
    if s == "" {
      NothingWhite();
      assert EncodeAll(s) == [] by { EncodeNothing(); }
    } else {
      var n := |s| - 1;
      var b, t := Encode(s[n]), EncodeAll(s[..n]);
      assert s == s[..n] + [s[n]];
      EncodeSnoc(s[..n], s[n]);
      WhiteBehind(t, s[n]);
      assert (t + b)[..|t|] == t;
      TrimEndAgrees(s[..n]);
    }
  }

  lemma EncodeNothing()
    ensures EncodeAll("") == []
  {
  }

  /** Trimming the bytes of a text is trimming its characters. */
  lemma TrimAgrees(s: string)
    ensures Trim(EncodeAll(s)) == EncodeAll(TrimString(s))
  {
    TrimStartAgrees(s);
    TrimEndAgrees(TrimStringStart(s));
  }

  // ── case ──

  lemma LowerOfChar(c: char)
    ensures Lower(Encode(c)) == Encode(OcrFiles.LowerChar(c))
  {
    var n := c as int;
    assert n >= 0x80 ==> forall i | 0 <= i < |Encode(c)| :: Encode(c)[i] >= 0x80;
  }

  lemma LowerConcat(a: bytes, b: bytes)
    ensures Lower(a + b) == Lower(a) + Lower(b)
  {
  }

  lemma LowerNothing()
    ensures Lower([]) == [] && OcrFiles.Lowered("") == ""
  {
  }

  /** Lowering the bytes of a text is lowering its ASCII letters, character by character. */
  lemma {:induction false} LowerAgrees(s: string)
    ensures Lower(EncodeAll(s)) == EncodeAll(OcrFiles.Lowered(s))
  {
    hide Encode, Lower, OcrFiles.LowerChar;
    if s == "" {
      LowerNothing();
    } else {
      LowerOfChar(s[0]);
      LowerConcat(Encode(s[0]), EncodeAll(s[1..]));
      LowerAgrees(s[1..]);
      assert OcrFiles.Lowered(s)[1..] == OcrFiles.Lowered(s[1..]);
    }
  }

  // ── text made of any bytes ──

  /** Whatever the bytes, what is made of them is text; of text nothing is changed. */
  lemma {:induction false} LossyIsText(s: bytes)
    ensures ValidUtf8(FromUtf8Lossy(s))
    ensures ValidUtf8(s) ==> FromUtf8Lossy(s) == s
    decreases |s|
  {
    hide Utf8Char, BadLength, IsChar;
    if ValidUtf8(s) { LossyOfText(s); }
    if s != [] {
      var n := Utf8Char(s);
      if n > 0 {
        PrefixIsChar(s);
        CharIsText(s[..n]);
        LossyIsText(s[n..]);
        ValidUtf8Concat(s[..n], FromUtf8Lossy(s[n..]));
      } else {
        ReplacementIsText();
        LossyIsText(s[BadLength(s)..]);
        ValidUtf8Concat(REPLACEMENT, FromUtf8Lossy(s[BadLength(s)..]));
      }
    }
  }

  /** The start of some character, or all of it. */
  ghost predicate StartsChar(x: bytes)
  {
    exists t: bytes :: IsChar(x + t)
  }

  lemma BadIsStart(s: bytes)
    requires s != [] && Utf8Char(s) == 0 && BadLength(s) > 1
    ensures StartsChar(s[..BadLength(s)])
  {
    var x := s[..BadLength(s)];
    if |x| == 2 && Leads3(s[0], s[1]) {
      assert IsChar(x + [0x80]);
    } else if |x| == 2 {
      assert IsChar(x + [0x80, 0x80]);
    } else {
      assert IsChar(x + [0x80]);
    }
  }

  lemma NoLongerStart(s: bytes)
    requires s != [] && Utf8Char(s) == 0 && BadLength(s) < |s|
    ensures !StartsChar(s[..BadLength(s) + 1])
  {
    var x := s[..BadLength(s) + 1];
    forall t: bytes ensures !IsChar(x + t) {
      var y := x + t;
      assert forall i | 0 <= i < |x| :: y[i] == s[i];
    }
  }

  /** One replacement stands for as many bytes as are the start of a character, and for
      one byte when there is no longer such start (Unicode 15.0, section 3.9, U+FFFD
      Substitution of Maximal Subparts). */
  lemma BadLengthExactly(s: bytes)
    requires s != [] && Utf8Char(s) == 0
    ensures BadLength(s) > 1 ==> StartsChar(s[..BadLength(s)])
    ensures BadLength(s) < |s| ==> !StartsChar(s[..BadLength(s) + 1])
  {
    hide Utf8Char, BadLength, StartsChar;
    if BadLength(s) > 1 { BadIsStart(s); }
    if BadLength(s) < |s| { NoLongerStart(s); }
  }

  lemma ReplacementIsText()
    ensures ValidUtf8(REPLACEMENT) && REPLACEMENT == Encode('\U{FFFD}')
  {
    assert IsChar(REPLACEMENT);
    CharIsText(REPLACEMENT);
  }
}
