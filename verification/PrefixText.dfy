/** Prefix ranges as the query sees them: between a prefix and its bound, both text. */
module PrefixText {
  import opened Bytes
  import opened Text
  import opened Utf8
  import opened CdxStore

  // ── the bound of one character ──

  /** A character with its last byte incremented. */
  function Bumped(ch: bytes): bytes
    requires IsChar(ch)
  {
    LastIsLow(ch);
    ch[..|ch| - 1] + [ch[|ch| - 1] + 1]
  }

  lemma LastIsLow(ch: bytes)
    requires IsChar(ch)
    ensures ch != [] && ch[|ch| - 1] <= 0xBF
  {
  }

  /** The last byte of its kind, behind which no character starts. */
  predicate LastOfKind(b: byte)
  {
    b == 0x7F || b == 0xBF
  }

  lemma BumpedIsChar(ch: bytes)
    requires IsChar(ch) && !LastOfKind(ch[|ch| - 1])
    ensures IsChar(Bumped(ch))
  {
  }

  lemma BumpedAscii(ch: bytes)
    requires IsChar(ch) && ch[|ch| - 1] == 0x7F
    ensures ch == [0x7F] && !ValidUtf8(Bumped(ch)) && FromUtf8Lossy(Bumped(ch)) == REPLACEMENT
  {
    assert Bumped(ch) == [0x80] && Utf8Char([0x80]) == 0 && BadLength([0x80]) == 1;
    assert [0x80][1..] == [];
  }

  lemma LoneC0()
    ensures FromUtf8Lossy([0xC0]) == REPLACEMENT
  {
    assert Utf8Char([0xC0]) == 0 && BadLength([0xC0]) == 1 && [0xC0][1..] == [];
  }

  lemma BumpedWide(ch: bytes)
    requires IsChar(ch) && ch[|ch| - 1] == 0xBF
    ensures |ch| >= 2 && !ValidUtf8(Bumped(ch)) && FromUtf8Lossy(Bumped(ch)) == REPLACEMENT + REPLACEMENT
  {
    var s := Bumped(ch);
    assert Utf8Char(s) == 0 && BadLength(s) == |s| - 1;
    assert s[|s| - 1..] == [0xC0];
    LoneC0();
  }

  // ── the bound of a prefix ──

  lemma NextAfter(q: bytes, ch: bytes)
    requires IsChar(ch)
    ensures NextPrefix(q + ch) == q + Bumped(ch) && (q + ch)[|q + ch| - 1] == ch[|ch| - 1]
  {
    LastIsLow(ch);
    hide IsChar;
    var p := q + ch;
    assert p[..|p| - 1] == q + ch[..|ch| - 1];
    Assoc(q, ch[..|ch| - 1], [ch[|ch| - 1] + 1]);
  }

  /** The bound, as text, of text and one character. */
  lemma BoundTextIs(q: bytes, ch: bytes)
    requires ValidUtf8(q) && IsChar(ch)
    ensures BoundText(q + ch) == q +
      if ch[|ch| - 1] == 0x7F then REPLACEMENT else if ch[|ch| - 1] == 0xBF then REPLACEMENT + REPLACEMENT
        else Bumped(ch)
    ensures ValidUtf8(NextPrefix(q + ch)) <==> !LastOfKind(ch[|ch| - 1])
  {
    hide ValidUtf8, IsChar, Bumped, FromUtf8Lossy;
    LastIsLow(ch);
    NextAfter(q, ch);
    LossyAfterText(q, Bumped(ch));
    ValidBehindText(q, Bumped(ch));
    if ch[|ch| - 1] == 0x7F {
      BumpedAscii(ch);
    } else if ch[|ch| - 1] == 0xBF {
      BumpedWide(ch);
    } else {
      BumpedIsChar(ch);
      CharIsText(Bumped(ch));
      LossyOfText(Bumped(ch));
    }
  }

  /** The bound of a text is text exactly when the last byte is neither 0x7F nor 0xBF. */
  lemma BoundIsText(p: bytes)
    requires ValidUtf8(p) && p != []
    ensures ValidUtf8(NextPrefix(p)) <==> p[|p| - 1] != 0x7F && p[|p| - 1] != 0xBF
  {
    hide ValidUtf8, IsChar;
    var q, ch := LastChar(p);
    NextAfter(q, ch);
    BoundTextIs(q, ch);
  }

  // ── the range ──

  /** Between `p` and its bound is, among texts, what starts with `p`. */
  ghost predicate RangeIsPrefix(p: bytes)
  {
    forall s: bytes | ValidUtf8(s) :: AtMost(p, s) && Less(s, BoundText(p)) <==> p <= s
  }

  lemma RangeHolds(p: bytes)
    requires ValidUtf8(p) && p != [] && !LastOfKind(p[|p| - 1])
    ensures RangeIsPrefix(p)
  {
    hide ValidUtf8, IsChar, FromUtf8Lossy, Less, AtMost;
    var q, ch := LastChar(p);
    NextAfter(q, ch);
    LastIsLow(ch);
    BoundTextIs(q, ch);
    LossyOfText(NextPrefix(p));
    forall s: bytes | ValidUtf8(s) ensures AtMost(p, s) && Less(s, BoundText(p)) <==> p <= s {
      PrefixRange(p, s);
    }
  }

  /** Text behind the same text, compared. */
  lemma BehindSame(q: bytes, x: bytes, y: bytes)
    ensures Less(q + x, q + y) <==> Less(x, y)
    ensures q + x <= q + y <==> x <= y
  {
    hide Less;
    LessConcat(q, x, q, y);
    Total(q, q);
    if x <= y { assert (q + y)[..|q + x|] == q + x; }
    if q + x <= q + y { assert (q + y)[|q|..][..|x|] == y[..|x|]; assert (q + x)[|q|..] == x; }
  }

  /** A text on the wrong side. */
  lemma RangeMisses(p: bytes, s: bytes)
    requires ValidUtf8(s) && !(AtMost(p, s) && Less(s, BoundText(p)) <==> p <= s)
    ensures !RangeIsPrefix(p)
  {
    hide ValidUtf8, BoundText, Less, AtMost;
  }

  lemma FirstDecides(a: bytes, b: bytes)
    requires a != [] && b != [] && a[0] < b[0]
    ensures Less(a, b) && !Less(b, a) && !(a <= b) && !(b <= a)
  {
  }

  /** U+FFFC, just below the replacement character. */
  const BELOW: bytes := [0xEF, 0xBF, 0xBC]

  lemma BelowReplacement(tail: bytes)
    ensures IsChar(BELOW) && Less(BELOW, REPLACEMENT + tail)
  {
    var x, y := BELOW, REPLACEMENT + tail;
    assert y[0] == 0xEF && y[1] == 0xBF && y[2] == 0xBD;
    assert x[1..][0] == y[1..][0] && x[1..][1..][0] < y[1..][1..][0];
  }

  /** Up to the replacement character a character that ends in 0xBF is below U+FFFC. */
  lemma WideIsBelowOrAbove(ch: bytes)
    requires IsChar(ch) && ch[|ch| - 1] == 0xBF
    ensures (Less(ch, BELOW) && !(ch <= BELOW)) || !Less(ch, REPLACEMENT + REPLACEMENT)
  {
    var y := REPLACEMENT + REPLACEMENT;
    assert y[0] == 0xEF && y[1] == 0xBF && y[2] == 0xBD;
    if ch[0] < 0xEF {
      FirstDecides(ch, BELOW);
    } else if ch[0] > 0xEF {
      FirstDecides(y, ch);
    } else {
      SecondDecides(ch, BELOW);
      SecondDecides(ch, y);
    }
  }

  lemma SecondDecides(a: bytes, b: bytes)
    requires |a| == 3 && |b| >= 3 && a[0] == b[0]
    ensures a[1] < b[1] ==> Less(a, b) && !(a <= b)
    ensures a[1] == b[1] && b[2] < a[2] ==> !Less(a, b)
  {
    var x, y := a[1..], b[1..];
    assert x[0] == a[1] && y[0] == b[1] && x[1..][0] == a[2] && y[1..][0] == b[2];
    assert Less(a, b) == Less(x, y);
    assert b[2] < a[2] ==> !Less(x[1..], y[1..]);
  }

  lemma RangeFails(q: bytes, ch: bytes)
    requires ValidUtf8(q) && IsChar(ch) && LastOfKind(ch[|ch| - 1])
    ensures !RangeIsPrefix(q + ch)
  {
    hide ValidUtf8, IsChar, FromUtf8Lossy, Less, RangeIsPrefix, BoundText;
    LastIsLow(ch);
    BoundTextIs(q, ch);
    var p, s := q + ch, q + BELOW;
    CharIsText(ch);
    ValidUtf8Concat(q, ch);
    BelowReplacement([]);
    BelowReplacement(REPLACEMENT);
    CharIsText(BELOW);
    ValidUtf8Concat(q, BELOW);
    BehindSame(q, ch, BELOW);
    BehindSame(q, BELOW, ch);
    if ch[|ch| - 1] == 0x7F {
      BumpedAscii(ch);
      FirstDecides(ch, BELOW);
      assert REPLACEMENT + [] == REPLACEMENT;
      BehindSame(q, BELOW, REPLACEMENT);
      RangeMisses(p, s);
    } else {
      WideIsBelowOrAbove(ch);
      Total(ch, BELOW);
      BehindSame(q, BELOW, REPLACEMENT + REPLACEMENT);
      BehindSame(q, ch, REPLACEMENT + REPLACEMENT);
      if Less(ch, BELOW) && !(ch <= BELOW) {
        RangeMisses(p, s);
      } else {
        Total(p, p);
        RangeMisses(p, p);
      }
    }
  }

  /** The prefix query finds exactly the texts that start with the prefix, except for
      the empty one and those whose last byte is 0x7F or 0xBF. */
  lemma RangeExactly(p: bytes)
    requires ValidUtf8(p)
    ensures RangeIsPrefix(p) <==> p != [] && p[|p| - 1] != 0x7F && p[|p| - 1] != 0xBF
  {
    hide ValidUtf8, IsChar, RangeIsPrefix, BoundText, Less, AtMost;
    if p == [] {
      EmptyPrefix();
    } else if LastOfKind(p[|p| - 1]) {
      var q, ch := LastChar(p);
      NextAfter(q, ch);
      RangeFails(q, ch);
    } else {
      RangeHolds(p);
    }
  }

  /** The bound of the empty prefix is empty: nothing is below it. */
  lemma EmptyPrefix()
    ensures !RangeIsPrefix([])
  {
    assert BoundText([]) == [];
    RangeMisses([], []);
  }
}
