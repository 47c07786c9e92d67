/** Facts about trimming and line ends that the framing proofs use. */
module TextFacts {
  import opened Bytes
  import opened Text

  /** A prefix of something that does not start with white space does not either. */
  lemma NoWhiteAtStartOfPrefix(s: bytes, k: nat)
    requires k <= |s| && WhiteAtStart(s) == 0
    ensures WhiteAtStart(s[..k]) == 0
  {
  }

  lemma {:induction false} TrimStartDone(s: bytes)
    ensures WhiteAtStart(TrimStart(s)) == 0 && |TrimStart(s)| <= |s|
    decreases |s|
  {
    if WhiteAtStart(s) > 0 { TrimStartDone(s[WhiteAtStart(s)..]); }
  }

  lemma {:induction false} TrimEndDone(s: bytes)
    ensures WhiteAtEnd(TrimEnd(s)) == 0
    ensures |TrimEnd(s)| <= |s| && TrimEnd(s) == s[..|TrimEnd(s)|]
    decreases |s|
  {
    var n := WhiteAtEnd(s);
    if n > 0 {
      TrimEndDone(s[..|s| - n]);
      assert s[..|s| - n][..|TrimEnd(s)|] == s[..|TrimEnd(s)|];
    }
  }

  lemma TrimIsTrimmed(s: bytes)
    ensures Trimmed(Trim(s))
  {
    var t := TrimStart(s);
    TrimStartDone(s);
    TrimEndDone(t);
    NoWhiteAtStartOfPrefix(t, |TrimEnd(t)|);
  }

  lemma TrimTwice(s: bytes)
    ensures Trim(Trim(s)) == Trim(s)
  {
    TrimIsTrimmed(s);
    TrimOfTrimmed(Trim(s));
  }

  lemma TrimEndDropsWhite(s: bytes, w: byte)
    requires White1(w)
    ensures TrimEnd(s + [w]) == TrimEnd(s)
  {
    assert (s + [w])[..|s|] == s;
  }

  lemma {:induction false} TrimStartBeforeWhite(s: bytes, w: byte)
    requires White1(w)
    ensures TrimStart(s + [w]) == if TrimStart(s) == [] then [] else TrimStart(s) + [w]
    decreases |s|
  {
    var n := WhiteAtStart(s);
    if s == [] {
      assert (s + [w])[1..] == [];
    } else if n > 0 {
      assert WhiteAtStart(s + [w]) == n;
      assert (s + [w])[n..] == s[n..] + [w];
      TrimStartBeforeWhite(s[n..], w);
    } else {
      assert WhiteAtStart(s + [w]) == 0;
    }
  }

  /** White space after the text does not change what trimming leaves. */
  lemma TrimIgnoresEol(s: bytes, w: byte)
    requires White1(w)
    ensures Trim(s + [w]) == Trim(s)
  {
    TrimStartBeforeWhite(s, w);
    TrimEndDropsWhite(TrimStart(s), w);
  }

  lemma TrimIgnoresCrlf(s: bytes)
    ensures Trim(s + CRLF) == Trim(s)
  {
    assert s + CRLF == s + [CR] + [LF];
    TrimIgnoresEol(s + [CR], LF);
    TrimIgnoresEol(s, CR);
  }

  lemma TrimIgnoresLeadingSpace(s: bytes)
    ensures Trim([SPACE] + s) == Trim(s)
  {
    assert ([SPACE] + s)[1..] == s;
  }

  ghost predicate AllWhite1(s: bytes)
  {
    forall i | 0 <= i < |s| :: White1(s[i])
  }

  lemma {:induction false} TrimIgnoresWhiteBehind(s: bytes, w: bytes)
    requires AllWhite1(w)
    ensures Trim(s + w) == Trim(s)
    decreases |w|
  {
    hide Trim;
    if w == [] {
      assert s + w == s;
    } else {
      var n := |w| - 1;
      TrimIgnoresWhiteBehind(s, w[..n]);
      assert s + w == s + w[..n] + [w[n]];
      TrimIgnoresEol(s + w[..n], w[n]);
    }
  }

  lemma {:induction false} TrimIgnoresWhiteInFront(w: bytes, s: bytes)
    requires AllWhite1(w)
    ensures Trim(w + s) == Trim(s)
    decreases |w|
  {
    if w == [] {
      assert w + s == s;
    } else {
      assert (w + s)[1..] == w[1..] + s;
      TrimIgnoresWhiteInFront(w[1..], s);
    }
  }

  /** What stands between white space is what trimming leaves. */
  lemma TrimOfPadded(before: bytes, s: bytes, behind: bytes)
    requires AllWhite1(before) && AllWhite1(behind) && Trimmed(s)
    ensures Trim(before + s + behind) == s
  {
    TrimIgnoresWhiteBehind(before + s, behind);
    TrimIgnoresWhiteInFront(before, s);
    TrimOfTrimmed(s);
  }

  lemma StripEolOne(s: bytes, w: byte)
    requires w == CR || w == LF
    ensures StripEol(s + [w]) == StripEol(s)
  {
    assert (s + [w])[..|s|] == s;
  }

  /** A line end comes off the text it ends. */
  lemma StripEolOfLine(t: bytes, eol: bytes)
    requires t == [] || (t[|t| - 1] != CR && t[|t| - 1] != LF)
    requires eol == CRLF || eol == [LF]
    ensures StripEol(t + eol) == t
  {
    StripEolOne(t, CR);
    StripEolOne(t + [CR], LF);
    StripEolOne(t, LF);
    assert t + CRLF == t + [CR] + [LF];
  }

  lemma {:induction false} IndexOfInPrefix(s: bytes, t: bytes, b: byte)
    requires IndexOf(s, b) < |s|
    ensures IndexOf(s + t, b) == IndexOf(s, b)
  {
    if s[0] != b {
      assert (s + t)[1..] == s[1..] + t;
      IndexOfInPrefix(s[1..], t, b);
    }
  }

  lemma {:induction false} IndexOfAfter(s: bytes, t: bytes, b: byte)
    requires b !in s
    ensures IndexOf(s + t, b) == |s| + IndexOf(t, b)
  {
    if s == [] {
      assert s + t == t;
    } else {
      assert (s + t)[1..] == s[1..] + t;
      IndexOfAfter(s[1..], t, b);
    }
  }

  // ── two pieces with a space between them ──

  lemma WhiteAtStartBeforeSpace(s: bytes, x: bytes)
    ensures s != [] ==> WhiteAtStart(s + ([SPACE] + x)) == WhiteAtStart(s)
  {
    var t := s + ([SPACE] + x);
    assert |s| > 0 ==> t[|s|] == SPACE;
  }

  /** White space in front goes, and what is left stands in front of the space. */
  lemma {:induction false} TrimStartBeforeSpace(s: bytes, x: bytes)
    ensures TrimStart(s + ([SPACE] + x)) == if TrimStart(s) == [] then TrimStart(x) else TrimStart(s) + ([SPACE] + x)
    decreases |s|
  {
    var t := s + ([SPACE] + x);
    WhiteAtStartBeforeSpace(s, x);
    if s == [] {
      assert t == [SPACE] + x && t[1..] == x;
    } else {
      var n := WhiteAtStart(s);
      if n > 0 {
        assert t[n..] == s[n..] + ([SPACE] + x);
        TrimStartBeforeSpace(s[n..], x);
      }
    }
  }

  lemma WhiteAtEndAfterSpace(s: bytes, x: bytes)
    requires x != []
    ensures WhiteAtEnd(s + ([SPACE] + x)) == WhiteAtEnd(x)
  {
    var t := s + ([SPACE] + x);
    assert t[|s|] == SPACE;
    forall k | 0 <= k < |x| ensures t[|s| + 1 + k] == x[k] {}
    var n := |t|;
    assert t[n - 1] == x[|x| - 1];
    assert |x| >= 2 ==> t[n - 2] == x[|x| - 2];
    assert |x| >= 3 ==> t[n - 3] == x[|x| - 3];
    assert |x| == 1 ==> t[n - 2] == SPACE;
    assert |x| == 2 ==> t[n - 3] == SPACE;
  }

  /** Nothing but white space, seen from the end, is nothing but that from the front. */
  lemma {:induction false} AllWhite(s: bytes)
    requires TrimEnd(s) == [] && s != []
    ensures WhiteAtStart(s) > 0
    decreases |s|
  {
    var n := WhiteAtEnd(s);
    if n < |s| {
      AllWhite(s[..|s| - n]);
      if WhiteAtStart(s) == 0 { NoWhiteAtStartOfPrefix(s, |s| - n); }
    }
  }

  lemma TrimmedAway(s: bytes)
    ensures Trim(s) == [] <==> TrimStart(s) == []
  {
    TrimStartDone(s);
    if TrimEnd(TrimStart(s)) == [] && TrimStart(s) != [] { AllWhite(TrimStart(s)); }
  }

  lemma {:induction false} NoDigits(s: bytes, k: nat)
    requires k < |s| && !Digit(s[k])
    ensures Digits(s) == None
    decreases |s|
  {
    if k < |s| - 1 { NoDigits(s[..|s| - 1], k); }
  }

  /** A number has no space inside. */
  lemma SpaceInside(u: bytes, x: bytes, max: nat)
    requires u != []
    ensures ParseUnsigned(u + ([SPACE] + x), max) == None
  {
    var s := u + ([SPACE] + x);
    assert s[|u|] == SPACE;
    if |s| > 1 && s[0] == PLUS {
      assert s[1..][|u| - 1] == SPACE;
      NoDigits(s[1..], |u| - 1);
    } else {
      NoDigits(s, |u|);
    }
  }

  /** A trimmed piece behind a space: alone it is what trimming leaves; behind some
      other text the two never are a number. */
  lemma JoinedValue(v: bytes, x: bytes, max: nat)
    requires Trimmed(x)
    ensures var w := v + [SPACE] + x;
      && (Trim(w) == [] <==> Trim(v) == [] && x == [])
      && (x == [] ==> Trim(w) == Trim(v))
      && (Trim(v) == [] ==> Trim(w) == x)
      && (Trim(v) != [] && x != [] ==> ParseUnsigned(Trim(w), max) == None)
  {
    hide ParseUnsigned, WhiteAtStart, WhiteAtEnd, White1;
    var w := v + [SPACE] + x;
    assert w == v + ([SPACE] + x);
    TrimmedAway(v);
    TrimOfTrimmed(x);
    if x == [] {
      assert w == v + [SPACE];
      SpaceIsWhite();
      TrimIgnoresEol(v, SPACE);
    } else {
      TrimStartBeforeSpace(v, x);
      if Trim(v) != [] {
        var u := TrimStart(v);
        WhiteAtEndAfterSpace(u, x);
        NothingToTrim(u + ([SPACE] + x));
        SpaceInside(u, x, max);
      }
    }
  }

  lemma SpaceIsWhite()
    ensures White1(SPACE)
  {
  }

  lemma NothingToTrim(s: bytes)
    requires WhiteAtEnd(s) == 0
    ensures TrimEnd(s) == s
  {
  }

  // ── numbers ──

  function Zeros(n: nat): bytes
  {
    seq(n, _ => 48)
  }

  lemma {:induction false} DigitsOfZeros(n: nat)
    requires n > 0
    ensures Digits(Zeros(n)) == Some(0)
  {
    assert Zeros(n)[..n - 1] == Zeros(n - 1);
    if n > 1 { DigitsOfZeros(n - 1); }
  }

  lemma {:induction false} DigitsOfPrinted(n: nat, v: nat)
    ensures Digits(Zeros(n) + Decimal(v)) == Some(v)
    decreases v
  {
    var s := Zeros(n) + Decimal(v);
    if v < 10 {
      assert s[..|s| - 1] == Zeros(n);
      if n > 0 { DigitsOfZeros(n); }
    } else {
      DigitsOfPrinted(n, v / 10);
      assert s[..|s| - 1] == Zeros(n) + Decimal(v / 10);
    }
  }

  lemma {:induction false} PrintedDigits(s: bytes, v: nat) returns (n: nat)
    requires Digits(s) == Some(v)
    ensures s == Zeros(n) + Decimal(v)
    decreases |s|
  {
    if |s| == 1 {
      n := 0;
    } else {
      var k := |s| - 1;
      LastDigit(s, v);
      n := PrintedDigits(s[..k], v / 10);
      hide Digits, Zeros;
      if v / 10 == 0 {
        n := n + 1;
        ZerosOneMore(n - 1, s[k]);
      } else {
        Assoc(Zeros(n), Decimal(v / 10), [s[k]]);
      }
    }
  }

  lemma LastDigit(s: bytes, v: nat)
    requires |s| > 1 && Digits(s) == Some(v)
    ensures Digits(s[..|s| - 1]) == Some(v / 10) && v % 10 + 48 == s[|s| - 1]
    ensures s == s[..|s| - 1] + [s[|s| - 1]]
  {
    TensAndOnes(Digits(s[..|s| - 1]).value, s[|s| - 1] as int - 48);
  }

  lemma TensAndOnes(tens: nat, ones: int)
    requires 0 <= ones < 10
    ensures (10 * tens + ones) / 10 == tens && (10 * tens + ones) % 10 == ones
  {
  }

  lemma ZerosOneMore(n: nat, b: byte)
    ensures Zeros(n) + [48] + [b] == Zeros(n + 1) + [b]
  {
  }

  /** What reads as a number: its digits behind any number of zeros, with or without one
      plus sign in front, as far as it fits. */
  lemma ParseUnsignedExactly(s: bytes, max: nat, v: nat)
    ensures ParseUnsigned(s, max) == Some(v) <==>
      v <= max && exists n :: s == Zeros(n) + Decimal(v) || s == [PLUS] + (Zeros(n) + Decimal(v))
  {
    hide Digits, Zeros;
    if ParseUnsigned(s, max) == Some(v) {
      var signed := |s| > 1 && s[0] == PLUS;
      var n := PrintedDigits(if signed then s[1..] else s, v);
      if signed { assert s == [PLUS] + s[1..]; }
      assert s == Zeros(n) + Decimal(v) || s == [PLUS] + (Zeros(n) + Decimal(v));
    }
    if n :| v <= max && (s == Zeros(n) + Decimal(v) || s == [PLUS] + (Zeros(n) + Decimal(v))) {
      DigitsOfPrinted(n, v);
      NoPlusInFront(Zeros(n) + Decimal(v), v);
      if s == [PLUS] + (Zeros(n) + Decimal(v)) { assert s[1..] == Zeros(n) + Decimal(v); }
    }
  }

  lemma NoPlusInFront(s: bytes, v: nat)
    requires Digits(s) == Some(v)
    ensures s != [] && s[0] != PLUS
    decreases |s|
  {
    if |s| > 1 { NoPlusInFront(s[..|s| - 1], v / 10); }
  }
}
