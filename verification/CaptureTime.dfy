/** Captures by time: text order of timestamps is order in time, but distance in
  numerals is not distance in time. When the lookup is nearest in time all the same. */
module CaptureTime {
  import opened Bytes
  import opened Text
  import Calendar
  import opened CdxStore

  // ── timestamps by their parts ──

  /** Text order of two strings of the same length, part by part. */
  lemma LessParts(a: bytes, b: bytes, k: nat)
    requires k <= |a| == |b|
    ensures Less(a, b) <==> Less(a[..k], b[..k]) || (a[..k] == b[..k] && Less(a[k..], b[k..]))
  {
    LessConcat(a[..k], a[k..], b[..k], b[k..]);
    assert a == a[..k] + a[k..] && b == b[..k] + b[k..];
  }

  /** Six numbers. */
  datatype Moment = Moment(year: nat, month: nat, day: nat, hour: nat, min: nat, sec: nat)

  function MomentOf(ts: bytes): Moment
    requires |ts| == 14
  {
    Moment(Numeral(ts[0..4]), Numeral(ts[4..6]), Numeral(ts[6..8]),
           Numeral(ts[8..10]), Numeral(ts[10..12]), Numeral(ts[12..14]))
  }

  function StampOf(m: Moment): bytes
  {
    Calendar.Stamp(m.year, m.month, m.day, m.hour, m.min, m.sec)
  }

  /** Six numbers that fit their places. */
  predicate Fits(m: Moment)
  {
    m.year < 10000 && m.month < 100 && m.day < 100 && m.hour < 100 && m.min < 100 && m.sec < 100
  }

  lemma {:induction false} PaddedIs(n: nat, width: nat)
    requires n < Calendar.Pow10(width)
    ensures AllDigits(Calendar.Padded(n, width)) && Numeral(Calendar.Padded(n, width)) == n
    decreases width
  {
    var s := Calendar.Padded(n, width);
    if width > 0 {
      PaddedIs(n / 10, width - 1);
      assert s[..|s| - 1] == Calendar.Padded(n / 10, width - 1);
      DigitsIsNumeral(s);
      hide Digits;
    }
  }

  lemma {:induction false} PaddedOfNumeral(s: bytes)
    requires AllDigits(s)
    ensures Calendar.Padded(Numeral(s), |s|) == s
    decreases |s|
  {
    if s != [] {
      var n := |s| - 1;
      PaddedOfNumeral(s[..n]);
      DigitsIsNumeral(s);
      hide Digits, Numeral;
      assert Numeral(s) / 10 == Numeral(s[..n]) && Numeral(s) % 10 == s[n] - 48;
      assert s == s[..n] + [s[n]];
    }
  }

  /** Printing a moment and reading its numbers are inverse. */
  lemma MomentInvertsStamp(m: Moment)
    requires Fits(m)
    ensures Stamp14(StampOf(m)) && MomentOf(StampOf(m)) == m
  {
    hide Numeral, Calendar.Padded, Calendar.Pow10, Calendar.Stamp;
    Calendar.Hundred();
    Calendar.StampParts(m.year, m.month, m.day, m.hour, m.min, m.sec);
    PaddedIs(m.year, 4);
    PaddedIs(m.month, 2);
    PaddedIs(m.day, 2);
    PaddedIs(m.hour, 2);
    PaddedIs(m.min, 2);
    PaddedIs(m.sec, 2);
    var s := StampOf(m);
    assert s == s[0..4] + s[4..6] + s[6..8] + s[8..10] + s[10..12] + s[12..14];
  }

  lemma StampInvertsMoment(ts: bytes)
    requires Stamp14(ts)
    ensures StampOf(MomentOf(ts)) == ts && Fits(MomentOf(ts))
  {
    hide Numeral, Calendar.Padded, Calendar.Pow10;
    PaddedOfNumeral(ts[0..4]);
    PaddedOfNumeral(ts[4..6]);
    PaddedOfNumeral(ts[6..8]);
    PaddedOfNumeral(ts[8..10]);
    PaddedOfNumeral(ts[10..12]);
    PaddedOfNumeral(ts[12..14]);
    NumeralBound(ts[0..4]);
    NumeralBound(ts[4..6]);
    NumeralBound(ts[6..8]);
    NumeralBound(ts[8..10]);
    NumeralBound(ts[10..12]);
    NumeralBound(ts[12..14]);
    Calendar.Hundred();
    assert ts == ts[0..4] + ts[4..6] + ts[6..8] + ts[8..10] + ts[10..12] + ts[12..14];
  }

  /** A date and a time of day, the second of a leap second included. */
  predicate ValidMoment(m: Moment)
  {
    Calendar.ValidDate(m.year, m.month, m.day) && m.hour < 24 && m.min < 60 && m.sec <= 60
  }

  /** `ts` is a printed date with a time of day. */
  ghost predicate Prints(ts: bytes, m: Moment)
  {
    ts == StampOf(m) && m.year <= 9999 && ValidMoment(m)
  }

  /** The lookup takes a text for a timestamp if and only if it is the print of a year of
      four digits, a valid date, an hour below 24, a minute below 60 and a second of at
      most 60. */
  lemma ValidExactly(ts: bytes)
    ensures ValidTimestamp(ts) <==> exists m :: Prints(ts, m)
  {
    hide Numeral, StampOf;
    if ValidTimestamp(ts) {
      StampInvertsMoment(ts);
      assert Prints(ts, MomentOf(ts));
    }
    if m :| Prints(ts, m) { MomentInvertsStamp(m); }
  }

  /** Two numbers, one after the other. */
  predicate Before(x: int, x': int, rest: bool)
  {
    x < x' || (x == x' && rest)
  }

  ghost predicate Earlier(m: Moment, n: Moment)
  {
    Before(m.year, n.year, Before(m.month, n.month, Before(m.day, n.day,
      Before(m.hour, n.hour, Before(m.min, n.min, m.sec < n.sec)))))
  }

  /** Text order of the first `w` digits and then of the rest. */
  lemma LessDigits(a: bytes, b: bytes, i: nat, j: nat)
    requires i <= j <= |a| == |b| && AllDigits(a) && AllDigits(b)
    ensures Less(a[i..], b[i..]) <==> Before(Numeral(a[i..j]), Numeral(b[i..j]), Less(a[j..], b[j..]))
  {
    hide Numeral, Less;
    LessParts(a[i..], b[i..], j - i);
    assert a[i..][..j - i] == a[i..j] && b[i..][..j - i] == b[i..j];
    assert a[i..][j - i..] == a[j..] && b[i..][j - i..] == b[j..];
    OrderIsNumeric(a[i..j], b[i..j]);
  }

  /** The order of timestamps is that of their numbers, the year first. */
  lemma OrderOfMoments(a: bytes, b: bytes)
    requires Stamp14(a) && Stamp14(b)
    ensures Less(a, b) <==> Earlier(MomentOf(a), MomentOf(b))
  {
    hide Numeral, Less;
    LessDigits(a, b, 0, 4);
    LessDigits(a, b, 4, 6);
    LessDigits(a, b, 6, 8);
    LessDigits(a, b, 8, 10);
    LessDigits(a, b, 10, 12);
    LessDigits(a, b, 12, 14);
    assert a[0..] == a && b[0..] == b;
    NothingLess(b[14..]);
  }

  // ── and in time ──

  lemma PartIsNumeral(s: bytes, otherwise: int)
    requires s != [] && AllDigits(s)
    ensures Calendar.SignedOr(s, otherwise) == Numeral(s)
  {
    hide Digits;
    assert Digit(s[0]);
    DigitsIsNumeral(s);
  }

  function Day(m: Moment): int
  {
    Calendar.DaysFromCivil(m.year, m.month, m.day)
  }

  function SecondOfDay(m: Moment): int
  {
    m.hour * 3600 + m.min * 60 + m.sec
  }

  lemma UnixOfMoment(ts: bytes)
    requires Stamp14(ts)
    ensures Calendar.TimestampToUnix(ts) == Day(MomentOf(ts)) * 86400 + SecondOfDay(MomentOf(ts))
  {
    hide Numeral, Calendar.SignedOr, Calendar.DaysFromCivil;
    PartIsNumeral(ts[0..4], 1970);
    PartIsNumeral(ts[4..6], 1);
    PartIsNumeral(ts[6..8], 1);
    PartIsNumeral(ts[8..10], 0);
    PartIsNumeral(ts[10..12], 0);
    PartIsNumeral(ts[12..14], 0);
  }

  lemma EarlierIsLess(m: Moment, n: Moment)
    requires ValidMoment(m) && ValidMoment(n) && Earlier(m, n)
    ensures Day(m) * 86400 + SecondOfDay(m) <= Day(n) * 86400 + SecondOfDay(n)
    ensures m.sec < 60 ==> Day(m) * 86400 + SecondOfDay(m) < Day(n) * 86400 + SecondOfDay(n)
  {
    hide Calendar.DaysFromCivil, Calendar.DaysInMonth;
    if Calendar.DateBefore(m.year, m.month, m.day, n.year, n.month, n.day) {
      Calendar.DaysAreOrdered(m.year, m.month, m.day, n.year, n.month, n.day);
    }
  }

  function Unix(ts: bytes): int
  {
    Calendar.TimestampToUnix(ts)
  }

  /** Text order is order in time; only a leap second can fall together with the
      second after it. */
  lemma OrderIsTime(a: bytes, b: bytes)
    requires ValidTimestamp(a) && ValidTimestamp(b)
    ensures Less(a, b) ==> Unix(a) <= Unix(b)
    ensures MomentOf(a).sec < 60 && MomentOf(b).sec < 60 ==> (Less(a, b) <==> Unix(a) < Unix(b))
  {
    hide Numeral, Less, Earlier, Calendar.TimestampToUnix, Day, SecondOfDay, Calendar.ValidDate;
    OrderOfMoments(a, b);
    OrderOfMoments(b, a);
    UnixOfMoment(a);
    UnixOfMoment(b);
    Total(a, b);
    if Less(a, b) { EarlierIsLess(MomentOf(a), MomentOf(b)); }
    if Less(b, a) { EarlierIsLess(MomentOf(b), MomentOf(a)); }
  }

  // ── nearest in time ──

  function SecondsApart(a: bytes, b: bytes): nat
  {
    Apart(Unix(a), Unix(b))
  }

  /** No capture of `surt` is nearer to the target in seconds. */
  ghost predicate NearestInTime(rows: Rows, surt: bytes, target: bytes, k: Key)
  {
    forall k' | k' in rows && k'.surt == surt :: SecondsApart(target, k.ts) <= SecondsApart(target, k'.ts)
  }

  /** Comparing two timestamps by numerals and by seconds picks the same one. */
  predicate SameChoice(target: bytes, before: bytes, after: bytes)
  {
    if TsDistance(target, before) <= TsDistance(target, after)
      then SecondsApart(target, before) <= SecondsApart(target, after)
    else SecondsApart(target, after) <= SecondsApart(target, before)
  }

  lemma NeighbourIsNearer(rows: Rows, surt: bytes, target: bytes, before: Option<Key>, after: Option<Key>, k: Key)
    requires Neighbours(rows, surt, target, before, after) && k in rows && k.surt == surt
    requires ValidTimestamp(target) && forall k | k in rows && k.surt == surt :: ValidTimestamp(k.ts)
    ensures if AtMost(k.ts, target)
            then before.Some? && SecondsApart(target, before.value.ts) <= SecondsApart(target, k.ts)
            else after.Some? && SecondsApart(target, after.value.ts) <= SecondsApart(target, k.ts)
  {
    hide Less, ValidTimestamp, Calendar.TimestampToUnix;
    if AtMost(k.ts, target) {
      AtMostIsTime(k.ts, before.value.ts);
      AtMostIsTime(before.value.ts, target);
    } else {
      OrderIsTime(target, after.value.ts);
      AtMostIsTime(after.value.ts, k.ts);
    }
  }

  lemma AtMostIsTime(a: bytes, b: bytes)
    requires ValidTimestamp(a) && ValidTimestamp(b) && AtMost(a, b)
    ensures Unix(a) <= Unix(b)
  {
    hide ValidTimestamp, Calendar.TimestampToUnix, Less;
    Total(a, b);
    OrderIsTime(a, b);
  }

  /** The capture found is nearest in time among all captures exactly when one of
      the two neighbours is missing or numerals and seconds agree on those two. */
  lemma ClosestInTime(rows: Rows, surt: bytes, target: bytes, before: Option<Key>, after: Option<Key>)
    requires Neighbours(rows, surt, target, before, after) && (before.Some? || after.Some?)
    requires ValidTimestamp(target) && forall k | k in rows && k.surt == surt :: ValidTimestamp(k.ts)
    ensures NearestInTime(rows, surt, target, Nearer(target, before, after).value) <==>
      before.None? || after.None? || SameChoice(target, before.value.ts, after.value.ts)
  {
    hide Less, AtMost, ValidTimestamp, TsDistance, SecondsApart;
    var r := Nearer(target, before, after).value;
    if before.None? || after.None? || SameChoice(target, before.value.ts, after.value.ts) {
      forall k | k in rows && k.surt == surt ensures SecondsApart(target, r.ts) <= SecondsApart(target, k.ts) {
        NeighbourIsNearer(rows, surt, target, before, after, k);
      }
    }
  }

  // ── numerals are not seconds ──

  lemma {:induction false} PaddedJoin(n: nat, w: nat, m: nat, k: nat)
    requires m < Calendar.Pow10(k)
    ensures Calendar.Padded(n, w) + Calendar.Padded(m, k) == Calendar.Padded(n * Calendar.Pow10(k) + m, w + k)
    decreases k
  {
    if k == 0 {
      assert Calendar.Padded(n, w) + [] == Calendar.Padded(n, w);
    } else {
      var q := n * Calendar.Pow10(k - 1);
      assert n * Calendar.Pow10(k) == 10 * q;
      PaddedJoin(n, w, m / 10, k - 1);
      assert (10 * q + m) / 10 == q + m / 10 && (10 * q + m) % 10 == m % 10;
    }
  }

  lemma PaddedPair(n: nat, w: nat, m: nat)
    requires m < 100
    ensures Calendar.Padded(n, w) + Calendar.Padded(m, 2) == Calendar.Padded(100 * n + m, w + 2)
  {
    assert Calendar.Pow10(2) == 100;
    PaddedJoin(n, w, m, 2);
  }

  /** A timestamp is one number of fourteen digits. */
  lemma StampIsPadded(y: nat, mo: nat, d: nat, h: nat, mi: nat, s: nat)
    requires mo < 100 && d < 100 && h < 100 && mi < 100 && s < 100
    ensures Calendar.Stamp(y, mo, d, h, mi, s) ==
      Calendar.Padded(100 * (100 * (100 * (100 * (100 * y + mo) + d) + h) + mi) + s, 14)
  {
    hide Calendar.Padded;
    PaddedPair(y, 4, mo);
    PaddedPair(100 * y + mo, 6, d);
    PaddedPair(100 * (100 * y + mo) + d, 8, h);
    PaddedPair(100 * (100 * (100 * y + mo) + d) + h, 10, mi);
    PaddedPair(100 * (100 * (100 * (100 * y + mo) + d) + h) + mi, 12, s);
  }

  lemma DistanceOfPadded(a: nat, b: nat)
    requires a < 100_000_000_000_000 && b < 100_000_000_000_000
    ensures TsDistance(Calendar.Padded(a, 14), Calendar.Padded(b, 14)) == Apart(a, b)
  {
    hide Digits, Calendar.Padded, Calendar.Pow10;
    Pow14();
    Calendar.PaddedDigits(a, 14);
    Calendar.PaddedDigits(b, 14);
  }

  const MARCH_1: nat := 20240301000000
  const MARCH_2: nat := 20240302000000
  const FEBRUARY_29: nat := 20240229235959

  lemma StampsAre()
    ensures Calendar.Stamp(2024, 3, 1, 0, 0, 0) == Calendar.Padded(MARCH_1, 14)
    ensures Calendar.Stamp(2024, 2, 29, 23, 59, 59) == Calendar.Padded(FEBRUARY_29, 14)
    ensures Calendar.Stamp(2024, 3, 2, 0, 0, 0) == Calendar.Padded(MARCH_2, 14)
  {
    hide Calendar.Stamp, Calendar.Padded;
    StampIsPadded(2024, 3, 1, 0, 0, 0);
    StampIsPadded(2024, 2, 29, 23, 59, 59);
    StampIsPadded(2024, 3, 2, 0, 0, 0);
  }

  lemma DayNumbers()
    ensures Calendar.DaysFromCivil(2024, 2, 29) == 19782
    ensures Calendar.DaysFromCivil(2024, 3, 1) == 19783
    ensures Calendar.DaysFromCivil(2024, 3, 2) == 19784
  {
  }

  lemma StampsInSeconds()
    ensures var target := Unix(Calendar.Stamp(2024, 3, 1, 0, 0, 0));
      && target - Unix(Calendar.Stamp(2024, 2, 29, 23, 59, 59)) == 1
      && Unix(Calendar.Stamp(2024, 3, 2, 0, 0, 0)) - target == 86400
  {
    hide Calendar.Stamp, Calendar.TimestampToUnix, Calendar.DaysFromCivil;
    DayNumbers();
    Calendar.TimestampInvertsStamp(2024, 3, 1, 0, 0, 0);
    Calendar.TimestampInvertsStamp(2024, 2, 29, 23, 59, 59);
    Calendar.TimestampInvertsStamp(2024, 3, 2, 0, 0, 0);
  }

  /** They do not always agree: from midnight of 1 March 2024 a capture one day later
      counts as nearer than one a second earlier. */
  lemma NumeralsAreNotSeconds()
    ensures var target := Calendar.Stamp(2024, 3, 1, 0, 0, 0);
      var before := Calendar.Stamp(2024, 2, 29, 23, 59, 59);
      var after := Calendar.Stamp(2024, 3, 2, 0, 0, 0);
      && TsDistance(target, after) < TsDistance(target, before) && !SameChoice(target, before, after)
      && SecondsApart(target, before) == 1 && SecondsApart(target, after) == 86400
  {
    hide Calendar.Stamp, Calendar.Padded, Calendar.TimestampToUnix, TsDistance;
    StampsInSeconds();
    StampsAre();
    DistanceOfPadded(MARCH_1, FEBRUARY_29);
    DistanceOfPadded(MARCH_1, MARCH_2);
  }
}
