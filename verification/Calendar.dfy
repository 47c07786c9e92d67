/** Dates from seconds by subtraction, and seconds from dates by formula: the two
  calendars of the program, and that they agree. */
module Calendar {
  import opened Bytes
  import opened Text

  const U32 := 0x1_0000_0000

  function DaysInYear(y: int): int
  {
    if y % 400 == 0 || (y % 4 == 0 && y % 100 != 0) then 366 else 365
  }

  function DaysInMonth(y: int, m: int): int
  {
    if m == 4 || m == 6 || m == 9 || m == 11 then 30
    else if m == 2 then (if DaysInYear(y) == 366 then 29 else 28)
    else if 1 <= m <= 12 then 31
    else 30
  }

  /** Days since 1970-01-01 by the formula, months counted from March. */
  function DaysFromCivil(y: int, m: int, d: int): int
  {
    var y' := if m <= 2 then y - 1 else y;
    var era := y' / 400;
    var yoe := y' - era * 400;
    var doy := (153 * (if m > 2 then m - 3 else m + 9) + 2) / 5 + d - 1;
    var doe := yoe * 365 + yoe / 4 - yoe / 100 + doy;
    era * 146097 + doe - 719468
  }

  predicate ValidDate(y: int, m: int, d: int)
  {
    1 <= m <= 12 && 1 <= d <= DaysInMonth(y, m)
  }

  // ── the formula counts days ──

  /** Days in the years up to and including `y`, leap years told apart by counting
      the multiples of 4, 100 and 400. */
  function Leaps(y: int): int
  {
    y / 4 - y / 100 + y / 400
  }

  lemma Step4(y: int)
    ensures y / 4 - (y - 1) / 4 == if y % 4 == 0 then 1 else 0
  {
  }

  lemma Step100(y: int)
    ensures y / 100 - (y - 1) / 100 == if y % 100 == 0 then 1 else 0
  {
  }

  lemma Step400(y: int)
    ensures y / 400 - (y - 1) / 400 == if y % 400 == 0 then 1 else 0
  {
  }

  lemma Multiple100(y: int)
    requires y % 400 == 0
    ensures y % 100 == 0
  {
    var q, d, r := y / 400, y / 100, y % 100;
    assert y == 400 * q;
    assert r == 100 * (4 * q - d);
  }

  lemma Multiple4(y: int)
    requires y % 100 == 0
    ensures y % 4 == 0
  {
    var q, d, r := y / 100, y / 4, y % 4;
    assert y == 100 * q;
    assert r == 4 * (25 * q - d);
  }

  lemma LeapStep(y: int)
    ensures 365 + Leaps(y) - Leaps(y - 1) == DaysInYear(y)
  {
    Step4(y);
    Step100(y);
    Step400(y);
    if y % 400 == 0 { Multiple100(y); }
    if y % 100 == 0 { Multiple4(y); }
  }

  lemma EraIsLeaps(y: int)
    ensures var era := y / 400;
      var yoe := y - era * 400;
      era * 146097 + yoe * 365 + yoe / 4 - yoe / 100 == 365 * y + Leaps(y)
  {
    var era := y / 400;
    var yoe := y - era * 400;
    assert 0 <= yoe < 400;
    assert y == 4 * (100 * era) + yoe && y == 100 * (4 * era) + yoe;
    assert y / 4 == 100 * era + yoe / 4;
    assert y / 100 == 4 * era + yoe / 100;
  }

  /** Days of year `y` before month `m`. */
  function BeforeMonth(y: int, m: int): int
    decreases m
  {
    if m <= 1 then 0 else BeforeMonth(y, m - 1) + DaysInMonth(y, m - 1)
  }

  lemma MonthFormula(y: int, m: int)
    requires 1 <= m <= 12
    ensures BeforeMonth(y, m) ==
      if m == 1 then 0 else if m == 2 then 31 else (153 * (m - 3) + 2) / 5 + DaysInYear(y) - 306
  {
    hide DaysInYear;
    YearIs(y);
    var b2 := BeforeMonth(y, 2);
    var b3 := BeforeMonth(y, 3);
    var b4 := BeforeMonth(y, 4);
    var b5 := BeforeMonth(y, 5);
    var b6 := BeforeMonth(y, 6);
    var b7 := BeforeMonth(y, 7);
    var b8 := BeforeMonth(y, 8);
    var b9 := BeforeMonth(y, 9);
    var b10 := BeforeMonth(y, 10);
    var b11 := BeforeMonth(y, 11);
    assert b2 == 31;
    assert b3 == DaysInYear(y) - 306;
    assert b4 == b3 + 31;
    assert b5 == b4 + 30;
    assert b6 == b5 + 31;
    assert b7 == b6 + 30;
    assert b8 == b7 + 31;
    assert b9 == b8 + 31;
    assert b10 == b9 + 30;
    assert b11 == b10 + 31;
  }

  lemma YearIs(y: int)
    ensures DaysInYear(y) == 365 || DaysInYear(y) == 366
  {
  }

  /** The day number of a date: whole years, whole months, days. */
  function FirstOf(y: int): int
  {
    365 * (y - 1) + Leaps(y - 1) - 719162
  }

  /** The formula counts the days of the years and months before a date. */
  lemma FormulaCounts(y: int, m: int, d: int)
    requires 1 <= m <= 12
    ensures DaysFromCivil(y, m, d) == FirstOf(y) + BeforeMonth(y, m) + d - 1
  {
    hide Leaps, DaysInYear, BeforeMonth;
    MonthFormula(y, m);
    if m <= 2 {
      EraIsLeaps(y - 1);
    } else {
      EraIsLeaps(y);
      LeapStep(y);
    }
  }

  lemma FirstStep(y: int)
    ensures FirstOf(y + 1) == FirstOf(y) + DaysInYear(y)
  {
    LeapStep(y);
  }

  lemma YearEnds(y: int)
    ensures BeforeMonth(y, 12) + DaysInMonth(y, 12) == DaysInYear(y)
  {
    MonthFormula(y, 12);
  }

  // ── from seconds to a date ──

  /** Whole years off the day count. */
  method YearOf(total: nat) returns (year: int, days: nat)
    ensures year >= 1970 && days < DaysInYear(year) && total == FirstOf(year) + days
  {
    hide DaysInYear;
    year, days := 1970, total;
    assert FirstOf(1970) == 0;
    while true
      invariant year >= 1970 && total == FirstOf(year) + days
      decreases days
    {
      var dy := DaysInYear(year);
      if days < dy { return; }
      FirstStep(year);
      YearIs(year);
      days, year := days - dy, year + 1;
    }
  }

  /** Whole months off the days of a year; the month never passes 12. */
  method MonthOf(year: int, dayOfYear: nat) returns (month: int, days: nat)
    requires dayOfYear < DaysInYear(year)
    ensures 1 <= month <= 12 && days < DaysInMonth(year, month) && dayOfYear == BeforeMonth(year, month) + days
  {
    month, days := 1, dayOfYear;
    while true
      invariant 1 <= month <= 12 && dayOfYear == BeforeMonth(year, month) + days
      decreases days
    {
      var dm := DaysInMonth(year, month);
      if days < dm { return; }
      if month == 12 { YearEnds(year); }
      days, month := days - dm, month + 1;
    }
  }

  /** Seconds since 1970 as a date and a time; the day count is cut to 32 bits. */
  method EpochToYmdHms(seconds: nat) returns (year: int, month: int, day: int, hour: int, min: int, sec: int)
    ensures ValidDate(year, month, day) && 0 <= hour < 24 && 0 <= min < 60 && 0 <= sec < 60
    ensures DaysFromCivil(year, month, day) == seconds / 86400 % U32
    ensures hour * 3600 + min * 60 + sec == seconds % 86400
    ensures seconds / 86400 < U32 <==> 86400 * DaysFromCivil(year, month, day) + hour * 3600 + min * 60 + sec == seconds
  {
    hide DaysFromCivil, DaysInMonth, BeforeMonth, FirstOf, DaysInYear;
    var s := seconds;
    sec := s % 60;
    s := s / 60;
    min := s % 60;
    s := s / 60;
    hour := s % 24;
    s := s / 24;
    TimeParts(seconds);
    var days: nat;
    year, days := YearOf(s % U32);
    month, days := MonthOf(year, days);
    day := days + 1;
    FormulaCounts(year, month, day);
  }

  lemma TimeParts(seconds: nat)
    ensures seconds / 60 / 60 / 24 == seconds / 86400
    ensures seconds / 60 / 60 % 24 * 3600 + seconds / 60 % 60 * 60 + seconds % 60 == seconds % 86400
  {
    var m := seconds / 60;
    var h := m / 60;
    var d := h / 24;
    var rest := h % 24 * 3600 + m % 60 * 60 + seconds % 60;
    assert seconds == d * 86400 + rest && 0 <= rest < 86400;
  }

  // ── dates are ordered like day numbers ──

  predicate DateBefore(y: int, m: int, d: int, y': int, m': int, d': int)
  {
    y < y' || (y == y' && (m < m' || (m == m' && d < d')))
  }

  lemma {:induction false} FirstGrows(y: int, y': int)
    requires y <= y'
    ensures FirstOf(y) <= FirstOf(y')
    decreases y' - y
  {
    hide FirstOf, DaysInYear;
    if y < y' {
      FirstStep(y' - 1);
      YearIs(y' - 1);
      FirstGrows(y, y' - 1);
    }
  }

  lemma {:induction false} MonthGrows(y: int, m: int, m': int)
    requires 1 <= m < m' <= 13
    ensures BeforeMonth(y, m) + DaysInMonth(y, m) <= BeforeMonth(y, m')
    decreases m' - m
  {
    hide DaysInYear;
    if m + 1 < m' { MonthGrows(y, m, m' - 1); }
  }

  lemma WithinYear(y: int, m: int, d: int)
    requires ValidDate(y, m, d)
    ensures 0 <= BeforeMonth(y, m) + d - 1 < DaysInYear(y)
  {
    hide DaysInYear;
    YearEnds(y);
    if m < 12 { MonthGrows(y, m, 12); }
    if m > 1 { MonthGrows(y, 1, m); }
  }

  /** The day number is strictly monotone in (year, month, day). */
  lemma DaysAreOrdered(y: int, m: int, d: int, y': int, m': int, d': int)
    requires ValidDate(y, m, d) && ValidDate(y', m', d') && DateBefore(y, m, d, y', m', d')
    ensures DaysFromCivil(y, m, d) < DaysFromCivil(y', m', d')
  {
    hide DaysFromCivil, DaysInMonth, BeforeMonth, FirstOf, DaysInYear;
    FormulaCounts(y, m, d);
    FormulaCounts(y', m', d');
    if y < y' {
      WithinYear(y, m, d);
      WithinYear(y', m', d');
      FirstStep(y);
      FirstGrows(y + 1, y');
    } else if m < m' {
      MonthGrows(y, m, m');
    }
  }

  /** So a day number stands for one date only. */
  lemma DateOfDay(y: int, m: int, d: int, y': int, m': int, d': int)
    requires ValidDate(y, m, d) && ValidDate(y', m', d') && DaysFromCivil(y, m, d) == DaysFromCivil(y', m', d')
    ensures y == y' && m == m' && d == d'
  {
    hide DaysFromCivil, ValidDate;
    if DateBefore(y, m, d, y', m', d') { DaysAreOrdered(y, m, d, y', m', d'); }
    if DateBefore(y', m', d', y, m, d) { DaysAreOrdered(y', m', d', y, m, d); }
  }

  // ── 14-digit timestamps ──

  /** A number in exactly `width` digits, as far as it fits. */
  function Padded(n: nat, width: nat): (s: bytes)
    ensures |s| == width
  {
    if width == 0 then [] else Padded(n / 10, width - 1) + [48 + n % 10]
  }

  /** `YYYYMMDDhhmmss` */
  function Stamp(y: nat, mo: nat, d: nat, h: nat, mi: nat, s: nat): bytes
  {
    Padded(y, 4) + Padded(mo, 2) + Padded(d, 2) + Padded(h, 2) + Padded(mi, 2) + Padded(s, 2)
  }

  /** Parse a signed number, or give `otherwise`. */
  function SignedOr(s: bytes, otherwise: int): int
  {
    var negative := |s| > 1 && s[0] == 45;
    match Digits(if negative || (|s| > 1 && s[0] == PLUS) then s[1..] else s)
    case None => otherwise
    case Some(v) =>
      var n: int := v;
      if negative then -n else n
  }

  /** Seconds since 1970 of a 14-digit timestamp; 0 for one that is too short. */
  function TimestampToUnix(ts: bytes): int
  {
    if |ts| < 14 then 0
    else
      var days := DaysFromCivil(SignedOr(ts[0..4], 1970), SignedOr(ts[4..6], 1), SignedOr(ts[6..8], 1));
      days * 86400 + SignedOr(ts[8..10], 0) * 3600 + SignedOr(ts[10..12], 0) * 60 + SignedOr(ts[12..14], 0)
  }

  function Pow10(n: nat): nat
  {
    if n == 0 then 1 else 10 * Pow10(n - 1)
  }

  lemma {:induction false} PaddedDigits(n: nat, width: nat)
    requires width > 0 && n < Pow10(width)
    ensures Digits(Padded(n, width)) == Some(n)
    ensures Digit(Padded(n, width)[0])
    decreases width
  {
    if width > 1 {
      PaddedDigits(n / 10, width - 1);
      var s := Padded(n, width);
      assert s[..|s| - 1] == Padded(n / 10, width - 1);
    }
  }

  lemma PaddedParses(n: nat, width: nat, otherwise: int)
    requires width > 0 && n < Pow10(width)
    ensures SignedOr(Padded(n, width), otherwise) == n
  {
    PaddedDigits(n, width);
  }

  lemma StampParts(y: nat, mo: nat, d: nat, h: nat, mi: nat, s: nat)
    ensures var ts := Stamp(y, mo, d, h, mi, s);
      && |ts| == 14
      && ts[0..4] == Padded(y, 4) && ts[4..6] == Padded(mo, 2) && ts[6..8] == Padded(d, 2)
      && ts[8..10] == Padded(h, 2) && ts[10..12] == Padded(mi, 2) && ts[12..14] == Padded(s, 2)
  {
    hide Padded;
  }

  lemma Hundred()
    ensures Pow10(2) == 100 && Pow10(4) == 10000
  {
  }

  /** A printed date reads back as its day number and time, for years of four digits. */
  lemma TimestampInvertsStamp(y: nat, mo: nat, d: nat, h: nat, mi: nat, s: nat)
    requires y <= 9999 && ValidDate(y, mo, d) && h < 24 && mi < 60 && s < 60
    ensures TimestampToUnix(Stamp(y, mo, d, h, mi, s)) == DaysFromCivil(y, mo, d) * 86400 + h * 3600 + mi * 60 + s
  {
    hide DaysFromCivil, Stamp, SignedOr, Padded, Pow10;
    Hundred();
    StampParts(y, mo, d, h, mi, s);
    PaddedParses(y, 4, 1970);
    PaddedParses(mo, 2, 1);
    PaddedParses(d, 2, 1);
    PaddedParses(h, 2, 0);
    PaddedParses(mi, 2, 0);
    PaddedParses(s, 2, 0);
  }

  /** What is too short gives 0; what stands behind the fourteenth byte makes no difference. */
  lemma ShortAndLong(ts: bytes, more: bytes)
    ensures |ts| < 14 ==> TimestampToUnix(ts) == 0
    ensures |ts| == 14 ==> TimestampToUnix(ts + more) == TimestampToUnix(ts)
  {
    hide SignedOr, DaysFromCivil;
    if |ts| == 14 {
      var s := ts + more;
      assert s[0..4] == ts[0..4] && s[4..6] == ts[4..6] && s[6..8] == ts[6..8];
      assert s[8..10] == ts[8..10] && s[10..12] == ts[10..12] && s[12..14] == ts[12..14];
    }
  }

  /** A part that is no number, because its last byte is no digit. */
  lemma NoNumber(s: bytes, otherwise: int)
    requires s != [] && !Digit(s[|s| - 1])
    ensures SignedOr(s, otherwise) == otherwise
  {
  }

  /** Signs are read, as in every number; a sign alone is no number. */
  lemma SignedParts(n: nat, width: nat, otherwise: int)
    requires width > 0 && n < Pow10(width)
    ensures SignedOr([45] + Padded(n, width), otherwise) + n == 0
    ensures SignedOr([PLUS] + Padded(n, width), otherwise) == n
    ensures SignedOr([45], otherwise) == SignedOr([PLUS], otherwise) == otherwise
  {
    PaddedDigits(n, width);
    assert ([45] + Padded(n, width))[1..] == ([PLUS] + Padded(n, width))[1..] == Padded(n, width);
  }

  /** A timestamp of nothing but such bytes counts as the first second of 1970. */
  lemma NoTimestamp(ts: bytes)
    requires |ts| >= 14 && forall i | 0 <= i < 14 :: !Digit(ts[i])
    ensures TimestampToUnix(ts) == 0
  {
    NoNumber(ts[0..4], 1970);
    NoNumber(ts[4..6], 1);
    NoNumber(ts[6..8], 1);
    NoNumber(ts[8..10], 0);
    NoNumber(ts[10..12], 0);
    NoNumber(ts[12..14], 0);
    hide SignedOr;
  }
}
