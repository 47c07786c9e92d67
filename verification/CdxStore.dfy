/** The CDX table as a map from (SURT key, timestamp) to rows: batch upserts, range
  deletions, the closest-capture lookup and prefix ranges. */
module CdxStore {
  import opened Bytes
  import opened Text
  import Calendar
  import opened Utf8

  datatype Key = Key(surt: bytes, ts: bytes)

  datatype Row = Row(original: bytes, s3Key: bytes, offset: nat, length: nat, cOffset: Option<nat>)

  datatype Record = Record(key: Key, row: Row)

  type Rows = map<Key, Row>

  // ── text order ──

  /** Text comparison, byte by byte. */
  predicate Less(a: bytes, b: bytes)
  {
    if a == [] then b != [] else b != [] && (a[0] < b[0] || (a[0] == b[0] && Less(a[1..], b[1..])))
  }

  predicate AtMost(a: bytes, b: bytes)
  {
    !Less(b, a)
  }

  lemma {:induction false} Total(a: bytes, b: bytes)
    ensures Less(a, b) || a == b || Less(b, a)
    ensures !(Less(a, b) && Less(b, a)) && (Less(a, b) ==> a != b)
  {
    if a != [] && b != [] && a[0] == b[0] {
      Total(a[1..], b[1..]);
      assert a == [a[0]] + a[1..] && b == [b[0]] + b[1..];
    }
  }

  lemma {:induction false} Transitive(a: bytes, b: bytes, c: bytes)
    requires AtMost(a, b) && AtMost(b, c)
    ensures AtMost(a, c)
  {
    if a != [] && b != [] && c != [] && a[0] == b[0] == c[0] { Transitive(a[1..], b[1..], c[1..]); }
  }

  /** Comparing goes on behind a part that is equal. */
  lemma {:induction false} LessConcat(a: bytes, x: bytes, b: bytes, y: bytes)
    requires |a| == |b|
    ensures Less(a + x, b + y) <==> Less(a, b) || (a == b && Less(x, y))
    decreases |a|
  {
    if a == [] {
      assert a + x == x && b + y == y;
    } else {
      assert (a + x)[1..] == a[1..] + x && (b + y)[1..] == b[1..] + y;
      LessConcat(a[1..], x, b[1..], y);
      assert a == [a[0]] + a[1..] && b == [b[0]] + b[1..];
    }
  }

  // ── timestamps ──

  /** Fourteen digits. */
  predicate Stamp14(ts: bytes)
  {
    |ts| == 14 && AllDigits(ts)
  }

  /** The number a string of digits stands for; 0 for one that is none. */
  function Numeral(s: bytes): nat
  {
    match Digits(s) case Some(v) => v case None => 0
  }

  lemma {:induction false} DigitsIsNumeral(s: bytes)
    requires s != [] && AllDigits(s)
    ensures Digits(s) == Some(Numeral(s))
    ensures Numeral(s) == 10 * Numeral(s[..|s| - 1]) + (s[|s| - 1] - 48)
    decreases |s|
  {
    if |s| > 1 { DigitsIsNumeral(s[..|s| - 1]); }
  }

  lemma {:induction false} LessSnoc(a: bytes, x: byte, b: bytes, y: byte)
    requires |a| == |b|
    ensures Less(a + [x], b + [y]) <==> Less(a, b) || (a == b && x < y)
    decreases |a|
  {
    if a == [] {
      assert (a + [x])[1..] == [] && (b + [y])[1..] == [];
    } else {
      assert (a + [x])[1..] == a[1..] + [x] && (b + [y])[1..] == b[1..] + [y];
      LessSnoc(a[1..], x, b[1..], y);
      assert a == [a[0]] + a[1..] && b == [b[0]] + b[1..];
    }
  }

  /** At a fixed width, text order is numeric order. */
  lemma {:induction false} OrderIsNumeric(a: bytes, b: bytes)
    requires |a| == |b| && AllDigits(a) && AllDigits(b)
    ensures Less(a, b) <==> Numeral(a) < Numeral(b)
    ensures a == b <==> Numeral(a) == Numeral(b)
    decreases |a|
  {
    if a != [] {
      var n := |a| - 1;
      OrderIsNumeric(a[..n], b[..n]);
      LessSnoc(a[..n], a[n], b[..n], b[n]);
      DigitsIsNumeral(a);
      DigitsIsNumeral(b);
      assert a == a[..n] + [a[n]] && b == b[..n] + [b[n]];
    }
  }

  /** Difference of the numerals; a string that is no number counts as 0. */
  function TsDistance(a: bytes, b: bytes): nat
  {
    var x: int := match ParseUnsigned(a, U64_MAX) case Some(v) => v case None => 0;
    var y: int := match ParseUnsigned(b, U64_MAX) case Some(v) => v case None => 0;
    if x < y then y - x else x - y
  }

  function Apart(x: int, y: int): nat
  {
    if x < y then y - x else x - y
  }

  lemma {:induction false} NumeralBound(s: bytes)
    requires AllDigits(s)
    ensures Numeral(s) < Calendar.Pow10(|s|)
    decreases |s|
  {
    hide Digits;
    if s == [] {
      NoNumeral();
    } else {
      NumeralBound(s[..|s| - 1]);
      DigitsIsNumeral(s);
    }
  }

  lemma NoNumeral()
    ensures Numeral([]) == 0
  {
  }

  lemma DistanceIsNumeric(a: bytes, b: bytes)
    requires Stamp14(a) && Stamp14(b)
    ensures TsDistance(a, b) == Apart(Numeral(a), Numeral(b))
  {
    hide Digits, Numeral, Calendar.Pow10;
    DigitsIsNumeral(a);
    DigitsIsNumeral(b);
    NumeralBound(a);
    NumeralBound(b);
    Pow14();
  }

  lemma Pow14()
    ensures Calendar.Pow10(14) == 100_000_000_000_000
  {
    assert Calendar.Pow10(7) == 10_000_000;
  }

  /** A date and a time of day. */
  predicate ValidTimestamp(ts: bytes)
  {
    && Stamp14(ts)
    && Calendar.ValidDate(Numeral(ts[0..4]), Numeral(ts[4..6]), Numeral(ts[6..8]))
    && Numeral(ts[8..10]) < 24 && Numeral(ts[10..12]) < 60 && Numeral(ts[12..14]) <= 60
  }

  // ── batches ──

  /** The table after a batch: each record in place of whatever had its key. */
  function Upserted(rows: Rows, records: seq<Record>): Rows
  {
    if records == [] then rows
    else
      var last := records[|records| - 1];
      Upserted(rows, records[..|records| - 1])[last.key := last.row]
  }

  lemma UpsertedOneMore(rows: Rows, records: seq<Record>, r: Record)
    ensures Upserted(rows, records + [r]) == Upserted(rows, records)[r.key := r.row]
  {
    assert (records + [r])[..|records|] == records;
  }

  /** `k` is the key of the record at `i`, and of none after it. */
  predicate LastAt(records: seq<Record>, k: Key, i: nat)
  {
    i < |records| && records[i].key == k && forall j | i < j < |records| :: records[j].key != k
  }

  /** After a batch a key has the row of its last record in the batch. */
  lemma {:induction false} LastWins(rows: Rows, records: seq<Record>, k: Key, i: nat)
    requires LastAt(records, k, i)
    ensures k in Upserted(rows, records) && Upserted(rows, records)[k] == records[i].row
    decreases |records|
  {
    if i < |records| - 1 { LastWins(rows, records[..|records| - 1], k, i); }
  }

  /** A key the batch does not mention is left alone. */
  lemma {:induction false} OthersStay(rows: Rows, records: seq<Record>, k: Key)
    requires forall i | 0 <= i < |records| :: records[i].key != k
    ensures k in Upserted(rows, records) <==> k in rows
    ensures k in rows ==> Upserted(rows, records)[k] == rows[k]
    decreases |records|
  {
    if records != [] { OthersStay(rows, records[..|records| - 1], k); }
  }

  // ── LIKE ──

  const PERCENT: byte := 37
  const UNDERSCORE: byte := 95

  /** SQL LIKE: `%` for anything, `_` for one character, ASCII letters in either case. */
  predicate Like(s: bytes, p: bytes)
    decreases |s| + |p|
  {
    if p == [] then s == []
    else if p[0] == PERCENT then Like(s, p[1..]) || (s != [] && Like(s[1..], p))
    else s != [] && (p[0] == UNDERSCORE || LowerByte(s[0]) == LowerByte(p[0])) && Like(s[1..], p[1..])
  }

  lemma {:induction false} LikeAnything(s: bytes)
    ensures Like(s, [PERCENT])
  {
    assert [PERCENT][1..] == [];
    if s != [] { LikeAnything(s[1..]); }
  }

  /** `s` starts with `p`, up to case and with anything in place of an underscore. */
  predicate WildPrefix(s: bytes, p: bytes)
  {
    |p| <= |s| && forall i | 0 <= i < |p| :: p[i] == UNDERSCORE || LowerByte(s[i]) == LowerByte(p[i])
  }

  lemma WildPrefixCons(s: bytes, p: bytes)
    requires s != [] && p != []
    ensures WildPrefix(s, p) <==>
      (p[0] == UNDERSCORE || LowerByte(s[0]) == LowerByte(p[0])) && WildPrefix(s[1..], p[1..])
  {
    if WildPrefix(s[1..], p[1..]) && (p[0] == UNDERSCORE || LowerByte(s[0]) == LowerByte(p[0])) {
      forall i | 0 <= i < |p| ensures p[i] == UNDERSCORE || LowerByte(s[i]) == LowerByte(p[i]) {
        if i > 0 { assert p[i] == p[1..][i - 1] && s[i] == s[1..][i - 1]; }
      }
    }
  }

  /** Without a percent sign of its own, `q%` matches what starts with `q`, in any case
      and with anything in place of an underscore. */
  lemma {:induction false} LikePrefix(s: bytes, q: bytes)
    requires PERCENT !in q
    ensures Like(s, q + [PERCENT]) <==> WildPrefix(s, q)
    decreases |q|
  {
    hide WildPrefix, LowerByte;
    if q == [] {
      assert q + [PERCENT] == [PERCENT];
      LikeAnything(s);
      EmptyPrefix(s);
    } else {
      assert (q + [PERCENT])[1..] == q[1..] + [PERCENT] && (q + [PERCENT])[0] == q[0] != PERCENT;
      if s != [] {
        LikePrefix(s[1..], q[1..]);
        WildPrefixCons(s, q);
      } else {
        LongerPrefix(s, q);
      }
    }
  }

  lemma EmptyPrefix(s: bytes)
    ensures WildPrefix(s, [])
  {
  }

  lemma LongerPrefix(s: bytes, p: bytes)
    requires |s| < |p|
    ensures !WildPrefix(s, p)
  {
  }

  /** The rows a domain deletion goes for: `host)…` and `host,…`. */
  predicate DomainRow(surt: bytes, surtHost: bytes)
  {
    Like(surt, surtHost + [41] + [PERCENT]) || Like(surt, surtHost + [44] + [PERCENT])
  }

  // ── prefix ranges ──

  predicate AllFF(p: bytes)
  {
    forall i | 0 <= i < |p| :: p[i] == 0xFF
  }

  /** The upper bound of a prefix range: trailing 0xFF bytes dropped, the last byte
      of what is left incremented. */
  function NextPrefix(p: bytes): bytes
  {
    if p == [] then []
    else if p[|p| - 1] < 0xFF then p[..|p| - 1] + [p[|p| - 1] + 1]
    else NextPrefix(p[..|p| - 1])
  }

  /** What the query gets: the bound as text. */
  function BoundText(p: bytes): bytes
  {
    FromUtf8Lossy(NextPrefix(p))
  }

  /** Increment the last byte; when it overflows, pop it and try the one before.
      Then make text of it. */
  method ComputeNextPrefix(prefix: bytes) returns (end: bytes)
    ensures end == BoundText(prefix)
  {
    var bound := prefix;
    while bound != []
      invariant NextPrefix(bound) == NextPrefix(prefix)
      decreases |bound|
    {
      var n := |bound| - 1;
      if bound[n] < 0xFF { return FromUtf8Lossy(bound[..n] + [bound[n] + 1]); }
      bound := bound[..n];
    }
    end := FromUtf8Lossy(bound);
  }

  lemma {:induction false} LessPrefix(p: bytes, s: bytes)
    requires p <= s
    ensures AtMost(p, s)
  {
    if p != [] { LessPrefix(p[1..], s[1..]); }
  }

  /** What lies between `q + [x]` and `q + [x + 1]` is what starts with `q + [x]`. */
  lemma {:induction false} BetweenIncrements(q: bytes, x: byte, s: bytes)
    requires x < 0xFF
    ensures AtMost(q + [x], s) && Less(s, q + [x + 1]) <==> q + [x] <= s
    decreases |q|
  {
    var a, b := q + [x], q + [x + 1];
    if q == [] {
      assert a == [x] && b == [x + 1] && a[1..] == [] && b[1..] == [];
      if s != [] {
        assert !Less(s[1..], []) && AtMost([], s[1..]);
        if s[0] == x { assert s[..1] == [x]; }
      }
    } else {
      assert a[1..] == q[1..] + [x] && b[1..] == q[1..] + [x + 1];
      if s != [] {
        BetweenIncrements(q[1..], x, s[1..]);
        StartsCons(a, s);
      }
    }
  }

  lemma StartsCons(p: bytes, s: bytes)
    requires p != [] && s != []
    ensures p <= s <==> p[0] == s[0] && p[1..] <= s[1..]
  {
    if p[0] == s[0] && p[1..] <= s[1..] { assert p == [p[0]] + p[1..] && s == [s[0]] + s[1..]; }
    if p <= s { assert s[..|p|][1..] == s[1..][..|p| - 1]; }
  }

  /** A trailing 0xFF does not end the range early: nothing sorts after it. */
  lemma {:induction false} PrefixOfFF(q: bytes, s: bytes)
    requires q <= s
    ensures AtMost(q + [0xFF], s) <==> q + [0xFF] <= s
    decreases |q|
  {
    var a := q + [0xFF];
    if q == [] {
      assert a == [0xFF] && a[1..] == [];
      if s != [] { assert AtMost([], s[1..]); if s[0] == 0xFF { assert s[..1] == a; } }
    } else {
      assert a[1..] == q[1..] + [0xFF];
      PrefixOfFF(q[1..], s[1..]);
      StartsCons(a, s);
    }
  }

  /** Prefix range, for every prefix: what lies between `p` and its bound is exactly
      what starts with `p`, unless `p` is empty or all 0xFF, when nothing does. */
  lemma {:induction false} PrefixRange(p: bytes, s: bytes)
    ensures AtMost(p, s) && Less(s, NextPrefix(p)) <==> p <= s && !AllFF(p)
    decreases |p|
  {
    hide AtMost, Less;
    if p == [] {
      NothingLess(s);
    } else {
      var n := |p| - 1;
      assert p == p[..n] + [p[n]];
      if p[n] < 0xFF {
        BetweenIncrements(p[..n], p[n], s);
      } else {
        PrefixRange(p[..n], s);
        LongerIsLater(p, n, s);
        if p[..n] <= s { PrefixOfFF(p[..n], s); }
        if p <= s { assert s[..|p|][..n] == s[..n]; }
      }
    }
  }

  lemma NothingLess(s: bytes)
    ensures !Less(s, [])
  {
  }

  lemma LongerIsLater(p: bytes, n: nat, s: bytes)
    requires n <= |p|
    ensures AtMost(p, s) ==> AtMost(p[..n], s)
  {
    LessPrefix(p[..n], p);
    if AtMost(p, s) { Transitive(p[..n], p, s); }
  }

  // ── the two neighbours of a timestamp ──

  /** `r` is the last capture of `surt` up to `target`, None if there is none. */
  ghost predicate IsLatest(rows: Rows, surt: bytes, target: bytes, r: Option<Key>)
  {
    && (r.Some? ==> r.value in rows && r.value.surt == surt && AtMost(r.value.ts, target))
    && (forall k | k in rows && k.surt == surt && AtMost(k.ts, target) :: r.Some? && AtMost(k.ts, r.value.ts))
  }

  /** `r` is the first capture of `surt` after `target`, None if there is none. */
  ghost predicate IsEarliest(rows: Rows, surt: bytes, target: bytes, r: Option<Key>)
  {
    && (r.Some? ==> r.value in rows && r.value.surt == surt && Less(target, r.value.ts))
    && (forall k | k in rows && k.surt == surt && Less(target, k.ts) :: r.Some? && AtMost(r.value.ts, k.ts))
  }

  ghost predicate Neighbours(rows: Rows, surt: bytes, target: bytes, before: Option<Key>, after: Option<Key>)
  {
    IsLatest(rows, surt, target, before) && IsEarliest(rows, surt, target, after)
  }

  /** The neighbour at the smaller distance in numerals. */
  function Nearer(target: bytes, before: Option<Key>, after: Option<Key>): Option<Key>
  {
    match (before, after)
    case (Some(b), Some(a)) => if TsDistance(target, b.ts) <= TsDistance(target, a.ts) then before else after
    case (Some(_), None) => before
    case (None, _) => after
  }

  /** The rows of all other SURT keys. */
  function WithoutSurts(rows: Rows, surts: seq<bytes>): Rows
  {
    map k | k in rows && k.surt !in surts :: rows[k]
  }

  /** The captures of one SURT key. */
  function CapturesOf(rows: Rows, surt: bytes): set<Key>
  {
    set k | k in rows && k.surt == surt
  }

  // ── the store ──

  class CdxStore {
    var rows: Rows

    constructor ()
      ensures rows == map[]
    {
      rows := map[];
    }

    /** Insert or update a batch; count what was new and what was there. */
    method UpsertBatchCounted(records: seq<Record>) returns (added: nat, existing: nat)
      modifies this
      ensures rows == Upserted(old(rows), records)
      ensures added + existing == |records| && |rows| == |old(rows)| + added
    {
      added, existing := 0, 0;
      for i := 0 to |records|
        invariant rows == Upserted(old(rows), records[..i])
        invariant added + existing == i && |rows| == |old(rows)| + added
      {
        var r := records[i];
        UpsertedOneMore(old(rows), records[..i], r);
        assert records[..i] + [r] == records[..i + 1];
        if r.key in rows { existing := existing + 1; } else { added := added + 1; }
        rows := rows[r.key := r.row];
      }
      assert records[..|records|] == records;
    }

    /** Delete a domain: the apex and every name below it. */
    method DeleteByDomainSurt(surtHost: bytes) returns (n: nat)
      modifies this
      ensures rows == map k | k in old(rows) && !DomainRow(k.surt, surtHost) :: old(rows)[k]
      ensures n == |old(rows)| - |rows|
    {
      hide DomainRow;
      var gone := set k | k in rows && DomainRow(k.surt, surtHost);
      var left := rows - gone;
      Fewer(rows, gone);
      n := |rows| - |left|;
      rows := left;
    }

    /** Delete every capture of each of the given SURT keys. */
    method DeleteBySurtUrls(surts: seq<bytes>) returns (n: nat)
      modifies this
      ensures rows == WithoutSurts(old(rows), surts)
      ensures n == |old(rows)| - |rows|
    {
      hide WithoutSurts, CapturesOf;
      n := 0;
      NoneOf(rows);
      for i := 0 to |surts|
        invariant rows == WithoutSurts(old(rows), surts[..i])
        invariant n == |old(rows)| - |rows|
      {
        var gone := CapturesOf(rows, surts[i]);
        Fewer(rows, gone);
        n := n + |rows| - |rows - gone|;
        OneSurtMore(old(rows), surts[..i], surts[i]);
        assert surts[..i + 1] == surts[..i] + [surts[i]];
        rows := rows - gone;
      }
      assert surts[..|surts|] == surts;
    }

    /** The last row of `surt` up to `target`, in text order. */
    method LatestUpTo(surt: bytes, target: bytes) returns (r: Option<Key>)
      ensures IsLatest(rows, surt, target, r)
    {
      hide AtMost, Less;
      r := None;
      var todo := rows.Keys;
      while todo != {}
        invariant todo <= rows.Keys
        invariant r.Some? ==> r.value in rows && r.value.surt == surt && AtMost(r.value.ts, target)
        invariant forall k | k in rows && k !in todo && k.surt == surt && AtMost(k.ts, target) ::
          r.Some? && AtMost(k.ts, r.value.ts)
        decreases |todo|
      {
        var k :| k in todo;
        todo := todo - {k};
        if k.surt == surt && AtMost(k.ts, target) && (r.None? || !AtMost(k.ts, r.value.ts)) {
          ghost var before := r;
          r := Some(k);
          AtMostItself(k.ts);
          if before.Some? { Better(rows, before.value.ts, k.ts); }
        }
      }
    }

    /** The first row of `surt` after `target`, in text order. */
    method EarliestAfter(surt: bytes, target: bytes) returns (r: Option<Key>)
      ensures IsEarliest(rows, surt, target, r)
    {
      hide AtMost, Less;
      r := None;
      var todo := rows.Keys;
      while todo != {}
        invariant todo <= rows.Keys
        invariant r.Some? ==> r.value in rows && r.value.surt == surt && Less(target, r.value.ts)
        invariant forall k | k in rows && k !in todo && k.surt == surt && Less(target, k.ts) ::
          r.Some? && AtMost(r.value.ts, k.ts)
        decreases |todo|
      {
        var k :| k in todo;
        todo := todo - {k};
        if k.surt == surt && Less(target, k.ts) && (r.None? || !AtMost(r.value.ts, k.ts)) {
          ghost var before := r;
          r := Some(k);
          AtMostItself(k.ts);
          if before.Some? { Worse(rows, before.value.ts, k.ts); }
        }
      }
    }

    /** The capture closest to `target`: of the last one up to it and the first one
        after it the nearer, the earlier of the two when they are equally near. */
    method Closest(surt: bytes, target: bytes) returns (valid: bool, r: Option<Key>)
      requires forall k | k in rows && k.surt == surt :: Stamp14(k.ts)
      ensures valid == ValidTimestamp(target) && (!valid ==> r == None)
      ensures valid && r.None? ==> forall k | k in rows :: k.surt != surt
      ensures r.Some? ==> r.value in rows && r.value.surt == surt
      ensures r.Some? ==> forall k | k in rows && k.surt == surt :: Nearest(target, r.value.ts, k.ts)
      ensures valid ==> exists before, after ::
        Neighbours(rows, surt, target, before, after) && r == Nearer(target, before, after)
    {
      hide AtMost, Less, Nearest, TsDistance, Stamp14;
      valid := ValidTimestamp(target);
      if !valid { return false, None; }
      var before := LatestUpTo(surt, target);
      var after := EarliestAfter(surt, target);
      r := Nearer(target, before, after);
      assert Neighbours(rows, surt, target, before, after);
      forall k | k in rows && k.surt == surt ensures r.Some? && Nearest(target, r.value.ts, k.ts) {
        UpToOrAfter(target, k.ts);
        if before.Some? && after.Some? {
          NearestOfTwo(target, before.value.ts, after.value.ts, k.ts);
        } else if before.Some? {
          NearestUpTo(target, before.value.ts, k.ts);
        } else {
          NearestAfter(target, after.value.ts, k.ts);
        }
      }
    }
  }

  lemma NoneOf(rows: Rows)
    ensures WithoutSurts(rows, []) == rows
  {
  }

  lemma OneSurtMore(rows: Rows, surts: seq<bytes>, surt: bytes)
    ensures var left := WithoutSurts(rows, surts);
      WithoutSurts(rows, surts + [surt]) == left - CapturesOf(left, surt)
  {
  }

  lemma Fewer(rows: Rows, gone: set<Key>)
    ensures |rows - gone| <= |rows|
  {
    assert (rows - gone).Keys <= rows.Keys;
    SubsetSize((rows - gone).Keys, rows.Keys);
  }

  lemma {:induction false} SubsetSize(a: set<Key>, b: set<Key>)
    requires a <= b
    ensures |a| <= |b|
    decreases a
  {
    if a != {} {
      var k :| k in a;
      SubsetSize(a - {k}, b - {k});
    }
  }

  lemma AtMostItself(a: bytes)
    ensures AtMost(a, a)
  {
    Total(a, a);
  }

  lemma Better(rows: Rows, former: bytes, later: bytes)
    requires !AtMost(later, former)
    ensures forall k | k in rows && AtMost(k.ts, former) :: AtMost(k.ts, later)
  {
    hide AtMost, Less;
    AtMostOrNot(former, later);
    forall k | k in rows && AtMost(k.ts, former) ensures AtMost(k.ts, later) { Transitive(k.ts, former, later); }
  }

  lemma Worse(rows: Rows, former: bytes, later: bytes)
    requires !AtMost(former, later)
    ensures forall k | k in rows && AtMost(former, k.ts) :: AtMost(later, k.ts)
  {
    hide AtMost, Less;
    AtMostOrNot(former, later);
    forall k | k in rows && AtMost(former, k.ts) ensures AtMost(later, k.ts) { Transitive(later, former, k.ts); }
  }

  lemma AtMostOrNot(a: bytes, b: bytes)
    ensures AtMost(a, b) || AtMost(b, a)
  {
    Total(a, b);
  }

  lemma UpToOrAfter(target: bytes, ts: bytes)
    ensures AtMost(ts, target) <==> !Less(target, ts)
  {
  }

  // ── the nearest capture ──

  /** `best` is no farther from the target than `ts`, and not later when as far. */
  ghost predicate Nearest(target: bytes, best: bytes, ts: bytes)
  {
    var d, e := Apart(Numeral(target), Numeral(best)), Apart(Numeral(target), Numeral(ts));
    d < e || (d == e && Numeral(best) <= Numeral(ts))
  }

  lemma NumericOrder(a: bytes, b: bytes)
    requires Stamp14(a) && Stamp14(b)
    ensures (Less(a, b) <==> Numeral(a) < Numeral(b)) && (AtMost(a, b) <==> Numeral(a) <= Numeral(b))
  {
    hide Numeral;
    OrderIsNumeric(a, b);
    OrderIsNumeric(b, a);
  }

  lemma NearestUpTo(target: bytes, best: bytes, ts: bytes)
    requires Stamp14(target) && Stamp14(best) && Stamp14(ts)
    requires AtMost(best, target) && AtMost(ts, target) && AtMost(ts, best)
    ensures Nearest(target, best, ts)
  {
    hide Numeral, AtMost, Less;
    NumericOrder(best, target);
    NumericOrder(ts, target);
    NumericOrder(ts, best);
  }

  lemma NearestAfter(target: bytes, best: bytes, ts: bytes)
    requires Stamp14(target) && Stamp14(best) && Stamp14(ts)
    requires Less(target, best) && Less(target, ts) && AtMost(best, ts)
    ensures Nearest(target, best, ts)
  {
    hide Numeral, AtMost, Less;
    NumericOrder(target, best);
    NumericOrder(target, ts);
    NumericOrder(best, ts);
  }

  /** Between a capture up to the target and one after it the choice is by the difference
      of the numerals, and the earlier one is taken when they are equally far. */
  lemma NearerOfTwo(target: bytes, before: Key, after: Key)
    requires Stamp14(target) && Stamp14(before.ts) && Stamp14(after.ts)
    requires Numeral(before.ts) <= Numeral(target) < Numeral(after.ts)
    ensures Nearer(target, Some(before), Some(after)) ==
      if Numeral(target) - Numeral(before.ts) <= Numeral(after.ts) - Numeral(target) then Some(before) else Some(after)
    ensures Nearer(target, Some(before), None) == Some(before)
    ensures Nearer(target, None, Some(after)) == Some(after) && Nearer(target, None, None) == None
  {
    hide Numeral, TsDistance;
    DistanceIsNumeric(target, before.ts);
    DistanceIsNumeric(target, after.ts);
  }

  lemma NearestOfTwo(target: bytes, before: bytes, after: bytes, ts: bytes)
    requires Stamp14(target) && Stamp14(before) && Stamp14(after) && Stamp14(ts)
    requires AtMost(before, target) && Less(target, after)
    requires if AtMost(ts, target) then AtMost(ts, before) else AtMost(after, ts)
    ensures Nearest(target, if TsDistance(target, before) <= TsDistance(target, after) then before else after, ts)
  {
    hide Numeral, AtMost, Less, TsDistance;
    DistanceIsNumeric(target, before);
    DistanceIsNumeric(target, after);
    NumericOrder(before, target);
    NumericOrder(target, after);
    NumericOrder(ts, target);
    NumericOrder(ts, before);
    NumericOrder(after, ts);
  }
}
