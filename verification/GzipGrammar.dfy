/** RFC 1952 section 2.3 as a grammar, and the proof that `Gzip.ParseMember`
  recognises exactly that grammar. */
module GzipGrammar {
  import opened Bytes
  import opened Codec
  import opened Gzip

  datatype Fields = Fields(
    flags: byte, rest: bytes,   // FLG; then MTIME, XFL and OS
    extra: Option<bytes>, name: Option<bytes>, comment: Option<bytes>, headerCrc: Option<bytes>,
    body: bytes, trailer: bytes)

  ghost predicate WellFormed(c: Coder, m: Fields)
  {
    && |m.rest| == 6
    && (m.extra.Some? <==> FExtra(m.flags)) && (m.extra.Some? ==> |m.extra.value| <= 0xFFFF)
    && (m.name.Some? <==> FName(m.flags)) && (m.name.Some? ==> 0 !in m.name.value)
    && (m.comment.Some? <==> FComment(m.flags)) && (m.comment.Some? ==> 0 !in m.comment.value)
    && (m.headerCrc.Some? <==> FHcrc(m.flags)) && (m.headerCrc.Some? ==> |m.headerCrc.value| == 2)
    && Inflate(c, m.body).Done? && Inflate(c, m.body).used == |m.body|
    && |m.trailer| == 8
  }

  function PrintExtra(x: Option<bytes>): bytes
    requires x.Some? ==> |x.value| <= 0xFFFF
  {
    match x case None => [] case Some(v) => [|v| % 256, |v| / 256] + v
  }

  function PrintNulString(x: Option<bytes>): bytes
  {
    match x case None => [] case Some(v) => v + [0]
  }

  function PrintHeaderCrc(x: Option<bytes>): bytes
  {
    match x case None => [] case Some(v) => v
  }

  function PrintOptional(m: Fields): bytes
    requires m.extra.Some? ==> |m.extra.value| <= 0xFFFF
  {
    PrintExtra(m.extra) + (PrintNulString(m.name) + (PrintNulString(m.comment) + PrintHeaderCrc(m.headerCrc)))
  }

  /** ID1 ID2 CM FLG MTIME XFL OS, optional fields, compressed blocks, CRC32 and ISIZE. */
  function Print(m: Fields): bytes
    requires m.extra.Some? ==> |m.extra.value| <= 0xFFFF
  {
    ([0x1F, 0x8B, 8, m.flags] + m.rest) + (PrintOptional(m) + (m.body + m.trailer))
  }

  lemma {:induction false} NulEndIs(s: bytes, at: nat, e: nat)
    requires at < e <= |s| && s[e - 1] == 0 && forall j :: at <= j < e - 1 ==> s[j] != 0
    ensures NulEnd(s, at) == Some(e)
    decreases e - at
  {
    if at + 1 < e { NulEndIs(s, at + 1, e); }
  }

  lemma {:induction false} NulEndFound(s: bytes, at: nat)
    requires at <= |s| && NulEnd(s, at).Some?
    ensures var e := NulEnd(s, at).value; at < e && s[e - 1] == 0 && forall j :: at <= j < e - 1 ==> s[j] != 0
    decreases |s| - at
  {
    if s[at] != 0 { NulEndFound(s, at + 1); }
  }

  lemma NulStringPrinted(x: Option<bytes>, s: bytes, at: nat)
    requires x.Some? ==> 0 !in x.value
    requires At(s, at, PrintNulString(x))
    ensures NulStringEnd(x.Some?, s, Some(at)) == Some(at + |PrintNulString(x)|)
  {
    if x.Some? {
      var p := PrintNulString(x);
      forall j | at <= j < at + |p| ensures s[j] == p[j - at] { assert s[j] == s[at..at + |p|][j - at]; }
      NulEndIs(s, at, at + |p|);
    }
  }

  lemma ExtraPrinted(x: Option<bytes>, s: bytes, at: nat)
    requires x.Some? ==> |x.value| <= 0xFFFF
    requires At(s, at, PrintExtra(x))
    ensures ExtraEnd(x.Some?, s, at) == Some(at + |PrintExtra(x)|)
  {
    if x.Some? {
      var p := PrintExtra(x);
      assert s[at] == s[at..at + |p|][0] && s[at + 1] == s[at..at + |p|][1];
    }
  }

  lemma FixedPrinted(s: bytes, flg: byte, rest: bytes)
    requires |rest| == 6 && At(s, 0, [0x1F, 0x8B, 8, flg] + rest)
    ensures s[0] == 0x1F && s[1] == 0x8B && s[2] == 8 && s[3] == flg
  {
    var p := s[0..10];
    assert p == [0x1F, 0x8B, 8, flg] + rest;
    assert p[0] == s[0] && p[1] == s[1] && p[2] == s[2] && p[3] == s[3];
  }

  lemma HeaderCrcPrinted(x: Option<bytes>, s: bytes, at: nat)
    requires x.Some? ==> |x.value| == 2
    requires At(s, at, PrintHeaderCrc(x))
    ensures HeaderCrcEnd(x.Some?, s, Some(at)) == Some(at + |PrintHeaderCrc(x)|)
  {
  }

  lemma OptionalPrinted(m: Fields, s: bytes, at: nat)
    requires m.extra.Some? ==> |m.extra.value| <= 0xFFFF
    requires m.name.Some? ==> 0 !in m.name.value
    requires m.comment.Some? ==> 0 !in m.comment.value
    requires m.headerCrc.Some? ==> |m.headerCrc.value| == 2
    requires At(s, at, PrintOptional(m))
    ensures OptionalEnd(m.extra.Some?, m.name.Some?, m.comment.Some?, m.headerCrc.Some?, s, at)
         == Some(at + |PrintOptional(m)|)
  {
    hide PrintExtra, PrintNulString, PrintHeaderCrc, ExtraEnd, NulStringEnd, HeaderCrcEnd, At;
    var x, n, c, h := PrintExtra(m.extra), PrintNulString(m.name), PrintNulString(m.comment),
      PrintHeaderCrc(m.headerCrc);
    AtConcat4(s, at, x, n, c, h);
    ExtraPrinted(m.extra, s, at);
    NulStringPrinted(m.name, s, at + |x|);
    NulStringPrinted(m.comment, s, at + |x| + |n|);
    HeaderCrcPrinted(m.headerCrc, s, at + |x| + |n| + |c|);
  }

  lemma BodyPrinted(c: Coder, body: bytes, s: bytes, at: nat)
    requires Streaming(c) && Inflate(c, body).Done? && At(s, at, body)
    ensures Inflate(c, s[at..]) == Inflate(c, body)
  {
    var tail := s[at + |body|..];
    assert s[at..] == body + tail;
    InflateIgnoresTail(c, body, tail);
  }

  lemma HeaderPrinted(c: Coder, m: Fields, s: bytes)
    requires WellFormed(c, m) && At(s, 0, [0x1F, 0x8B, 8, m.flags] + m.rest) && At(s, 10, PrintOptional(m))
    ensures ReadHeader(s) == Body(10 + |PrintOptional(m)|)
  {
    hide OptionalEnd, PrintOptional, FExtra, FName, FComment, FHcrc;
    FixedPrinted(s, m.flags, m.rest);
    OptionalPrinted(m, s, 10);
  }

  /** Completeness: whatever the standard allows is read back, whatever follows it. */
  lemma PrintedMemberParses(c: Coder, m: Fields, rest: bytes)
    requires Streaming(c) && WellFormed(c, m)
    ensures ParseMember(c, Print(m) + rest) == Member(|Print(m)|, Inflate(c, m.body).out)
  {
    hide ReadHeader, Streaming, PrintOptional, At, FExtra, FName, FComment, FHcrc;
    var s := Print(m) + rest;
    AtFront(Print(m), rest);
    AtConcat4(s, 0, [0x1F, 0x8B, 8, m.flags] + m.rest, PrintOptional(m), m.body, m.trailer);
    HeaderPrinted(c, m, s);
    BodyPrinted(c, m.body, s, 10 + |PrintOptional(m)|);
  }

  lemma AtFront(a: bytes, b: bytes)
    ensures At(a + b, 0, a)
  {
  }

  /** The fields of a header that was found to end at `e4`, for a member of `n` bytes. */
  ghost function FieldsAt(s: bytes, e1: nat, e2: nat, e3: nat, e4: nat, n: nat): Fields
    requires 10 <= e1 <= e2 <= e3 <= e4 <= n - 8 && n <= |s|
  {
    var flg := s[3];
    Fields(flg, s[4..10],
      if FExtra(flg) && 12 <= e1 then Some(s[12..e1]) else None,
      if FName(flg) && e1 < e2 then Some(s[e1..e2 - 1]) else None,
      if FComment(flg) && e2 < e3 then Some(s[e2..e3 - 1]) else None,
      if FHcrc(flg) then Some(s[e3..e4]) else None,
      s[e4..n - 8], s[n - 8..n])
  }

  lemma NulStringRead(present: bool, s: bytes, at: nat, e: nat)
    requires at <= |s| && NulStringEnd(present, s, Some(at)) == Some(e)
    ensures present ==> at < e && 0 !in s[at..e - 1]
    ensures PrintNulString(if present then Some(s[at..e - 1]) else None) == s[at..e]
  {
    if present { NulEndFound(s, at); }
  }

  lemma ExtraRead(present: bool, s: bytes, at: nat, e: nat)
    requires at <= |s| && ExtraEnd(present, s, at) == Some(e)
    ensures present ==> at + 2 <= e <= at + 2 + 0xFFFF
    ensures PrintExtra(if present then Some(s[at + 2..e]) else None) == s[at..e]
  {
  }

  /** The fields of the member that `ParseMember` found at the front of `s`. */
  ghost function FieldsOf(c: Coder, s: bytes): Fields
    requires ParseMember(c, s).Member?
  {
    var flg := s[3];
    var e1 := ExtraEnd(FExtra(flg), s, 10);
    var e2 := NulStringEnd(FName(flg), s, e1);
    var e3 := NulStringEnd(FComment(flg), s, e2);
    FieldsAt(s, e1.value, e2.value, e3.value, ReadHeader(s).at, ParseMember(c, s).size)
  }

  /** Four slices in a row. */
  lemma AtSlices4(s: bytes, a: nat, b: nat, d: nat, e: nat, f: nat)
    requires a <= b <= d <= e <= f <= |s|
    ensures s[a..b] + (s[b..d] + (s[d..e] + s[e..f])) == s[a..f]
    ensures a == 0 ==> s[a..f] == s[..f]
  {
    assert s[d..e] + s[e..f] == s[d..f];
    assert s[b..d] + s[d..f] == s[b..f];
    assert s[a..b] + s[b..f] == s[a..f];
  }

  lemma OptionalReprint(s: bytes, m: Fields, e1: nat, e2: nat, e3: nat, e4: nat)
    requires 10 <= e1 <= e2 <= e3 <= e4 <= |s|
    requires m.extra.Some? ==> |m.extra.value| <= 0xFFFF
    requires PrintExtra(m.extra) == s[10..e1]
    requires PrintNulString(m.name) == s[e1..e2]
    requires PrintNulString(m.comment) == s[e2..e3]
    requires PrintHeaderCrc(m.headerCrc) == s[e3..e4]
    ensures PrintOptional(m) == s[10..e4]
  {
    hide PrintExtra, PrintNulString, PrintHeaderCrc;
    AtSlices4(s, 10, e1, e2, e3, e4);
  }

  lemma FixedReprint(s: bytes, flags: byte, rest: bytes)
    requires |s| >= 10 && s[0] == 0x1F && s[1] == 0x8B && s[2] == 8 && s[3] == flags && rest == s[4..10]
    ensures [0x1F, 0x8B, 8, flags] + rest == s[0..10]
  {
  }

  lemma PartsReprint(s: bytes, m: Fields, e4: nat, n: nat)
    requires 10 <= e4 <= n - 8 && n <= |s|
    requires m.extra.Some? ==> |m.extra.value| <= 0xFFFF
    requires s[0] == 0x1F && s[1] == 0x8B && s[2] == 8 && s[3] == m.flags && m.rest == s[4..10]
    requires PrintOptional(m) == s[10..e4]
    requires m.body == s[e4..n - 8] && m.trailer == s[n - 8..n]
    ensures Print(m) == s[..n]
  {
    hide PrintOptional, At;
    FixedReprint(s, m.flags, m.rest);
    AtSlices4(s, 0, 10, e4, n - 8, n);
  }

  lemma FieldsReprint(s: bytes, e1: nat, e2: nat, e3: nat, e4: nat, n: nat)
    requires 10 <= e1 <= e2 <= e3 <= e4 <= n - 8 && n <= |s|
    requires s[0] == 0x1F && s[1] == 0x8B && s[2] == 8
    requires ExtraEnd(FExtra(s[3]), s, 10) == Some(e1)
    requires NulStringEnd(FName(s[3]), s, Some(e1)) == Some(e2)
    requires NulStringEnd(FComment(s[3]), s, Some(e2)) == Some(e3)
    requires HeaderCrcEnd(FHcrc(s[3]), s, Some(e3)) == Some(e4)
    ensures var m := FieldsAt(s, e1, e2, e3, e4, n);
      && (m.extra.Some? <==> FExtra(m.flags)) && (m.extra.Some? ==> |m.extra.value| <= 0xFFFF)
      && (m.name.Some? <==> FName(m.flags)) && (m.name.Some? ==> 0 !in m.name.value)
      && (m.comment.Some? <==> FComment(m.flags)) && (m.comment.Some? ==> 0 !in m.comment.value)
      && (m.headerCrc.Some? <==> FHcrc(m.flags)) && (m.headerCrc.Some? ==> |m.headerCrc.value| == 2)
      && Print(m) == s[..n]
  {
    var flg := s[3];
    var m := FieldsAt(s, e1, e2, e3, e4, n);
    ExtraRead(FExtra(flg), s, 10, e1);
    NulStringRead(FName(flg), s, e1, e2);
    NulStringRead(FComment(flg), s, e2, e3);
    OptionalReprint(s, m, e1, e2, e3, e4);
    PartsReprint(s, m, e4, n);
  }

  /** What a header that was read says about its parts. */
  lemma HeaderParts(s: bytes)
    requires ReadHeader(s).Body?
    ensures |s| >= 10 && s[0] == 0x1F && s[1] == 0x8B && s[2] == 8
    ensures var e1 := ExtraEnd(FExtra(s[3]), s, 10);
      var e2 := NulStringEnd(FName(s[3]), s, e1);
      var e3 := NulStringEnd(FComment(s[3]), s, e2);
      && e1.Some? && e2.Some? && e3.Some? && 10 <= e1.value <= e2.value <= e3.value <= ReadHeader(s).at
      && HeaderCrcEnd(FHcrc(s[3]), s, e3) == Some(ReadHeader(s).at)
  {
    hide ExtraEnd, NulStringEnd, HeaderCrcEnd, FExtra, FName, FComment, FHcrc;
  }

  lemma BodyParts(c: Coder, s: bytes, at: nat, k: nat)
    requires Streaming(c) && at <= |s| && Inflate(c, s[at..]).Done? && k == at + Inflate(c, s[at..]).used <= |s|
    ensures Inflate(c, s[at..k]) == Inflate(c, s[at..])
  {
    hide Streaming;
    InflateCut(c, s[at..], k - at);
    assert s[at..k] == s[at..][..k - at];
  }

  /** Soundness: a member is reported only for bytes the standard allows. */
  lemma ParsedMemberIsWellFormed(c: Coder, s: bytes)
    requires Streaming(c) && ParseMember(c, s).Member?
    ensures var m := FieldsOf(c, s);
      && WellFormed(c, m) && Print(m) == s[..ParseMember(c, s).size]
      && ParseMember(c, s).data == Inflate(c, m.body).out
  {
    hide ReadHeader, Streaming, Print, ExtraEnd, NulStringEnd, HeaderCrcEnd, FExtra, FName, FComment, FHcrc;
    var at, n := ReadHeader(s).at, ParseMember(c, s).size;
    HeaderParts(s);
    var e1 := ExtraEnd(FExtra(s[3]), s, 10);
    var e2 := NulStringEnd(FName(s[3]), s, e1);
    var e3 := NulStringEnd(FComment(s[3]), s, e2);
    FieldsReprint(s, e1.value, e2.value, e3.value, at, n);
    BodyParts(c, s, at, n - 8);
  }

  // ── what announces a field, and what is refused ──

  function Bit(b: bool): nat
  {
    if b then 1 else 0
  }

  /** The flag byte: bit 1 for the header checksum, 2 for the extra field, 3 for the file
      name, 4 for the comment; the others announce nothing. */
  lemma FlagBits(flg: byte, text: bool, crc: bool, extra: bool, name: bool, comment: bool, reserved: nat)
    requires flg == Bit(text) + 2 * Bit(crc) + 4 * Bit(extra) + 8 * Bit(name) + 16 * Bit(comment) + 32 * reserved
    ensures FHcrc(flg) == crc && FExtra(flg) == extra && FName(flg) == name && FComment(flg) == comment
  {
    var n4 := Bit(comment) + 2 * reserved;
    var n3 := Bit(name) + 2 * n4;
    var n2 := Bit(extra) + 2 * n3;
    var n1 := Bit(crc) + 2 * n2;
    LowBit(text, n1);
    LowBit(crc, n2);
    LowBit(extra, n3);
    LowBit(name, n4);
    LowBit(comment, reserved);
    Halves(flg);
  }

  lemma LowBit(b: bool, rest: nat)
    ensures (Bit(b) + 2 * rest) / 2 == rest && (Bit(b) + 2 * rest) % 2 == Bit(b)
  {
  }

  lemma Halves(n: nat)
    ensures n / 4 == n / 2 / 2 && n / 8 == n / 2 / 2 / 2 && n / 16 == n / 2 / 2 / 2 / 2
  {
  }

  /** What is no member for another reason than its end: it does not start with the magic
      number, or with another compression method, or its data are not DEFLATE. */
  lemma RefusedMembers(c: Coder, s: bytes)
    ensures 0 < |s| < 10 ==> ParseMember(c, s) == Failed(UnexpectedEof)
    ensures |s| >= 10 && !([0x1F, 0x8B] <= s) ==> ParseMember(c, s) == Failed(BadMagic)
    ensures |s| >= 10 && [0x1F, 0x8B] <= s && s[2] != 8 ==> ParseMember(c, s) == Failed(BadMethod)
  {
    hide HeaderEnd;
    if |s| >= 10 && s[0] == 0x1F && s[1] == 0x8B { assert s[..2] == [0x1F, 0x8B]; }
  }

  /** A header the standard allows, and then bytes that are not DEFLATE. */
  lemma RefusedBody(c: Coder, m: Fields, body: bytes)
    requires Streaming(c) && WellFormed(c, m) && Inflate(c, body).Corrupt?
    ensures ParseMember(c, [0x1F, 0x8B, 8, m.flags] + m.rest + PrintOptional(m) + body) == Failed(BadData)
    ensures CheckedMember(c, [0x1F, 0x8B, 8, m.flags] + m.rest + PrintOptional(m) + body) == Failed(BadData)
  {
    var s := [0x1F, 0x8B, 8, m.flags] + m.rest + PrintOptional(m) + body;
    hide ReadHeader, Streaming, PrintOptional, FExtra, FName, FComment, FHcrc;
    assert s == ([0x1F, 0x8B, 8, m.flags] + m.rest) + (PrintOptional(m) + body);
    assert At(s, 0, [0x1F, 0x8B, 8, m.flags] + m.rest) && At(s, 10, PrintOptional(m));
    HeaderPrinted(c, m, s);
    assert s[10 + |PrintOptional(m)|..] == body;
  }

  /** The reader that insists on the trailer takes a well-formed member exactly when the
      trailer is the one that belongs to its content. */
  lemma TrailerDecides(c: Coder, m: Fields, rest: bytes)
    requires Streaming(c) && WellFormed(c, m)
    ensures var data := Inflate(c, m.body).out;
      CheckedMember(c, Print(m) + rest) ==
        if m.trailer == Trailer(c, data) then Member(|Print(m)|, data) else Failed(BadTrailer)
  {
    hide Streaming, PrintOptional, FExtra, FName, FComment, FHcrc, Trailer;
    PrintedMemberParses(c, m, rest);
    var s, n := Print(m) + rest, |Print(m)|;
    assert s[n - 8..n] == m.trailer;
  }

  /** That trailer: four bytes of checksum, then the length modulo 2^32, least
      significant byte first. */
  lemma TrailerIs(c: Coder, data: bytes)
    requires Streaming(c)
    ensures var t := Trailer(c, data);
      |t| == 8 && t[..4] == Crc(c, data) && Word(t[4], t[5]) + 0x1_0000 * Word(t[6], t[7]) == |data| % 0x1_0000_0000
  {
    assert RoundTrips(c, data);
    hide Streaming;
    FourBytes(|data| % 0x1_0000_0000);
  }

  lemma FourBytes(n: nat)
    requires n < 0x1_0000_0000
    ensures n / 0x100_0000 < 256
    ensures Word(n % 256, n / 0x100 % 256) + 0x1_0000 * Word(n / 0x1_0000 % 256, n / 0x100_0000) == n
  {
    var a := n / 256;
    var b := a / 256;
    assert n / 0x1_0000 == b && n / 0x100_0000 == b / 256;
  }

  /** A member that was damaged behind its compressed data is no member. */
  lemma DamagedTrailer(c: Coder, data: bytes, t: bytes, rest: bytes)
    requires Streaming(c) && |t| == 8 && t != Trailer(c, data)
    ensures CheckedMember(c, FIXED_HEADER + Deflate(c, data) + t + rest) == Failed(BadTrailer)
    ensures ParseMember(c, FIXED_HEADER + Deflate(c, data) + t + rest) == Member(|Deflate(c, data)| + 18, data)
  {
    assert RoundTrips(c, data);
    var m := Fields(0, [0, 0, 0, 0, 0, 255], None, None, None, None, Deflate(c, data), t);
    assert Print(m) == FIXED_HEADER + Deflate(c, data) + t;
    hide Streaming, Trailer;
    TrailerDecides(c, m, rest);
    PrintedMemberParses(c, m, rest);
  }

  /** The encoder's own members: read back by both readers, content and size exact. */
  lemma EncodedMemberParses(c: Coder, data: bytes, rest: bytes)
    requires Streaming(c)
    ensures ParseMember(c, MemberOf(c, data) + rest) == Member(|MemberOf(c, data)|, data)
    ensures CheckedMember(c, MemberOf(c, data) + rest) == Member(|MemberOf(c, data)|, data)
  {
    assert RoundTrips(c, data);
    var t := Trailer(c, data);
    var m := Fields(0, [0, 0, 0, 0, 0, 255], None, None, None, None, Deflate(c, data), t);
    assert Print(m) == MemberOf(c, data);
    PrintedMemberParses(c, m, rest);
    var s, n := MemberOf(c, data) + rest, |MemberOf(c, data)|;
    assert s[n - 8..n] == t;
  }
}
