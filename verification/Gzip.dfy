/** Gzip members, as RFC 1952 section 2.3 lays them out and as the program reads them. */
module Gzip {
  import opened Bytes
  import opened Codec

  datatype Error = UnexpectedEof | BadMagic | BadMethod | BadData | BadTrailer

  /** What one attempt to read a member off the front of a byte string gives. */
  datatype Parsed =
    | NoMember                            // nothing left at all
    | Member(size: nat, data: bytes)      // compressed size, decompressed content
    | Failed(error: Error)

  // the flag bits that announce optional header fields
  predicate FHcrc(flg: byte) { flg / 2 % 2 == 1 }
  predicate FExtra(flg: byte) { flg / 4 % 2 == 1 }
  predicate FName(flg: byte) { flg / 8 % 2 == 1 }
  predicate FComment(flg: byte) { flg / 16 % 2 == 1 }

  // ── optional header fields: each gives the index just past the field, or None at end of input ──

  function ExtraEnd(present: bool, s: bytes, at: nat): (r: Option<nat>)
    requires at <= |s|
    ensures r.Some? ==> at <= r.value <= |s|
  {
    if !present then Some(at)
    else if |s| < at + 2 || |s| < at + 2 + Word(s[at], s[at + 1]) then None
    else Some(at + 2 + Word(s[at], s[at + 1]))
  }

  /** Index just past the first NUL at or after `at`. */
  function NulEnd(s: bytes, at: nat): (r: Option<nat>)
    requires at <= |s|
    ensures r.Some? ==> at < r.value <= |s|
    decreases |s| - at
  {
    if at == |s| then None else if s[at] == 0 then Some(at + 1) else NulEnd(s, at + 1)
  }

  function NulStringEnd(present: bool, s: bytes, at: Option<nat>): (r: Option<nat>)
    requires at.Some? ==> at.value <= |s|
    ensures r.Some? ==> at.Some? && at.value <= r.value <= |s|
  {
    if present && at.Some? then NulEnd(s, at.value) else at
  }

  function HeaderCrcEnd(present: bool, s: bytes, at: Option<nat>): (r: Option<nat>)
    requires at.Some? ==> at.value <= |s|
    ensures r.Some? ==> at.Some? && at.value <= r.value <= |s|
  {
    if !present || at.None? then at else if |s| < at.value + 2 then None else Some(at.value + 2)
  }

  /** The optional fields, in the order the standard gives them. */
  function OptionalEnd(extra: bool, name: bool, comment: bool, crc: bool, s: bytes, at: nat): (r: Option<nat>)
    requires at <= |s|
    ensures r.Some? ==> at <= r.value <= |s|
  {
    HeaderCrcEnd(crc, s, NulStringEnd(comment, s, NulStringEnd(name, s, ExtraEnd(extra, s, at))))
  }

  function HeaderEnd(s: bytes): (r: Option<nat>)
    requires |s| >= 10
    ensures r.Some? ==> 10 <= r.value <= |s|
  {
    OptionalEnd(FExtra(s[3]), FName(s[3]), FComment(s[3]), FHcrc(s[3]), s, 10)
  }

  /** The ten fixed bytes, then the optional fields: where the deflate data starts. */
  datatype Header = Body(at: nat) | Bad(error: Error)

  function ReadHeader(s: bytes): (h: Header)
    ensures h.Body? ==> 10 <= h.at <= |s|
  {
    if |s| < 10 then Bad(UnexpectedEof)
    else if s[0] != 0x1F || s[1] != 0x8B then Bad(BadMagic)
    else if s[2] != 8 then Bad(BadMethod)
    else match HeaderEnd(s)
      case None => Bad(UnexpectedEof)
      case Some(at) => Body(at)
  }

  /** Read the member at the front of `s`, trusting its trailer. */
  function ParseMember(c: Coder, s: bytes): (r: Parsed)
    ensures r.Member? ==> 18 <= r.size <= |s|
    ensures r == NoMember <==> s == []
  {
    if s == [] then NoMember
    else match ReadHeader(s)
      case Bad(e) => Failed(e)
      case Body(at) =>
        match Inflate(c, s[at..])
        case More(_) => Failed(UnexpectedEof)
        case Corrupt(_) => Failed(BadData)
        case Done(used, out) =>
          if |s| < at + used + 8 then Failed(UnexpectedEof) else Member(at + used + 8, out)
  }

  /** The trailer that belongs to `data`: CRC-32, then the length modulo 2^32. */
  function Trailer(c: Coder, data: bytes): bytes
  {
    var n := |data| % 0x1_0000_0000;
    Crc(c, data) + [n % 256, n / 0x100 % 256, n / 0x1_0000 % 256, n / 0x100_0000]
  }

  /** Read the member at the front of `s`, insisting on its trailer. */
  function CheckedMember(c: Coder, s: bytes): Parsed
  {
    match ParseMember(c, s)
    case Member(n, data) =>
      if s[n - 8..n] == Trailer(c, data) then Member(n, data) else Failed(BadTrailer)
    case r => r
  }

  /** What a reader has been handed by the time it hits the end of `s` or an error in it. */
  function Delivered(c: Coder, s: bytes): bytes
  {
    match ReadHeader(s)
    case Bad(_) => []
    case Body(at) => Inflate(c, s[at..]).out
  }

  /** The member an encoder with no optional fields writes for `data`. */
  function MemberOf(c: Coder, data: bytes): bytes
  {
    FIXED_HEADER + Deflate(c, data) + Trailer(c, data)
  }

  const FIXED_HEADER: bytes := [0x1F, 0x8B, 8, 0, 0, 0, 0, 0, 0, 255]

  // ── what a cut does ──

  /** An index found in `s` is found in `s[..k]` exactly when it lies there. */
  function Within(end: Option<nat>, k: nat): Option<nat>
  {
    match end case None => None case Some(e) => if e <= k then Some(e) else None
  }

  lemma {:induction false} NulEndCut(s: bytes, at: nat, k: nat)
    requires at <= k <= |s|
    ensures NulEnd(s[..k], at) == Within(NulEnd(s, at), k)
    decreases |s| - at
  {
    if at < k && s[at] != 0 { NulEndCut(s, at + 1, k); }
  }

  lemma NulStringEndCut(present: bool, s: bytes, at: Option<nat>, k: nat)
    requires k <= |s| && (at.Some? ==> at.value <= |s|)
    ensures NulStringEnd(present, s[..k], Within(at, k)) == Within(NulStringEnd(present, s, at), k)
  {
    if at.Some? && at.value <= k { NulEndCut(s, at.value, k); }
  }

  lemma ExtraEndCut(present: bool, s: bytes, at: nat, k: nat)
    requires at <= k <= |s|
    ensures ExtraEnd(present, s[..k], at) == Within(ExtraEnd(present, s, at), k)
  {
  }

  lemma HeaderCrcEndCut(present: bool, s: bytes, at: Option<nat>, k: nat)
    requires k <= |s| && (at.Some? ==> at.value <= |s|)
    ensures HeaderCrcEnd(present, s[..k], Within(at, k)) == Within(HeaderCrcEnd(present, s, at), k)
  {
  }

  lemma OptionalEndCut(extra: bool, name: bool, comment: bool, crc: bool, s: bytes, at: nat, k: nat)
    requires at <= k <= |s|
    ensures OptionalEnd(extra, name, comment, crc, s[..k], at)
         == Within(OptionalEnd(extra, name, comment, crc, s, at), k)
  {
    var a := ExtraEnd(extra, s, at);
    var b := NulStringEnd(name, s, a);
    var d := NulStringEnd(comment, s, b);
    ExtraEndCut(extra, s, at, k);
    NulStringEndCut(name, s, a, k);
    NulStringEndCut(comment, s, b, k);
    HeaderCrcEndCut(crc, s, d, k);
  }

  /** A header that was read is read from every cut behind it, and from no other. */
  lemma ReadHeaderCut(s: bytes, k: nat)
    requires ReadHeader(s).Body? && k <= |s|
    ensures ReadHeader(s[..k]) == if k < ReadHeader(s).at then Bad(UnexpectedEof) else ReadHeader(s)
  {
    hide OptionalEnd, FExtra, FName, FComment, FHcrc;
    if 10 <= k { OptionalEndCut(FExtra(s[3]), FName(s[3]), FComment(s[3]), FHcrc(s[3]), s, 10, k); }
  }

  /** Compressed data that was read, with `k` bytes of `s` there. */
  lemma BodyCut(c: Coder, s: bytes, at: nat, k: nat)
    requires Streaming(c) && at <= k <= |s| && Inflate(c, s[at..]).Done?
    ensures Inflate(c, s[..k][at..]) == Inflate(c, s[at..]) ||
      (Inflate(c, s[..k][at..]).More? && k < at + Inflate(c, s[at..]).used)
  {
    hide Streaming;
    assert s[..k][at..] == s[at..][..k - at];
    InflateCut(c, s[at..], k - at);
  }

  /** Reading a member needs exactly its own bytes: any shorter prefix is an
      unexpected end of file, any longer input gives the same member. */
  lemma MemberNeedsExactlyItsBytes(c: Coder, s: bytes, k: nat)
    requires Streaming(c) && ParseMember(c, s).Member? && k <= |s|
    ensures var n := ParseMember(c, s).size;
      ParseMember(c, s[..k]) ==
        if k == 0 then NoMember else if k < n then Failed(UnexpectedEof) else ParseMember(c, s)
  {
    hide ReadHeader, Streaming;
    var at := ReadHeader(s).at;
    ReadHeaderCut(s, k);
    if at <= k { BodyCut(c, s, at, k); }
  }

  /** The same for the reader that insists on the trailer. */
  lemma CheckedNeedsExactlyItsBytes(c: Coder, s: bytes, k: nat)
    requires Streaming(c) && CheckedMember(c, s).Member? && k <= |s|
    ensures var n := CheckedMember(c, s).size;
      CheckedMember(c, s[..k]) ==
        if k == 0 then NoMember else if k < n then Failed(UnexpectedEof) else CheckedMember(c, s)
  {
    MemberNeedsExactlyItsBytes(c, s, k);
    var n := CheckedMember(c, s).size;
    if n <= k { assert s[..k][n - 8..n] == s[n - 8..n]; }
  }
}
