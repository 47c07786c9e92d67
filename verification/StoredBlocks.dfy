/** A concrete coder: DEFLATE restricted to stored blocks (RFC 1951 section
  3.2.4), with the CRC-32 of RFC 1952 section 8. It shows that the contract
  `Codec.Streaming` can be met, and gives exact compressed sizes. */
module StoredBlocks {
  import opened Bytes
  import opened Codec

  const MAX_STORED := 65535

  function Le16(n: nat): bytes
    requires n <= 0xFFFF
  {
    [n % 256, n / 256]
  }

  /** One stored block: BFINAL and BTYPE = 00, LEN, its complement, the data. */
  function Block(final: bool, d: bytes): bytes
    requires |d| <= MAX_STORED
  {
    [if final then 1 else 0] + Le16(|d|) + Le16(MAX_STORED - |d|) + d
  }

  function Deflate(d: bytes): bytes
  {
    if |d| <= MAX_STORED then Block(true, d)
    else Block(false, d[..MAX_STORED]) + Deflate(d[MAX_STORED..])
  }

  function Prepend(used: nat, d: bytes, r: Inflated): Inflated
  {
    match r
    case Done(u, out) => Done(used + u, d + out)
    case More(out) => More(d + out)
    case Corrupt(out) => Corrupt(d + out)
  }

  /** The block at the front of `s`: its data runs from 5 to `end`. */
  datatype Head = Complete(final: bool, end: nat) | Partial(have: bytes) | Invalid

  function ReadHead(s: bytes): (h: Head)
    ensures h.Complete? ==> 5 <= h.end <= |s|
  {
    if s == [] then Partial([])
    else if (s[0] / 2) % 4 != 0 then Invalid
    else if |s| < 5 then Partial([])
    else if Word(s[1], s[2]) + Word(s[3], s[4]) != MAX_STORED then Invalid
    else if |s| < 5 + Word(s[1], s[2]) then Partial(s[5..])
    else Complete(s[0] % 2 == 1, 5 + Word(s[1], s[2]))
  }

  function Inflate(s: bytes): Inflated
  {
    match ReadHead(s)
    case Partial(have) => More(have)
    case Invalid => Corrupt([])
    case Complete(final, end) =>
      if final then Done(end, s[5..end]) else Prepend(end, s[5..end], Inflate(s[end..]))
  }

  function CrcShift(c: bv32, n: nat): bv32
    decreases n
  {
    if n == 0 then c
    else CrcShift(if c & 1 == 1 then 0xEDB8_8320 ^ (c >> 1) else c >> 1, n - 1)
  }

  function CrcUpdate(c: bv32, d: bytes): bv32
    decreases |d|
  {
    if d == [] then c else CrcUpdate(CrcShift(c ^ (d[0] as bv32), 8), d[1..])
  }

  function Crc32(d: bytes): (r: bytes)
    ensures |r| == 4
  {
    var c := (CrcUpdate(0xFFFF_FFFF, d) ^ 0xFFFF_FFFF) as int;
    [c % 256, c / 0x100 % 256, c / 0x1_0000 % 256, c / 0x100_0000 % 256]
  }

  const STORED: Coder := Coder(s => Inflate(s), d => Deflate(d), d => Crc32(d))

  // ── the contract ──

  lemma HeadCut(s: bytes, k: nat)
    requires k <= |s|
    ensures match ReadHead(s)
      case Complete(final, end) =>
        if end <= k then ReadHead(s[..k]) == ReadHead(s)
        else ReadHead(s[..k]).Partial? && ReadHead(s[..k]).have <= s[5..end]
      case Partial(have) => ReadHead(s[..k]).Partial? && ReadHead(s[..k]).have <= have
      case Invalid => ReadHead(s[..k]) == Invalid || ReadHead(s[..k]) == Partial([])
  {
  }

  lemma {:induction false} InflatePrefixStable(s: bytes, k: nat)
    requires k <= |s|
    ensures if Inflate(s[..k]).More? then Inflate(s[..k]).out <= Inflate(s).out
            else Inflate(s) == Inflate(s[..k])
    decreases |s|
  {
    hide ReadHead;
    HeadCut(s, k);
    match ReadHead(s)
    case Complete(final, end) =>
      if end <= k {
        CutSlices(s, k, end);
        InflatePrefixStable(s[end..], k - end);
      }
    case _ =>
  }

  lemma CutSlices(s: bytes, k: nat, end: nat)
    requires 5 <= end <= k <= |s|
    ensures s[..k][5..end] == s[5..end] && s[..k][end..] == s[end..][..k - end]
  {
  }

  lemma {:induction false} InflateWithinUsed(s: bytes)
    requires Inflate(s).Done?
    ensures 0 < Inflate(s).used <= |s|
    ensures Inflate(s[..Inflate(s).used]) == Inflate(s)
    decreases |s|
  {
    hide ReadHead;
    var u, end := Inflate(s).used, ReadHead(s).end;
    if !ReadHead(s).final { InflateWithinUsed(s[end..]); }
    HeadCut(s, u);
    CutSlices(s, u, end);
  }

  lemma {:induction false} InflateSelfTerminating(s: bytes, k: nat)
    requires Inflate(s).Done? && k < Inflate(s).used <= |s|
    ensures Inflate(s[..k]).More?
    decreases |s|
  {
    hide ReadHead;
    HeadCut(s, k);
    var end := ReadHead(s).end;
    if end <= k {
      CutSlices(s, k, end);
      InflateSelfTerminating(s[end..], k - end);
    }
  }

  lemma HeadOfBlock(final: bool, d: bytes, rest: bytes)
    requires |d| <= MAX_STORED
    ensures var s := Block(final, d) + rest;
      && ReadHead(s) == Complete(final, 5 + |d|) && |s| == 5 + |d| + |rest|
      && s[5..5 + |d|] == d && s[5 + |d|..] == rest
  {
    var s := Block(final, d) + rest;
    assert s[0] == if final then 1 else 0;
    assert Word(s[1], s[2]) == |d|;
    assert Word(s[3], s[4]) == MAX_STORED - |d|;
  }

  lemma InflateOneBlock(final: bool, d: bytes, rest: bytes)
    requires |d| <= MAX_STORED
    ensures Inflate(Block(final, d) + rest) ==
            if final then Done(5 + |d|, d) else Prepend(5 + |d|, d, Inflate(rest))
  {
    hide ReadHead, Block;
    HeadOfBlock(final, d, rest);
  }

  lemma {:induction false} InflateInvertsDeflate(d: bytes)
    ensures Inflate(Deflate(d)) == Done(|Deflate(d)|, d)
    decreases |d|
  {
    if |d| <= MAX_STORED {
      InflateOneBlock(true, d, []);
      assert Block(true, d) + [] == Deflate(d);
    } else {
      var head, tail := d[..MAX_STORED], d[MAX_STORED..];
      InflateOneBlock(false, head, Deflate(tail));
      InflateInvertsDeflate(tail);
      assert head + tail == d;
    }
  }

  /** The stored-block coder meets the contract the model asks of DEFLATE. */
  lemma StoredIsStreaming()
    ensures Streaming(STORED)
  {
    forall s: bytes, k: nat | k <= |s| ensures Stable(STORED, s, k) { InflatePrefixStable(s, k); }
    forall s: bytes ensures EndsWithin(STORED, s) { if Inflate(s).Done? { InflateWithinUsed(s); } }
    forall s: bytes, k: nat ensures EndsNoSooner(STORED, s, k) {
      if Inflate(s).Done? && k < Inflate(s).used <= |s| { InflateSelfTerminating(s, k); }
    }
    forall d: bytes ensures RoundTrips(STORED, d) { InflateInvertsDeflate(d); }
  }

  /** Blocks needed for `n` bytes: the empty stream still has its final block. */
  function Blocks(n: nat): nat
  {
    if n == 0 then 1 else (n + MAX_STORED - 1) / MAX_STORED
  }

  /** Stored blocks cost exactly five bytes each on top of the data. */
  lemma {:induction false} DeflateSize(d: bytes)
    ensures |Deflate(d)| == |d| + 5 * Blocks(|d|)
    decreases |d|
  {
    if |d| > MAX_STORED {
      DeflateSize(d[MAX_STORED..]);
      assert Blocks(|d|) == 1 + Blocks(|d| - MAX_STORED);
    }
  }

  // ── known values ──

  lemma CrcShiftOne(c: bv32, n: nat, next: bv32)
    requires next == if c & 1 == 1 then 0xEDB8_8320 ^ (c >> 1) else c >> 1
    ensures CrcShift(c, n + 1) == CrcShift(next, n)
  {
  }

  lemma CrcShiftNone(c: bv32)
    ensures CrcShift(c, 0) == c
  {
  }

  /** Eight steps of the checksum register. */
  lemma CrcOfA()
    ensures CrcShift(0xFFFF_FF9E, 8) == 0x1748_41BC
  {
    hide CrcShift;
    CrcShiftOne(0xFFFF_FF9E, 7, 0x7FFF_FFCF);
    CrcShiftOne(0x7FFF_FFCF, 6, 0xD247_7CC7);
    CrcShiftOne(0xD247_7CC7, 5, 0x849B_3D43);
    CrcShiftOne(0x849B_3D43, 4, 0xAFF5_1D81);
    CrcShiftOne(0xAFF5_1D81, 3, 0xBA42_0DE0);
    CrcShiftOne(0xBA42_0DE0, 2, 0x5D21_06F0);
    CrcShiftOne(0x5D21_06F0, 1, 0x2E90_8378);
    CrcShiftOne(0x2E90_8378, 0, 0x1748_41BC);
    CrcShiftNone(0x1748_41BC);
  }

  lemma CrcOneByte(c: bv32, b: byte)
    ensures CrcUpdate(c, [b]) == CrcShift(c ^ (b as bv32), 8)
  {
    hide CrcShift;
    assert [b][1..] == [];
  }

  /** The checksum of `a`. */
  lemma CrcValue()
    ensures CrcUpdate(0xFFFF_FFFF, [97]) ^ 0xFFFF_FFFF == 0xE8B7_BE43
  {
    hide CrcShift, CrcUpdate;
    CrcOneByte(0xFFFF_FFFF, 97);
    CrcOfA();
  }
}
