/** Undoing chunked transfer coding (section 7.1 of RFC 9112) on stored bodies that
  may be cut off anywhere, or not be chunked at all. */
module Chunked {
  import opened Bytes

  const MAX_LINE := 64
  const USIZE_MAX := 0xFFFF_FFFF_FFFF_FFFF
  const SEMICOLON: byte := 59

  // ── size lines ──

  predicate HexDigit(b: byte)
  {
    48 <= b <= 57 || 65 <= b <= 70 || 97 <= b <= 102
  }

  function HexValue(b: byte): nat
    requires HexDigit(b)
  {
    if b <= 57 then b - 48 else if b <= 70 then b - 55 else b - 87
  }

  predicate AllHex(s: bytes)
  {
    forall i | 0 <= i < |s| :: HexDigit(s[i])
  }

  function Hex(s: bytes): nat
    requires AllHex(s)
  {
    if s == [] then 0 else 16 * Hex(s[..|s| - 1]) + HexValue(s[|s| - 1])
  }

  /** CR LF at `p`. */
  predicate CrlfAt(s: bytes, p: nat)
  {
    p + 2 <= |s| && s[p] == CR && s[p + 1] == LF
  }

  /** The first CRLF at or after `p` that ends by `end`. */
  function FirstCrlf(s: bytes, p: nat, end: nat): (r: Option<nat>)
    requires end <= |s|
    ensures r.Some? ==> p <= r.value && r.value + 2 <= end && CrlfAt(s, r.value) && forall j | p <= j < r.value ::
      !CrlfAt(s, j)
    ensures r.None? ==> forall j | p <= j && j + 2 <= end :: !CrlfAt(s, j)
    decreases end - p
  {
    if p + 2 > end then None else if CrlfAt(s, p) then Some(p) else FirstCrlf(s, p + 1, end)
  }

  /** The CRLF that ends a size line; lines are only searched so far. */
  function FindCrlf(s: bytes, from: nat): Option<nat>
  {
    if from > |s| then None else FirstCrlf(s, from, if from + MAX_LINE <= |s| then from + MAX_LINE else |s|)
  }

  /** A size line: the size, and where it ends. */
  datatype SizeLine = SizeLine(size: nat, next: nat)

  function ReadSizeLine(s: bytes, i: nat): (r: Option<SizeLine>)
    ensures r.Some? ==> i + 3 <= r.value.next <= |s|
  {
    match FindCrlf(s, i)
    case None => None
    case Some(end) =>
      var line := s[i..end];
      var digits := line[..IndexOf(line, SEMICOLON)];
      if digits == [] || |digits| > 16 || !AllHex(digits) then None else Some(SizeLine(Hex(digits), end + 2))
  }

  /** The content from `i` on, where a size line must stand. */
  function DechunkAt(s: bytes, i: nat): Option<bytes>
    decreases |s| - i
  {
    match ReadSizeLine(s, i)
    case None => None
    case Some(l) =>
      var end := l.next + l.size;
      if l.size == 0 then Some([])
      else if end > USIZE_MAX then None
      else if end > |s| then Some(s[l.next..])
      else if end + 2 > |s| then Some(s[l.next..end])
      else if !CrlfAt(s, end) then None
      else match DechunkAt(s, end + 2)
        case None => None
        case Some(rest) => Some(s[l.next..end] + rest)
  }

  /** The content of a chunked body; None for a body that is not one. */
  function Dechunked(body: bytes): Option<bytes>
  {
    if body != [] && HexDigit(body[0]) then DechunkAt(body, 0) else None
  }

  /** A walk that has collected `out` and stands at `i`. */
  ghost predicate Continues(s: bytes, out: bytes, i: nat)
  {
    match DechunkAt(s, 0)
    case None => DechunkAt(s, i) == None
    case Some(whole) => DechunkAt(s, i).Some? && whole == out + DechunkAt(s, i).value
  }

  /** Chunk by chunk; the position only moves forward. */
  method Dechunk(body: bytes) returns (r: Option<bytes>)
    ensures r == Dechunked(body)
  {
    hide ReadSizeLine;
    if body == [] || !HexDigit(body[0]) { return None; }
    var out: bytes, i: nat := [], 0;
    while true
      invariant i <= |body| && Continues(body, out, i)
      decreases |body| - i
    {
      var line := ReadSizeLine(body, i);
      if line.None? { return None; }
      var size: nat, next: nat := line.value.size, line.value.next;
      if size == 0 {
        assert out + [] == out;
        return Some(out);
      }
      var end: nat := next + size;
      if end > USIZE_MAX { return None; }
      if end > |body| { return Some(out + body[next..]); }
      ghost var before := out;
      out := out + body[next..end];
      if end + 2 > |body| { return Some(out); }
      if !CrlfAt(body, end) { return None; }
      ContinuesOn(body, before, i);
      i := end + 2;
    }
  }

  lemma ContinuesOn(s: bytes, out: bytes, i: nat)
    requires Continues(s, out, i) && ReadSizeLine(s, i).Some?
    requires var l := ReadSizeLine(s, i).value;
      l.size > 0 && l.next + l.size <= USIZE_MAX && l.next + l.size + 2 <= |s| && CrlfAt(s, l.next + l.size)
    ensures var l := ReadSizeLine(s, i).value;
      Continues(s, out + s[l.next..l.next + l.size], l.next + l.size + 2)
  {
    hide ReadSizeLine;
    var l := ReadSizeLine(s, i).value;
    var tail := DechunkAt(s, l.next + l.size + 2);
    if tail.Some? { Assoc(out, s[l.next..l.next + l.size], tail.value); }
  }

  // ── the grammar ──

  /** A chunk: hex size, optional extension, data. */
  datatype Chunk = Chunk(digits: bytes, ext: bytes, data: bytes)

  /** A size line that the scan accepts: at most 16 digits, at most 64 bytes in all,
      an extension that starts with a semicolon and holds no CRLF. */
  ghost predicate LineGood(digits: bytes, ext: bytes)
  {
    && 1 <= |digits| <= 16 && AllHex(digits) && |digits| + |ext| + 2 <= MAX_LINE
    && (ext != [] ==> ext[0] == SEMICOLON) && forall j | 0 <= j :: !CrlfAt(ext, j)
  }

  function LineOf(digits: bytes, ext: bytes): bytes
  {
    digits + ext + CRLF
  }

  ghost predicate ChunkGood(c: Chunk)
  {
    LineGood(c.digits, c.ext) && c.data != [] && Hex(c.digits) == |c.data|
  }

  function PrintChunk(c: Chunk): bytes
  {
    LineOf(c.digits, c.ext) + (c.data + CRLF)
  }

  function Print(cs: seq<Chunk>): bytes
  {
    if cs == [] then [] else PrintChunk(cs[0]) + Print(cs[1..])
  }

  /** What the chunks hold. */
  function Data(cs: seq<Chunk>): bytes
  {
    if cs == [] then [] else cs[0].data + Data(cs[1..])
  }

  ghost predicate ChunksGood(cs: seq<Chunk>)
  {
    forall k | 0 <= k < |cs| :: ChunkGood(cs[k])
  }

  /** The line of the last chunk, whose size is zero. */
  ghost predicate LastGood(digits: bytes, ext: bytes)
  {
    LineGood(digits, ext) && Hex(digits) == 0
  }

  // ── a size line, whole or cut ──

  lemma LineCrlf(digits: bytes, ext: bytes, j: nat)
    requires LineGood(digits, ext)
    ensures CrlfAt(LineOf(digits, ext), j) <==> j == |digits| + |ext|
  {
    var l := LineOf(digits, ext);
    if j < |digits| {
      assert l[j] == digits[j] && HexDigit(digits[j]);
    } else if j < |digits| + |ext| {
      var k := j - |digits|;
      assert !CrlfAt(ext, k) && l[j] == ext[k];
      if k + 1 < |ext| { assert l[j + 1] == ext[k + 1]; }
    }
  }

  /** The search finds the end of a line that is all there, and nothing in a line
      that is cut off. */
  lemma FindLineEnd(s: bytes, i: nat, digits: bytes, ext: bytes)
    requires LineGood(digits, ext) && i <= |s|
    requires var l := LineOf(digits, ext);
      forall j | 0 <= j < |l| && i + j < |s| :: s[i + j] == l[j]
    ensures FindCrlf(s, i) == if i + |LineOf(digits, ext)| <= |s| then Some(i + |digits| + |ext|) else None
  {
    var l := LineOf(digits, ext);
    var e := |digits| + |ext|;
    forall p: nat | i <= p && p + 2 <= |s| && (p < i + e || i + |l| > |s|) ensures !CrlfAt(s, p) {
      LineCrlf(digits, ext, p - i);
      assert s[i + (p - i)] == l[p - i] && s[i + (p + 1 - i)] == l[p + 1 - i];
    }
    if i + |l| <= |s| {
      assert s[i + e] == l[e] == CR && s[i + (e + 1)] == l[e + 1] == LF;
      assert CrlfAt(s, i + e);
    }
  }

  /** `x` stands in `s` at `i`, as far as `s` goes. */
  ghost predicate Begins(s: bytes, i: nat, x: bytes)
  {
    i <= |s| && forall j | 0 <= j < |x| && i + j < |s| :: s[i + j] == x[j]
  }

  lemma BeginsSlice(s: bytes, i: nat, x: bytes)
    requires Begins(s, i, x) && i + |x| <= |s|
    ensures s[i..i + |x|] == x
  {
  }

  lemma BeginsParts(s: bytes, i: nat, x: bytes, y: bytes)
    requires Begins(s, i, x + y)
    ensures Begins(s, i, x) && (i + |x| <= |s| ==> Begins(s, i + |x|, y))
  {
    forall j | 0 <= j < |x| && i + j < |s| ensures s[i + j] == x[j] { assert (x + y)[j] == x[j]; }
    if i + |x| <= |s| {
      forall j | 0 <= j < |y| && i + |x| + j < |s| ensures s[i + |x| + j] == y[j] {
        assert (x + y)[|x| + j] == y[j];
        assert s[i + (|x| + j)] == (x + y)[|x| + j];
      }
    }
  }

  lemma DigitsOfLine(digits: bytes, ext: bytes)
    requires AllHex(digits) && (ext != [] ==> ext[0] == SEMICOLON)
    ensures var line := digits + ext; line[..IndexOf(line, SEMICOLON)] == digits
  {
    var line := digits + ext;
    if ext == [] {
      assert SEMICOLON !in line;
      IndexOfFound(line, SEMICOLON);
    } else {
      assert line[|digits|] == SEMICOLON;
      IndexOfIs(line, SEMICOLON, |digits|);
    }
  }

  /** A whole size line is read; a cut one is not. */
  lemma SizeLineRead(s: bytes, i: nat, digits: bytes, ext: bytes)
    requires LineGood(digits, ext) && Begins(s, i, LineOf(digits, ext))
    ensures ReadSizeLine(s, i) ==
      if i + |LineOf(digits, ext)| <= |s| then Some(SizeLine(Hex(digits), i + |LineOf(digits, ext)|)) else None
  {
    hide FindCrlf, Begins, CrlfAt;
    FindLineStanding(s, i, digits, ext);
    if i + |LineOf(digits, ext)| <= |s| {
      BeginsParts(s, i, digits + ext, CRLF);
      BeginsSlice(s, i, digits + ext);
      DigitsOfLine(digits, ext);
    }
  }

  lemma FindLineStanding(s: bytes, i: nat, digits: bytes, ext: bytes)
    requires LineGood(digits, ext) && Begins(s, i, LineOf(digits, ext))
    ensures i <= |s|
    ensures FindCrlf(s, i) == if i + |LineOf(digits, ext)| <= |s| then Some(i + |digits| + |ext|) else None
  {
    hide FindCrlf, LineGood, LineOf;
    FindLineEnd(s, i, digits, ext);
  }

  // ── a body cut anywhere ──

  /** What can be had of the content when only `k` bytes of the chunks, which start
      at `at`, the last size line (`last` bytes) and a trailer have arrived: nothing
      when the cut is inside a size line or right before one, or inside a chunk whose
      end would not fit the position; else all data received so far. */
  function Received(cs: seq<Chunk>, last: nat, k: nat, at: nat): Option<bytes>
  {
    if cs == [] then if k < last then None else Some([])
    else
      var c := cs[0];
      var line := |LineOf(c.digits, c.ext)|;
      if k < line then None
      else if k < line + |c.data| then if at + line + |c.data| <= USIZE_MAX then Some(c.data[..k - line]) else None
      else if k < line + |c.data| + 2 then Some(c.data)
      else match Received(cs[1..], last, k - line - |c.data| - 2, at + line + |c.data| + 2)
        case None => None
        case Some(rest) => Some(c.data + rest)
  }

  /** A chunk whose size line is all there. */
  lemma ChunkRead(s: bytes, i: nat, c: Chunk, next: nat)
    requires ChunkGood(c) && |s| <= USIZE_MAX
    requires Begins(s, i, PrintChunk(c)) && next == i + |LineOf(c.digits, c.ext)| <= |s|
    ensures var end := next + |c.data|;
      DechunkAt(s, i) ==
        if end > |s| then if end <= USIZE_MAX then Some(c.data[..|s| - next]) else None
        else if end + 2 > |s| then Some(c.data)
        else match DechunkAt(s, end + 2) case None => None case Some(rest) => Some(c.data + rest)
  {
    hide ReadSizeLine, LineOf, LineGood, Begins, CrlfAt;
    var line := LineOf(c.digits, c.ext);
    var end := next + |c.data|;
    BeginsParts(s, i, line, c.data + CRLF);
    SizeLineRead(s, i, c.digits, c.ext);
    BeginsParts(s, next, c.data, CRLF);
    if end > |s| {
      BeginsRest(s, next, c.data);
    } else {
      BeginsSlice(s, next, c.data);
      if end + 2 <= |s| { BeginsCrlf(s, end); }
    }
  }

  lemma BeginsRest(s: bytes, i: nat, x: bytes)
    requires Begins(s, i, x) && i <= |s| <= i + |x|
    ensures s[i..] == x[..|s| - i]
  {
  }

  lemma BeginsCrlf(s: bytes, p: nat)
    requires Begins(s, p, CRLF) && p + 2 <= |s|
    ensures CrlfAt(s, p)
  {
    assert s[p + 0] == CRLF[0] && s[p + 1] == CRLF[1];
  }

  lemma ChunkSize(c: Chunk)
    ensures |PrintChunk(c)| == |LineOf(c.digits, c.ext)| + |c.data| + 2
  {
    hide LineOf;
  }

  lemma {:induction false} CutRead(s: bytes, i: nat, cs: seq<Chunk>, digits: bytes, ext: bytes, trailer: bytes)
    requires ChunksGood(cs) && LastGood(digits, ext)
    requires i <= |s| <= i + |Print(cs) + (LineOf(digits, ext) + trailer)| && |s| <= USIZE_MAX
    requires Begins(s, i, Print(cs) + (LineOf(digits, ext) + trailer))
    ensures DechunkAt(s, i) == Received(cs, |LineOf(digits, ext)|, |s| - i, i)
    decreases |cs|
  {
    hide ReadSizeLine, LineOf, LineGood, ChunkGood, Begins, PrintChunk;
    var l := LineOf(digits, ext);
    if cs == [] {
      assert Print(cs) + (l + trailer) == l + trailer;
      BeginsParts(s, i, l, trailer);
      LastRead(s, i, digits, ext);
    } else {
      var c := cs[0];
      var rest := Print(cs[1..]) + (l + trailer);
      Assoc(PrintChunk(c), Print(cs[1..]), l + trailer);
      BeginsParts(s, i, PrintChunk(c), rest);
      var next := i + |LineOf(c.digits, c.ext)|;
      ChunkSize(c);
      if next > |s| {
        LineCut(s, i, c);
      } else {
        ChunkRead(s, i, c, next);
        if next + |c.data| + 2 <= |s| {
          CutRead(s, i + |PrintChunk(c)|, cs[1..], digits, ext, trailer);
        }
      }
    }
  }

  lemma LastRead(s: bytes, i: nat, digits: bytes, ext: bytes)
    requires LastGood(digits, ext) && Begins(s, i, LineOf(digits, ext))
    ensures DechunkAt(s, i) == if |s| - i < |LineOf(digits, ext)| then None else Some([])
  {
    hide ReadSizeLine, LineOf;
    SizeLineRead(s, i, digits, ext);
  }

  lemma LineCut(s: bytes, i: nat, c: Chunk)
    requires ChunkGood(c) && Begins(s, i, PrintChunk(c)) && i + |LineOf(c.digits, c.ext)| > |s|
    ensures DechunkAt(s, i) == None
  {
    hide ReadSizeLine, LineOf;
    BeginsParts(s, i, LineOf(c.digits, c.ext), c.data + CRLF);
    SizeLineRead(s, i, c.digits, c.ext);
  }

  // ── what the reference gives ──

  /** However the body is cut, what is received is a prefix of the content; all of
      it once the last size line is there. */
  lemma {:induction false} ReceivedIsPrefix(cs: seq<Chunk>, last: nat, k: nat, at: nat)
    ensures Received(cs, last, k, at).Some? ==> Received(cs, last, k, at).value <= Data(cs)
    ensures k >= |Print(cs)| + last ==> Received(cs, last, k, at) == Some(Data(cs))
    decreases |cs|
  {
    hide LineOf;
    if cs != [] {
      var used := |PrintChunk(cs[0])|;
      if k >= used { ReceivedIsPrefix(cs[1..], last, k - used, at + used); }
    }
  }

  // ── the main results ──

  function Encoding(cs: seq<Chunk>, digits: bytes, ext: bytes, trailer: bytes): bytes
  {
    Print(cs) + (LineOf(digits, ext) + trailer)
  }

  /** A line starts with a hex digit, whatever follows. */
  lemma EncodingStartsInHex(cs: seq<Chunk>, digits: bytes, ext: bytes, trailer: bytes)
    requires ChunksGood(cs) && LineGood(digits, ext)
    ensures var e := Encoding(cs, digits, ext, trailer); e != [] && HexDigit(e[0])
  {
    if cs == [] {
      assert Encoding(cs, digits, ext, trailer)[0] == digits[0];
    } else {
      assert ChunkGood(cs[0]);
      assert Encoding(cs, digits, ext, trailer)[0] == cs[0].digits[0];
    }
  }

  /** Truncation, exactly: for every cut of a valid encoding the result is what
      `Received` says. */
  lemma DechunkOfCut(cs: seq<Chunk>, digits: bytes, ext: bytes, trailer: bytes, k: nat)
    requires ChunksGood(cs) && LastGood(digits, ext)
    requires k <= |Encoding(cs, digits, ext, trailer)| && k <= USIZE_MAX
    ensures Dechunked(Encoding(cs, digits, ext, trailer)[..k]) == Received(cs, |LineOf(digits, ext)|, k, 0)
  {
    hide ReadSizeLine, LineOf, LineGood, ChunkGood, ChunksGood, Print, DechunkAt;
    var e := Encoding(cs, digits, ext, trailer);
    EncodingStartsInHex(cs, digits, ext, trailer);
    if k == 0 {
      LineNotEmpty(cs, digits, ext);
    } else {
      assert e[..k][0] == e[0];
      CutRead(e[..k], 0, cs, digits, ext, trailer);
    }
  }

  lemma LineNotEmpty(cs: seq<Chunk>, digits: bytes, ext: bytes)
    ensures Received(cs, |LineOf(digits, ext)|, 0, 0) == None
  {
  }

  /** Chunk round trip: dechunking an encoding gives the data of its chunks, with
      any trailer behind it. */
  lemma DechunkInvertsEncode(cs: seq<Chunk>, digits: bytes, ext: bytes, trailer: bytes)
    requires ChunksGood(cs) && LastGood(digits, ext) && |Encoding(cs, digits, ext, trailer)| <= USIZE_MAX
    ensures Dechunked(Encoding(cs, digits, ext, trailer)) == Some(Data(cs))
  {
    hide ChunksGood, LastGood, Dechunked, LineOf, Print;
    var e := Encoding(cs, digits, ext, trailer);
    DechunkOfCut(cs, digits, ext, trailer, |e|);
    assert e[..|e|] == e;
    ReceivedIsPrefix(cs, |LineOf(digits, ext)|, |e|, 0);
  }

  // ── how a body ends ──

  /** What stands behind the whole chunks of a body: a size line, then anything (size
      zero) or no more than one chunk's data and one byte. */
  ghost predicate TailGood(digits: bytes, ext: bytes, part: bytes)
  {
    LineGood(digits, ext) && (Hex(digits) == 0 || |part| <= Hex(digits) + 1)
  }

  /** The data in it. */
  function TailData(digits: bytes, part: bytes): bytes
    requires AllHex(digits)
  {
    if Hex(digits) == 0 then [] else if |part| <= Hex(digits) then part else part[..Hex(digits)]
  }

  /** The declared end of the chunk that the body breaks off in, whose size line is at
      `at`, fits 64 bits. */
  predicate EndFits(digits: bytes, ext: bytes, at: nat)
    requires AllHex(digits)
  {
    Hex(digits) == 0 || at + |LineOf(digits, ext)| + Hex(digits) <= USIZE_MAX
  }

  /** The last size line of a body: there is no whole chunk behind it. */
  lemma LastStep(s: bytes, i: nat, l: SizeLine)
    requires ReadSizeLine(s, i) == Some(l) && (l.size == 0 || l.next + l.size + 2 > |s|)
    ensures DechunkAt(s, i) ==
      if l.size == 0 then Some([]) else if l.next + l.size > USIZE_MAX then None
      else Some(if l.next + l.size > |s| then s[l.next..] else s[l.next..l.next + l.size])
  {
    hide ReadSizeLine;
  }

  lemma TailRead(s: bytes, i: nat, digits: bytes, ext: bytes, part: bytes)
    requires TailGood(digits, ext, part) && |s| <= USIZE_MAX
    requires i <= |s| && s[i..] == LineOf(digits, ext) + part
    ensures DechunkAt(s, i) == if EndFits(digits, ext, i) then Some(TailData(digits, part)) else None
  {
    hide ReadSizeLine, LineOf, LineGood, Hex, DechunkAt, Begins;
    LineIsHex(digits, ext);
    var l := LineOf(digits, ext);
    BeginsFront(s, i, l, part);
    SizeLineRead(s, i, digits, ext);
    LastStep(s, i, SizeLine(Hex(digits), i + |l|));
    FrontOf(s, i + |l|, part, Hex(digits));
  }

  lemma LineIsHex(digits: bytes, ext: bytes)
    requires LineGood(digits, ext)
    ensures AllHex(digits)
  {
  }

  lemma TailIsHex(digits: bytes, ext: bytes, part: bytes)
    requires TailGood(digits, ext, part)
    ensures AllHex(digits)
  {
  }

  lemma FrontOf(s: bytes, at: nat, part: bytes, n: nat)
    requires at <= |s| && s[at..] == part
    ensures n <= |part| ==> s[at..at + n] == part[..n]
    ensures n == |part| ==> part[..n] == part
  {
  }

  lemma BeginsFront(s: bytes, i: nat, x: bytes, t: bytes)
    requires i <= |s| && s[i..] == x + t
    ensures Begins(s, i, x) && i + |x| <= |s| && s[i + |x|..] == t
  {
    forall j | 0 <= j < |x| && i + j < |s| ensures s[i + j] == x[j] { assert s[i..][j] == x[j]; }
    assert s[i + |x|..] == s[i..][|x|..];
  }

  /** Completeness: whole chunks and a tail are read as their data, if the declared end
      of the last chunk fits. */
  lemma {:induction false} EncodingRead(s: bytes, i: nat, cs: seq<Chunk>, digits: bytes, ext: bytes, part: bytes)
    requires ChunksGood(cs) && TailGood(digits, ext, part) && |s| <= USIZE_MAX
    requires i <= |s| && s[i..] == Encoding(cs, digits, ext, part)
    ensures DechunkAt(s, i) ==
      if EndFits(digits, ext, i + |Print(cs)|) then Some(Data(cs) + TailData(digits, part)) else None
    decreases |cs|
  {
    hide ReadSizeLine, LineOf, LineGood, ChunkGood, PrintChunk, EndFits, TailData, Begins, Hex, Encoding, Print, Data,
      DechunkAt;
    LineIsHex(digits, ext);
    EncodingParts(cs, digits, ext, part);
    if cs == [] {
      TailRead(s, i, digits, ext, part);
    } else {
      var c, more := cs[0], cs[1..];
      BeginsFront(s, i, PrintChunk(c), Encoding(more, digits, ext, part));
      ChunkSize(c);
      ChunkRead(s, i, c, i + |LineOf(c.digits, c.ext)|);
      EncodingRead(s, i + |PrintChunk(c)|, more, digits, ext, part);
    }
  }

  lemma EncodingParts(cs: seq<Chunk>, digits: bytes, ext: bytes, part: bytes)
    requires AllHex(digits)
    ensures var last := TailData(digits, part);
      if cs == [] then
        && Encoding(cs, digits, ext, part) == LineOf(digits, ext) + part && |Print(cs)| == 0
        && Data(cs) + last == last
      else
        && Encoding(cs, digits, ext, part) == PrintChunk(cs[0]) + Encoding(cs[1..], digits, ext, part)
        && |Print(cs)| == |PrintChunk(cs[0])| + |Print(cs[1..])|
        && Data(cs) + last == cs[0].data + (Data(cs[1..]) + last)
  {
    hide LineOf, PrintChunk, TailData;
    if cs != [] {
      Assoc(PrintChunk(cs[0]), Print(cs[1..]), LineOf(digits, ext) + part);
      Assoc(cs[0].data, Data(cs[1..]), TailData(digits, part));
    }
  }

  lemma BodyRead(cs: seq<Chunk>, digits: bytes, ext: bytes, part: bytes)
    requires ChunksGood(cs) && TailGood(digits, ext, part) && |Encoding(cs, digits, ext, part)| <= USIZE_MAX
    ensures Dechunked(Encoding(cs, digits, ext, part)) ==
      if EndFits(digits, ext, |Print(cs)|) then Some(Data(cs) + TailData(digits, part)) else None
  {
    hide ReadSizeLine, LineOf, LineGood, ChunksGood, Print, DechunkAt, EndFits, TailData;
    var s := Encoding(cs, digits, ext, part);
    EncodingStartsInHex(cs, digits, ext, part);
    assert s[0..] == s;
    EncodingRead(s, 0, cs, digits, ext, part);
  }

  /** A body that ends inside a chunk keeps what it has exactly when the declared
      end of that chunk fits 64 bits. */
  lemma CutInsideChunk(cs: seq<Chunk>, digits: bytes, ext: bytes, part: bytes)
    requires ChunksGood(cs) && LineGood(digits, ext) && |part| < Hex(digits)
    requires |Encoding(cs, digits, ext, part)| <= USIZE_MAX
    ensures Dechunked(Encoding(cs, digits, ext, part)) ==
      if |Print(cs)| + |LineOf(digits, ext)| + Hex(digits) <= USIZE_MAX then Some(Data(cs) + part) else None
  {
    hide LineOf, LineGood, ChunksGood, Print, Dechunked, Encoding;
    BodyRead(cs, digits, ext, part);
  }

  /** Such a size: sixteen times `f`. No body that declares it is ever kept. */
  lemma HugeChunkIsRefused(cs: seq<Chunk>, part: bytes)
    requires ChunksGood(cs) && |Encoding(cs, Fs(16), [], part)| < USIZE_MAX
    ensures LineGood(Fs(16), []) && Hex(Fs(16)) == USIZE_MAX && Dechunked(Encoding(cs, Fs(16), [], part)) == None
  {
    hide Hex, Dechunked, ChunksGood, Print;
    HexOfFs(16);
    Pow16Is();
    EncodingSize(cs, Fs(16), part);
    CutInsideChunk(cs, Fs(16), [], part);
  }

  lemma EncodingSize(cs: seq<Chunk>, digits: bytes, part: bytes)
    ensures |Encoding(cs, digits, [], part)| == |Print(cs)| + |LineOf(digits, [])| + |part|
    ensures |LineOf(digits, [])| == |digits| + 2
  {
    hide Print;
  }

  function Fs(n: nat): bytes
  {
    seq(n, _ => 102)
  }

  function Pow16(n: nat): nat
  {
    if n == 0 then 1 else 16 * Pow16(n - 1)
  }

  lemma Pow16Is()
    ensures Pow16(16) == USIZE_MAX + 1
  {
    assert Pow16(4) == 0x1_0000;
    assert Pow16(8) == 0x1_0000_0000;
    assert Pow16(12) == 0x1_0000_0000_0000;
  }

  lemma {:induction false} HexOfFs(n: nat)
    ensures AllHex(Fs(n)) && Hex(Fs(n)) == Pow16(n) - 1
  {
    if n > 0 {
      HexOfFs(n - 1);
      assert Fs(n)[..n - 1] == Fs(n - 1);
    }
  }

  // ── what an accepted body is ──

  /** `s`, from offset `at` of a body, is a chunk sequence, possibly cut off, whose data
      is `out`. */
  ghost predicate Explained(s: bytes, at: nat, out: bytes)
  {
    exists cs: seq<Chunk>, digits: bytes, ext: bytes, part: bytes :: Explains(s, at, out, cs, digits, ext, part)
  }

  ghost predicate Explains(s: bytes, at: nat, out: bytes, cs: seq<Chunk>, digits: bytes, ext: bytes, part: bytes)
  {
    && ChunksGood(cs) && TailGood(digits, ext, part) && EndFits(digits, ext, at + |Print(cs)|)
    && s == Encoding(cs, digits, ext, part) && out == Data(cs) + TailData(digits, part)
  }

  lemma ExplainedLast(s: bytes, at: nat, digits: bytes, ext: bytes, part: bytes)
    requires TailGood(digits, ext, part) && EndFits(digits, ext, at) && s == LineOf(digits, ext) + part
    ensures Explained(s, at, TailData(digits, part))
  {
    hide LineOf, TailData;
    assert s == Encoding([], digits, ext, part) && TailData(digits, part) == Data([]) + TailData(digits, part);
    assert Explains(s, at, TailData(digits, part), [], digits, ext, part);
  }

  lemma ExplainedMore(s: bytes, at: nat, c: Chunk, t: bytes, out: bytes)
    requires ChunkGood(c) && s == PrintChunk(c) + t && Explained(t, at + |PrintChunk(c)|, out)
    ensures Explained(s, at, c.data + out)
  {
    hide TailGood, TailData, EndFits, LineOf, PrintChunk, ChunkGood;
    var cs, digits, ext, part :| Explains(t, at + |PrintChunk(c)|, out, cs, digits, ext, part);
    assert Explains(t, at + |PrintChunk(c)|, out, cs, digits, ext, part);
    TailIsHex(digits, ext, part);
    var more := [c] + cs;
    assert more[1..] == cs;
    Assoc(PrintChunk(c), Print(cs), LineOf(digits, ext) + part);
    Assoc(c.data, Data(cs), TailData(digits, part));
    assert ChunksGood(more);
    assert Explains(s, at, c.data + out, more, digits, ext, part);
  }

  /** The size line `line` is made of these parts. */
  ghost predicate LineIs(line: bytes, size: nat, digits: bytes, ext: bytes)
  {
    LineGood(digits, ext) && line == LineOf(digits, ext) && Hex(digits) == size
  }

  /** A line without CRLF splits into what stands before the semicolon and the rest. */
  lemma LineSplits(line: bytes)
    requires forall j: nat :: !CrlfAt(line, j)
    ensures var n := IndexOf(line, SEMICOLON);
      var digits, ext := line[..n], line[n..];
      line == digits + ext && (ext != [] ==> ext[0] == SEMICOLON) && forall j | 0 <= j :: !CrlfAt(ext, j)
  {
    var n := IndexOf(line, SEMICOLON);
    IndexOfFound(line, SEMICOLON);
    forall j: nat ensures !CrlfAt(line[n..], j) { assert !CrlfAt(line, n + j); }
  }

  lemma LineInside(s: bytes, i: nat, end: nat)
    requires i <= end && CrlfAt(s, end) && forall j | i <= j < end :: !CrlfAt(s, j)
    ensures s[i..end + 2] == s[i..end] + CRLF && forall j: nat :: !CrlfAt(s[i..end], j)
  {
    forall j: nat ensures !CrlfAt(s[i..end], j) { if j + 2 <= end - i { assert !CrlfAt(s, i + j); } }
  }

  /** A size line that was read, taken apart. */
  lemma LineParts(s: bytes, i: nat)
    requires ReadSizeLine(s, i).Some?
    ensures var l := ReadSizeLine(s, i).value;
      exists digits: bytes, ext: bytes :: LineIs(s[i..l.next], l.size, digits, ext)
  {
    hide CrlfAt;
    var end := FindCrlf(s, i).value;
    var line := s[i..end];
    LineInside(s, i, end);
    LineSplits(line);
    var n := IndexOf(line, SEMICOLON);
    assert LineIs(line + CRLF, Hex(line[..n]), line[..n], line[n..]);
  }

  /** Soundness: a body that is accepted is a chunk sequence, possibly cut off or
      followed by a trailer, and the result is the data of it. */
  lemma {:induction false} DechunkSound(s: bytes, i: nat)
    requires i <= |s| && DechunkAt(s, i).Some?
    ensures Explained(s[i..], i, DechunkAt(s, i).value)
    decreases |s| - i
  {
    hide ReadSizeLine, LineOf, LineGood, Explained, PrintChunk;
    LineParts(s, i);
    var l := ReadSizeLine(s, i).value;
    var digits, ext :| LineIs(s[i..l.next], l.size, digits, ext);
    assert LineIs(s[i..l.next], l.size, digits, ext);
    var end, part := l.next + l.size, s[l.next..];
    SplitSlice(s, i, l.next);
    if l.size == 0 || end + 2 > |s| {
      TailStands(s, i, digits, ext, l);
      ExplainedLast(s[i..], i, digits, ext, part);
    } else {
      var c := Chunk(digits, ext, s[l.next..end]);
      DechunkSound(s, end + 2);
      ChunkStands(s, i, l.next, c);
      ChunkSize(c);
      ExplainedMore(s[i..], i, c, s[end + 2..], DechunkAt(s, end + 2).value);
    }
  }

  /** The last line of an accepted body, and what is behind it. */
  lemma TailStands(s: bytes, i: nat, digits: bytes, ext: bytes, l: SizeLine)
    requires i <= |s| && ReadSizeLine(s, i) == Some(l) && DechunkAt(s, i).Some? &&
      LineIs(s[i..l.next], l.size, digits, ext)
    requires l.size == 0 || l.next + l.size + 2 > |s|
    ensures TailGood(digits, ext, s[l.next..]) && EndFits(digits, ext, i) &&
      DechunkAt(s, i) == Some(TailData(digits, s[l.next..]))
  {
    hide ReadSizeLine, LineOf, LineGood, DechunkAt;
    LineIsHex(digits, ext);
    LastStep(s, i, l);
    FrontOf(s, l.next, s[l.next..], l.size);
  }

  lemma SplitSlice(s: bytes, i: nat, k: nat)
    requires i <= k <= |s|
    ensures s[i..] == s[i..k] + s[k..]
  {
  }

  /** What dechunking gives for a body, exactly: `out` if and only if the body is a chunk
      sequence with that data, possibly cut off or followed by a trailer, in which the
      end of the chunk it breaks off in fits 64 bits. */
  lemma DechunkedIsExplained(body: bytes, out: bytes)
    requires |body| <= USIZE_MAX
    ensures Dechunked(body) == Some(out) <==> Explained(body, 0, out)
  {
    hide DechunkAt, Explained, Explains;
    if Dechunked(body).Some? {
      DechunkSound(body, 0);
      assert body[0..] == body;
    }
    if Explained(body, 0, out) { ExplainedIsRead(body, out); }
  }

  lemma ExplainedIsRead(body: bytes, out: bytes)
    requires |body| <= USIZE_MAX && Explained(body, 0, out)
    ensures Dechunked(body) == Some(out)
  {
    hide Dechunked, ChunksGood, TailGood, TailData, EndFits, Encoding;
    var cs, digits, ext, part :| Explains(body, 0, out, cs, digits, ext, part);
    assert Explains(body, 0, out, cs, digits, ext, part);
    BodyRead(cs, digits, ext, part);
  }

  lemma ChunkStands(s: bytes, i: nat, next: nat, c: Chunk)
    requires i <= next && next + |c.data| + 2 <= |s| && CrlfAt(s, next + |c.data|)
    requires s[i..next] == LineOf(c.digits, c.ext) && s[next..next + |c.data|] == c.data
    ensures s[i..] == PrintChunk(c) + s[next + |c.data| + 2..]
  {
    hide LineOf;
    var end := next + |c.data|;
    assert s[end..end + 2] == CRLF;
    assert s[i..] == s[i..next] + (s[next..end] + s[end..end + 2]) + s[end + 2..];
  }

  // ── sizes as a sender prints them ──

  /** A hexadecimal digit, in either case. */
  function Digit16(v: nat, upper: bool): byte
    requires v < 16
  {
    if v < 10 then 48 + v else if upper then 55 + v else 87 + v
  }

  function Printed16(n: nat, upper: bool): (s: bytes)
    ensures s != []
  {
    if n < 16 then [Digit16(n, upper)] else Printed16(n / 16, upper) + [Digit16(n % 16, upper)]
  }

  /** The digits are 0 to 9, A to F and a to f, with their values, and no other byte. */
  lemma DigitsAre(b: byte)
    ensures HexDigit(b) <==> exists v: nat, upper: bool :: v < 16 && b == Digit16(v, upper)
    ensures forall v: nat, upper: bool | v < 16 && b == Digit16(v, upper) :: HexDigit(b) && HexValue(b) == v
  {
    if HexDigit(b) { assert b == Digit16(HexValue(b), b <= 70); }
  }

  lemma {:induction false} HexInvertsPrinting(n: nat, upper: bool)
    ensures AllHex(Printed16(n, upper)) && Hex(Printed16(n, upper)) == n
  {
    DigitsAre(Digit16(n % 16, upper));
    if n >= 16 {
      HexInvertsPrinting(n / 16, upper);
      var s := Printed16(n, upper);
      assert s[..|s| - 1] == Printed16(n / 16, upper);
    }
  }

  function Power16(k: nat): nat
  {
    if k == 0 then 1 else 16 * Power16(k - 1)
  }

  lemma {:induction false} PrintedLength(n: nat, upper: bool, k: nat)
    requires k > 0 && n < Power16(k)
    ensures |Printed16(n, upper)| <= k
    decreases k
  {
    if n >= 16 { PrintedLength(n / 16, upper, k - 1); }
  }

  lemma SizeFits(n: nat, upper: bool)
    requires n <= USIZE_MAX
    ensures |Printed16(n, upper)| <= 16
  {
    assert Power16(8) == 0x1_0000_0000;
    assert Power16(16) == USIZE_MAX + 1;
    PrintedLength(n, upper, 16);
  }

  /** The chunks of a body that is sent piece by piece, without extensions. */
  function Plain(pieces: seq<bytes>, upper: bool): (cs: seq<Chunk>)
    ensures |cs| == |pieces|
  {
    seq(|pieces|, i requires 0 <= i < |pieces| => Chunk(Printed16(|pieces[i]|, upper), [], pieces[i]))
  }

  lemma PlainIsGood(pieces: seq<bytes>, upper: bool)
    requires forall i | 0 <= i < |pieces| :: 0 < |pieces[i]| <= USIZE_MAX
    ensures ChunksGood(Plain(pieces, upper)) && LastGood([48], [])
  {
    hide Printed16;
    forall i | 0 <= i < |pieces| ensures ChunkGood(Plain(pieces, upper)[i]) {
      HexInvertsPrinting(|pieces[i]|, upper);
      SizeFits(|pieces[i]|, upper);
    }
    DigitsAre(48);
    assert 48 == Digit16(0, false);
  }

  lemma {:induction false} DataOfPlain(pieces: seq<bytes>, upper: bool)
    ensures Data(Plain(pieces, upper)) == Flatten(pieces)
  {
    hide Printed16;
    if pieces != [] {
      assert Plain(pieces, upper)[1..] == Plain(pieces[1..], upper);
      DataOfPlain(pieces[1..], upper);
    }
  }

  /** Any pieces sent as chunks with printed sizes, in either case, and the chunk of size
      zero behind them, dechunk to the pieces one after the other. */
  lemma DechunkPlain(pieces: seq<bytes>, upper: bool, trailer: bytes)
    requires forall i | 0 <= i < |pieces| :: 0 < |pieces[i]| <= USIZE_MAX
    requires |Encoding(Plain(pieces, upper), [48], [], trailer)| <= USIZE_MAX
    ensures Dechunked(Encoding(Plain(pieces, upper), [48], [], trailer)) == Some(Flatten(pieces))
  {
    hide ChunksGood, LastGood, Dechunked, Encoding, Data, Plain;
    PlainIsGood(pieces, upper);
    DataOfPlain(pieces, upper);
    DechunkInvertsEncode(Plain(pieces, upper), [48], [], trailer);
  }
}
