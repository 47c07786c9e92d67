/** Sources that break off, and sources that are no WARC: what the plan makes of them. */
module BrokenOff {
  import opened Bytes
  import opened Warc
  import opened RewritePlan

  // ── lines that break off ──

  lemma NoLineEnd(s: bytes)
    requires LF !in s
    ensures IndexOf(s, LF) == |s|
  {
    IndexOfFound(s, LF);
  }

  /** A header block that breaks off inside a line has no blank line. */
  lemma PartOfLine(s: bytes, end: End)
    requires LF !in s
    ensures ScanHeaders(s, end).blank == None
  {
    NoLineEnd(s);
    if s != [] && end.Clean? {
      assert NextLine(s, end) == Got(s) && s[|s|..] == [];
      assert ScanHeaders([], end).blank == None by { assert NextLine([], end) == AtEnd; }
    }
  }

  lemma CutLine(l: bytes, k: nat)
    requires IsLine(l) && k < |l|
    ensures LF !in l[..k]
  {
    IndexOfFound(l, LF);
  }

  /** The first line is all there, or all there is is a part of it. */
  lemma CutInLines(l: bytes, t: bytes, j: nat)
    requires j <= |l + t|
    ensures (l + t)[..j] == if j < |l| then l[..j] else l + t[..j - |l|]
  {
  }

  /** A cut header block has its blank line exactly when the cut lies behind it. */
  lemma {:induction false} CutHeaders(lines: seq<bytes>, blank: bytes, u: bytes, j: nat, end: End)
    requires HeaderLines(lines) && IsBlank(blank) && j <= |Flatten(lines) + (blank + u)|
    ensures var n := |Flatten(lines)| + |blank|;
      var h := ScanHeaders((Flatten(lines) + (blank + u))[..j], end);
      if j < n then h.blank == None else h == HeaderScan(lines, Some(blank), u[..j - n])
    decreases |lines|
  {
    hide ScanHeaders, NextLine, IsLine;
    var n := |Flatten(lines)| + |blank|;
    if n <= j {
      assert (Flatten(lines) + (blank + u))[..j] == Flatten(lines) + (blank + u[..j - n]);
      ScanHeadersComplete(lines, blank, u[..j - n], end);
    } else if lines == [] {
      assert Flatten(lines) + (blank + u) == blank + u;
      CutInLines(blank, u, j);
      BlankIsLine(blank);
      CutLine(blank, j);
      PartOfLine(blank[..j], end);
    } else {
      var l, more := lines[0], lines[1..];
      var t := Flatten(more) + (blank + u);
      Assoc(l, Flatten(more), blank + u);
      CutInLines(l, t, j);
      if j < |l| {
        CutLine(l, j);
        PartOfLine(l[..j], end);
      } else {
        CutHeaders(more, blank, u, j - |l|, end);
        OneLineScanned(l, t[..j - |l|], end);
      }
    }
  }

  lemma OneLineScanned(l: bytes, t: bytes, end: End)
    requires IsLine(l) && !IsBlank(l)
    ensures ScanHeaders(l + t, end).blank == ScanHeaders(t, end).blank
  {
    NextLineOfLine(l, t, end);
    hide NextLine, IsBlank, IsLine;
  }

  // ── records that break off ──

  /** What there is to say about a record of which only `k` bytes are there. */
  function CutScan(k: nat, end: End): Scan
  {
    if !end.Clean? || k >= |WARC_SLASH| then RanOut else if k == 0 then Nothing else NoVersionLine
  }

  lemma CutVersion(r: Record, k: nat, end: End)
    requires WellFormed(r) && k < |r.version|
    ensures ScanRecord(r.version[..k], end) == CutScan(k, end)
  {
    var v := r.version[..k];
    CutLine(r.version, k);
    NoLineEnd(v);
    if end.Clean? && v != [] {
      assert NextLine(v, end) == Got(v) && v[|v|..] == [];
      PartOfLine([], end);
      if k >= |WARC_SLASH| { assert WARC_SLASH == r.version[..|WARC_SLASH|] == v[..|WARC_SLASH|]; }
    }
  }

  /** The header of a cut record, and the block behind it as far as it is there. */
  lemma CutBody(r: Record, j: nat, end: End)
    requires WellFormed(r) && j < |Flatten(r.headers)| + |r.blank| + |r.block| + 4
    ensures var t := Flatten(r.headers) + (r.blank + (r.block + CRLFCRLF));
      j <= |t| && ScanBlock(r.version, ScanHeaders(t[..j], end)) == RanOut
  {
    hide ScanHeaders, IsLine, IsBlank, DeclaredLength;
    assert HeaderLines(r.headers);
    CutHeaders(r.headers, r.blank, r.block + CRLFCRLF, j, end);
  }

  lemma CutBehindVersion(r: Record, k: nat, end: End)
    requires WellFormed(r) && |r.version| <= k < |Print(r)|
    ensures ScanRecord(Print(r)[..k], end) == RanOut
  {
    var t := Flatten(r.headers) + (r.blank + (r.block + CRLFCRLF));
    assert Print(r) == r.version + t;
    hide ScanHeaders, ScanBlock, NextLine, IsBlank, DeclaredLength, Print;
    CutBody(r, k - |r.version|, end);
    CutInLines(r.version, t, k);
    hide IsLine;
    VersionThere(r.version, t[..k - |r.version|], end);
  }

  lemma VersionThere(v: bytes, t: bytes, end: End)
    requires IsLine(v) && WARC_SLASH <= v
    ensures ScanRecord(v + t, end) == ScanBlock(v, ScanHeaders(t, end))
  {
    hide ScanHeaders, ScanBlock, NextLine, IsLine;
    NextLineOfLine(v, t, end);
  }

  /** A record cut off anywhere has run out, unless the source ends properly before its
      version line can be told. */
  lemma CutRecordScans(r: Record, k: nat, end: End)
    requires WellFormed(r) && k < |Print(r)|
    ensures ScanRecord(Print(r)[..k], end) == CutScan(k, end)
  {
    hide ScanRecord, IsLine, IsBlank, DeclaredLength;
    PrintParts(r, []);
    if k < |r.version| {
      assert Print(r)[..k] == r.version[..k];
      CutVersion(r, k, end);
    } else {
      CutBehindVersion(r, k, end);
    }
  }

  lemma NoSeparatorInFront(r: Record, k: nat)
    requires WellFormed(r) && k <= |Print(r)|
    ensures Separator(Print(r)[..k]) == 0 && SkipBlank(Print(r)[..k]) == Print(r)[..k]
  {
    if k > 0 { assert Print(r)[..k][0] == r.version[0] == WARC_SLASH[0]; }
  }

  /** How the plan of whole records and a part of one more ends. */
  function CutStop(k: nat, end: End, salvage: bool): Stop
  {
    if end.Clean? && k == 0 then Finished
    else if end.Clean? && k < |WARC_SLASH| then Aborted(NoVersionLine)
    else if salvage && !end.Broken? then Salvaged
    else Aborted(RanOut)
  }

  lemma CutRecordPlans(r: Record, k: nat, end: End, salvage: bool)
    requires WellFormed(r) && k < |Print(r)|
    ensures PlanOf(Print(r)[..k], end, salvage) == Plan([], Print(r)[..k], CutStop(k, end, salvage))
  {
    CutRecordScans(r, k, end);
    NoSeparatorInFront(r, k);
    hide ScanRecord, SkipBlank, Print, WellFormed;
  }

  lemma NothingToSkip(t: bytes)
    requires Separator(t) == 0
    ensures SkipBlank(t) == t
  {
  }

  lemma StopsBehindBlank(gap: bytes, t: bytes, end: End, salvage: bool, stop: Stop)
    requires BlankLines(gap) && Separator(t) == 0 && PlanOf(t, end, salvage) == Plan([], t, stop)
    ensures PlanOf(gap + t, end, salvage) == Plan([], gap + t, stop)
  {
    hide SkipBlank, ScanRecord, BlankLines, Separator;
    SkipBlankExactly(gap, t);
    NothingToSkip(t);
  }

  /** A plan that stops at `t` stops there behind records and blank lines too. */
  lemma StopsBehind(pieces: seq<Piece>, gap: bytes, t: bytes, end: End, salvage: bool, stop: Stop)
    requires GoodPieces(pieces) && BlankLines(gap) && Separator(t) == 0
    requires PlanOf(t, end, salvage) == Plan([], t, stop)
    ensures PlanOf(Source(pieces) + (gap + t), end, salvage) == Plan(pieces, gap + t, stop)
  {
    hide PlanOf, GoodPieces, Source, BlankLines, Separator;
    StopsBehindBlank(gap, t, end, salvage, stop);
    PlanComplete(pieces, gap + t, end, salvage);
    assert pieces + [] == pieces;
  }

  /** The plan of whole records, blank lines and a part of one more record: the whole
      ones, and when salvaging the rest is left behind. */
  lemma BrokenOffPlans(pieces: seq<Piece>, gap: bytes, r: Record, k: nat, end: End, salvage: bool)
    requires GoodPieces(pieces) && BlankLines(gap) && WellFormed(r) && k < |Print(r)|
    ensures PlanOf(Source(pieces) + (gap + Print(r)[..k]), end, salvage) ==
      Plan(pieces, gap + Print(r)[..k], CutStop(k, end, salvage))
  {
    hide PlanOf, Print, GoodPieces, Source, CutStop, BlankLines;
    NoSeparatorInFront(r, k);
    hide WellFormed;
    CutRecordPlans(r, k, end, salvage);
    StopsBehind(pieces, gap, Print(r)[..k], end, salvage, CutStop(k, end, salvage));
  }

  /** The same when what is left is no whole line, be it a part of a version line, of a
      separator or of anything else, or nothing. */
  lemma UnfinishedLinePlans(pieces: seq<Piece>, gap: bytes, t: bytes, end: End, salvage: bool)
    requires GoodPieces(pieces) && BlankLines(gap) && LF !in t
    ensures PlanOf(Source(pieces) + (gap + t), end, salvage) == Plan(pieces, gap + t,
      if end.Clean? && t == [] then Finished
      else if end.Clean? && !(WARC_SLASH <= t) then Aborted(NoVersionLine)
      else if salvage && !end.Broken? then Salvaged
      else Aborted(RanOut))
  {
    NoLineEnd(t);
    assert Separator(t) == 0 && SkipBlank(t) == t;
    if end.Clean? && t != [] {
      assert NextLine(t, end) == Got(t) && t[|t|..] == [];
      PartOfLine([], end);
    }
    var stop := PlanOf(t, end, salvage).stop;
    hide BlankLines, GoodPieces, Source;
    StopsBehind(pieces, gap, t, end, salvage, stop);
  }

  // ── sources that are no WARC ──

  lemma StopsThere(pieces: seq<Piece>, gap: bytes, t: bytes, end: End, salvage: bool, why: Scan)
    requires GoodPieces(pieces) && BlankLines(gap) && SkipBlank(t) == t && ScanRecord(t, end) == why
    requires why.NoVersionLine? || why.NoContentLength? || why.NoTerminator?
    ensures PlanOf(Source(pieces) + (gap + t), end, salvage) == Plan(pieces, gap + t, Aborted(why))
  {
    assert Separator(t) == 0;
    hide GoodPieces, Source, ScanRecord, BlankLines;
    StopsBehind(pieces, gap, t, end, salvage, Aborted(why));
  }

  /** A line that is neither blank nor a version line where a record should start. */
  lemma GarbagePlans(pieces: seq<Piece>, gap: bytes, l: bytes, t: bytes, end: End, salvage: bool)
    requires GoodPieces(pieces) && BlankLines(gap) && IsLine(l) && !IsBlank(l) && !(WARC_SLASH <= l)
    ensures PlanOf(Source(pieces) + (gap + (l + t)), end, salvage) ==
      Plan(pieces, gap + (l + t), Aborted(NoVersionLine))
  {
    NextLineOfLine(l, t, end);
    LineIsNoSeparator(l, t);
    hide NextLine, IsLine, IsBlank, SkipBlank, GoodPieces, BlankLines;
    assert ScanRecord(l + t, end) == NoVersionLine;
    StopsThere(pieces, gap, l + t, end, salvage, NoVersionLine);
  }

  lemma LineIsNoSeparator(l: bytes, t: bytes)
    requires IsLine(l) && !IsBlank(l)
    ensures SkipBlank(l + t) == l + t
  {
    IndexOfFound(l, LF);
  }

  lemma BadBlock(v: bytes, h: HeaderScan, block: bytes, trailer: bytes, t: bytes)
    requires h.blank.Some? && h.rest == block + (trailer + t) && |trailer| == 4
    requires DeclaredLength(h.lines).None? || (DeclaredLength(h.lines) == Some(|block|) && trailer != CRLFCRLF)
    ensures ScanBlock(v, h) == if DeclaredLength(h.lines).None? then NoContentLength else NoTerminator
  {
    hide DeclaredLength;
    assert h.rest[|block|..|block| + 4] == trailer;
  }

  lemma BadRecordScans(r: Record, trailer: bytes, t: bytes, end: End)
    requires IsLine(r.version) && WARC_SLASH <= r.version && HeaderLines(r.headers) && IsBlank(r.blank)
    requires |trailer| == 4
    requires DeclaredLength(r.headers).None? || (DeclaredLength(r.headers) == Some(|r.block|) && trailer != CRLFCRLF)
    ensures var s := Head(r) + (r.block + (trailer + t));
      && SkipBlank(s) == s
      && ScanRecord(s, end) == if DeclaredLength(r.headers).None? then NoContentLength else NoTerminator
  {
    var u := r.block + (trailer + t);
    var h := Flatten(r.headers) + (r.blank + u);
    assert Head(r) + u == r.version + h;
    assert !IsBlank(r.version) by { assert r.version[0] == WARC_SLASH[0]; }
    hide IsLine, IsBlank, DeclaredLength, HeaderLines, SkipBlank, ScanHeaders, ScanBlock, ScanRecord, Head;
    LineIsNoSeparator(r.version, h);
    VersionThere(r.version, h, end);
    ScanHeadersComplete(r.headers, r.blank, u, end);
    BadBlock(r.version, HeaderScan(r.headers, Some(r.blank), u), r.block, trailer, t);
  }

  /** Version line and header are there, and then the header declares no length, or the
      block of that length is not followed by the terminator. */
  lemma BadRecordPlans(pieces: seq<Piece>, gap: bytes, r: Record, trailer: bytes, t: bytes, end: End, salvage: bool)
    requires GoodPieces(pieces) && BlankLines(gap) && IsLine(r.version) && WARC_SLASH <= r.version
    requires HeaderLines(r.headers) && IsBlank(r.blank) && |trailer| == 4
    requires DeclaredLength(r.headers).None? || (DeclaredLength(r.headers) == Some(|r.block|) && trailer != CRLFCRLF)
    ensures var s := gap + (Head(r) + (r.block + (trailer + t)));
      PlanOf(Source(pieces) + s, end, salvage) ==
        Plan(pieces, s, Aborted(if DeclaredLength(r.headers).None? then NoContentLength else NoTerminator))
  {
    hide IsLine, IsBlank, DeclaredLength, HeaderLines, SkipBlank, ScanRecord, PlanOf, GoodPieces, Source, Head,
      BlankLines;
    BadRecordScans(r, trailer, t, end);
    StopsThere(pieces, gap, Head(r) + (r.block + (trailer + t)), end, salvage,
      if DeclaredLength(r.headers).None? then NoContentLength else NoTerminator);
  }
}
