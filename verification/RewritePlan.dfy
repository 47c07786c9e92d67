/** What `tywb recompress` makes of a decompressed WARC, as a function: which
  records it finds, what lies between them, and how the walk ends. */
module RewritePlan {
  import opened Bytes
  import opened Warc

  /** How a decompressed stream ends: properly, in the middle of a gzip member,
      or with an error that is not "end of input". */
  datatype End = Clean | CutOff | Broken

  // ── one line ──

  /** A line with its LF (or the unterminated last one), a clean end, or an error. */
  datatype LineRead = Got(line: bytes) | AtEnd | Lost

  function NextLine(s: bytes, end: End): (r: LineRead)
    ensures r.Got? ==> r.line <= s && r.line != []
  {
    var i := IndexOf(s, LF);
    if i < |s| then Got(s[..i + 1])
    else if end.Clean? then if s == [] then AtEnd else Got(s)
    else Lost
  }

  // ── one header block ──

  /** The lines before the blank one, the blank one, and what follows it;
      `blank` is None when the source ran out first. */
  datatype HeaderScan = HeaderScan(lines: seq<bytes>, blank: Option<bytes>, rest: bytes)

  function ScanHeaders(s: bytes, end: End): (h: HeaderScan)
    ensures |h.rest| <= |s|
    decreases |s|
  {
    match NextLine(s, end)
    case Got(l) =>
      if IsBlank(l) then HeaderScan([], Some(l), s[|l|..])
      else
        var h := ScanHeaders(s[|l|..], end);
        HeaderScan([l] + h.lines, h.blank, h.rest)
    case _ => HeaderScan([], None, [])
  }

  // ── one record ──

  datatype Scan =
    | Nothing                                  // clean end of the source
    | Complete(rec: Record, rest: bytes)
    | RanOut                                   // the source ended inside the record
    | NoVersionLine | NoContentLength | NoTerminator

  function ScanBlock(version: bytes, h: HeaderScan): Scan
  {
    if h.blank.None? then RanOut
    else match DeclaredLength(h.lines)
      case None => NoContentLength
      case Some(n) =>
        if |h.rest| < n + 4 then RanOut
        else if h.rest[n..n + 4] != CRLFCRLF then NoTerminator
        else Complete(Record(version, h.lines, h.blank.value, h.rest[..n]), h.rest[n + 4..])
  }

  function ScanRecord(s: bytes, end: End): (r: Scan)
    ensures r.Complete? ==> |r.rest| < |s|
  {
    match NextLine(s, end)
    case AtEnd => Nothing
    case Lost => RanOut
    case Got(v) => if WARC_SLASH <= v then ScanBlock(v, ScanHeaders(s[|v|..], end)) else NoVersionLine
  }

  // ── the whole source ──

  /** A record with the stray separators in front of it. */
  datatype Piece = Piece(gap: bytes, rec: Record)

  datatype Stop = Finished | Salvaged | Aborted(why: Scan)

  datatype Plan = Plan(pieces: seq<Piece>, rest: bytes, stop: Stop)

  function PlanOf(s: bytes, end: End, salvage: bool): Plan
    decreases |s|
  {
    var t := SkipBlank(s);
    match ScanRecord(t, end)
    case Complete(rec, rest) =>
      var tail := PlanOf(rest, end, salvage);
      Plan([Piece(s[..|s| - |t|], rec)] + tail.pieces, tail.rest, tail.stop)
    case Nothing => Plan([], s, Finished)
    case RanOut => Plan([], s, if salvage && !end.Broken? then Salvaged else Aborted(RanOut))
    case bad => Plan([], s, Aborted(bad))
  }

  function Prints(pieces: seq<Piece>): (ps: seq<bytes>)
    ensures |ps| == |pieces|
  {
    if pieces == [] then [] else [Print(pieces[0].rec)] + Prints(pieces[1..])
  }

  lemma {:induction false} PrintsAt(pieces: seq<Piece>, k: nat)
    requires k < |pieces|
    ensures Prints(pieces)[k] == Print(pieces[k].rec)
  {
    hide Print;
    if k > 0 { PrintsAt(pieces[1..], k - 1); }
  }

  /** The pieces as they stood in the source, separators included. */
  function Source(pieces: seq<Piece>): bytes
  {
    if pieces == [] then [] else pieces[0].gap + (Print(pieces[0].rec) + Source(pieces[1..]))
  }

  // ── soundness and completeness of the scan ──

  lemma NextLineIsLine(s: bytes, end: End)
    requires NextLine(s, end).Got?
    ensures var l := NextLine(s, end).line;
      s == l + s[|l|..] && (s[|l|..] != [] ==> IsLine(l)) && (!IsLine(l) ==> end.Clean? && LF !in l)
  {
    var i := IndexOf(s, LF);
    var l := NextLine(s, end).line;
    IndexOfFound(s, LF);
    if i < |s| { IndexOfIs(l, LF, i); }
  }

  lemma NextLineOfLine(l: bytes, t: bytes, end: End)
    requires IsLine(l)
    ensures NextLine(l + t, end) == Got(l) && (l + t)[|l|..] == t
  {
    FirstLine(l, t);
  }

  ghost predicate HeaderLines(lines: seq<bytes>)
  {
    forall k | 0 <= k < |lines| :: IsLine(lines[k]) && !IsBlank(lines[k])
  }

  lemma BlankIsLine(l: bytes)
    requires IsBlank(l)
    ensures IsLine(l)
  {
    IndexOfIs(l, LF, |l| - 1);
  }

  /** `h` is how the header block at the front of `s` comes apart. */
  ghost predicate Header(s: bytes, h: HeaderScan)
  {
    && h.blank.Some? && IsBlank(h.blank.value) && HeaderLines(h.lines)
    && s == Flatten(h.lines) + (h.blank.value + h.rest)
  }

  lemma HeaderOneMore(l: bytes, t: bytes, h: HeaderScan)
    requires IsLine(l) && !IsBlank(l) && Header(t, h)
    ensures Header(l + t, HeaderScan([l] + h.lines, h.blank, h.rest))
  {
    hide IsLine, IsBlank;
    FlattenCons(l, h.lines);
    Assoc(l, Flatten(h.lines), h.blank.value + h.rest);
  }

  lemma {:induction false} ScanHeadersSound(s: bytes, end: End)
    requires ScanHeaders(s, end).blank.Some?
    ensures Header(s, ScanHeaders(s, end))
    decreases |s|
  {
    var l := NextLine(s, end).line;
    NextLineIsLine(s, end);
    hide NextLine, IsLine;
    var t := s[|l|..];
    if IsBlank(l) {
      assert Flatten([]) + (l + t) == s;
    } else {
      hide Header, IsBlank;
      assert t != [];
      ScanHeadersSound(t, end);
      HeaderOneMore(l, t, ScanHeaders(t, end));
    }
  }

  ghost predicate ScansAs(s: bytes, end: End, lines: seq<bytes>, blank: bytes, rest: bytes)
  {
    ScanHeaders(s, end) == HeaderScan(lines, Some(blank), rest)
  }

  lemma ScansBlank(blank: bytes, t: bytes, end: End)
    requires IsBlank(blank)
    ensures ScansAs(blank + t, end, [], blank, t)
  {
    BlankIsLine(blank);
    NextLineOfLine(blank, t, end);
  }

  lemma ScansOneMore(l: bytes, u: bytes, end: End, lines: seq<bytes>, blank: bytes, rest: bytes)
    requires IsLine(l) && !IsBlank(l) && lines != [] && lines[0] == l
    requires ScansAs(u, end, lines[1..], blank, rest)
    ensures ScansAs(l + u, end, lines, blank, rest)
  {
    NextLineOfLine(l, u, end);
    hide NextLine, IsBlank, IsLine;
    assert [l] + lines[1..] == lines;
  }

  lemma {:induction false} ScanHeadersComplete(lines: seq<bytes>, blank: bytes, t: bytes, end: End)
    requires HeaderLines(lines) && IsBlank(blank)
    ensures ScansAs(Flatten(lines) + (blank + t), end, lines, blank, t)
    decreases |lines|
  {
    if lines == [] {
      assert Flatten(lines) + (blank + t) == blank + t;
      hide IsBlank, ScansAs;
      ScansBlank(blank, t, end);
    } else {
      var l, more := lines[0], lines[1..];
      hide IsLine, IsBlank, ScansAs;
      Assoc(l, Flatten(more), blank + t);
      ScanHeadersComplete(more, blank, t, end);
      ScansOneMore(l, Flatten(more) + (blank + t), end, lines, blank, t);
    }
  }

  lemma RecordFromParts(s: bytes, v: bytes, h: HeaderScan)
    requires |v| <= |s| && s == v + s[|v|..] && Header(s[|v|..], h)
    requires IsLine(v) && WARC_SLASH <= v && ScanBlock(v, h).Complete?
    ensures var r := ScanBlock(v, h).rec;
      WellFormed(r) && s == Print(r) + ScanBlock(v, h).rest
  {
    hide IsLine, IsBlank, DeclaredLength;
    var r, rest := ScanBlock(v, h).rec, ScanBlock(v, h).rest;
    BlockParts(h.rest, |r.block|);
    PrintParts(r, rest);
  }

  /** A record is reported only for bytes that are one, taken from the front. */
  lemma ScanSound(s: bytes, end: End)
    requires ScanRecord(s, end).Complete?
    ensures WellFormed(ScanRecord(s, end).rec)
    ensures s == Print(ScanRecord(s, end).rec) + ScanRecord(s, end).rest
  {
    var v := NextLine(s, end).line;
    NextLineIsLine(s, end);
    var h := ScanHeaders(s[|v|..], end);
    ScanHeadersSound(s[|v|..], end);
    assert s[|v|..] != [];
    hide NextLine, IsLine, ScanHeaders, Header, WellFormed, Print;
    RecordFromParts(s, v, h);
  }

  lemma BlockParts(t: bytes, n: nat)
    requires n + 4 <= |t| && t[n..n + 4] == CRLFCRLF
    ensures t == t[..n] + (CRLFCRLF + t[n + 4..])
  {
    assert t == t[..n] + (t[n..n + 4] + t[n + 4..]);
  }

  /** Every well-formed record is found, whatever follows it. */
  lemma ScanComplete(r: Record, t: bytes, end: End)
    requires WellFormed(r)
    ensures ScanRecord(Print(r) + t, end) == Complete(r, t)
  {
    PrintParts(r, t);
    var u := r.block + (CRLFCRLF + t);
    var h := Flatten(r.headers) + (r.blank + u);
    NextLineOfLine(r.version, h, end);
    assert HeaderLines(r.headers);
    hide NextLine, IsLine, IsBlank, DeclaredLength, HeaderLines, Print;
    ScanHeadersComplete(r.headers, r.blank, u, end);
    hide ScanHeaders;
    BlockFound(r, t);
  }

  lemma BlockFound(r: Record, t: bytes)
    requires DeclaredLength(r.headers) == Some(|r.block|)
    ensures ScanBlock(r.version, HeaderScan(r.headers, Some(r.blank), r.block + (CRLFCRLF + t))) == Complete(r, t)
  {
    hide DeclaredLength;
    var u, n := r.block + (CRLFCRLF + t), |r.block|;
    assert u[..n] == r.block && u[n..n + 4] == CRLFCRLF && u[n + 4..] == t;
  }

  // ── soundness and completeness of the plan ──

  ghost predicate GoodPieces(pieces: seq<Piece>)
  {
    forall k | 0 <= k < |pieces| :: BlankLines(pieces[k].gap) && WellFormed(pieces[k].rec)
  }

  /** No complete record can be taken off the front of `s`. */
  ghost predicate NoRecordIn(s: bytes)
  {
    forall r: Record, t: bytes | WellFormed(r) :: s != Print(r) + t
  }

  lemma RecordStartsWithW(r: Record, t: bytes)
    requires WellFormed(r)
    ensures Separator(Print(r) + t) == 0
  {
    assert (Print(r) + t)[0] == r.version[0] == WARC_SLASH[0];
  }

  lemma CutRecordIsNone(s: bytes, end: End)
    requires !ScanRecord(s, end).Complete?
    ensures NoRecordIn(s)
  {
    forall r: Record, t: bytes | WellFormed(r) ensures s != Print(r) + t {
      hide ScanRecord, Print, WellFormed;
      ScanComplete(r, t, end);
    }
  }

  /** What a plan says about the source: the records are well formed, they stand
      in the source in this order with only separators between them; a finished
      plan leaves only separators, a salvaged one separators and a tail that does
      not hold a complete record. */
  ghost predicate Explains(p: Plan, s: bytes, end: End, salvage: bool)
  {
    && GoodPieces(p.pieces)
    && s == Source(p.pieces) + p.rest
    && (p.stop == Finished ==> end == Clean && BlankLines(p.rest))
    && (p.stop == Salvaged ==> salvage && end != Broken && NoRecordIn(SkipBlank(p.rest)))
  }

  lemma ExplainsOneMore(p: Piece, rest: bytes, end: End, salvage: bool, tail: Plan)
    requires BlankLines(p.gap) && WellFormed(p.rec) && Explains(tail, rest, end, salvage)
    ensures Explains(Plan([p] + tail.pieces, tail.rest, tail.stop), p.gap + (Print(p.rec) + rest), end, salvage)
  {
    hide Print, WellFormed, BlankLines, NoRecordIn, SkipBlank;
    var pieces := [p] + tail.pieces;
    assert pieces[1..] == tail.pieces;
    assert GoodPieces(pieces);
    Assoc(p.gap, Print(p.rec) + Source(tail.pieces), tail.rest);
    Assoc(Print(p.rec), Source(tail.pieces), tail.rest);
  }

  lemma ExplainsNoPieces(p: Plan, s: bytes, end: End, salvage: bool)
    requires p.pieces == [] && p.rest == s
    requires p.stop == Finished ==> end == Clean && BlankLines(s)
    requires p.stop == Salvaged ==> salvage && end != Broken && NoRecordIn(SkipBlank(s))
    ensures Explains(p, s, end, salvage)
  {
    hide NoRecordIn, BlankLines, SkipBlank;
    assert [] + s == s;
  }

  lemma ExplainsStop(s: bytes, end: End, salvage: bool)
    requires !ScanRecord(SkipBlank(s), end).Complete?
    ensures Explains(PlanOf(s, end, salvage), s, end, salvage)
  {
    var t := SkipBlank(s);
    CutRecordIsNone(t, end);
    SkippedIsBlank(s);
    if ScanRecord(t, end).Nothing? { NothingLeft(t, end); assert s[..|s|] == s; }
    hide ScanRecord, NoRecordIn, BlankLines, SkipBlank, Explains;
    ExplainsNoPieces(PlanOf(s, end, salvage), s, end, salvage);
  }

  /** The first piece of a plan, when there is one. */
  function FirstPiece(s: bytes, end: End): Piece
    requires ScanRecord(SkipBlank(s), end).Complete?
  {
    Piece(s[..|s| - |SkipBlank(s)|], ScanRecord(SkipBlank(s), end).rec)
  }

  lemma FirstPieceStands(s: bytes, end: End)
    requires ScanRecord(SkipBlank(s), end).Complete?
    ensures var p, rest := FirstPiece(s, end), ScanRecord(SkipBlank(s), end).rest;
      |rest| < |s| && BlankLines(p.gap) && WellFormed(p.rec) && s == p.gap + (Print(p.rec) + rest)
  {
    var t := SkipBlank(s);
    SkippedIsBlank(s);
    ScanSound(t, end);
    hide SkipBlank, BlankLines, WellFormed, Print, ScanRecord;
    SplitAt(s, |s| - |t|);
  }

  lemma {:induction false} PlanSound(s: bytes, end: End, salvage: bool)
    ensures Explains(PlanOf(s, end, salvage), s, end, salvage)
    decreases |s|
  {
    hide WellFormed, Print, BlankLines, SkipBlank, Explains, ScanRecord;
    if ScanRecord(SkipBlank(s), end).Complete? {
      var p, rest := FirstPiece(s, end), ScanRecord(SkipBlank(s), end).rest;
      FirstPieceStands(s, end);
      PlanSound(rest, end, salvage);
      ExplainsOneMore(p, rest, end, salvage, PlanOf(rest, end, salvage));
    } else {
      ExplainsStop(s, end, salvage);
    }
  }

  lemma NothingLeft(t: bytes, end: End)
    requires ScanRecord(t, end).Nothing?
    ensures t == [] && end == Clean
  {
  }

  ghost predicate PlansAs(s: bytes, end: End, salvage: bool, pieces: seq<Piece>, tail: Plan)
  {
    PlanOf(s, end, salvage) == Plan(pieces + tail.pieces, tail.rest, tail.stop)
  }

  lemma PlanNoMore(rest: bytes, end: End, salvage: bool)
    ensures PlansAs(rest, end, salvage, [], PlanOf(rest, end, salvage))
  {
    hide PlanOf;
    var tail := PlanOf(rest, end, salvage);
    assert [] + tail.pieces == tail.pieces;
  }

  lemma PlanOneMore(p: Piece, rest: bytes, end: End, salvage: bool, more: seq<Piece>, tail: Plan)
    requires BlankLines(p.gap) && WellFormed(p.rec) && PlansAs(rest, end, salvage, more, tail)
    ensures PlansAs(p.gap + (Print(p.rec) + rest), end, salvage, [p] + more, tail)
  {
    hide ScanRecord, WellFormed, Print, BlankLines, SkipBlank, Separator;
    var t := Print(p.rec) + rest;
    RecordStartsWithW(p.rec, rest);
    SkipBlankExactly(p.gap, t);
    ScanComplete(p.rec, rest, end);
    assert (p.gap + t)[..|p.gap|] == p.gap;
    assert [p] + (more + tail.pieces) == [p] + more + tail.pieces;
  }

  /** Every record that stands in the source is in the plan, in order: records
      with separators between them are found whatever the remaining bytes are. */
  lemma {:induction false} PlanComplete(pieces: seq<Piece>, rest: bytes, end: End, salvage: bool)
    requires GoodPieces(pieces)
    ensures PlansAs(Source(pieces) + rest, end, salvage, pieces, PlanOf(rest, end, salvage))
    decreases |pieces|
  {
    var tail := PlanOf(rest, end, salvage);
    hide PlansAs, PlanOf, WellFormed, Print, BlankLines;
    if pieces == [] {
      assert Source(pieces) + rest == rest;
      PlanNoMore(rest, end, salvage);
    } else {
      var p, more := pieces[0], pieces[1..];
      PlanComplete(more, rest, end, salvage);
      PlanOneMore(p, Source(more) + rest, end, salvage, more, tail);
      Assoc(p.gap, Print(p.rec) + Source(more), rest);
      Assoc(Print(p.rec), Source(more), rest);
      assert [p] + more == pieces;
    }
  }
}
