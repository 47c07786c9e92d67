/** What passing the gate of `tywb recompress` means for the payload. */
module GateFacts {
  import opened Bytes
  import opened Codec
  import Gzip
  import opened MemberWalk
  import Warc
  import opened RewritePlan
  import opened Rewriter
  import opened Recompress

  // ── how a plan ends ──

  /** What salvaging may leave behind: not one complete record, and either no
      whole line at all or a record that breaks off. */
  ghost predicate IncompleteRecord(t: bytes)
  {
    NoRecordIn(t) && (LF !in t || Warc.WARC_SLASH <= t)
  }

  lemma RanOutIsIncomplete(t: bytes, end: End)
    requires ScanRecord(t, end).RanOut?
    ensures IncompleteRecord(t)
  {
    hide NoRecordIn;
    CutRecordIsNone(t, end);
    match NextLine(t, end)
    case Got(v) => assert Warc.WARC_SLASH <= v <= t;
    case _ => IndexOfFound(t, LF);
  }

  lemma {:induction false} SalvagedTail(s: bytes, end: End, salvage: bool)
    requires PlanOf(s, end, salvage).stop.Salvaged?
    ensures IncompleteRecord(Warc.SkipBlank(PlanOf(s, end, salvage).rest))
    decreases |s|
  {
    hide IncompleteRecord, ScanRecord, Warc.SkipBlank;
    var t := Warc.SkipBlank(s);
    match ScanRecord(t, end)
    case Complete(_, rest) => SalvagedTail(rest, end, salvage);
    case _ => RanOutIsIncomplete(t, end);
  }

  /** Asking to salvage changes nothing for a source that needs no salvaging. */
  lemma {:induction false} SalvageChangesNothing(s: bytes, end: End)
    requires !PlanOf(s, end, false).stop.Aborted?
    ensures PlanOf(s, end, true) == PlanOf(s, end, false)
    decreases |s|
  {
    hide ScanRecord, Warc.SkipBlank;
    match ScanRecord(Warc.SkipBlank(s), end)
    case Complete(_, rest) => SalvageChangesNothing(rest, end);
    case _ =>
  }

  // ── the verification gate ──

  /** What a rewrite that reaches the upload step leaves out of the payload: blank
      lines, or, if the caller wanted to salvage, blank lines and one incomplete record. */
  ghost predicate Droppable(rest: bytes, salvage: bool)
  {
    Warc.BlankLines(rest) || (salvage && IncompleteRecord(Warc.SkipBlank(rest)))
  }

  lemma PlanRest(s: bytes, end: End, salvage: bool)
    requires !PlanOf(s, end, salvage).stop.Aborted?
    ensures Droppable(PlanOf(s, end, salvage).rest, salvage)
  {
    hide PlanOf, Warc.BlankLines, IncompleteRecord, Warc.SkipBlank;
    PlanSound(s, end, salvage);
    if PlanOf(s, end, salvage).stop.Salvaged? { SalvagedTail(s, end, salvage); }
  }

  /** The facts about a rewrite that got through. */
  ghost predicate Faithful(c: Coder, orig: bytes, salvage: bool, file: bytes, records: nat, dropped: nat)
  {
    var p, q := Unpack(c, orig, 0), Unpack(c, file, 0);
    && q.end == Clean && |q.data| + dropped == |p.data|
    && p.data == q.data + p.data[|q.data|..] && Droppable(p.data[|q.data|..], salvage)
    && records > 0 && ShapeOf(Walk(Checking(c), file, 0)) == Some(Shape(records, false))
  }

  /** The verification gate: whatever reaches the upload step decompresses to a
      prefix of the original payload, in one member per record, and what it leaves
      out is only what may be dropped. */
  lemma PassedIsFaithful(c: Coder, orig: bytes, salvage: bool)
    requires Streaming(c) && Gate(c, orig, salvage).Passed?
    ensures var v := Gate(c, orig, salvage);
      Faithful(c, orig, salvage, v.file, v.records, v.dropped)
  {
    hide Unpack, Walk, PlanOf, FileOf, NoGaps, Droppable, Streaming, GoodPieces, ShapeOf, Flatten, Prints, Hashed;
    var p := Unpack(c, orig, 0);
    var plan := PlanOf(p.data, p.end, salvage);
    PlanSound(p.data, p.end, salvage);
    ComparisonFindsGaps(c, p, plan, false);
    PlanRest(p.data, p.end, salvage);
    UnpackMembers(c, Prints(plan.pieces));
    FileIsMembers(c, plan.pieces);
    AfterPrefix(p.data, Flatten(Prints(plan.pieces)), plan.rest);
  }

  lemma AfterPrefix(s: bytes, a: bytes, b: bytes)
    requires s == a + b
    ensures s[|a|..] == b
  {
  }

  lemma FileIsMembers(c: Coder, pieces: seq<Piece>)
    ensures FileOf(c, pieces) == Flatten(Members(c, Prints(pieces)))
  {
    hide Flatten, Prints, Members;
  }

  // ── rewriting a rewrite ──

  lemma PlanOfNothing(end: End, salvage: bool)
    requires end == Clean
    ensures PlanOf([], end, salvage) == Plan([], [], Finished)
  {
    assert NextLine([], end).AtEnd?;
    assert ScanRecord([], end).Nothing?;
  }

  /** The records of a plan without gaps, one after the other, plan to themselves. */
  lemma PlanOfPrints(pieces: seq<Piece>, salvage: bool)
    requires GoodPieces(pieces) && NoGaps(pieces)
    ensures PlanOf(Flatten(Prints(pieces)), Clean, salvage) == Plan(pieces, [], Finished)
  {
    hide PlanOf, GoodPieces, NoGaps, Flatten, Prints, Source;
    GapsShow(pieces, []);
    PlanComplete(pieces, [], Clean, salvage);
    PlanOfNothing(Clean, salvage);
    assert Source(pieces) + [] == Source(pieces);
    assert pieces + [] == pieces;
  }

  lemma {:induction false} PrintsNotEmpty(pieces: seq<Piece>)
    requires pieces != []
    ensures Flatten(Prints(pieces)) != []
  {
    var printed := Warc.Print(pieces[0].rec);
    assert |printed| >= |CRLFCRLF|;
    FlattenCons(printed, Prints(pieces[1..]));
  }

  /** The gate, for a file with one member per record. */
  lemma GateOfRewrite(c: Coder, pieces: seq<Piece>, again: bool)
    requires Streaming(c) && GoodPieces(pieces) && NoGaps(pieces) && pieces != []
    ensures Gate(c, FileOf(c, pieces), again) == if |pieces| == 1 then Passed(FileOf(c, pieces), 1, 0) else Skipped
  {
    hide Unpack, Walk, PlanOf, FileOf, NoGaps, Streaming, GoodPieces, Flatten, Prints;
    UnpackMembers(c, Prints(pieces));
    FileIsMembers(c, pieces);
    PlanOfPrints(pieces, again);
    PrintsNotEmpty(pieces);
  }

  /** A rewrite of two records or more is passed over by every later run; a
      rewrite of one record is rewritten to itself. */
  lemma RewriteOfRewrite(c: Coder, orig: bytes, salvage: bool, again: bool)
    requires Streaming(c) && Gate(c, orig, salvage).Passed?
    ensures var v := Gate(c, orig, salvage);
      Gate(c, v.file, again) == if v.records == 1 then Passed(v.file, 1, 0) else Skipped
  {
    hide Unpack, Walk, PlanOf, FileOf, NoGaps, Streaming, GoodPieces, ShapeOf;
    var p := Unpack(c, orig, 0);
    PlanSound(p.data, p.end, salvage);
    GateOfRewrite(c, PlanOf(p.data, p.end, salvage).pieces, again);
  }

  /** What gets through without salvaging gets through in the same way with it. */
  lemma GateIgnoresNeedlessSalvage(c: Coder, orig: bytes)
    requires Gate(c, orig, false).Passed?
    ensures Gate(c, orig, true) == Gate(c, orig, false)
  {
    hide Unpack, Walk, PlanOf, FileOf, NoGaps, ShapeOf;
    var p := Unpack(c, orig, 0);
    SalvageChangesNothing(p.data, p.end);
  }

  // ── one record with blank lines behind it ──

  lemma PlanOfBlankLines(s: bytes, salvage: bool)
    requires Warc.BlankLines(s)
    ensures PlanOf(s, Clean, salvage) == Plan([], s, Finished)
  {
    Warc.SkipBlankExactly(s, []);
    assert s + [] == s;
    assert NextLine([], Clean).AtEnd?;
    assert ScanRecord([], Clean).Nothing?;
  }

  lemma PlanOfOne(r: Warc.Record, tail: bytes, salvage: bool)
    requires Warc.WellFormed(r) && Warc.BlankLines(tail)
    ensures PlanOf(Warc.Print(r) + tail, Clean, salvage) == Plan([Piece([], r)], tail, Finished)
  {
    hide PlanOf, Warc.Print, Warc.WellFormed;
    var pieces := [Piece([], r)];
    PlanOfBlankLines(tail, salvage);
    PlanComplete(pieces, tail, Clean, salvage);
    assert Source(pieces) == Warc.Print(r);
    assert pieces + [] == pieces;
  }

  lemma FileOfOne(c: Coder, r: Warc.Record)
    ensures FileOf(c, [Piece([], r)]) == Gzip.MemberOf(c, Warc.Print(r))
  {
    hide Warc.Print, Gzip.MemberOf, Flatten;
    assert Prints([Piece([], r)]) == [Warc.Print(r)];
    assert Members(c, [Warc.Print(r)]) == [Gzip.MemberOf(c, Warc.Print(r))];
    FlattenOne(Gzip.MemberOf(c, Warc.Print(r)));
  }

  lemma GatePlanOfOne(c: Coder, r: Warc.Record, tail: bytes)
    ensures GatePlan(c, Plan([Piece([], r)], tail, Finished)) == Passed(Gzip.MemberOf(c, Warc.Print(r)), 1, |tail|)
  {
    hide Warc.Print, Gzip.MemberOf, FileOf, Flatten, Prints;
    FileOfOne(c, r);
  }

  /** A member that holds one record and blank lines gets through, salvaging or not,
      and its rewrite drops the blank lines. */
  lemma BlankLinesAreDropped(c: Coder, r: Warc.Record, tail: bytes, salvage: bool)
    requires Streaming(c) && Warc.WellFormed(r) && Warc.BlankLines(tail)
    ensures Gate(c, Gzip.MemberOf(c, Warc.Print(r) + tail), salvage) ==
      Passed(Gzip.MemberOf(c, Warc.Print(r)), 1, |tail|)
  {
    hide Unpack, Walk, PlanOf, GatePlan, Streaming, Gzip.MemberOf, Warc.WellFormed, Warc.Print, Warc.BlankLines,
      ShapeOf;
    OneMember(c, Warc.Print(r) + tail);
    PlanOfOne(r, tail, salvage);
    GatePlanOfOne(c, r, tail);
    Warc.PrintParts(r, tail);
  }

  lemma OneMember(c: Coder, data: bytes)
    requires Streaming(c)
    ensures Unpack(c, Gzip.MemberOf(c, data), 0) == Unpacked(data, Clean)
    ensures ShapeOf(Walk(Checking(c), Gzip.MemberOf(c, data), 0)) == Some(Shape(1, false))
  {
    hide Unpack, Walk, Streaming, Gzip.MemberOf, ShapeOf;
    UnpackMembers(c, [data]);
    FlattenOne(data);
    FlattenOne(Gzip.MemberOf(c, data));
    assert Members(c, [data]) == [Gzip.MemberOf(c, data)];
  }
}
