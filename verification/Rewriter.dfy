/** The streaming rewriter of `tywb recompress`: it copies a WARC record by
  record into a file with one gzip member per record, and rolls a half-written
  member back when the source is cut off and the caller wants to salvage. */
module Rewriter {
  import opened Bytes
  import opened Codec
  import opened Gzip
  import opened MemberWalk
  import opened Text
  import opened Warc
  import opened RewritePlan

  const CHUNK := 65536

  /** The decompressed source: its bytes, then the way it ends. */
  class Payload {
    const data: bytes
    const end: End
    var at: nat

    ghost predicate Valid()
      reads this
    {
      at <= |data|
    }

    ghost function Rest(): bytes
      requires Valid()
      reads this
    {
      data[at..]
    }

    constructor (data: bytes, end: End)
      ensures Valid() && this.data == data && this.end == end && at == 0
    {
      this.data, this.end, at := data, end, 0;
    }

    method ReadUntilLf() returns (r: LineRead)
      requires Valid()
      modifies this
      ensures Valid() && r == NextLine(old(Rest()), end)
      ensures r.Got? ==> |r.line| <= |old(Rest())| && Rest() == old(Rest())[|r.line|..]
    {
      r := NextLine(data[at..], end);
      at := if r.Got? then at + |r.line| else |data|;
    }

    /** Some of what is left, as much as the decoder happens to hand out; at the
        end nothing, or the error the stream ends with. */
    method Read(max: nat) returns (r: Option<bytes>)
      requires Valid() && max > 0
      modifies this
      ensures Valid() && at >= old(at)
      ensures old(at) == |data| ==> r == (if end.Clean? then Some([]) else None)
      ensures old(at) < |data| ==> r.Some? && 0 < |r.value| <= max && r.value == data[old(at)..at]
    {
      if at == |data| { return if end.Clean? then Some([]) else None; }
      var k: nat :| 0 < k <= max && k <= |data| - at;
      r := Some(data[at..at + k]);
      at := at + k;
    }

    method ReadExact(n: nat) returns (r: Option<bytes>)
      requires Valid()
      modifies this
      ensures Valid()
      ensures if n <= |old(Rest())| then r == Some(old(Rest())[..n]) && Rest() == old(Rest())[n..] else r == None
    {
      if n <= |data| - at {
        r := Some(data[at..at + n]);
        assert data[at..at + n] == data[at..][..n] && data[at + n..] == data[at..][n..];
        at := at + n;
      } else {
        r, at := None, |data|;
      }
    }
  }

  /** The output file, with a count of everything written to it. */
  class Counting {
    var file: bytes
    var count: nat

    ghost predicate Valid()
      reads this
    {
      count == |file|
    }

    constructor ()
      ensures Valid() && file == []
    {
      file, count := [], 0;
    }

    method Write(data: bytes)
      requires Valid()
      modifies this
      ensures Valid() && file == old(file) + data
    {
      file, count := file + data, count + |data|;
    }

    method SetLen(n: nat)
      requires n <= |file|
      modifies this`file
      ensures file == old(file)[..n]
    {
      file := file[..n];
    }
  }

  /** The encoder of one member. What it has compressed early is only seen by
      others once it is finished or dropped, so that is where it is accounted for. */
  class GzEncoder {
    const coder: Coder
    const out: Counting
    var content: bytes

    constructor (coder: Coder, out: Counting)
      ensures this.coder == coder && this.out == out && content == []
    {
      this.coder, this.out, content := coder, out, [];
    }

    method WriteAll(data: bytes)
      modifies this
      ensures content == old(content) + data
    {
      content := content + data;
    }

    method Finish()
      requires out.Valid()
      modifies out
      ensures out.Valid() && out.file == old(out.file) + MemberOf(coder, content)
    {
      out.Write(MemberOf(coder, content));
    }

    /** An unfinished encoder flushes whatever it likes when it is dropped. */
    method Drop()
      requires out.Valid()
      modifies out
      ensures out.Valid() && old(out.file) <= out.file
    {
      var flushed: bytes := *;
      out.Write(flushed);
    }
  }

  datatype Rewrite = Rewrite(records: nat, payloadBytes: nat, salvaged: bool)

  datatype Outcome = Rewrote(rewrite: Rewrite) | NoRecords | Refused(why: Scan)

  /** What the rewriter reports for a plan. */
  function Answer(p: Plan): Outcome
  {
    if p.stop.Aborted? then Refused(p.stop.why)
    else if p.pieces == [] then NoRecords
    else Rewrote(Rewrite(|p.pieces|, |Flatten(Prints(p.pieces))|, p.stop.Salvaged?))
  }

  // ── one header block ──

  ghost predicate HeaderContinues(whole: HeaderScan, lines: seq<bytes>, tail: HeaderScan)
  {
    whole == HeaderScan(lines + tail.lines, tail.blank, tail.rest)
  }

  lemma HeaderStarts(whole: HeaderScan)
    ensures HeaderContinues(whole, [], whole)
  {
  }

  lemma HeaderStep(whole: HeaderScan, lines: seq<bytes>, s: bytes, end: End)
    requires HeaderContinues(whole, lines, ScanHeaders(s, end))
    ensures var r := NextLine(s, end);
      if !r.Got? then whole.blank == None
      else if IsBlank(r.line) then whole == HeaderScan(lines, Some(r.line), s[|r.line|..])
      else HeaderContinues(whole, lines + [r.line], ScanHeaders(s[|r.line|..], end))
  {
    hide NextLine, IsBlank;
    match NextLine(s, end)
    case Got(l) =>
      var tail := ScanHeaders(s[|l|..], end);
      assert lines + [] == lines;
      assert lines + ([l] + tail.lines) == lines + [l] + tail.lines;
    case _ =>
  }

  lemma LengthStep(lines: seq<bytes>, l: bytes)
    ensures DeclaredLength(lines + [l]) == LengthAfter(DeclaredLength(lines), l)
  {
    hide LengthAfter;
    assert (lines + [l])[..|lines|] == lines;
  }

  /** Read the header lines up to and including the blank one, keeping their
      bytes and the last Content-Length. */
  method ReadHeader(src: Payload) returns (ok: bool, header: bytes, length: Option<nat>)
    requires src.Valid()
    modifies src
    ensures src.Valid()
    ensures var h := ScanHeaders(old(src.Rest()), src.end);
      && ok == h.blank.Some?
      && (ok ==>
            && src.Rest() == h.rest && length == DeclaredLength(h.lines)
            && header == Flatten(h.lines) + h.blank.value)
  {
    header, length := [], None;
    ghost var whole, lines: seq<bytes> := ScanHeaders(src.Rest(), src.end), [];
    HeaderStarts(whole);
    hide HeaderContinues, ScanHeaders, NextLine, DeclaredLength, IsBlank, LengthAfter;
    while true
      invariant src.Valid() && HeaderContinues(whole, lines, ScanHeaders(src.Rest(), src.end))
      invariant header == Flatten(lines) && length == DeclaredLength(lines)
      decreases |src.data| - src.at
    {
      HeaderStep(whole, lines, src.Rest(), src.end);
      var r := src.ReadUntilLf();
      if !r.Got? { return false, header, length; }
      if IsBlank(r.line) { return true, header + r.line, length; }
      FlattenSnoc(lines, r.line);
      LengthStep(lines, r.line);
      lines := lines + [r.line];
      header := header + r.line;
      length := LengthAfter(length, r.line);
    }
  }

  /** Copy `n` bytes of block into the member, a chunk at a time. */
  method CopyBlock(src: Payload, enc: GzEncoder, n: nat) returns (ok: bool)
    requires src.Valid()
    modifies src, enc
    ensures src.Valid() && ok == (n <= |old(src.Rest())|)
    ensures ok ==> enc.content == old(enc.content) + old(src.Rest())[..n] && src.Rest() == old(src.Rest())[n..]
  {
    ghost var s, before := src.Rest(), enc.content;
    var remaining: nat := n;
    while remaining > 0
      invariant src.Valid() && remaining <= n && n - remaining <= |s|
      invariant src.Rest() == s[n - remaining..] && enc.content == before + s[..n - remaining]
    {
      var want := if remaining < CHUNK then remaining else CHUNK;
      var chunk := src.ReadExact(want);
      if chunk.None? { return false; }
      ChunkCopied(before, s, n - remaining, want);
      enc.WriteAll(chunk.value);
      remaining := remaining - want;
    }
    return true;
  }

  lemma ChunkCopied(before: bytes, s: bytes, k: nat, want: nat)
    requires k <= |s|
    ensures want <= |s[k..]| ==>
      before + s[..k] + s[k..][..want] == before + s[..k + want] && s[k..][want..] == s[k + want..]
  {
  }

  // ── one record ──

  /** What became of one record: copied whole (with its size), or what stopped it. */
  datatype Copied = Whole(size: nat) | Stopped(why: Scan)

  lemma ScanAfterVersion(s: bytes, end: End, v: bytes)
    requires NextLine(s, end) == Got(v) && WARC_SLASH <= v
    ensures ScanRecord(s, end) == ScanBlock(v, ScanHeaders(s[|v|..], end))
  {
    hide NextLine, ScanHeaders, ScanBlock;
  }

  lemma TrailerFollows(s: bytes, n: nat)
    requires n <= |s|
    ensures |s[n..]| >= 4 ==> s[n..][..4] == s[n..n + 4] && s[n..][4..] == s[n + 4..]
  {
  }

  /** Write the member for a record whose header is known: block and terminator
      come from the source. A member that cannot be finished is dropped. */
  method CopyBody(c: Coder, src: Payload, out: Counting, header: bytes, n: nat) returns (r: Copied)
    requires src.Valid() && out.Valid()
    modifies src, out
    ensures src.Valid() && out.Valid() && old(out.file) <= out.file
    ensures var s := old(src.Rest());
      if |s| < n + 4 then r == Stopped(RanOut)
      else if s[n..n + 4] != CRLFCRLF then r == Stopped(NoTerminator)
      else
        && r == Whole(|header| + n + 4) && src.Rest() == s[n + 4..]
        && out.file == old(out.file) + MemberOf(c, header + s[..n] + CRLFCRLF)
  {
    hide MemberOf;
    ghost var s := src.Rest();
    if n <= |s| { TrailerFollows(s, n); }
    var enc := new GzEncoder(c, out);
    enc.WriteAll(header);
    assert enc.content == header;
    var ok := CopyBlock(src, enc, n);
    var trailer := None;
    if ok { trailer := src.ReadExact(4); }
    if trailer.None? {
      enc.Drop();
      return Stopped(RanOut);
    }
    if trailer.value != CRLFCRLF {
      enc.Drop();
      return Stopped(NoTerminator);
    }
    enc.WriteAll(trailer.value);
    enc.Finish();
    return Whole(|header| + n + 4);
  }

  lemma BlockDecides(v: bytes, h: HeaderScan, n: nat)
    requires h.blank.Some? && DeclaredLength(h.lines) == Some(n)
    ensures if |h.rest| < n + 4 then ScanBlock(v, h) == RanOut
      else if h.rest[n..n + 4] != CRLFCRLF then ScanBlock(v, h) == NoTerminator
      else
        && ScanBlock(v, h).Complete? && ScanBlock(v, h).rest == h.rest[n + 4..]
        && Print(ScanBlock(v, h).rec) == v + (Flatten(h.lines) + h.blank.value) + h.rest[..n] + CRLFCRLF
        && |Print(ScanBlock(v, h).rec)| == |v + (Flatten(h.lines) + h.blank.value)| + n + 4
  {
    hide DeclaredLength;
    if n + 4 <= |h.rest| { Assoc(v + (Flatten(h.lines) + h.blank.value), h.rest[..n], CRLFCRLF); }
  }

  /** Copy the record whose version line `v` has just been read from the front of `s`. */
  method CopyRecord(c: Coder, src: Payload, out: Counting, v: bytes, ghost s: bytes) returns (r: Copied)
    requires src.Valid() && out.Valid()
    requires NextLine(s, src.end) == Got(v) && WARC_SLASH <= v && src.Rest() == s[|v|..]
    modifies src, out
    ensures src.Valid() && out.Valid() && old(out.file) <= out.file
    ensures var scan := ScanRecord(s, src.end);
      if scan.Complete? then
        && r == Whole(|Print(scan.rec)|) && src.Rest() == scan.rest
        && out.file == old(out.file) + MemberOf(c, Print(scan.rec))
      else r == Stopped(scan)
  {
    ScanAfterVersion(s, src.end, v);
    hide NextLine, ScanRecord, ScanBlock, ScanHeaders, DeclaredLength, Print, MemberOf;
    ghost var h := ScanHeaders(src.Rest(), src.end);
    var ok, lines, length := ReadHeader(src);
    if !ok { RanOutWithoutBlank(v, h); return Stopped(RanOut); }
    if length.None? { NoLengthFound(v, h); return Stopped(NoContentLength); }
    BlockDecides(v, h, length.value);
    r := CopyBody(c, src, out, v + lines, length.value);
  }

  lemma RanOutWithoutBlank(v: bytes, h: HeaderScan)
    requires h.blank.None?
    ensures ScanBlock(v, h) == RanOut
  {
  }

  lemma NoLengthFound(v: bytes, h: HeaderScan)
    requires h.blank.Some? && DeclaredLength(h.lines).None?
    ensures ScanBlock(v, h) == NoContentLength
  {
  }

  // ── the whole source ──

  lemma LineOrSeparator(s: bytes, end: End)
    ensures var r := NextLine(s, end);
      if Separator(s) > 0 then r.Got? && IsBlank(r.line) && |r.line| == Separator(s)
      else !(r.Got? && IsBlank(r.line))
  {
    IndexOfFound(s, LF);
    if Separator(s) > 0 { IndexOfIs(s, LF, Separator(s) - 1); }
  }

  lemma SkipOneSeparator(s: bytes)
    requires Separator(s) > 0
    ensures SkipBlank(s) == SkipBlank(s[Separator(s)..])
  {
  }

  lemma {:induction false} PrintsSnoc(done: seq<Piece>, p: Piece)
    ensures Prints(done + [p]) == Prints(done) + [Print(p.rec)]
  {
    hide Print;
    if done != [] {
      assert (done + [p])[1..] == done[1..] + [p];
      PrintsSnoc(done[1..], p);
    }
  }

  /** The file after `done`: one member per record. */
  function FileOf(c: Coder, done: seq<Piece>): bytes
  {
    Flatten(Members(c, Prints(done)))
  }

  lemma FileOneMore(c: Coder, done: seq<Piece>, p: Piece)
    ensures FileOf(c, done + [p]) == FileOf(c, done) + MemberOf(c, Print(p.rec))
    ensures |Flatten(Prints(done + [p]))| == |Flatten(Prints(done))| + |Print(p.rec)|
  {
    hide Print, MemberOf;
    PrintsSnoc(done, p);
    MembersSnoc(c, Prints(done), Print(p.rec));
    FlattenSnoc(Members(c, Prints(done)), MemberOf(c, Print(p.rec)));
    FlattenSnoc(Prints(done), Print(p.rec));
  }

  /** The plan so far: `done` is behind us, the plan of `s` is still to come. */
  ghost predicate PlanContinues(whole: Plan, done: seq<Piece>, tail: Plan)
  {
    whole == Plan(done + tail.pieces, tail.rest, tail.stop)
  }

  /** Pass over stray separators and copy the record after them, if there is one. */
  method NextRecord(c: Coder, src: Payload, out: Counting) returns (r: Copied)
    requires src.Valid() && out.Valid()
    modifies src, out
    ensures src.Valid() && out.Valid() && old(out.file) <= out.file
    ensures var scan := ScanRecord(SkipBlank(old(src.Rest())), src.end);
      if scan.Complete? then
        && r == Whole(|Print(scan.rec)|) && src.Rest() == scan.rest
        && out.file == old(out.file) + MemberOf(c, Print(scan.rec))
      else r == Stopped(scan)
    ensures r.Whole? ==> |src.Rest()| < |old(src.Rest())|
    ensures r == Stopped(Nothing) ==> out.file == old(out.file)
  {
    hide ScanRecord, NextLine, SkipBlank, Separator, IsBlank, Print, MemberOf;
    ghost var mark := src.Rest();
    while true
      invariant src.Valid() && out.Valid() && SkipBlank(mark) == SkipBlank(src.Rest()) && |src.Rest()| <= |mark|
      invariant out.file == old(out.file)
      decreases |src.data| - src.at
    {
      ghost var s := src.Rest();
      LineOrSeparator(s, src.end);
      var line := src.ReadUntilLf();
      if line.Got? && IsBlank(line.line) {
        SkipOneSeparator(s);
        continue;
      }
      NoSeparatorHere(s);
      FirstRead(s, src.end);
      if line.AtEnd? { return Stopped(Nothing); }
      if line.Lost? { return Stopped(RanOut); }
      if !(WARC_SLASH <= line.line) { return Stopped(NoVersionLine); }
      r := CopyRecord(c, src, out, line.line, s);
      return;
    }
  }

  /** `done` has been copied: as many records, as many bytes, and this file. */
  ghost predicate Written(c: Coder, done: seq<Piece>, records: nat, payloadBytes: nat, file: bytes)
  {
    records == |done| && payloadBytes == |Flatten(Prints(done))| && file == FileOf(c, done)
  }

  lemma WrittenNothing(c: Coder)
    ensures Written(c, [], 0, 0, [])
  {
  }

  lemma WrittenOneMore(c: Coder, done: seq<Piece>, records: nat, payloadBytes: nat, file: bytes, p: Piece)
    requires Written(c, done, records, payloadBytes, file)
    ensures Written(c, done + [p], records + 1, payloadBytes + |Print(p.rec)|, file + MemberOf(c, Print(p.rec)))
  {
    hide Print, MemberOf, Prints, FileOf, Flatten;
    FileOneMore(c, done, p);
  }

  /** What is reported when the plan ends with `done`. */
  lemma WrittenAll(c: Coder, whole: Plan, records: nat, payloadBytes: nat, file: bytes)
    requires Written(c, whole.pieces, records, payloadBytes, file) && !whole.stop.Aborted?
    ensures Answer(whole) == if records == 0 then NoRecords
      else Rewrote(Rewrite(records, payloadBytes, whole.stop.Salvaged?))
    ensures file == FileOf(c, whole.pieces)
  {
    hide Prints, FileOf, Flatten;
  }

  lemma RefusedIsAnswer(whole: Plan, why: Scan)
    requires whole.stop == Aborted(why)
    ensures Answer(whole) == Refused(why)
  {
  }

  /** The loop of `RewriteRecords`: copy until the source or the patience ends. */
  method CopyRecords(c: Coder, src: Payload, out: Counting, salvage: bool)
    returns (refused: Option<Scan>, rewrite: Rewrite, committed: nat)
    requires src.Valid() && src.at == 0 && out.Valid() && out.file == []
    modifies src, out
    ensures out.Valid() && committed <= |out.file|
    ensures var whole := PlanOf(src.data, src.end, salvage);
      if refused.Some? then whole.stop == Aborted(refused.value)
      else
        && !whole.stop.Aborted? && rewrite.salvaged == whole.stop.Salvaged?
        && Written(c, whole.pieces, rewrite.records, rewrite.payloadBytes, out.file[..committed])
        && (!rewrite.salvaged ==> committed == |out.file|)
  {
    hide PlanOf, PlanContinues, ScanRecord, SkipBlank, FileOf, Prints, Print, MemberOf, Written, Flatten;
    rewrite, committed := Rewrite(0, 0, false), 0;
    ghost var whole, done: seq<Piece> := PlanOf(src.data, src.end, salvage), [];
    PlanStarts(whole);
    RestAtStart(src);
    WrittenNothing(c);
    while true
      invariant src.Valid() && out.Valid()
      invariant PlanContinues(whole, done, PlanOf(src.Rest(), src.end, salvage))
      invariant Written(c, done, rewrite.records, rewrite.payloadBytes, out.file)
      invariant committed == |out.file| && !rewrite.salvaged
      decreases |src.Rest()|
    {
      ghost var s, kept := src.Rest(), out.file;
      PlanAt(s, src.end, salvage, whole, done);
      ghost var scan := ScanRecord(SkipBlank(s), src.end);
      var copied := NextRecord(c, src, out);
      FrontIs(kept, out.file);
      if copied.Stopped? {
        if copied.why.Nothing? { return None, rewrite, committed; }
        if !(copied.why.RanOut? && salvage && !src.end.Broken?) { return Some(copied.why), rewrite, committed; }
        rewrite := rewrite.(salvaged := true);
        return None, rewrite, committed;
      }
      ghost var p := Piece(s[..|s| - |SkipBlank(s)|], scan.rec);
      WrittenOneMore(c, done, rewrite.records, rewrite.payloadBytes, kept, p);
      done := done + [p];
      rewrite := rewrite.(records := rewrite.records + 1, payloadBytes := rewrite.payloadBytes + copied.size);
      committed := out.count;
    }
  }

  /** Rewrite the WARC in `src` as one gzip member per record.

      The outcome is that of the plan; on success the file is exactly one whole
      member per planned record, whatever a dropped encoder had flushed. */
  method RewriteRecords(c: Coder, src: Payload, out: Counting, salvage: bool) returns (r: Outcome)
    requires src.Valid() && src.at == 0 && out.Valid() && out.file == []
    modifies src, out
    ensures r == Answer(PlanOf(src.data, src.end, salvage))
    ensures r.Rewrote? ==> out.file == FileOf(c, PlanOf(src.data, src.end, salvage).pieces)
  {
    hide PlanOf, FileOf, Answer, Written;
    ghost var whole := PlanOf(src.data, src.end, salvage);
    var refused, rewrite, committed := CopyRecords(c, src, out, salvage);
    if refused.Some? {
      RefusedIsAnswer(whole, refused.value);
      return Refused(refused.value);
    }
    FrontIs(out.file[..committed], out.file);
    WrittenAll(c, whole, rewrite.records, rewrite.payloadBytes, out.file[..committed]);
    if rewrite.salvaged { out.SetLen(committed); }
    if rewrite.records == 0 { return NoRecords; }
    return Rewrote(rewrite);
  }

  lemma RestAtStart(src: Payload)
    requires src.Valid() && src.at == 0
    ensures src.Rest() == src.data
  {
  }

  lemma FrontIs(kept: bytes, file: bytes)
    requires kept <= file
    ensures file[..|kept|] == kept && (|kept| == |file| ==> kept == file)
  {
  }

  lemma PlanStarts(whole: Plan)
    ensures PlanContinues(whole, [], whole)
  {
  }

  lemma NoSeparatorHere(s: bytes)
    requires Separator(s) == 0
    ensures SkipBlank(s) == s
  {
  }

  /** How the first read of a record decides the scan, when it does. */
  lemma FirstRead(s: bytes, end: End)
    ensures var r := NextLine(s, end);
      && (r.AtEnd? ==> ScanRecord(s, end) == Nothing)
      && (r.Lost? ==> ScanRecord(s, end) == RanOut)
      && (r.Got? ==> ScanRecord(s, end) != Nothing)
      && (r.Got? && !(WARC_SLASH <= r.line) ==> ScanRecord(s, end) == NoVersionLine)
  {
    hide NextLine;
  }

  /** How the plan stops at something that is not a complete record. */
  function StopAt(scan: Scan, end: End, salvage: bool): Stop
  {
    if scan.Nothing? then Finished else if scan.RanOut? && salvage && !end.Broken? then Salvaged else Aborted(scan)
  }

  lemma PlanAt(mark: bytes, end: End, salvage: bool, whole: Plan, done: seq<Piece>)
    requires PlanContinues(whole, done, PlanOf(mark, end, salvage))
    ensures var t := SkipBlank(mark);
      var scan := ScanRecord(t, end);
      if scan.Complete? then
        PlanContinues(whole, done + [Piece(mark[..|mark| - |t|], scan.rec)], PlanOf(scan.rest, end, salvage))
      else
        whole.pieces == done && whole.stop == StopAt(scan, end, salvage)
  {
    hide ScanRecord, SkipBlank;
    var t := SkipBlank(mark);
    var scan := ScanRecord(t, end);
    if scan.Complete? {
      var tail := PlanOf(scan.rest, end, salvage);
      var p := Piece(mark[..|mark| - |t|], scan.rec);
      assert done + ([p] + tail.pieces) == done + [p] + tail.pieces;
    } else {
      assert done + [] == done;
    }
  }
}
