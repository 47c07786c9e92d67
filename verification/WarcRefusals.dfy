/** What the WARC parser refuses, and with which error: the record is laid out up to some
  point, and there it breaks off or goes wrong. */
module WarcRefusals {
  import opened Bytes
  import opened Text
  import Warc
  import opened WarcHeader
  import opened WarcReader
  import opened WarcReading

  // ── the line a record starts with ──

  /** The first line that is not skipped is not text, or no version line. */
  lemma RefusesVersion(s: bytes, at: nat, gap: seq<bytes>, l: bytes, rest: bytes)
    requires at <= |s| && s[at..] == Flatten(gap) + (l + rest) && Warc.IsLine(l)
    requires forall k | 0 <= k < |gap| :: SkippedLine(gap[k])
    requires ValidUtf8(l) ==> Trim(l) != [] && ParseVersion(Trim(l)) == None
    ensures ReadRecord(s, at) == Failure(if ValidUtf8(l) then InvalidVersion else Io)
  {
    hide ReadRecord, ParseVersion, Trim, ValidUtf8, SkippedLine, Warc.IsLine, Flatten;
    SkipsLines(s, at, gap, l + rest);
    FirstLineRefused(s, at + |Flatten(gap)|, l, rest);
  }

  lemma FirstLineRefused(s: bytes, at: nat, l: bytes, rest: bytes)
    requires at <= |s| && s[at..] == l + rest && Warc.IsLine(l)
    requires ValidUtf8(l) ==> Trim(l) != [] && ParseVersion(Trim(l)) == None
    ensures ReadRecord(s, at) == Failure(if ValidUtf8(l) then InvalidVersion else Io)
  {
    hide LineAt, ReadBody, ParseVersion, Trim, ValidUtf8, TextLine, Warc.IsLine;
    TextIfUtf8(l);
    LineOrNotText(s, at, l, rest);
  }

  lemma TextIfUtf8(l: bytes)
    requires Warc.IsLine(l)
    ensures TextLine(l) <==> ValidUtf8(l)
  {
  }

  /** Nothing but skipped lines: no record, and no error. */
  lemma NothingThere(s: bytes, at: nat, gap: seq<bytes>)
    requires at <= |s| && s[at..] == Flatten(gap) && forall k | 0 <= k < |gap| :: SkippedLine(gap[k])
    ensures ReadRecord(s, at) == NoRecord
  {
    hide ReadRecord, SkippedLine, Flatten;
    assert s[at..] == Flatten(gap) + [];
    SkipsLines(s, at, gap, []);
    NoRecordAtEnd(s);
  }

  // ── header lines ──

  ghost predicate FilledLines(lines: seq<bytes>)
  {
    forall k | 0 <= k < |lines| :: FilledLine(lines[k])
  }

  /** Header lines that are in order are read one by one. */
  lemma {:induction false} GoesOver(s: bytes, at: nat, acc: seq<Field>, before: nat, lines: seq<bytes>, t: bytes)
    requires at <= |s| && s[at..] == Flatten(lines) + t && FilledLines(lines)
    requires AddLines(acc, lines).Some? && before + |Flatten(lines)| <= MAX_HEADER_BYTES
    ensures at + |Flatten(lines)| <= |s| && s[at + |Flatten(lines)|..] == t
    ensures ReadFields(s, at, acc, before) ==
      ReadFields(s, at + |Flatten(lines)|, AddLines(acc, lines).value, before + |Flatten(lines)|)
    decreases |lines|
  {
    hide FilledLine, ReadFields, AddLine;
    if lines == [] {
      assert Flatten(lines) + t == t;
    } else {
      var l, more := lines[0], lines[1..];
      Assoc(l, Flatten(more), t);
      GoesOverOne(s, at, acc, before, l, Flatten(more) + t);
      GoesOver(s, at + |l|, AddLine(acc, l).value, before + |l|, more, t);
    }
  }

  lemma GoesOverOne(s: bytes, at: nat, acc: seq<Field>, before: nat, l: bytes, t: bytes)
    requires at <= |s| && s[at..] == l + t && FilledLine(l) && AddLine(acc, l).Some?
    requires before + |l| <= MAX_HEADER_BYTES
    ensures at + |l| <= |s| && s[at + |l|..] == t
    ensures ReadFields(s, at, acc, before) == ReadFields(s, at + |l|, AddLine(acc, l).value, before + |l|)
  {
    hide LineAt, TextLine, StripEol, AddLine;
    LineStands(s, at, l, t);
  }

  /** A header line that still fits, is not folded, and has no colon. */
  ghost predicate FieldMissing(l: bytes, used: nat)
  {
    FilledLine(l) && used + |l| <= MAX_HEADER_BYTES && !Folds(l) && COLON !in StripEol(l)
  }

  /** What is wrong behind the first header lines, `used` bytes into the header. */
  ghost predicate Wrong(e: Error, t: bytes, used: nat)
  {
    match e
    case TruncatedHeader => t == []
    case Io => exists l, rest :: t == l + rest && Warc.IsLine(l) && !ValidUtf8(l)
    case HeaderTooLarge => exists l, rest :: t == l + rest && TextLine(l) && used + |l| > MAX_HEADER_BYTES
    case MalformedHeader => exists l, rest :: t == l + rest && FieldMissing(l, used)
    case _ => false
  }

  lemma WrongLine(s: bytes, at: nat, acc: seq<Field>, used: nat, e: Error)
    requires at <= |s| && Wrong(e, s[at..], used)
    ensures ReadFields(s, at, acc, used) == FieldsError(e)
  {
    hide LineAt, ValidUtf8, StripEol, Trim, Lower, Warc.IsLine, Folds;
    if e == TruncatedHeader {
      assert LineAt(s, at).AtEnd?;
    } else if e == MalformedHeader {
      var l, rest :| s[at..] == l + rest && FieldMissing(l, used);
      LineOrNotText(s, at, l, rest);
      NoColon(acc, l);
    } else if e == Io {
      var l, rest :| s[at..] == l + rest && Warc.IsLine(l) && !ValidUtf8(l);
      LineOrNotText(s, at, l, rest);
    } else {
      var l, rest :| s[at..] == l + rest && TextLine(l) && used + |l| > MAX_HEADER_BYTES;
      LineOrNotText(s, at, l, rest);
    }
  }

  lemma NoColon(acc: seq<Field>, l: bytes)
    requires !Folds(l) && COLON !in StripEol(l)
    ensures AddLine(acc, l) == None
  {
    hide StripEol, Trim, Lower;
    IndexOfFound(StripEol(l), COLON);
  }

  /** A version line, header lines in order, and then the end of the input, a line that is
      not text, a line too many or a line without a colon. */
  lemma RefusesHeader(s: bytes, at: nat, version: bytes, lines: seq<bytes>, t: bytes, e: Error)
    requires at <= |s| && s[at..] == version + (Flatten(lines) + t)
    requires TextLine(version) && ParseVersion(Trim(version)).Some?
    requires FilledLines(lines) && AddLines([], lines).Some? && |Flatten(lines)| <= MAX_HEADER_BYTES
    requires Wrong(e, t, |Flatten(lines)|)
    ensures ReadRecord(s, at) == Failure(e)
  {
    hide ReadRecord, ReadFields, LineAt, ParseVersion, Trim, AddLines, Wrong, Flatten, FilledLines;
    LineStands(s, at, version, Flatten(lines) + t);
    hide TextLine;
    VersionIsNotBlank(version);
    VersionLineRead(s, at, version);
    GoesOver(s, at + |version|, [], 0, lines, t);
    WrongLine(s, at + |version| + |Flatten(lines)|, AddLines([], lines).value, |Flatten(lines)|, e);
  }

  // ── length, block and terminator ──

  lemma ReadsToBlank(s: bytes, at: nat, version: bytes, lines: seq<bytes>, blank: bytes, t: bytes)
    requires at <= |s| && s[at..] == version + (Flatten(lines) + (blank + t))
    requires TextLine(version) && ParseVersion(Trim(version)).Some? && BlankLine(blank)
    requires FilledLines(lines) && AddLines([], lines).Some? && |Flatten(lines)| + |blank| <= MAX_HEADER_BYTES
    ensures var a, head := at + |version|, |Flatten(lines)| + |blank|;
      && a + head <= |s| && s[a + head..] == t
      && ReadRecord(s, at) == ReadBlock(s, ParseVersion(Trim(version)).value, AddLines([], lines).value, a, head)
  {
    hide ReadRecord, ReadFields, ReadBlock, LineAt, ParseVersion, Trim, AddLines, Flatten, FilledLines, TextLine;
    LineOrNotText(s, at, version, Flatten(lines) + (blank + t)) by { TextIsLine(version); }
    VersionIsNotBlank(version);
    VersionLineRead(s, at, version);
    var a := at + |version|;
    GoesOver(s, a, [], 0, lines, blank + t);
    var b := a + |Flatten(lines)|;
    DropFront(s, b, blank, t);
    BlankEnds(s, b, AddLines([], lines).value, |Flatten(lines)|, blank, t);
  }

  lemma TextIsLine(l: bytes)
    requires TextLine(l)
    ensures Warc.IsLine(l)
  {
  }

  lemma BlankEnds(s: bytes, at: nat, acc: seq<Field>, used: nat, blank: bytes, t: bytes)
    requires at <= |s| && s[at..] == blank + t && BlankLine(blank) && used + |blank| <= MAX_HEADER_BYTES
    ensures ReadFields(s, at, acc, used) == Fields(acc, used + |blank|)
  {
    hide LineAt, TextLine, StripEol, AddLine;
    LineStands(s, at, blank, t);
  }

  /** The error for what stands behind the blank line, when the header says `length`. */
  function BlockError(length: LengthResult, t: bytes): Option<Error>
  {
    match length
    case MissingField => Some(MissingContentLength)
    case InvalidContentLength => Some(BadContentLength)
    case Length(n) =>
      if |t| < n then Some(UnexpectedEof)
      else if CRLFCRLF <= t[n..] then None
      else Some(MissingTerminator)
  }

  /** The outcome for `fields` with `t` behind the blank line: an error, or the block that
      stands there, of the length the fields say and with the terminator behind it. */
  ghost predicate Judged(o: Outcome, fields: seq<Field>, t: bytes)
  {
    match BlockError(LengthOf(fields), t)
    case Some(e) => o == Failure(e)
    case None =>
      && o.Record? && o.rec.fields == fields && LengthOf(fields) == Length(|o.rec.block|)
      && o.rec.block + CRLFCRLF <= t
  }

  /** Behind a header in order: refused when the last Content-Length is missing or no
      number, when the block is not all there, and when CRLFCRLF does not follow it;
      accepted otherwise. */
  lemma RefusesBody(s: bytes, at: nat, version: bytes, lines: seq<bytes>, blank: bytes, t: bytes)
    requires at <= |s| && s[at..] == version + (Flatten(lines) + (blank + t))
    requires TextLine(version) && ParseVersion(Trim(version)).Some? && BlankLine(blank)
    requires FilledLines(lines) && AddLines([], lines).Some? && |Flatten(lines)| + |blank| <= MAX_HEADER_BYTES
    ensures Judged(ReadRecord(s, at), AddLines([], lines).value, t)
  {
    hide ReadRecord, ReadBlock, ParseVersion, Trim, AddLines, Flatten, FilledLines, TextLine, BlankLine, LengthOf,
      Judged;
    ReadsToBlank(s, at, version, lines, blank, t);
    BlockRead(s, ParseVersion(Trim(version)).value, AddLines([], lines).value, at + |version|,
      |Flatten(lines)| + |blank|, t);
  }

  lemma BlockRead(s: bytes, version: Version, fields: seq<Field>, at: nat, head: nat, t: bytes)
    requires at + head <= |s| && s[at + head..] == t
    ensures Judged(ReadBlock(s, version, fields, at, head), fields, t)
  {
    hide LengthOf;
    if LengthOf(fields).Length? {
      var b, n := at + head, LengthOf(fields).n;
      if n <= |t| {
        assert s[b..b + n] == t[..n];
        if n + 4 <= |t| {
          assert s[b + n..b + n + 4] == t[n..n + 4] == t[n..][..4];
          if t[n..n + 4] == CRLFCRLF { assert t[..n] + CRLFCRLF == t[..n + 4]; }
        }
      }
    }
  }
}
