/** Both ends of the framing path put together: what the rewriter writes, the
  splitter and the parser read back record by record. */
module Framing {
  import opened Bytes
  import opened Codec
  import opened Gzip
  import opened MemberWalk
  import opened Text
  import opened TextFacts
  import Warc
  import WarcBuilder
  import WarcHeader
  import opened WarcReader
  import opened WarcReading
  import opened RewritePlan
  import GzSplitter
  import Rewriter

  // ── the two readings of Content-Length ──

  /** The name in front of the first colon. */
  function NameOf(l: bytes): bytes
  {
    l[..IndexOf(l, COLON)]
  }

  /** A line the parser takes for Content-Length. */
  predicate IsLength(l: bytes)
  {
    Lower(Trim(NameOf(l))) == Warc.CONTENT_LENGTH
  }

  /** What a header line says as a number. */
  function Stated(l: bytes): Option<nat>
  {
    var colon := IndexOf(l, COLON);
    if colon < |l| then ParseUnsigned(Trim(l[colon + 1..]), U64_MAX) else None
  }

  /** The last field of these lines is Content-Length: a continuation line belongs to it. */
  predicate OpenLength(lines: seq<bytes>)
  {
    if lines == [] then false
    else
      var n := |lines| - 1;
      if Folds(lines[n]) then OpenLength(lines[..n]) else IsLength(lines[n])
  }

  /** So far there is no text in the value of the last field. */
  predicate NoValueYet(lines: seq<bytes>)
  {
    if lines == [] then true
    else
      var l, before := lines[|lines| - 1], lines[..|lines| - 1];
      if Folds(l) then Trim(l) == [] && NoValueYet(before) else Trim(l[AfterColon(l)..]) == []
  }

  function AfterColon(l: bytes): (k: nat)
    ensures k <= |l|
  {
    var colon := IndexOf(l, COLON);
    if colon < |l| then colon + 1 else |l|
  }

  /** When the rewriter, which compares names untrimmed and knows no continuation
      lines, and the parser agree. A continuation line with text in it that belongs to
      Content-Length decides: what the parser then has, a number only if there was no
      text before, must be what the rewriter goes by. Otherwise the last line the parser
      takes for Content-Length decides: its name has no white space around it, or it
      says what the rewriter goes by anyway. */
  predicate Agreed(lines: seq<bytes>)
  {
    if lines == [] then true
    else
      var l, before := lines[|lines| - 1], lines[..|lines| - 1];
      if Folds(l) then
        if !OpenLength(before) || Trim(l) == [] then Agreed(before)
        else Warc.DeclaredLength(before) == if NoValueYet(before) then ParseUnsigned(Trim(l), U64_MAX) else None
      else if IsLength(l) then Trimmed(NameOf(l)) || Stated(l) == Warc.DeclaredLength(before)
      else Agreed(before)
  }

  /** Stripping the line end takes nothing before the colon. */
  lemma StripAfterColon(l: bytes, k: nat)
    requires k < |l| && l[k] == COLON
    ensures StripEol(l) == l[..k + 1] + StripEol(l[k + 1..])
  {
    assert l == l[..k + 1] + l[k + 1..];
    WarcBuilder.StripEolAfter(l[..k + 1], l[k + 1..]);
  }

  lemma ColonOfStripped(l: bytes)
    requires IndexOf(StripEol(l), COLON) < |StripEol(l)|
    ensures IndexOf(l, COLON) == IndexOf(StripEol(l), COLON) < |l| && l[IndexOf(l, COLON)] == COLON
  {
    var t := StripEol(l);
    StripEolIsPrefix(l);
    SplitAt(l, |t|);
    IndexOfInPrefix(t, l[|t|..], COLON);
    IndexOfFound(l, COLON);
  }

  lemma Parts(t: bytes, head: bytes, tail: bytes, k: nat)
    requires t == head + tail && |head| == k + 1
    ensures t[..k] == head[..k] && t[k + 1..] == tail
  {
  }

  /** The rewriter's view of one header line, split at its colon. */
  lemma LineParts(l: bytes)
    requires HeaderLine(l)
    ensures var t := StripEol(l);
      var colon := IndexOf(t, COLON);
      && IndexOf(l, COLON) == colon < |l| && l[..colon] == t[..colon] && colon < |t|
      && Trim(l[colon + 1..]) == Trim(t[colon + 1..])
  {
    hide Trim, TextLine, StripEol, IndexOf;
    ColonOfStripped(l);
    var k := IndexOf(l, COLON);
    StripAfterColon(l, k);
    Parts(StripEol(l), l[..k + 1], StripEol(l[k + 1..]), k);
    Parts(l, l[..k + 1], l[k + 1..], k);
    WarcBuilder.TrimOfStripped(l[k + 1..]);
  }

  lemma {:induction false} StripEolIsPrefix(s: bytes)
    ensures |StripEol(s)| <= |s| && StripEol(s) == s[..|StripEol(s)|]
    decreases |s|
  {
    if s != [] && (s[|s| - 1] == CR || s[|s| - 1] == LF) {
      StripEolIsPrefix(s[..|s| - 1]);
      assert s[..|s| - 1][..|StripEol(s)|] == s[..|StripEol(s)|];
    }
  }

  /** What the fields read so far say about the block length. */
  function LengthSeen(fields: seq<WarcHeader.Field>): Option<nat>
  {
    match WarcHeader.LengthOf(fields) case Length(n) => Some(n) case _ => None
  }

  /** The parser goes by the last line that is Content-Length once trimmed. */
  lemma SeenAfterLine(before: seq<WarcHeader.Field>, l: bytes)
    requires HeaderLine(l)
    ensures LengthSeen(before + [FieldOf(l)]) == if IsLength(l) then Stated(l) else LengthSeen(before)
  {
    hide HeaderLine, StripEol, Trimmed, ParseUnsigned, Lower, Trim, LengthSeen;
    LineParts(l);
    var t := StripEol(l);
    var name, value := t[..IndexOf(t, COLON)], t[IndexOf(t, COLON) + 1..];
    TrimTwice(value);
    LengthSeenSnoc(before, Lower(Trim(name)), Trim(value));
  }

  /** The rewriter goes by it only when it need not be trimmed. */
  lemma DeclaredAfterLine(before: Option<nat>, l: bytes)
    requires HeaderLine(l)
    ensures Warc.LengthAfter(before, l) == if IsLength(l) && Trimmed(NameOf(l)) then Stated(l) else before
  {
    hide HeaderLine, StripEol, Trimmed, ParseUnsigned, Lower, Trim;
    LineParts(l);
    SameName(NameOf(l));
    LowerOfLength();
  }

  /** The last field of the parser, after a line with a field. */
  lemma ValueAfterLine(before: seq<WarcHeader.Field>, l: bytes)
    requires HeaderLine(l)
    ensures FieldOf(l).name == Warc.CONTENT_LENGTH <==> IsLength(l)
    ensures Trim(FieldOf(l).value) == [] <==> Trim(l[AfterColon(l)..]) == []
  {
    hide HeaderLine, StripEol, Lower, Trim, IndexOf;
    LineParts(l);
    var t := StripEol(l);
    TrimTwice(t[IndexOf(t, COLON) + 1..]);
  }

  // ── continuation lines ──

  /** What a continuation line does to the fields read so far. */
  function Continued(fields: seq<WarcHeader.Field>, l: bytes): seq<WarcHeader.Field>
  {
    if fields == [] then []
    else
      var last := fields[|fields| - 1];
      fields[..|fields| - 1] + [WarcHeader.Field(last.name, last.value + [SPACE] + Trim(l))]
  }

  lemma FoldContinues(fields: seq<WarcHeader.Field>, l: bytes)
    requires Folds(l)
    ensures AddLine(fields, l) == Some(Continued(fields, l))
  {
    hide StripEol, Trim;
    WarcBuilder.TrimOfStripped(l);
  }

  /** Text in a continuation line of Content-Length: the number is its own when there
      was no text before, and no number otherwise. */
  lemma SeenAfterFold(fields: seq<WarcHeader.Field>, l: bytes)
    requires fields != []
    ensures var last, more := fields[|fields| - 1], Continued(fields, l);
      && more != [] && more[|more| - 1].name == last.name
      && (Trim(more[|more| - 1].value) == [] <==> Trim(last.value) == [] && Trim(l) == [])
      && LengthSeen(more) ==
           if last.name != Warc.CONTENT_LENGTH || Trim(l) == [] then LengthSeen(fields)
           else if Trim(last.value) == [] then ParseUnsigned(Trim(l), U64_MAX) else None
  {
    hide Trim, ParseUnsigned, LengthSeen, Trimmed;
    var n := |fields| - 1;
    var last := fields[n];
    TrimIsTrimmed(l);
    JoinedValue(last.value, Trim(l), U64_MAX);
    LengthSeenSnoc(fields[..n], last.name, last.value + [SPACE] + Trim(l));
    LengthSeenSnoc(fields[..n], last.name, last.value);
    assert fields[..n] + [WarcHeader.Field(last.name, last.value)] == fields;
  }

  /** The rewriter does not go by continuation lines. */
  lemma DeclaredAfterFold(before: Option<nat>, l: bytes)
    requires Folds(l)
    ensures Warc.LengthAfter(before, l) == before
  {
    hide StripEol, Trim, ParseUnsigned;
    StripEolIsPrefix(l);
    var name := NameOf(l);
    if name != [] {
      assert name[0] == l[0] == StripEol(l)[0];
      assert Lower(name)[0] == LowerByte(name[0]);
      assert Lower(Warc.CONTENT_LENGTH)[0] == LowerByte(Warc.CONTENT_LENGTH[0]);
    }
  }

  lemma LowerOfLength()
    ensures Lower(Warc.CONTENT_LENGTH) == Warc.CONTENT_LENGTH
  {
  }

  /** A name that is Content-Length as it stands has no padding to lose. */
  lemma SameName(name: bytes)
    ensures Lower(name) == Warc.CONTENT_LENGTH <==> Lower(Trim(name)) == Warc.CONTENT_LENGTH && Trimmed(name)
  {
    if Lower(name) == Warc.CONTENT_LENGTH {
      assert |Lower(name)| == |name| == 14;
      assert LowerByte(name[0]) == Lower(name)[0] && LowerByte(name[13]) == Lower(name)[13];
      TrimOfTrimmed(name);
    } else if Trimmed(name) {
      TrimOfTrimmed(name);
    }
  }

  lemma LengthSeenSnoc(before: seq<WarcHeader.Field>, name: bytes, value: bytes)
    ensures LengthSeen(before + [WarcHeader.Field(name, value)]) ==
      if name == Warc.CONTENT_LENGTH then ParseUnsigned(Trim(value), U64_MAX) else LengthSeen(before)
  {
    hide ParseUnsigned, Trim;
    var f := WarcHeader.Field(name, value);
    assert (before + [f])[..|before|] == before;
  }

  /** Lines the parser takes, and the fields it has after them. */
  ghost predicate Gives(lines: seq<bytes>, fields: seq<WarcHeader.Field>)
  {
    (forall k | 0 <= k < |lines| :: FilledLine(lines[k])) && AddLines([], lines) == Some(fields)
  }

  /** The last of them, and those before it. */
  lemma GivesBefore(lines: seq<bytes>, fields: seq<WarcHeader.Field>) returns (before: seq<WarcHeader.Field>)
    requires Gives(lines, fields) && lines != []
    ensures var n := |lines| - 1;
      && Gives(lines[..n], before)
      && (if Folds(lines[n]) then fields == Continued(before, lines[n])
          else HeaderLine(lines[n]) && fields == before + [FieldOf(lines[n])])
  {
    hide FilledLine, Folds, HeaderLine, AddLine, FieldOf, Continued;
    var n := |lines| - 1;
    var l := lines[n];
    assert lines[..n] + [l] == lines;
    AddLinesSnoc([], lines[..n], l);
    before := AddLines([], lines[..n]).value;
    AddLineIs(before, l);
    if Folds(l) { FoldContinues(before, l); } else { AddHeaderLine(before, l); }
  }

  /** The state of the parser behind these lines. */
  ghost predicate Tracks(lines: seq<bytes>, fields: seq<WarcHeader.Field>)
  {
    && (OpenLength(lines) <==> fields != [] && fields[|fields| - 1].name == Warc.CONTENT_LENGTH)
    && (OpenLength(lines) ==> (NoValueYet(lines) <==> Trim(fields[|fields| - 1].value) == []))
    && (LengthSeen(fields) == Warc.DeclaredLength(lines) <==> Agreed(lines))
  }

  lemma TracksFold(lines: seq<bytes>, before: seq<WarcHeader.Field>)
    requires lines != [] && Folds(lines[|lines| - 1]) && Tracks(lines[..|lines| - 1], before)
    ensures Tracks(lines, Continued(before, lines[|lines| - 1]))
  {
    hide Folds, Trim, LengthSeen, ParseUnsigned, Warc.LengthAfter, IsLength, Stated, Trimmed, NameOf, AfterColon,
      Continued;
    var l := lines[|lines| - 1];
    DeclaredAfterFold(Warc.DeclaredLength(lines[..|lines| - 1]), l);
    if before == [] { NothingContinued(l); } else { SeenAfterFold(before, l); }
  }

  lemma NothingContinued(l: bytes)
    ensures Continued([], l) == []
  {
  }

  lemma TracksLine(lines: seq<bytes>, before: seq<WarcHeader.Field>)
    requires lines != [] && HeaderLine(lines[|lines| - 1]) && Tracks(lines[..|lines| - 1], before)
    ensures Tracks(lines, before + [FieldOf(lines[|lines| - 1])])
  {
    hide FilledLine, Folds, Trim, LengthSeen, FieldOf, ParseUnsigned, Warc.LengthAfter, IsLength, Stated, Trimmed,
      NameOf, AfterColon;
    var l := lines[|lines| - 1];
    SeenAfterLine(before, l);
    ValueAfterLine(before, l);
    DeclaredAfterLine(Warc.DeclaredLength(lines[..|lines| - 1]), l);
  }

  lemma {:induction false} LinesTrack(lines: seq<bytes>, fields: seq<WarcHeader.Field>)
    requires Gives(lines, fields)
    ensures Tracks(lines, fields)
    decreases |lines|
  {
    hide Gives, Tracks, Folds, HeaderLine, FieldOf, Continued;
    if lines == [] {
      NothingTracks(fields);
    } else {
      var before := GivesBefore(lines, fields);
      LinesTrack(lines[..|lines| - 1], before);
      if Folds(lines[|lines| - 1]) { TracksFold(lines, before); } else { TracksLine(lines, before); }
    }
  }

  lemma NothingTracks(fields: seq<WarcHeader.Field>)
    requires Gives([], fields)
    ensures Tracks([], fields)
  {
    NoFieldsNoLength();
  }

  /** For all header lines the parser takes, repeated Content-Length lines and
      continuation lines included: rewriter and parser settle on the same block length
      if and only if the lines are agreed on. */
  lemma SameLength(lines: seq<bytes>)
    requires (forall k | 0 <= k < |lines| :: FilledLine(lines[k])) && AddLines([], lines).Some?
    ensures LengthSeen(AddLines([], lines).value) == Warc.DeclaredLength(lines) <==> Agreed(lines)
  {
    hide FilledLine, AddLines, LengthSeen, Agreed, OpenLength, NoValueYet;
    LinesTrack(lines, AddLines([], lines).value);
  }

  lemma NoFieldsNoLength()
    ensures FieldsOf([]) == [] && LengthSeen([]) == None
  {
  }

  // ── records both sides agree on ──

  /** A record of the rewriter's grammar that the parser takes too: text, a version,
      each header line folded or with a colon and none taken for the blank one, a
      Content-Length both agree on, a header of at most 64 KiB. */
  ghost predicate PlainRecord(r: Warc.Record)
  {
    && TextLine(r.version) && WarcHeader.ParseVersion(Trim(r.version)).Some?
    && (forall k | 0 <= k < |r.headers| ::
      FilledLine(r.headers[k]) && (Folds(r.headers[k]) || HeaderLine(r.headers[k])))
    && Agreed(r.headers)
    && |Flatten(r.headers)| + |r.blank| <= MAX_HEADER_BYTES
  }

  lemma BlankIsBlank(l: bytes)
    requires Warc.IsBlank(l)
    ensures BlankLine(l)
  {
    AsciiIsUtf8(l);
    BlankIsLine(l);
    assert l == [] + l;
    StripEolOfLine([], l);
  }

  lemma PlainIsReadable(r: Warc.Record)
    requires Warc.WellFormed(r)
    ensures Readable(r) <==> PlainRecord(r)
  {
    hide HeaderLine, FilledLine, Folds, Agreed, TextLine, BlankLine, AddLines, Flatten, Warc.DeclaredLength,
      WarcHeader.LengthOf, WarcHeader.ParseVersion, Trim, Warc.IsLine, Warc.IsBlank;
    if forall k | 0 <= k < |r.headers| :: FilledLine(r.headers[k]) {
      AddLinesIs([], r.headers);
      if AddLines([], r.headers).Some? { SameLength(r.headers); }
    }
    BlankIsBlank(r.blank);
  }

  lemma {:induction false} StartsWithW(s: bytes)
    requires s != [] && s[0] == 0x57
    ensures Trim(s) != []
    decreases |s|
  {
    assert TrimStart(s) == s;
    TrimmedAway(s);
  }

  lemma WellFormedIsLines(r: Warc.Record)
    requires Warc.WellFormed(r)
    ensures Lines(r)
  {
    hide Trim, BlankLine, Warc.IsLine, Warc.IsBlank, Warc.DeclaredLength;
    assert r.version[0] == Warc.WARC_SLASH[0];
    StartsWithW(r.version);
    BlankIsBlank(r.blank);
  }

  /** Of the records of the rewriter's grammar the parser takes exactly the plain ones,
      whatever follows: the same block, up to the same end. */
  lemma PlainIsTaken(r: Warc.Record, rest: bytes)
    requires Warc.WellFormed(r)
    ensures Takes(ReadRecord(Warc.Print(r) + rest, 0), r.block, |Warc.Print(r)|) <==> PlainRecord(r)
    ensures PlainRecord(r) ==> Readable(r) && ReadRecord(Warc.Print(r) + rest, 0) == Record(ReadingOf(r, 0))
  {
    hide Warc.WellFormed, Lines, Readable, PlainRecord, ReadRecord, Warc.Print, Takes;
    var s := Warc.Print(r) + rest;
    assert s[0..] == s;
    WellFormedIsLines(r);
    PlainIsReadable(r);
    ReadsRecordExactly(s, 0, r, rest);
  }

  // ── why the name must not be padded ──

  /** Such a name and digit make a field that can be printed. */
  lemma ExampleIsPrintable(name: bytes, digit: byte)
    requires name == Warc.CONTENT_LENGTH || name == Warc.CONTENT_LENGTH + [SPACE]
    requires digit == 48 || digit == 49
    ensures WarcBuilder.PrintableField(WarcHeader.Field(name, [digit])) && COLON !in name
  {
    hide ValidUtf8;
    LengthIsText();
    AsciiIsUtf8([digit]);
  }

  lemma LengthIsText()
    ensures ValidUtf8(Warc.CONTENT_LENGTH) && ValidUtf8(Warc.CONTENT_LENGTH + [SPACE])
    ensures LF !in Warc.CONTENT_LENGTH && COLON !in Warc.CONTENT_LENGTH
  {
    hide ValidUtf8;
    AsciiIsUtf8(Warc.CONTENT_LENGTH);
    AsciiIsUtf8([SPACE]);
    ValidUtf8Concat(Warc.CONTENT_LENGTH, [SPACE]);
  }

  lemma NameOfPrinted(f: WarcHeader.Field)
    requires COLON !in f.name
    ensures NameOf(WarcBuilder.LineOf(f)) == f.name
  {
    assert WarcBuilder.LineOf(f) == f.name + WarcBuilder.COLON_SPACE + (f.value + CRLF);
    WarcBuilder.NameEndsAtColon(f.name, f.value + CRLF);
  }

  lemma DigitTrimmed(digit: byte)
    requires digit == 48 || digit == 49
    ensures Trimmed([digit]) && StripEol([digit]) == [digit]
  {
  }

  /** `name: digit` as a header line, for a name that trims to Content-Length. */
  lemma ExampleLine(name: bytes, digit: byte)
    requires name == Warc.CONTENT_LENGTH || name == Warc.CONTENT_LENGTH + [SPACE]
    requires digit == 48 || digit == 49
    ensures var l := WarcBuilder.LineOf(WarcHeader.Field(name, [digit]));
      && HeaderLine(l) && FieldOf(l) == WarcHeader.Field(Warc.CONTENT_LENGTH, [digit])
      && NameOf(l) == name
  {
    hide Trim, Trimmed, Lower, StripEol, HeaderLine, FieldOf, NameOf, WarcBuilder.PrintableField, WarcBuilder.LineOf;
    var f := WarcHeader.Field(name, [digit]);
    ExampleIsPrintable(name, digit);
    WarcBuilder.FieldReadsBack(f);
    NormalName(name);
    DigitTrimmed(digit);
    TrimOfTrimmed([digit]);
    NameOfPrinted(f);
  }

  lemma NormalName(name: bytes)
    requires name == Warc.CONTENT_LENGTH || name == Warc.CONTENT_LENGTH + [SPACE]
    ensures Lower(Trim(name)) == Warc.CONTENT_LENGTH
  {
    hide Trim;
    TrimOfTrimmed(Warc.CONTENT_LENGTH);
    TrimIgnoresEol(Warc.CONTENT_LENGTH, SPACE);
    LowerOfLength();
  }

  lemma DigitIsNumber(digit: byte)
    requires digit == 48 || digit == 49
    ensures ParseUnsigned(Trim([digit]), U64_MAX) == Some(digit - 48)
  {
    TrimOfTrimmed([digit]);
    assert Digits([digit]) == Some(digit - 48);
  }

  /** `content-length: 0` as both read it. */
  lemma ZeroLine() returns (l: bytes)
    ensures HeaderLine(l) && NameOf(l) == Warc.CONTENT_LENGTH &&
      FieldOf(l) == WarcHeader.Field(Warc.CONTENT_LENGTH, [48])
    ensures IsLength(l) && Trimmed(NameOf(l)) && Stated(l) == Some(0)
  {
    hide HeaderLine, FieldOf, WarcBuilder.LineOf, NameOf, Trimmed, Trim, Lower, ParseUnsigned, Stated, LengthSeen;
    l := WarcBuilder.LineOf(WarcHeader.Field(Warc.CONTENT_LENGTH, [48]));
    ExampleLine(Warc.CONTENT_LENGTH, 48);
    LengthTrimmed();
    NormalName(Warc.CONTENT_LENGTH);
    DigitIsNumber(48);
    SeenAfterLine([], l);
    LengthSeenSnoc([], Warc.CONTENT_LENGTH, [48]);
    assert [] + [FieldOf(l)] == [FieldOf(l)];
  }

  lemma OneLine(l: bytes)
    requires HeaderLine(l) && IsLength(l) && Trimmed(NameOf(l))
    ensures Warc.DeclaredLength([l]) == Stated(l)
  {
    hide HeaderLine, Trimmed, IsLength, NameOf, Stated, Warc.LengthAfter;
    DeclaredAfterLine(None, l);
    assert [l][..0] == [];
  }

  /** Two lines that are not agreed on: of `content-length: 0` followed by
      `content-length : 1` the rewriter goes by the first, the parser by the second. */
  lemma PaddedNameDisagrees()
    ensures exists lines: seq<bytes> ::
      && (forall k | 0 <= k < |lines| :: HeaderLine(lines[k])) && !Agreed(lines)
      && Warc.DeclaredLength(lines) == Some(0) && LengthSeen(FieldsOf(lines)) == Some(1)
  {
    hide HeaderLine, FilledLine, Warc.LengthAfter, FieldOf, FieldsOf, AddLines, WarcBuilder.LineOf, LengthSeen, NameOf,
      Trimmed, Trim, Lower, ParseUnsigned, Agreed, IsLength, Stated;
    var l1 := ZeroLine();
    var l2 := WarcBuilder.LineOf(WarcHeader.Field(Warc.CONTENT_LENGTH + [SPACE], [49]));
    var lines := [l1, l2];
    ExampleLine(Warc.CONTENT_LENGTH + [SPACE], 49);
    DigitIsNumber(49);
    LengthSeenSnoc([FieldOf(l1)], Warc.CONTENT_LENGTH, [49]);
    LengthTrimmed();
    OneLine(l1);
    DeclaredAfterLine(Some(0), l2);
    assert lines[..1] == [l1] && [l1] + [l2] == lines;
    TwoFields(l1, l2);
    WarcBuilder.HeaderLinesAdd(lines);
    SameLength(lines);
  }

  lemma TwoFields(l1: bytes, l2: bytes)
    ensures FieldsOf([l1, l2]) == [FieldOf(l1)] + [FieldOf(l2)]
  {
    hide FieldOf;
    OneField(l2);
    assert [l1, l2][1..] == [l2];
  }

  /** A space, a digit, a line end. */
  lemma FoldedOne(l: bytes)
    requires l == [SPACE, 49] + CRLF
    ensures FilledLine(l) && Folds(l) && Trim(l) == [49]
  {
    hide ValidUtf8, Trim;
    AsciiIsUtf8([SPACE, 49]);
    WarcBuilder.CrlfLine([SPACE, 49]);
    StripEolOfLine([SPACE, 49], CRLF);
    TrimIgnoresCrlf([SPACE, 49]);
    assert [SPACE, 49] == [SPACE] + [49];
    TrimIgnoresLeadingSpace([49]);
    DigitTrimmed(49);
    TrimOfTrimmed([49]);
  }

  /** And two more: behind `content-length: 0` a continuation line with a digit leaves
      the rewriter at 0, and the parser without a length. */
  lemma FoldedLengthDisagrees()
    ensures exists lines: seq<bytes> ::
      && (forall k | 0 <= k < |lines| :: FilledLine(lines[k])) && AddLines([], lines).Some? && !Agreed(lines)
      && Warc.DeclaredLength(lines) == Some(0) && LengthSeen(AddLines([], lines).value) == None
  {
    hide HeaderLine, FilledLine, Folds, Warc.LengthAfter, FieldOf, FieldsOf, AddLine, LengthSeen, NameOf, Trimmed,
      Trim, Lower, ParseUnsigned, Agreed, IsLength, Stated, Continued;
    var l1 := ZeroLine();
    var l2 := [SPACE, 49] + CRLF;
    var lines := [l1, l2];
    FoldedOne(l2);
    OneLine(l1);
    DeclaredAfterFold(Some(0), l2);
    assert lines[..1] == [l1];
    FoldContinues([FieldOf(l1)], l2);
    SeenAfterFold([FieldOf(l1)], l2);
    DigitTrimmed(48);
    TrimOfTrimmed([48]);
    WarcBuilder.HeaderLinesAdd([l1]);
    OneField(l1);
    AddLinesSnoc([], [l1], l2);
    assert [l1] + [l2] == lines;
    SameLength(lines);
  }

  lemma OneField(l: bytes)
    ensures FieldsOf([l]) == [FieldOf(l)]
  {
    hide FieldOf;
    assert [l][1..] == [];
  }

  lemma LengthTrimmed()
    ensures Trimmed(Warc.CONTENT_LENGTH) && !Trimmed(Warc.CONTENT_LENGTH + [SPACE])
  {
  }
}
