/** What the parser makes of records laid out by the grammar: it reads back
  exactly the fields and the block, and stops exactly where the record ends. */
module WarcReading {
  import opened Bytes
  import opened Text
  import opened TextFacts
  import Warc
  import opened WarcHeader
  import opened WarcReader

  // ── lines ──

  /** A line of text that ends in LF. */
  ghost predicate TextLine(l: bytes)
  {
    Warc.IsLine(l) && ValidUtf8(l)
  }

  lemma LineStands(s: bytes, at: nat, l: bytes, t: bytes)
    requires at <= |s| && s[at..] == l + t && TextLine(l)
    ensures LineAt(s, at) == Line(l) && at + |l| <= |s| && s[at + |l|..] == t
  {
    hide ValidUtf8;
    Warc.FirstLine(l, t);
    assert s[at + |l|..] == s[at..][|l|..];
  }

  // ── header lines ──

  /** A line with a field of its own: not blank, not folded, with a colon. */
  ghost predicate HeaderLine(l: bytes)
  {
    FilledLine(l) && !Folds(l) && IndexOf(StripEol(l), COLON) < |StripEol(l)|
  }

  /** A line of text that is not taken for the blank one. */
  ghost predicate FilledLine(l: bytes)
  {
    TextLine(l) && StripEol(l) != []
  }

  /** A continuation line: it starts with a space or a tab. */
  predicate Folds(l: bytes)
  {
    var t := StripEol(l);
    t != [] && (t[0] == SPACE || t[0] == TAB)
  }

  /** The field a header line stands for: lower-case trimmed name, trimmed value. */
  function FieldOf(l: bytes): Field
  {
    var t := StripEol(l);
    var colon := IndexOf(t, COLON);
    if colon < |t| then Field(Lower(Trim(t[..colon])), Trim(t[colon + 1..])) else Field([], [])
  }

  function FieldsOf(lines: seq<bytes>): seq<Field>
  {
    if lines == [] then [] else [FieldOf(lines[0])] + FieldsOf(lines[1..])
  }

  /** The fields after all of `lines`, continuation lines included; None when one
      of them is malformed. */
  function AddLines(fields: seq<Field>, lines: seq<bytes>): Option<seq<Field>>
    decreases |lines|
  {
    if lines == [] then Some(fields)
    else match AddLine(fields, lines[0])
      case None => None
      case Some(more) => AddLines(more, lines[1..])
  }

  lemma {:induction false} AddLinesSnoc(fields: seq<Field>, lines: seq<bytes>, l: bytes)
    ensures AddLines(fields, lines + [l]) ==
      match AddLines(fields, lines) case None => None case Some(more) => AddLine(more, l)
    decreases |lines|
  {
    hide AddLine;
    if lines == [] {
      assert (lines + [l])[1..] == [];
    } else {
      assert (lines + [l])[1..] == lines[1..] + [l];
      match AddLine(fields, lines[0])
      case None =>
      case Some(more) => AddLinesSnoc(more, lines[1..], l);
    }
  }

  lemma AddHeaderLine(fields: seq<Field>, l: bytes)
    requires HeaderLine(l)
    ensures AddLine(fields, l) == Some(fields + [FieldOf(l)])
  {
    hide TextLine, Trim, Lower, StripEol, IndexOf;
  }

  /** Lines with a field each. */
  lemma {:induction false} AddHeaderLines(fields: seq<Field>, lines: seq<bytes>)
    requires forall k | 0 <= k < |lines| :: HeaderLine(lines[k])
    ensures AddLines(fields, lines) == Some(fields + FieldsOf(lines))
    decreases |lines|
  {
    hide HeaderLine, AddLine, FieldOf;
    if lines == [] {
      assert fields + FieldsOf(lines) == fields;
    } else {
      AddHeaderLine(fields, lines[0]);
      AddHeaderLines(fields + [FieldOf(lines[0])], lines[1..]);
      assert fields + [FieldOf(lines[0])] + FieldsOf(lines[1..]) == fields + FieldsOf(lines);
    }
  }

  /** A continuation line goes to the value of the field before it, behind one space; in
      front of the first field it is dropped. */
  lemma AddFoldedLine(fields: seq<Field>, f: Field, w: byte, c: bytes)
    requires (w == SPACE || w == TAB) && (c == [] || (c[|c| - 1] != CR && c[|c| - 1] != LF))
    ensures AddLine(fields + [f], [w] + c + CRLF) == Some(fields + [Field(f.name, f.value + [SPACE] + Trim(c))])
    ensures AddLine([], [w] + c + CRLF) == Some([])
  {
    var t := [w] + c;
    StripEolOfLine(t, CRLF);
    TrimIgnoresLeadingWhite(w, c);
    hide StripEol, Trim;
    assert (fields + [f])[..|fields|] == fields;
  }

  lemma TrimIgnoresLeadingWhite(w: byte, c: bytes)
    requires White1(w)
    ensures Trim([w] + c) == Trim(c)
  {
    assert ([w] + c)[1..] == c;
  }

  /** A line is malformed exactly when it neither is folded nor has a colon. */
  lemma AddLineIs(fields: seq<Field>, l: bytes)
    requires FilledLine(l)
    ensures AddLine(fields, l).Some? <==> Folds(l) || HeaderLine(l)
  {
    hide TextLine, Trim, Lower, StripEol, IndexOf;
    IndexInside(StripEol(l));
  }

  lemma IndexInside(t: bytes)
    ensures IndexOf(t, COLON) <= |t|
  {
  }

  lemma {:induction false} AddLinesIs(fields: seq<Field>, lines: seq<bytes>)
    requires forall k | 0 <= k < |lines| :: FilledLine(lines[k])
    ensures AddLines(fields, lines).Some? <==> forall k | 0 <= k < |lines| :: Folds(lines[k]) || HeaderLine(lines[k])
    decreases |lines|
  {
    hide FilledLine, HeaderLine, Folds, AddLine;
    if lines != [] {
      AddLineIs(fields, lines[0]);
      match AddLine(fields, lines[0])
      case None =>
      case Some(more) =>
        AddLinesIs(more, lines[1..]);
        assert forall k | 0 <= k < |lines[1..]| :: lines[1..][k] == lines[k + 1];
        assert forall k | 0 < k < |lines| :: lines[k] == lines[1..][k - 1];
    }
  }

  /** The blank line that ends a header block. */
  ghost predicate BlankLine(l: bytes)
  {
    TextLine(l) && StripEol(l) == []
  }

  /** Reading from `at` uses exactly `used` bytes, and gives `fields` if any. */
  ghost predicate ReadsFields(s: bytes, at: nat, acc: seq<Field>, before: nat, fields: Option<seq<Field>>, used: nat)
    requires at <= |s|
  {
    var r := ReadFields(s, at, acc, before);
    if r.Fields? && r.used == used then fields == Some(r.fields) else fields == None
  }

  /** What the fields are when `lines` are read to their end, if they are. */
  ghost function FieldsAfter(acc: seq<Field>, before: nat, lines: seq<bytes>, blank: bytes): Option<seq<Field>>
  {
    if (forall k | 0 <= k < |lines| :: FilledLine(lines[k])) && before + |Flatten(lines)| + |blank| <= MAX_HEADER_BYTES
    then AddLines(acc, lines) else None
  }

  lemma ReadsBlank(s: bytes, at: nat, acc: seq<Field>, before: nat, blank: bytes, t: bytes)
    requires at <= |s| && s[at..] == blank + t && BlankLine(blank)
    ensures var fields := if before + |blank| <= MAX_HEADER_BYTES then Some(acc) else None;
      ReadsFields(s, at, acc, before, fields, before + |blank|)
  {
    hide LineAt, TextLine, StripEol, AddLine;
    LineStands(s, at, blank, t);
  }

  lemma LineOrNotText(s: bytes, at: nat, l: bytes, t: bytes)
    requires at <= |s| && s[at..] == l + t && Warc.IsLine(l)
    ensures LineAt(s, at) == (if TextLine(l) then Line(l) else NotText) && at + |l| <= |s| && s[at + |l|..] == t
  {
    hide ValidUtf8;
    Warc.FirstLine(l, t);
    assert s[at + |l|..] == s[at..][|l|..];
  }

  /** One more line in front: reading goes on behind it or does not get to the end. */
  lemma ReadsOneMore(s: bytes, at: nat, acc: seq<Field>, before: nat, l: bytes, t: bytes, fields: Option<seq<Field>>,
    used: nat)
    requires at <= |s| && s[at..] == l + t && Warc.IsLine(l) && used > before + |l|
    requires at + |l| <= |s|
    requires FilledLine(l) && AddLine(acc, l).Some? ==>
      ReadsFields(s, at + |l|, AddLine(acc, l).value, before + |l|, fields, used)
    ensures ReadsFields(s, at, acc, before,
      if FilledLine(l) && before + |l| <= MAX_HEADER_BYTES && AddLine(acc, l).Some? then fields else None, used)
  {
    hide LineAt, TextLine, StripEol, AddLine, Warc.IsLine;
    LineOrNotText(s, at, l, t);
  }

  /** A header block is read to its end exactly when its lines are text, none of them
      is taken for the blank one, none is malformed, and it is not too long. */
  lemma {:induction false} ReadsHeader(s: bytes, at: nat, acc: seq<Field>, before: nat,
                                      lines: seq<bytes>, blank: bytes, t: bytes)
    requires at <= |s| && s[at..] == Flatten(lines) + (blank + t)
    requires (forall k | 0 <= k < |lines| :: Warc.IsLine(lines[k])) && BlankLine(blank)
    ensures ReadsFields(s, at, acc, before, FieldsAfter(acc, before, lines, blank), before + |Flatten(lines)| + |blank|)
    decreases |lines|
  {
    hide LineAt, FilledLine, BlankLine, ReadsFields, AddLine, Warc.IsLine, FieldsAfter;
    var used := before + |Flatten(lines)| + |blank|;
    BlankIsNotEmpty(blank);
    if lines == [] {
      assert Flatten(lines) + (blank + t) == blank + t;
      ReadsBlank(s, at, acc, before, blank, t);
      NothingRead(acc, before, blank);
    } else {
      var l, more := lines[0], lines[1..];
      var u := Flatten(more) + (blank + t);
      Assoc(l, Flatten(more), blank + t);
      DropFront(s, at, l, u);
      if FilledLine(l) && AddLine(acc, l).Some? {
        ReadsHeader(s, at + |l|, AddLine(acc, l).value, before + |l|, more, blank, t);
        ReadsOneMore(s, at, acc, before, l, u, FieldsAfter(AddLine(acc, l).value, before + |l|, more, blank), used);
      } else {
        ReadsOneMore(s, at, acc, before, l, u, None, used);
      }
      OneLineRead(acc, before, lines, blank);
    }
  }

  lemma BlankIsNotEmpty(blank: bytes)
    requires BlankLine(blank)
    ensures blank != []
  {
  }

  lemma NothingRead(acc: seq<Field>, before: nat, blank: bytes)
    ensures FieldsAfter(acc, before, [], blank) == if before + |blank| <= MAX_HEADER_BYTES then Some(acc) else None
  {
  }

  lemma OneLineRead(acc: seq<Field>, before: nat, lines: seq<bytes>, blank: bytes)
    requires lines != []
    ensures var l, more := lines[0], lines[1..];
      FieldsAfter(acc, before, lines, blank) ==
        if FilledLine(l) && before + |l| <= MAX_HEADER_BYTES && AddLine(acc, l).Some?
        then FieldsAfter(AddLine(acc, l).value, before + |l|, more, blank) else None
  {
    hide FilledLine, AddLine;
    assert forall k | 0 <= k < |lines[1..]| :: lines[1..][k] == lines[k + 1];
    assert forall k | 0 < k < |lines| :: lines[k] == lines[1..][k - 1];
  }

  lemma DropFront(s: bytes, at: nat, x: bytes, t: bytes)
    requires at <= |s| && s[at..] == x + t
    ensures at + |x| <= |s| && s[at + |x|..] == t
  {
    assert s[at + |x|..] == s[at..][|x|..];
  }

  // ── records ──

  /** When the parser accepts a record of the grammar: see `ReadsRecordExactly`. */
  ghost predicate Readable(r: Warc.Record)
  {
    && TextLine(r.version) && ParseVersion(Trim(r.version)).Some?
    && (forall k | 0 <= k < |r.headers| :: FilledLine(r.headers[k])) && AddLines([], r.headers).Some?
    && BlankLine(r.blank)
    && |Flatten(r.headers)| + |r.blank| <= MAX_HEADER_BYTES
    && LengthOf(AddLines([], r.headers).value) == Length(|r.block|)
  }

  /** What the parser reports for it when it stands at `at`. */
  ghost function ReadingOf(r: Warc.Record, at: nat): Parsed
    requires Readable(r)
  {
    Parsed(ParseVersion(Trim(r.version)).value, AddLines([], r.headers).value, r.block, at + |r.version|,
      at + |Warc.Print(r)|)
  }

  lemma ReadsBlock(s: bytes, version: Version, fields: seq<Field>, at: nat, head: nat, block: bytes, rest: bytes)
    requires at + head <= |s| && s[at + head..] == block + (CRLFCRLF + rest)
    requires LengthOf(fields) == Length(|block|)
    ensures ReadBlock(s, version, fields, at, head) ==
      Record(Parsed(version, fields, block, at, at + head + |block| + 4))
  {
    hide LengthOf;
    var b, n := at + head, |block|;
    assert s[b..b + n] == s[b..][..n] == block;
    assert s[b + n..b + n + 4] == s[b..][n..n + 4] == CRLFCRLF;
  }

  /** The block read is `block`, read to its terminator, only if that is its length. */
  lemma ReadsOnlyBlock(s: bytes, version: Version, fields: seq<Field>, at: nat, head: nat, block: bytes)
    requires at + head <= |s|
    requires var o := ReadBlock(s, version, fields, at, head); o.Record? && o.rec.block == block
    ensures LengthOf(fields) == Length(|block|) &&
      ReadBlock(s, version, fields, at, head).rec.used == at + head + |block| + 4
  {
    hide LengthOf;
  }

  /** The parser takes this block and everything up to `used`. */
  ghost predicate Takes(o: Outcome, block: bytes, used: nat)
  {
    o.Record? && o.rec.block == block && o.rec.used == used
  }

  /** What is left to ask once the version line has been read. */
  ghost predicate ReadableBody(r: Warc.Record)
  {
    var fields := FieldsAfter([], 0, r.headers, r.blank);
    fields.Some? && LengthOf(fields.value) == Length(|r.block|)
  }

  lemma ReadsBody(s: bytes, version: Version, at: nat, r: Warc.Record, rest: bytes)
    requires (forall k | 0 <= k < |r.headers| :: Warc.IsLine(r.headers[k])) && BlankLine(r.blank) && at <= |s|
    requires s[at..] == Flatten(r.headers) + (r.blank + (r.block + (CRLFCRLF + rest)))
    ensures var used := at + |Flatten(r.headers)| + |r.blank| + |r.block| + 4;
      var fields := FieldsAfter([], 0, r.headers, r.blank);
      && (Takes(ReadBody(s, version, at), r.block, used) <==> ReadableBody(r))
      && (ReadableBody(r) ==>
            ReadBody(s, version, at) == Record(Parsed(version, fields.value, r.block, at, used)))
  {
    hide ReadFields, ReadBlock, LengthOf, BlankLine, FieldsAfter, Flatten, Warc.IsLine;
    var t := r.block + (CRLFCRLF + rest);
    var head := |Flatten(r.headers)| + |r.blank|;
    ReadsHeader(s, at, [], 0, r.headers, r.blank, t);
    DropFront(s, at, Flatten(r.headers), r.blank + t);
    DropFront(s, at + |Flatten(r.headers)|, r.blank, t);
    if ReadableBody(r) {
      ReadsBlock(s, version, FieldsAfter([], 0, r.headers, r.blank).value, at, head, r.block, rest);
    }
    var f := ReadFields(s, at, [], 0);
    var o := if f.Fields? then ReadBlock(s, version, f.fields, at, f.used) else NoRecord;
    if o.Record? && o.rec.block == r.block {
      ReadsOnlyBlock(s, version, f.fields, at, f.used, r.block);
    }
  }

  lemma VersionLineRead(s: bytes, at: nat, l: bytes)
    requires at <= |s| && Trim(l) != [] && (LineAt(s, at) == Line(l) || LineAt(s, at) == NotText)
    ensures ReadRecord(s, at) ==
      if LineAt(s, at) == NotText then Failure(Io)
      else match ParseVersion(Trim(l)) case None => Failure(InvalidVersion) case Some(v) => ReadBody(s, v, at + |l|)
  {
    hide LineAt, ReadBody, ParseVersion, Trim;
  }

  /** A record comes apart into its lines, wherever it stands. */
  lemma RecordStands(s: bytes, at: nat, r: Warc.Record, rest: bytes)
    requires at <= |s| && s[at..] == Warc.Print(r) + rest && Warc.IsLine(r.version)
    ensures LineAt(s, at) == (if TextLine(r.version) then Line(r.version) else NotText) && at + |r.version| <= |s|
    ensures s[at + |r.version|..] == Flatten(r.headers) + (r.blank + (r.block + (CRLFCRLF + rest)))
  {
    hide LineAt, TextLine, Warc.Print, Warc.IsLine;
    Warc.PrintParts(r, rest);
    LineOrNotText(s, at, r.version, Flatten(r.headers) + (r.blank + (r.block + (CRLFCRLF + rest))));
  }

  /** A record of lines: what the parser makes of it is decided by its parts. */
  ghost predicate Lines(r: Warc.Record)
  {
    Warc.IsLine(r.version) && Trim(r.version) != [] &&
      (forall k | 0 <= k < |r.headers| :: Warc.IsLine(r.headers[k])) && BlankLine(r.blank)
  }

  lemma ReadableIs(r: Warc.Record)
    requires Lines(r)
    ensures Readable(r) <==> TextLine(r.version) && ParseVersion(Trim(r.version)).Some? && ReadableBody(r)
    ensures Readable(r) ==> FieldsAfter([], 0, r.headers, r.blank) == AddLines([], r.headers)
  {
    hide TextLine, ParseVersion, Trim, FilledLine, BlankLine, LengthOf, AddLines, Flatten, Warc.IsLine;
  }

  /** The parser takes exactly this record, whatever follows it, if and only if it is
      readable. */
  lemma ReadsRecordExactly(s: bytes, at: nat, r: Warc.Record, rest: bytes)
    requires Lines(r) && at <= |s| && s[at..] == Warc.Print(r) + rest
    ensures Takes(ReadRecord(s, at), r.block, at + |Warc.Print(r)|) <==> Readable(r)
    ensures Readable(r) ==> ReadRecord(s, at) == Record(ReadingOf(r, at))
  {
    hide LineAt, ReadBody, ReadRecord, FilledLine, BlankLine, TextLine, ParseVersion, Trim, AddLines, FieldsAfter,
      LengthOf, Warc.Print, Warc.IsLine, Readable, ReadableBody;
    RecordStands(s, at, r, rest);
    VersionLineRead(s, at, r.version);
    ReadableIs(r);
    Warc.PrintParts(r, rest);
    if TextLine(r.version) && ParseVersion(Trim(r.version)).Some? {
      ReadsBody(s, ParseVersion(Trim(r.version)).value, at + |r.version|, r, rest);
      if Readable(r) { ReadingIs(r, at); }
    }
  }

  lemma ReadingIs(r: Warc.Record, at: nat)
    requires Readable(r)
    ensures ReadingOf(r, at) == Parsed(ParseVersion(Trim(r.version)).value, AddLines([], r.headers).value, r.block,
      at + |r.version|, at + |Warc.Print(r)|)
  {
  }

  /** The parser reads a readable record back, whatever follows it. */
  lemma ReadsRecord(s: bytes, at: nat, r: Warc.Record, rest: bytes)
    requires Readable(r) && at <= |s| && s[at..] == Warc.Print(r) + rest
    ensures ReadRecord(s, at) == Record(ReadingOf(r, at))
  {
    hide ReadRecord, ParseVersion, Trim, AddLines, LengthOf, Warc.Print, Warc.IsLine;
    VersionIsNotBlank(r.version);
    ReadsRecordExactly(s, at, r, rest);
  }

  lemma VersionIsNotBlank(l: bytes)
    requires ParseVersion(Trim(l)).Some?
    ensures Trim(l) != []
  {
    TrimTwice(l);
  }

  lemma DisplayIsPlain(v: Version)
    ensures forall i | 0 <= i < |Display(v)| :: LF != Display(v)[i] <= 0x7F
  {
    hide Decimal;
    DecimalDigits(v.major);
    DecimalDigits(v.minor);
  }

  lemma PlainLine(t: bytes, eol: bytes)
    requires (forall i | 0 <= i < |t| :: LF != t[i] <= 0x7F) && (eol == CRLF || eol == [LF])
    ensures TextLine(t + eol)
  {
    AsciiIsUtf8(t + eol);
    hide ValidUtf8;
    IndexOfIs(t + eol, LF, |t + eol| - 1);
  }

  lemma VersionLineIs(v: Version, eol: bytes)
    requires v.major <= U8_MAX && v.minor <= U8_MAX && (eol == CRLF || eol == [LF])
    ensures var l := Display(v) + eol;
      TextLine(l) && Trim(l) != [] && ParseVersion(Trim(l)) == Some(v)
  {
    assert forall i | 0 <= i < |eol| :: White1(eol[i]);
    VersionInvertsDisplay(v, eol);
    VersionInvertsDisplay(v, []);
    DisplayIsPlain(v);
    PlainLine(Display(v), eol);
    assert |Display(v)| >= |Warc.WARC_SLASH|;
    hide Trim, ParseVersion, Display, TextLine;
    assert Display(v) + [] == Display(v);
  }

  /** A record that starts with a printed version and goes on as the parser likes it is
      read with that version. */
  lemma VersionIsRead(s: bytes, at: nat, r: Warc.Record, rest: bytes, v: Version, eol: bytes)
    requires v.major <= U8_MAX && v.minor <= U8_MAX && (eol == CRLF || eol == [LF]) && r.version == Display(v) + eol
    requires (forall k | 0 <= k < |r.headers| :: Warc.IsLine(r.headers[k])) && BlankLine(r.blank) && ReadableBody(r)
    requires at <= |s| && s[at..] == Warc.Print(r) + rest
    ensures var o := ReadRecord(s, at);
      Takes(o, r.block, at + |Warc.Print(r)|) && o.rec.version == v
  {
    VersionLineIs(v, eol);
    hide Readable, ReadableBody, ReadRecord, TextLine, ParseVersion, Trim, BlankLine, Display, Warc.Print, Warc.IsLine;
    ReadableIs(r);
    ReadsRecordExactly(s, at, r, rest);
    ReadingIs(r, at);
  }

  // ── records with blank lines between them ──

  /** A line the parser skips between records. */
  ghost predicate SkippedLine(l: bytes)
  {
    TextLine(l) && Trim(l) == []
  }

  lemma {:induction false} SkipsLines(s: bytes, at: nat, gap: seq<bytes>, t: bytes)
    requires at <= |s| && s[at..] == Flatten(gap) + t
    requires forall k | 0 <= k < |gap| :: SkippedLine(gap[k])
    ensures at + |Flatten(gap)| <= |s| && s[at + |Flatten(gap)|..] == t
    ensures ReadRecord(s, at) == ReadRecord(s, at + |Flatten(gap)|)
    decreases |gap|
  {
    hide LineAt, ReadBody, ParseVersion, Trim, TextLine;
    if gap == [] {
      assert Flatten(gap) + t == t;
    } else {
      var l, more := gap[0], gap[1..];
      Assoc(l, Flatten(more), t);
      LineStands(s, at, l, Flatten(more) + t);
      SkipsLines(s, at + |l|, more, t);
    }
  }

  /** A record with the lines in front of it. */
  datatype Item = Item(gap: seq<bytes>, rec: Warc.Record)

  ghost predicate GoodItems(items: seq<Item>)
  {
    forall k | 0 <= k < |items| :: Readable(items[k].rec) && forall j | 0 <= j < |items[k].gap| ::
      SkippedLine(items[k].gap[j])
  }

  function TextOf(items: seq<Item>): bytes
  {
    if items == [] then [] else Flatten(items[0].gap) + (Warc.Print(items[0].rec) + TextOf(items[1..]))
  }

  /** The records reported for `items`, offsets included. */
  ghost function ReadingsOf(items: seq<Item>, at: nat): seq<Parsed>
    requires GoodItems(items)
  {
    if items == [] then []
    else
      var start := at + |Flatten(items[0].gap)|;
      [ReadingOf(items[0].rec, start)] + ReadingsOf(items[1..], start + |Warc.Print(items[0].rec)|)
  }

  /** Everything an iteration over `s` from `at` yields, and how it ends. */
  datatype Iteration = Iteration(records: seq<Parsed>, last: Outcome)

  function Iterate(s: bytes, at: nat): Iteration
    requires at <= |s|
    decreases |s| - at
  {
    var o := ReadRecord(s, at);
    if !o.Record? then Iteration([], o)
    else
      var tail := Iterate(s, o.rec.used);
      Iteration([o.rec] + tail.records, tail.last)
  }

  ghost predicate Yields(s: bytes, at: nat, records: seq<Parsed>)
    requires at <= |s|
  {
    Iterate(s, at) == Iteration(records, NoRecord)
  }

  lemma YieldsNothing(s: bytes, at: nat)
    requires at == |s|
    ensures Yields(s, at, [])
  {
    hide LineAt;
    assert ReadRecord(s, at) == NoRecord by { assert LineAt(s, at).AtEnd?; }
  }

  lemma YieldsOneMore(s: bytes, at: nat, start: nat, rec: Parsed, more: seq<Parsed>)
    requires at <= start < rec.used <= |s|
    requires ReadRecord(s, at) == ReadRecord(s, start) == Record(rec) && Yields(s, rec.used, more)
    ensures Yields(s, at, [rec] + more)
  {
    hide ReadRecord;
  }

  lemma {:induction false} YieldsEnd(s: bytes, at: nat, gap: seq<bytes>)
    requires at <= |s| && s[at..] == Flatten(gap) && forall k | 0 <= k < |gap| :: SkippedLine(gap[k])
    ensures Yields(s, at, [])
  {
    hide ReadRecord, SkippedLine, Yields;
    assert s[at..] == Flatten(gap) + [];
    SkipsLines(s, at, gap, []);
    YieldsNothing(s, |s|);
    SameIteration(s, at, |s|);
  }

  lemma SameIteration(s: bytes, a: nat, b: nat)
    requires a <= b == |s| && ReadRecord(s, a) == ReadRecord(s, b)
    requires Yields(s, b, [])
    ensures Yields(s, a, [])
  {
    hide ReadRecord;
  }

  /** Parser inverts printer: iterating over well-formed records with blank lines
      between and after them yields exactly their fields, blocks and offsets, in
      order, and then ends without an error. */
  lemma {:induction false} IterationInvertsPrinting(s: bytes, at: nat, items: seq<Item>, gap: seq<bytes>)
    requires GoodItems(items) && forall k | 0 <= k < |gap| :: SkippedLine(gap[k])
    requires at <= |s| && s[at..] == TextOf(items) + Flatten(gap)
    ensures Yields(s, at, ReadingsOf(items, at))
    decreases |items|
  {
    hide ReadRecord, SkippedLine, Yields, Readable, ReadingOf, Warc.Print, Flatten;
    if items == [] {
      assert TextOf(items) + Flatten(gap) == Flatten(gap);
      YieldsEnd(s, at, gap);
    } else {
      var i, more := items[0], items[1..];
      var rest := TextOf(more) + Flatten(gap);
      Assoc(Flatten(i.gap), Warc.Print(i.rec) + TextOf(more), Flatten(gap));
      Assoc(Warc.Print(i.rec), TextOf(more), Flatten(gap));
      ItemStands(s, at, i, rest);
      var start := at + |Flatten(i.gap)|;
      var next := start + |Warc.Print(i.rec)|;
      IterationInvertsPrinting(s, next, more, gap);
      YieldsOneMore(s, at, start, ReadingOf(i.rec, start), ReadingsOf(more, next));
    }
  }

  /** One item read: the lines in front are skipped, the record is reported, the rest comes next. */
  lemma ItemStands(s: bytes, at: nat, i: Item, rest: bytes)
    requires Readable(i.rec) && forall j | 0 <= j < |i.gap| :: SkippedLine(i.gap[j])
    requires at <= |s| && s[at..] == Flatten(i.gap) + (Warc.Print(i.rec) + rest)
    ensures var start := at + |Flatten(i.gap)|;
      var next := start + |Warc.Print(i.rec)|;
      && start < next <= |s| && s[next..] == rest
      && ReadingOf(i.rec, start).used == next
      && ReadRecord(s, at) == ReadRecord(s, start) == Record(ReadingOf(i.rec, start))
  {
    hide ReadRecord, SkippedLine, Readable, Warc.Print, Flatten;
    SkipsLines(s, at, i.gap, Warc.Print(i.rec) + rest);
    var start := at + |Flatten(i.gap)|;
    ReadsRecord(s, start, i.rec, rest);
    DropFront(s, start, Warc.Print(i.rec), rest);
    PrintNotEmpty(i.rec);
  }

  lemma PrintNotEmpty(r: Warc.Record)
    ensures Warc.Print(r) != []
  {
    Warc.PrintParts(r, []);
  }

  // ── exactly those files ──

  /** From `at` the iteration takes the records of `items`, each with its block and
      up to its end, and then is over without an error. */
  ghost predicate TakesAll(s: bytes, at: nat, items: seq<Item>)
    requires at <= |s|
    decreases |items|
  {
    var o := ReadRecord(s, at);
    if items == [] then o == NoRecord
    else
      && Takes(o, items[0].rec.block, at + |Flatten(items[0].gap)| + |Warc.Print(items[0].rec)|)
      && TakesAll(s, o.rec.used, items[1..])
  }

  ghost predicate LaidOut(items: seq<Item>)
  {
    forall k | 0 <= k < |items| :: Lines(items[k].rec) && forall j | 0 <= j < |items[k].gap| ::
      SkippedLine(items[k].gap[j])
  }

  lemma ItemTaken(s: bytes, at: nat, i: Item, rest: bytes)
    requires Lines(i.rec) && forall j | 0 <= j < |i.gap| :: SkippedLine(i.gap[j])
    requires at <= |s| && s[at..] == Flatten(i.gap) + (Warc.Print(i.rec) + rest)
    ensures var next := at + |Flatten(i.gap)| + |Warc.Print(i.rec)|;
      && next <= |s| && s[next..] == rest
      && (Takes(ReadRecord(s, at), i.rec.block, next) <==> Readable(i.rec))
  {
    hide ReadRecord, SkippedLine, Readable, Lines, Warc.Print, Flatten;
    SkipsLines(s, at, i.gap, Warc.Print(i.rec) + rest);
    var start := at + |Flatten(i.gap)|;
    ReadsRecordExactly(s, start, i.rec, rest);
    DropFront(s, start, Warc.Print(i.rec), rest);
  }

  /** A file of records is iterated over record by record if and only if each of them
      is readable. */
  lemma {:induction false} IterationExactly(s: bytes, at: nat, items: seq<Item>, gap: seq<bytes>)
    requires LaidOut(items) && forall k | 0 <= k < |gap| :: SkippedLine(gap[k])
    requires at <= |s| && s[at..] == TextOf(items) + Flatten(gap)
    ensures TakesAll(s, at, items) <==> forall k | 0 <= k < |items| :: Readable(items[k].rec)
    decreases |items|
  {
    hide ReadRecord, SkippedLine, Readable, Lines, Warc.Print, Flatten;
    if items == [] {
      assert TextOf(items) + Flatten(gap) == Flatten(gap) == Flatten(gap) + [];
      SkipsLines(s, at, gap, []);
      NoRecordAtEnd(s);
    } else {
      var i, more := items[0], items[1..];
      Assoc(Flatten(i.gap), Warc.Print(i.rec) + TextOf(more), Flatten(gap));
      Assoc(Warc.Print(i.rec), TextOf(more), Flatten(gap));
      ItemTaken(s, at, i, TextOf(more) + Flatten(gap));
      assert forall k | 0 <= k < |more| :: more[k] == items[k + 1];
      assert forall k | 0 < k < |items| :: items[k] == more[k - 1];
      IterationExactly(s, at + |Flatten(i.gap)| + |Warc.Print(i.rec)|, more, gap);
    }
  }

  lemma NoRecordAtEnd(s: bytes)
    ensures ReadRecord(s, |s|) == NoRecord
  {
    hide LineAt;
    assert LineAt(s, |s|).AtEnd?;
  }
}
