/** The record printer, and what the parser makes of everything it prints. */
module WarcBuilder {
  import opened Bytes
  import opened Text
  import opened TextFacts
  import Warc
  import opened WarcHeader
  import opened WarcReader
  import opened WarcReading

  /** `Content-Length` */
  const LENGTH_LABEL: bytes := [67, 111, 110, 116, 101, 110, 116, 45, 76, 101, 110, 103, 116, 104]
  const COLON_SPACE: bytes := [58, 32]

  /** What a caller asks the printer for: a version line, name/value pairs, a block. */
  datatype Order = Order(version: bytes, fields: seq<Field>, block: bytes)

  function LineOf(f: Field): bytes
  {
    f.name + COLON_SPACE + f.value + CRLF
  }

  function LinesOf(fields: seq<Field>): seq<bytes>
  {
    if fields == [] then [] else LinesOf(fields[..|fields| - 1]) + [LineOf(fields[|fields| - 1])]
  }

  function LengthField(n: nat): Field
  {
    Field(LENGTH_LABEL, Decimal(n))
  }

  /** The record of the grammar that is printed for an order. */
  function RecordFor(o: Order): Warc.Record
  {
    Warc.Record(o.version + CRLF, LinesOf(o.fields) + [LineOf(LengthField(|o.block|))], CRLF, o.block)
  }

  lemma LinesOfSnoc(fields: seq<Field>, f: Field)
    ensures LinesOf(fields + [f]) == LinesOf(fields) + [LineOf(f)]
  {
    assert (fields + [f])[..|fields|] == fields;
  }

  lemma PrintedSoFar(version: bytes, lines: seq<bytes>, f: Field)
    ensures version + Flatten(lines) + f.name + COLON_SPACE + f.value + CRLF == version + Flatten(lines + [LineOf(f)])
  {
    FlattenSnoc(lines, LineOf(f));
  }

  /** Append piece by piece: version line, fields, the length field, blank line, block, terminator. */
  method BuildWarcRecord(version: bytes, fields: seq<Field>, block: bytes) returns (out: bytes)
    ensures out == Warc.Print(RecordFor(Order(version, fields, block)))
  {
    hide LineOf, Flatten, LinesOf;
    ghost var first := version + CRLF;
    out := version;
    out := out + CRLF;
    assert LinesOf([]) == [] && Flatten([]) == [] by { NothingPrinted(); }
    for i := 0 to |fields|
      invariant out == first + Flatten(LinesOf(fields[..i]))
    {
      PrintedSoFar(first, LinesOf(fields[..i]), fields[i]);
      LinesOfSnoc(fields[..i], fields[i]);
      assert fields[..i] + [fields[i]] == fields[..i + 1];
      out := out + fields[i].name;
      out := out + COLON_SPACE;
      out := out + fields[i].value;
      out := out + CRLF;
    }
    assert fields[..|fields|] == fields;
    PrintedSoFar(first, LinesOf(fields), LengthField(|block|));
    out := out + LENGTH_LABEL;
    out := out + COLON_SPACE;
    out := out + Decimal(|block|);
    out := out + CRLF;
    ghost var lines := LinesOf(fields) + [LineOf(LengthField(|block|))];
    Assembled(first, Flatten(lines), CRLF, block, CRLFCRLF);
    out := out + CRLF;
    out := out + block;
    out := out + CRLFCRLF;
  }

  lemma NothingPrinted()
    ensures LinesOf([]) == [] && Flatten([]) == []
  {
  }

  lemma Assembled(a: bytes, b: bytes, c: bytes, d: bytes, e: bytes)
    ensures a + b + c + d + e == (a + (b + c)) + (d + e)
  {
  }

  // ── what can be printed and read back ──

  /** A name without line end or colon that does not look like a continuation
      line, a value without line end; both text. */
  ghost predicate PrintableField(f: Field)
  {
    && LF !in f.name && COLON !in f.name && ValidUtf8(f.name)
    && (f.name != [] ==> f.name[0] != SPACE && f.name[0] != TAB)
    && LF !in f.value && ValidUtf8(f.value)
  }

  ghost predicate Printable(o: Order)
  {
    && LF !in o.version && ValidUtf8(o.version) && ParseVersion(o.version).Some?
    && (forall k | 0 <= k < |o.fields| :: PrintableField(o.fields[k]))
    && |Flatten(RecordFor(o).headers)| + 2 <= MAX_HEADER_BYTES
    && |o.block| <= U64_MAX
  }

  /** The normal form of a field: lower-case trimmed name, trimmed value. */
  function Normal(f: Field): Field
  {
    Field(Lower(Trim(f.name)), Trim(f.value))
  }

  function NormalFields(fields: seq<Field>): (r: seq<Field>)
    ensures |r| == |fields|
  {
    seq(|fields|, i requires 0 <= i < |fields| => Normal(fields[i]))
  }

  /** What is read back for an order that was printed at offset `at`. */
  ghost function ReadBack(o: Order, at: nat): Parsed
    requires Printable(o)
  {
    Parsed(ParseVersion(o.version).value, NormalFields(o.fields) + [Field(Warc.CONTENT_LENGTH, Decimal(|o.block|))],
           o.block, at + |o.version| + 2, at + |Warc.Print(RecordFor(o))|)
  }

  /** So names come back in lower case, and white space around name and value is gone. */
  lemma NormalIs(name: bytes, value: bytes, a: bytes, b: bytes, c: bytes, d: bytes)
    requires Trimmed(name) && Trimmed(value) && AllWhite1(a) && AllWhite1(b) && AllWhite1(c) && AllWhite1(d)
    ensures Normal(Field(a + name + b, c + value + d)) == Field(Lower(name), value)
  {
    TrimOfPadded(a, name, b);
    TrimOfPadded(c, value, d);
  }

  // ── one line ──

  lemma EndsInLf(s: bytes)
    requires LF !in s
    ensures Warc.IsLine(s + [LF])
  {
    IndexOfAfter(s, [LF], LF);
  }

  lemma CrlfLine(s: bytes)
    requires LF !in s && ValidUtf8(s)
    ensures TextLine(s + CRLF)
  {
    EndsInLf(s + [CR]);
    assert s + [CR] + [LF] == s + CRLF;
    AsciiIsUtf8(CRLF);
    ValidUtf8Concat(s, CRLF);
  }

  lemma {:induction false} TrimOfStripped(s: bytes)
    ensures Trim(StripEol(s)) == Trim(s)
    decreases |s|
  {
    if s != [] && (s[|s| - 1] == CR || s[|s| - 1] == LF) {
      hide Trim;
      var n := |s| - 1;
      TrimOfStripped(s[..n]);
      assert s[..n] + [s[n]] == s;
      TrimIgnoresEol(s[..n], s[n]);
    }
  }

  lemma {:induction false} StripEolAfter(a: bytes, s: bytes)
    requires a != [] && a[|a| - 1] != CR && a[|a| - 1] != LF
    ensures StripEol(a + s) == a + StripEol(s)
    decreases |s|
  {
    if s == [] {
      assert a + s == a;
    } else {
      var n := |s| - 1;
      assert (a + s)[..|a + s| - 1] == a + s[..n];
      if s[n] == CR || s[n] == LF { StripEolAfter(a, s[..n]); }
    }
  }

  lemma StripLineEnd(s: bytes)
    ensures StripEol(s + CRLF) == StripEol(s)
  {
    assert s + CRLF == s + [CR] + [LF];
    StripEolOne(s + [CR], LF);
    StripEolOne(s, CR);
  }

  lemma NameEndsAtColon(name: bytes, t: bytes)
    requires COLON !in name
    ensures var s := name + COLON_SPACE + t;
      && IndexOf(s, COLON) == |name| < |s|
      && s[..|name|] == name && s[|name| + 1..] == [SPACE] + t
  {
    var s := name + COLON_SPACE + t;
    assert s == name + (COLON_SPACE + t);
    IndexOfAfter(name, COLON_SPACE + t, COLON);
  }

  lemma LineStripped(f: Field)
    ensures StripEol(LineOf(f)) == f.name + COLON_SPACE + StripEol(f.value)
  {
    StripLineEnd(f.name + COLON_SPACE + f.value);
    StripEolAfter(f.name + COLON_SPACE, f.value);
  }

  lemma LineIsText(f: Field)
    requires PrintableField(f)
    ensures TextLine(LineOf(f))
  {
    hide TextLine;
    AsciiIsUtf8(COLON_SPACE);
    ValidUtf8Concat(f.name, COLON_SPACE);
    ValidUtf8Concat(f.name + COLON_SPACE, f.value);
    CrlfLine(f.name + COLON_SPACE + f.value);
  }

  /** A printed field is one header line, and stands for the field in normal form. */
  lemma FieldReadsBack(f: Field)
    requires PrintableField(f)
    ensures HeaderLine(LineOf(f)) && FieldOf(LineOf(f)) == Normal(f)
  {
    hide TextLine, ValidUtf8, StripEol, Trim, Lower, LineOf;
    LineIsText(f);
    LineStripped(f);
    var v := StripEol(f.value);
    NameEndsAtColon(f.name, v);
    TrimIgnoresLeadingSpace(v);
    TrimOfStripped(f.value);
  }

  // ── a record ──

  lemma {:induction false} LinesReadBack(fields: seq<Field>)
    requires forall k | 0 <= k < |fields| :: PrintableField(fields[k])
    ensures forall k | 0 <= k < |LinesOf(fields)| :: HeaderLine(LinesOf(fields)[k])
    ensures FieldsOf(LinesOf(fields)) == NormalFields(fields)
    decreases |fields|
  {
    hide HeaderLine, FieldOf, LineOf, Normal, PrintableField;
    if fields != [] {
      var n := |fields| - 1;
      LinesReadBack(fields[..n]);
      FieldReadsBack(fields[n]);
      FieldsOfSnoc(LinesOf(fields[..n]), LineOf(fields[n]));
    }
  }

  lemma {:induction false} FieldsOfSnoc(lines: seq<bytes>, l: bytes)
    ensures FieldsOf(lines + [l]) == FieldsOf(lines) + [FieldOf(l)]
  {
    hide FieldOf;
    if lines != [] {
      assert (lines + [l])[1..] == lines[1..] + [l];
      FieldsOfSnoc(lines[1..], l);
    }
  }

  lemma LabelFacts()
    ensures LF !in LENGTH_LABEL && COLON !in LENGTH_LABEL && ValidUtf8(LENGTH_LABEL)
    ensures LENGTH_LABEL[0] != SPACE && LENGTH_LABEL[0] != TAB
    ensures Lower(Trim(LENGTH_LABEL)) == Warc.CONTENT_LENGTH
  {
    hide ValidUtf8, Trim;
    AsciiIsUtf8(LENGTH_LABEL);
    assert Lower(LENGTH_LABEL) == Warc.CONTENT_LENGTH;
    TrimOfTrimmed(LENGTH_LABEL);
  }

  lemma DecimalFacts(n: nat)
    ensures LF !in Decimal(n) && ValidUtf8(Decimal(n)) && Trim(Decimal(n)) == Decimal(n)
  {
    hide ValidUtf8, Trim, Decimal;
    DecimalDigits(n);
    ParseInvertsDecimal(n, U64_MAX);
    AsciiIsUtf8(Decimal(n));
    TrimOfTrimmed(Decimal(n));
  }

  lemma LengthFieldReadsBack(n: nat)
    ensures PrintableField(LengthField(n)) && Normal(LengthField(n)) == Field(Warc.CONTENT_LENGTH, Decimal(n))
  {
    hide ValidUtf8, Trim, Lower, Decimal;
    LabelFacts();
    DecimalFacts(n);
  }

  lemma LengthDecides(fields: seq<Field>, n: nat)
    requires n <= U64_MAX
    ensures LengthOf(fields + [Field(Warc.CONTENT_LENGTH, Decimal(n))]) == Length(n)
  {
    ParseInvertsDecimal(n, U64_MAX);
    TrimOfTrimmed(Decimal(n));
  }

  lemma VersionReadsBack(v: bytes)
    ensures ParseVersion(Trim(v + CRLF)) == ParseVersion(v)
  {
    TrimIgnoresCrlf(v);
    TrimTwice(v);
  }

  lemma CrlfIsBlank()
    ensures BlankLine(CRLF)
  {
    CrlfLine([]);
    assert [] + CRLF == CRLF;
    StripLineEnd([]);
  }

  lemma HeadersReadBack(o: Order)
    requires Printable(o)
    ensures var lines := RecordFor(o).headers;
      && (forall k | 0 <= k < |lines| :: HeaderLine(lines[k]))
      && FieldsOf(lines) == NormalFields(o.fields) + [Field(Warc.CONTENT_LENGTH, Decimal(|o.block|))]
      && LengthOf(FieldsOf(lines)) == Length(|o.block|)
  {
    hide HeaderLine, FieldOf, LineOf, Normal, PrintableField, LinesOf, FieldsOf, LengthOf, LengthField, ParseVersion,
      Flatten;
    var n := |o.block|;
    LinesReadBack(o.fields);
    LengthFieldReadsBack(n);
    FieldReadsBack(LengthField(n));
    FieldsOfSnoc(LinesOf(o.fields), LineOf(LengthField(n)));
    LengthDecides(NormalFields(o.fields), n);
  }

  /** Lines with a field each fold into nothing: one field for every line. */
  lemma HeaderLinesAdd(lines: seq<bytes>)
    requires forall k | 0 <= k < |lines| :: HeaderLine(lines[k])
    ensures (forall k | 0 <= k < |lines| :: FilledLine(lines[k])) && AddLines([], lines) == Some(FieldsOf(lines))
  {
    hide FilledLine, Folds, AddLines, FieldsOf, IndexOf, StripEol;
    AddHeaderLines([], lines);
    assert [] + FieldsOf(lines) == FieldsOf(lines);
  }

  /** Whatever the printer prints, the parser reads back: the fields in normal
      form with the length field last, the same block. */
  lemma PrintedReadsBack(o: Order, at: nat)
    requires Printable(o)
    ensures Readable(RecordFor(o)) && ReadingOf(RecordFor(o), at) == ReadBack(o, at)
  {
    hide HeaderLine, FilledLine, FieldsOf, AddLines, LengthOf, LinesOf, LineOf, ParseVersion, Flatten, TextLine,
      BlankLine, Trim, NormalFields, Warc.Print;
    HeadersReadBack(o);
    HeaderLinesAdd(RecordFor(o).headers);
    VersionReadsBack(o.version);
    CrlfLine(o.version);
    CrlfIsBlank();
  }

  // ── and the rewriter takes it ──

  lemma LineIsFilled(l: bytes)
    requires HeaderLine(l)
    ensures Warc.IsLine(l) && !Warc.IsBlank(l)
  {
    if l == CRLF { CrlfIsBlank(); }
    if l == [LF] { StripEolOne([], LF); }
  }

  lemma LengthDeclared(lines: seq<bytes>, n: nat)
    requires n <= U64_MAX
    ensures Warc.DeclaredLength(lines + [LineOf(LengthField(n))]) == Some(n)
  {
    var l := LineOf(LengthField(n));
    var all := lines + [l];
    assert all[..|all| - 1] == lines && all[|all| - 1] == l;
    LengthLine(Warc.DeclaredLength(lines), n);
    hide Warc.LengthAfter, LineOf;
  }

  lemma LengthLine(before: Option<nat>, n: nat)
    requires n <= U64_MAX
    ensures Warc.LengthAfter(before, LineOf(LengthField(n))) == Some(n)
  {
    hide Trim, Decimal, ParseUnsigned, Warc.LengthAfter;
    var t := Decimal(n) + CRLF;
    assert LineOf(LengthField(n)) == LENGTH_LABEL + COLON_SPACE + t;
    LengthBehindLabel(before, t);
    TrimIgnoresLeadingSpace(t);
    TrimIgnoresCrlf(Decimal(n));
    DecimalFacts(n);
    ParseInvertsDecimal(n, U64_MAX);
  }

  lemma LengthBehindLabel(before: Option<nat>, t: bytes)
    ensures Warc.LengthAfter(before, LENGTH_LABEL + COLON_SPACE + t) == ParseUnsigned(Trim([SPACE] + t), U64_MAX)
  {
    hide Trim, ParseUnsigned, IndexOf, EqIgnoreCase;
    LabelFacts();
    LabelMatches();
    NameEndsAtColon(LENGTH_LABEL, t);
  }

  lemma LabelMatches()
    ensures EqIgnoreCase(LENGTH_LABEL, Warc.CONTENT_LENGTH)
  {
    assert |LENGTH_LABEL| == |Warc.CONTENT_LENGTH|;
  }

  /** What is printed with a version line that starts with `WARC/` is a record of the
      grammar the rewriter goes by. */
  lemma PrintedIsWellFormed(o: Order)
    requires Printable(o) && Warc.WARC_SLASH <= o.version
    ensures Warc.WellFormed(RecordFor(o))
  {
    var r := RecordFor(o);
    hide HeaderLine, LineOf, LinesOf, LengthField, PrintableField, ParseVersion, Flatten, Warc.DeclaredLength;
    HeadersReadBack(o);
    forall k | 0 <= k < |r.headers| ensures Warc.IsLine(r.headers[k]) && !Warc.IsBlank(r.headers[k]) {
      LineIsFilled(r.headers[k]);
    }
    CrlfLine(o.version);
    LengthDeclared(LinesOf(o.fields), |o.block|);
  }

  // ── a file of records ──

  /** An order with the lines that stand in front of what is printed for it. */
  datatype Job = Job(gap: seq<bytes>, order: Order)

  function ItemsOf(jobs: seq<Job>): (items: seq<Item>)
    ensures |items| == |jobs|
  {
    if jobs == [] then [] else [Item(jobs[0].gap, RecordFor(jobs[0].order))] + ItemsOf(jobs[1..])
  }

  ghost predicate GoodJobs(jobs: seq<Job>)
  {
    forall k | 0 <= k < |jobs| :: Printable(jobs[k].order) && forall j | 0 <= j < |jobs[k].gap| ::
      SkippedLine(jobs[k].gap[j])
  }

  ghost function ReadBacks(jobs: seq<Job>, at: nat): seq<Parsed>
    requires GoodJobs(jobs)
  {
    if jobs == [] then []
    else
      var start := at + |Flatten(jobs[0].gap)|;
      [ReadBack(jobs[0].order, start)] + ReadBacks(jobs[1..], start + |Warc.Print(RecordFor(jobs[0].order))|)
  }

  lemma {:induction false} JobsReadBack(jobs: seq<Job>, at: nat)
    requires GoodJobs(jobs)
    ensures GoodItems(ItemsOf(jobs)) && ReadingsOf(ItemsOf(jobs), at) == ReadBacks(jobs, at)
    decreases |jobs|
  {
    hide Printable, SkippedLine, Readable, ReadingOf, ReadBack, RecordFor, Flatten, Warc.Print;
    if jobs != [] {
      var j := jobs[0];
      var start := at + |Flatten(j.gap)|;
      var items := ItemsOf(jobs);
      assert items[1..] == ItemsOf(jobs[1..]);
      PrintedReadsBack(j.order, start);
      JobsReadBack(jobs[1..], start + |Warc.Print(RecordFor(j.order))|);
      assert GoodItems(items);
    }
  }

  /** Parser inverts printer, for whole files: whatever is printed for a list of
      orders, with blank lines in front of, between and after the records, comes
      back as exactly those records in order, in normal form and with exact
      offsets, and then the iteration ends without an error. */
  lemma ParserInvertsPrinter(jobs: seq<Job>, gap: seq<bytes>)
    requires GoodJobs(jobs) && forall k | 0 <= k < |gap| :: SkippedLine(gap[k])
    ensures Yields(TextOf(ItemsOf(jobs)) + Flatten(gap), 0, ReadBacks(jobs, 0))
  {
    hide SkippedLine, GoodItems, GoodJobs, Yields, Flatten, TextOf, ReadingsOf, ReadBacks;
    JobsReadBack(jobs, 0);
    var s := TextOf(ItemsOf(jobs)) + Flatten(gap);
    assert s[0..] == s;
    IterationInvertsPrinting(s, 0, ItemsOf(jobs), gap);
  }
}
