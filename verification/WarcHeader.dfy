/** The parsed header of a WARC record: ordered fields plus an index by name. */
module WarcHeader {
  import opened Bytes
  import opened Text
  import opened TextFacts
  import opened Warc

  datatype Version = Version(major: nat, minor: nat)

  /** `WARC/` major `.` minor, white space allowed around both numbers. */
  function ParseVersion(line: bytes): Option<Version>
  {
    var t := Trim(line);
    if !(WARC_SLASH <= t) then None
    else
      var rest := t[5..];
      var dot := IndexOf(rest, DOT);
      if dot == |rest| then None
      else match (ParseUnsigned(Trim(rest[..dot]), U8_MAX), ParseUnsigned(Trim(rest[dot + 1..]), U8_MAX))
        case (Some(major), Some(minor)) => Some(Version(major, minor))
        case _ => None
  }

  /** A version as it is printed. */
  function Display(v: Version): bytes
  {
    WARC_SLASH + (Decimal(v.major) + ([DOT] + Decimal(v.minor)))
  }

  lemma DottedParts(a: bytes, b: bytes)
    requires a != [] && b != [] && AllDigits(a) && AllDigits(b)
    ensures var rest := a + ([DOT] + b);
      IndexOf(rest, DOT) == |a| < |rest| && rest[..|a|] == a && rest[|a| + 1..] == b
  {
    var rest := a + ([DOT] + b);
    IndexOfIs(rest, DOT, |a|);
  }

  lemma BehindSlash(rest: bytes)
    requires rest != [] && Digit(rest[|rest| - 1])
    ensures WARC_SLASH <= WARC_SLASH + rest && (WARC_SLASH + rest)[5..] == rest && Trimmed(WARC_SLASH + rest)
  {
    var t := WARC_SLASH + rest;
    assert t[0] == WARC_SLASH[0] && t[|t| - 1] == rest[|rest| - 1];
  }

  lemma DisplayReads(v: Version)
    ensures Trim(Display(v)) == Display(v)
    ensures ParseVersion(Display(v)) == if v.major <= U8_MAX && v.minor <= U8_MAX then Some(v) else None
  {
    var a, b := Decimal(v.major), Decimal(v.minor);
    DecimalDigits(v.major);
    DecimalDigits(v.minor);
    DottedParts(a, b);
    BehindSlash(a + ([DOT] + b));
    ParseInvertsDecimal(v.major, U8_MAX);
    ParseInvertsDecimal(v.minor, U8_MAX);
    TrimOfTrimmed(Display(v));
    TrimOfTrimmed(a);
    TrimOfTrimmed(b);
    hide Trim, Trimmed, ParseUnsigned, IndexOf, Decimal, AllDigits;
  }

  /** A printed version reads back, white space behind it or not, as far as both numbers
      fit eight bits; a version with a larger number is refused. */
  lemma {:induction false} VersionInvertsDisplay(v: Version, white: bytes)
    requires forall i | 0 <= i < |white| :: White1(white[i])
    ensures Trim(Display(v) + white) == Display(v)
    ensures ParseVersion(Display(v) + white) == if v.major <= U8_MAX && v.minor <= U8_MAX then Some(v) else None
    decreases |white|
  {
    hide Trim, ParseVersion, Display, White1;
    if white == [] {
      DisplayReads(v);
      assert Display(v) + white == Display(v);
    } else {
      var n := |white| - 1;
      VersionInvertsDisplay(v, white[..n]);
      assert Display(v) + white == Display(v) + white[..n] + [white[n]];
      TrimIgnoresEol(Display(v) + white[..n], white[n]);
      SameVersion(Display(v) + white, Display(v) + white[..n]);
    }
  }

  lemma SameVersion(a: bytes, b: bytes)
    requires Trim(a) == Trim(b)
    ensures ParseVersion(a) == ParseVersion(b)
  {
    hide Trim, ParseUnsigned;
  }

  /** A header field: lower-case name, value as written. */
  datatype Field = Field(name: bytes, value: bytes)

  datatype Header = Header(version: Version, fields: seq<Field>, index: map<bytes, nat>)

  /** Every name maps to the position of its last field, and nothing else is mapped. */
  ghost predicate Indexed(fields: seq<Field>, index: map<bytes, nat>)
  {
    && (forall i | 0 <= i < |fields| :: fields[i].name in index)
    && (forall name | name in index ::
          && index[name] < |fields| && fields[index[name]].name == name
          && forall i | index[name] < i < |fields| :: fields[i].name != name)
  }

  /** Build a header from a field list, order preserved. */
  method FromFields(version: Version, fields: seq<Field>) returns (h: Header)
    ensures h.version == version && h.fields == fields && Indexed(fields, h.index)
  {
    var index: map<bytes, nat> := map[];
    for i := 0 to |fields|
      invariant Indexed(fields[..i], index)
    {
      index := index[fields[i].name := i];
    }
    assert fields[..|fields|] == fields;
    return Header(version, fields, index);
  }

  /** Look a field up by name, in any case, through the index. */
  function Get(h: Header, name: bytes): Option<bytes>
    requires Indexed(h.fields, h.index)
  {
    var key := Lower(name);
    if key in h.index then Some(h.fields[h.index[key]].value) else None
  }

  /** The value of the last field called `name`. */
  function LastValue(fields: seq<Field>, name: bytes): Option<bytes>
  {
    if fields == [] then None
    else
      var last := fields[|fields| - 1];
      if last.name == name then Some(last.value) else LastValue(fields[..|fields| - 1], name)
  }

  lemma {:induction false} LastValueAt(fields: seq<Field>, name: bytes, k: nat)
    requires k < |fields| && fields[k].name == name && forall i | k < i < |fields| :: fields[i].name != name
    ensures LastValue(fields, name) == Some(fields[k].value)
    decreases |fields|
  {
    if k < |fields| - 1 { LastValueAt(fields[..|fields| - 1], name, k); }
  }

  lemma {:induction false} LastValueNone(fields: seq<Field>, name: bytes)
    requires forall i | 0 <= i < |fields| :: fields[i].name != name
    ensures LastValue(fields, name) == None
    decreases |fields|
  {
    if fields != [] { LastValueNone(fields[..|fields| - 1], name); }
  }

  /** Looking a name up gives the last field of that name in document order. */
  lemma GetIsLastValue(h: Header, name: bytes)
    requires Indexed(h.fields, h.index)
    ensures Get(h, name) == LastValue(h.fields, Lower(name))
  {
    var key := Lower(name);
    if key in h.index {
      LastValueAt(h.fields, key, h.index[key]);
    } else {
      LastValueNone(h.fields, key);
    }
  }

  datatype LengthResult = Length(n: nat) | MissingField | InvalidContentLength

  /** The declared block length: the last Content-Length field, as a 64-bit number. */
  function LengthOf(fields: seq<Field>): LengthResult
  {
    match LastValue(fields, CONTENT_LENGTH)
    case None => MissingField
    case Some(v) =>
      match ParseUnsigned(Trim(v), U64_MAX) case Some(n) => Length(n) case None => InvalidContentLength
  }

  method ContentLength(h: Header) returns (r: LengthResult)
    requires Indexed(h.fields, h.index)
    ensures r == LengthOf(h.fields)
  {
    GetIsLastValue(h, CONTENT_LENGTH);
    assert Lower(CONTENT_LENGTH) == CONTENT_LENGTH;
    match Get(h, CONTENT_LENGTH)
    case None => return MissingField;
    case Some(v) =>
      match ParseUnsigned(Trim(v), U64_MAX)
      case Some(n) => return Length(n);
      case None => return InvalidContentLength;
  }
}
