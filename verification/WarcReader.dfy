/** The WARC parser every consumer reads records with. */
module WarcReader {
  import opened Bytes
  import opened Text
  import opened WarcHeader

  const MAX_HEADER_BYTES := 65536

  datatype Error =
    | Io | InvalidVersion | MalformedHeader | MissingContentLength | BadContentLength
    | UnexpectedEof | MissingTerminator | HeaderTooLarge | TruncatedHeader

  // ── lines ──

  /** A line of text: through its LF, or to the end; it must be UTF-8. */
  datatype LineRead = Line(bytes: bytes) | AtEnd | NotText

  function ReadLine(s: bytes): (r: LineRead)
    ensures r.Line? ==> 0 < |r.bytes| <= |s|
  {
    if s == [] then AtEnd
    else
      var i := IndexOf(s, LF);
      var l := if i < |s| then s[..i + 1] else s;
      if ValidUtf8(l) then Line(l) else NotText
  }

  /** The line at offset `at`. */
  function LineAt(s: bytes, at: nat): (r: LineRead)
    requires at <= |s|
    ensures r.Line? ==> 0 < |r.bytes| <= |s| - at
    ensures r.AtEnd? <==> at == |s|
  {
    ReadLine(s[at..])
  }

  // ── header fields ──

  /** The fields after one more header line, which is not the blank one; None when it is malformed. */
  function AddLine(fields: seq<Field>, line: bytes): Option<seq<Field>>
  {
    var t := StripEol(line);
    if t != [] && (t[0] == SPACE || t[0] == TAB) then
      if fields == [] then Some(fields)
      else
        var last := fields[|fields| - 1];
        Some(fields[..|fields| - 1] + [Field(last.name, last.value + [SPACE] + Trim(t))])
    else
      var colon := IndexOf(t, COLON);
      if colon == |t| then None
      else Some(fields + [Field(Lower(Trim(t[..colon])), Trim(t[colon + 1..]))])
  }

  datatype FieldsRead = Fields(fields: seq<Field>, used: nat) | FieldsError(error: Error)

  /** What one line does to the fields read so far: more lines follow, or reading ends. */
  datatype Step = More(fields: seq<Field>) | Stop(result: FieldsRead)

  function FieldStep(line: LineRead, fields: seq<Field>, used: nat): (r: Step)
    ensures r.More? ==> line.Line?
    ensures r.Stop? && r.result.Fields? ==> line.Line? && r.result.used == used + |line.bytes|
  {
    match line
    case AtEnd => Stop(FieldsError(TruncatedHeader))
    case NotText => Stop(FieldsError(Io))
    case Line(l) =>
      if used + |l| > MAX_HEADER_BYTES then Stop(FieldsError(HeaderTooLarge))
      else if StripEol(l) == [] then Stop(Fields(fields, used + |l|))
      else match AddLine(fields, l)
        case None => Stop(FieldsError(MalformedHeader))
        case Some(more) => More(more)
  }

  /** Header lines of `s` from `at` up to the blank one, after `fields` in `used` bytes. */
  function ReadFields(s: bytes, at: nat, fields: seq<Field>, used: nat): (r: FieldsRead)
    requires at <= |s|
    ensures r.Fields? ==> used < r.used <= used + |s| - at
    decreases |s| - at
  {
    var line := LineAt(s, at);
    match FieldStep(line, fields, used)
    case Stop(result) => result
    case More(more) => ReadFields(s, at + |line.bytes|, more, used + |line.bytes|)
  }

  // ── records ──

  /** A parsed record: `at` is where its fields start, `used` where it ends,
      both counted from where reading began. */
  datatype Parsed = Parsed(version: Version, fields: seq<Field>, block: bytes, at: nat, used: nat)

  datatype Outcome = Record(rec: Parsed) | NoRecord | Failure(error: Error)

  /** Block and terminator, once the fields are known to end at `at + head` in `s`. */
  function ReadBlock(s: bytes, version: Version, fields: seq<Field>, at: nat, head: nat): (r: Outcome)
    requires at + head <= |s|
    ensures r != NoRecord
    ensures r.Record? ==> r.rec.at == at && at + head <= r.rec.used <= |s|
  {
    match LengthOf(fields)
    case MissingField => Failure(MissingContentLength)
    case InvalidContentLength => Failure(BadContentLength)
    case Length(n) =>
      var b := at + head;
      if |s| < b + n then Failure(UnexpectedEof)
      else if |s| < b + n + 4 || s[b + n..b + n + 4] != CRLFCRLF then Failure(MissingTerminator)
      else Record(Parsed(version, fields, s[b..b + n], at, b + n + 4))
  }

  function ReadBody(s: bytes, version: Version, at: nat): (r: Outcome)
    requires at <= |s|
    ensures r != NoRecord
    ensures r.Record? ==> at <= r.rec.at && r.rec.used <= |s|
  {
    match ReadFields(s, at, [], 0)
    case FieldsError(e) => Failure(e)
    case Fields(fields, head) => ReadBlock(s, version, fields, at, head)
  }

  /** The next record of `s` from offset `at`, past any blank lines. */
  function ReadRecord(s: bytes, at: nat): (r: Outcome)
    requires at <= |s|
    ensures r.Record? ==> at < r.rec.at <= r.rec.used <= |s|
    decreases |s| - at
  {
    match LineAt(s, at)
    case AtEnd => NoRecord
    case NotText => Failure(Io)
    case Line(l) =>
      if Trim(l) == [] then ReadRecord(s, at + |l|)
      else match ParseVersion(Trim(l))
        case None => Failure(InvalidVersion)
        case Some(v) =>
          var r := ReadBody(s, v, at + |l|);
          r
  }

  /** What a caller gets: header, block, and the offset the reader reports. */
  datatype WarcRecord = WarcRecord(header: Header, block: bytes, offset: nat)

  datatype Result = Ok(value: Option<WarcRecord>) | Err(error: Error)

  /** `w` reports what was parsed, with an index over its fields. */
  ghost predicate Reports(w: WarcRecord, p: Parsed)
  {
    && w.header.version == p.version && w.header.fields == p.fields && Indexed(p.fields, w.header.index)
    && w.block == p.block && w.offset == p.at
  }

  /** `r` is the answer that `o` calls for. */
  ghost predicate Answers(r: Result, o: Outcome)
  {
    match o
    case NoRecord => r == Ok(None)
    case Failure(e) => r == Err(e)
    case Record(p) => r.Ok? && r.value.Some? && Reports(r.value.value, p)
  }

  class WarcReader {
    const data: bytes
    var at: nat
    var offset: nat

    /** Between records the reported offset is the number of bytes consumed. */
    ghost predicate Valid()
      reads this
    {
      at == offset <= |data|
    }

    constructor (data: bytes)
      ensures Valid() && this.data == data && offset == 0
    {
      this.data, at, offset := data, 0, 0;
    }

    /** One line off the buffered source; a line that is not text is consumed too. */
    method TakeLine() returns (r: LineRead)
      requires at <= |data|
      modifies this`at
      ensures at <= |data| && r == LineAt(data, old(at))
      ensures r.Line? ==> at == old(at) + |r.bytes|
      ensures r.AtEnd? ==> at == old(at) == |data|
    {
      var i := IndexOf(data[at..], LF);
      r := LineAt(data, at);
      at := if r.Line? then at + |r.bytes| else if at + i < |data| then at + i + 1 else |data|;
    }

    /** Read the header lines, counting their bytes. */
    method TakeFields() returns (r: FieldsRead)
      requires Valid()
      modifies this
      ensures r == ReadFields(data, old(offset), [], 0)
      ensures r.Fields? ==> Valid() && offset == old(offset) + r.used
    {
      hide LineAt, FieldStep;
      var fields: seq<Field> := [];
      var headerBytes: nat := 0;
      while true
        invariant Valid() && at == old(offset) + headerBytes
        invariant ReadFields(data, old(offset), [], 0) == ReadFields(data, at, fields, headerBytes)
        decreases |data| - at
      {
        var line := TakeLine();
        var step := FieldStep(line, fields, headerBytes);
        if line.Line? {
          offset, headerBytes := offset + |line.bytes|, headerBytes + |line.bytes|;
        }
        if step.Stop? { return step.result; }
        fields := step.fields;
      }
    }

    /** Block and terminator. */
    method TakeBlock(n: nat) returns (block: bytes, error: Option<Error>)
      requires Valid()
      modifies this
      ensures var b := old(offset);
        if |data| < b + n then error == Some(UnexpectedEof)
        else if |data| < b + n + 4 || data[b + n..b + n + 4] != CRLFCRLF then error == Some(MissingTerminator)
        else error == None && block == data[b..b + n] && Valid() && offset == b + n + 4
    {
      if |data| - at < n {
        at := |data|;
        return [], Some(UnexpectedEof);
      }
      block := data[at..at + n];
      at, offset := at + n, offset + n;
      if |data| - at < 4 {
        at := |data|;
        return block, Some(MissingTerminator);
      }
      var terminator := data[at..at + 4];
      at, offset := at + 4, offset + 4;
      error := if terminator == CRLFCRLF then None else Some(MissingTerminator);
    }

    /** Fields, block and terminator of a record whose version line has been read.

        The reported record offset is taken here, that is after the version line
        has been counted. */
    method TakeBody(version: Version) returns (r: Result)
      requires Valid()
      modifies this
      ensures Answers(r, ReadBody(data, version, old(offset)))
      ensures r.Ok? ==> Valid() && offset == ReadBody(data, version, old(offset)).rec.used
    {
      hide ReadFields, LengthOf;
      var recordOffset := offset;
      var f := TakeFields();
      if f.FieldsError? { return Err(f.error); }
      var header := FromFields(version, f.fields);
      var length := ContentLength(header);
      if !length.Length? {
        return Err(if length.MissingField? then MissingContentLength else BadContentLength);
      }
      var block, error := TakeBlock(length.n);
      return match error
        case Some(e) => Err(e)
        case None => Ok(Some(WarcRecord(header, block, recordOffset)));
    }

    /** The next record, or None at the end; blank lines in front of it are skipped. */
    method NextRecord() returns (r: Result)
      requires Valid()
      modifies this
      ensures Answers(r, ReadRecord(data, old(offset)))
      ensures r.Ok? ==> Valid()
      ensures r.Ok? ==> offset == if r.value.Some? then ReadRecord(data, old(offset)).rec.used else |data|
    {
      hide LineAt, ParseVersion, ReadBody, Trim;
      ghost var start := offset;
      while true
        invariant Valid() && ReadRecord(data, at) == ReadRecord(data, start)
        decreases |data| - at
      {
        var line := TakeLine();
        match line
        case AtEnd =>
          return Ok(None);
        case NotText => return Err(Io);
        case Line(l) =>
          offset := offset + |l|;
          var trimmed := Trim(l);
          if trimmed != [] {
            var version := ParseVersion(trimmed);
            if version.None? { return Err(InvalidVersion); }
            r := TakeBody(version.value);
            return;
          }
      }
    }
  }

  /** Iteration over the records of a source: it stops at the end and after the first error. */
  class WarcIter {
    const reader: WarcReader
    var done: bool

    ghost predicate Valid()
      reads this, reader
    {
      !done ==> reader.Valid()
    }

    constructor (data: bytes)
      ensures Valid() && fresh(reader) && !done && reader.data == data && reader.offset == 0
    {
      reader := new WarcReader(data);
      done := false;
    }

    /** The next item, None once iteration is over. */
    method Next() returns (item: Option<Result>)
      requires Valid()
      modifies this, reader
      ensures Valid()
      ensures old(done) ==> item == None && done
      ensures !old(done) ==>
        var o := ReadRecord(reader.data, old(reader.offset));
        && done == !o.Record?
        && (o.NoRecord? ==> item == None)
        && (!o.NoRecord? ==> item.Some? && Answers(item.value, o))
        && (o.Record? ==> reader.offset == o.rec.used)
    {
      if done { return None; }
      var r := reader.NextRecord();
      match r
      case Ok(Some(_)) => return Some(r);
      case Ok(None) =>
        done := true;
        return None;
      case Err(_) =>
        done := true;
        return Some(r);
    }
  }
}
