/** Reading one record back out of an object by its index coordinates: a ranged
  GET that guesses the member size, one member inflated, the header block cut off. */
module RecordFetch {
  import opened Bytes
  import opened Codec
  import opened Gzip
  import GzipGrammar
  import opened MemberWalk
  import StoredBlocks
  import Warc
  import opened RewritePlan
  import Rewriter
  import GzSplitter

  const SLACK := 65536

  // ── the ranged GET ──

  /** Bytes `offset` to `offset + length`, clipped at the end of the object; None
      when the range starts past the end. */
  function GetRange(obj: bytes, offset: nat, length: nat): Option<bytes>
  {
    if length == 0 then Some([])
    else if offset >= |obj| then None
    else Some(obj[offset..if offset + length <= |obj| then offset + length else |obj|])
  }

  datatype Fetched = Fetched(data: bytes) | NoCompressedOffset | RangeError | GzipError(error: Error)

  /** Fetch a record of a `.warc.gz`: `length` is its Content-Length, and the member
      is taken to be no larger than that plus some slack. */
  function FetchWarcRecord(c: Coder, obj: bytes, cOffset: Option<nat>, length: nat): Fetched
  {
    match cOffset
    case None => NoCompressedOffset
    case Some(at) =>
      match GetRange(obj, at, length + SLACK)
      case None => RangeError
      case Some(window) =>
        match CheckedMember(c, window)
        case Member(_, data) => Fetched(data)
        case Failed(e) => GzipError(e)
        case NoMember => GzipError(UnexpectedEof)
  }

  /** The window holds the member or it does not: with a member of `n` bytes at
      `at`, the fetch gives exactly its content when `n` is at most `length` plus
      slack, and an unexpected end of file otherwise. What follows the member and
      where the object ends make no difference. */
  lemma FetchExactly(c: Coder, obj: bytes, at: nat, length: nat, n: nat, data: bytes)
    requires Streaming(c) && at < |obj| && CheckedMember(c, obj[at..]) == Member(n, data)
    ensures FetchWarcRecord(c, obj, Some(at), length) ==
      if n <= length + SLACK then Fetched(data) else GzipError(UnexpectedEof)
  {
    hide CheckedMember, Streaming;
    var s := obj[at..];
    var k := if length + SLACK <= |s| then length + SLACK else |s|;
    assert obj[at..at + k] == s[..k];
    CheckedNeedsExactlyItsBytes(c, s, k);
    CheckedIsParsed(c, s);
  }

  /** `s` starts with a member of `data` with another trailer, and the window holds it. */
  ghost predicate Damaged(c: Coder, s: bytes, length: nat, data: bytes, t: bytes, rest: bytes)
  {
    && |t| == 8 && t != Trailer(c, data) && |Deflate(c, data)| + 18 <= length + SLACK
    && s == FIXED_HEADER + Deflate(c, data) + t + rest
  }

  /** A member whose trailer does not belong to its content is an error, and so is every
      range that starts behind the end of the object; without a compressed offset nothing
      is fetched. */
  lemma FetchRefuses(c: Coder, obj: bytes, at: nat, length: nat, data: bytes, t: bytes, rest: bytes)
    requires Streaming(c)
    ensures FetchWarcRecord(c, obj, None, length) == NoCompressedOffset
    ensures at >= |obj| ==> FetchWarcRecord(c, obj, Some(at), length) == RangeError
    ensures at < |obj| && Damaged(c, obj[at..], length, data, t, rest) ==>
      FetchWarcRecord(c, obj, Some(at), length) == GzipError(BadTrailer)
  {
    hide CheckedMember, Streaming, Trailer;
    if at < |obj| && Damaged(c, obj[at..], length, data, t, rest) {
      var s, n := obj[at..], |Deflate(c, data)| + 18;
      var k := if length + SLACK <= |s| then length + SLACK else |s|;
      var m := FIXED_HEADER + Deflate(c, data) + t;
      assert |m| == n && s == m + rest;
      assert s[..k] == m + rest[..k - n];
      assert GetRange(obj, at, length + SLACK) == Some(s[..k]) by { assert obj[at..at + k] == s[..k]; }
      GzipGrammar.DamagedTrailer(c, data, t, rest[..k - n]);
    }
  }

  lemma CheckedIsParsed(c: Coder, s: bytes)
    ensures CheckedMember(c, s).Member? ==> 18 <= CheckedMember(c, s).size <= |s|
  {
  }

  // ── fetching what the rewriter wrote ──

  /** From the reported start of the k-th member on, the file is that member and
      the ones after it. */
  lemma {:induction false} MemberStands(p: Reader, file: bytes, at: nat, members: seq<bytes>, contents: seq<bytes>,
    k: nat)
    requires Bounded(p) && at <= |file| && file[at..] == Flatten(members)
    requires |members| == |contents| && k < |members| && forall j | 0 <= j < |members| ::
      Holds(p, members[j], contents[j])
    ensures k < |Walk(p, file, at).members|
    ensures var f := Walk(p, file, at).members[k];
      f.start <= |file| && f.data == contents[k] && file[f.start..] == Flatten(members[k..])
    decreases k
  {
    hide Holds, Walk, Flatten;
    var m := members[0];
    FirstMember(p, file, at, members, contents[0]);
    if k == 0 {
      assert members[0..] == members;
    } else {
      MemberStands(p, file, at + |m|, members[1..], contents[1..], k - 1);
      assert members[1..][k - 1..] == members[k..];
    }
  }

  lemma FirstMember(p: Reader, file: bytes, at: nat, members: seq<bytes>, d: bytes)
    requires Bounded(p) && at <= |file| && members != [] && file[at..] == Flatten(members) && Holds(p, members[0], d)
    ensures at + |members[0]| <= |file| && file[at + |members[0]|..] == Flatten(members[1..])
    ensures var tail := Walk(p, file, at + |members[0]|);
      Walk(p, file, at) == Walked([Found(at, d)] + tail.members, tail.stop)
  {
    var m, rest := members[0], Flatten(members[1..]);
    assert file[at..] == m + rest;
    assert Read(p, m + rest) == Member(|m|, d);
    assert file[at + |m|..] == file[at..][|m|..];
  }

  /** The start the splitter reports for the k-th member leads the fetch to exactly
      that member: it succeeds if and only if the member fits the window. */
  lemma FetchAtReportedStart(c: Coder, contents: seq<bytes>, k: nat, length: nat)
    requires Streaming(c) && k < |contents|
    ensures var file := Flatten(Members(c, contents));
      && k < |Walk(Trusting(c), file, 0).members|
      && FetchWarcRecord(c, file, Some(Walk(Trusting(c), file, 0).members[k].start), length) ==
         if |MemberOf(c, contents[k])| <= length + SLACK then Fetched(contents[k]) else GzipError(UnexpectedEof)
  {
    hide Walk, Streaming, MemberOf, FetchWarcRecord, Holds, Flatten, CheckedMember;
    var ms := Members(c, contents);
    var file := Flatten(ms);
    GzSplitter.MembersHold(c, Trusting(c), contents);
    assert file[0..] == file;
    MemberStands(Trusting(c), file, 0, ms, contents, k);
    var start := Walk(Trusting(c), file, 0).members[k].start;
    MembersAt(c, contents, k);
    FlattenFirst(ms, k);
    var m, rest := MemberOf(c, contents[k]), Flatten(ms[k + 1..]);
    GzipGrammar.EncodedMemberParses(c, contents[k], rest);
    MemberHasBytes(c, contents[k]);
    assert start < |file| && file[start..] == m + rest;
    FetchExactly(c, file, start, length, |m|, contents[k]);
  }

  lemma {:induction false} MembersAt(c: Coder, contents: seq<bytes>, k: nat)
    requires k < |contents|
    ensures Members(c, contents)[k] == MemberOf(c, contents[k])
  {
    hide MemberOf;
    if k > 0 { MembersAt(c, contents[1..], k - 1); }
  }

  lemma FlattenFirst(ms: seq<bytes>, k: nat)
    requires k < |ms|
    ensures Flatten(ms[k..]) == ms[k] + Flatten(ms[k + 1..])
  {
    assert ms[k..][1..] == ms[k + 1..];
  }

  lemma MemberHasBytes(c: Coder, data: bytes)
    ensures MemberOf(c, data) != []
  {
    assert |MemberOf(c, data)| >= |FIXED_HEADER|;
  }

  // ── how large a stored member is ──

  lemma StoredMemberSize(data: bytes)
    ensures |MemberOf(StoredBlocks.STORED, data)| == |data| + 18 + 5 * StoredBlocks.Blocks(|data|)
  {
    StoredBlocks.DeflateSize(data);
    StoredBlocks.StoredIsStreaming();
    assert RoundTrips(StoredBlocks.STORED, data);
  }

  /** With stored blocks, the worst an encoder can do, the fetch of the k-th record
      succeeds exactly when its header and the block overhead fit the slack. */
  lemma StoredFetchFits(recs: seq<Warc.Record>, contents: seq<bytes>, k: nat)
    requires |recs| == |contents| && k < |recs| && contents[k] == Warc.Print(recs[k])
    ensures var file := Flatten(Members(StoredBlocks.STORED, contents));
      var start := Walk(Trusting(StoredBlocks.STORED), file, 0).members;
      var h, l := |Warc.Head(recs[k])|, |recs[k].block|;
      && k < |start|
      && (FetchWarcRecord(StoredBlocks.STORED, file, Some(start[k].start), l) == Fetched(Warc.Print(recs[k]))
          <==> h + 22 + 5 * StoredBlocks.Blocks(h + l + 4) <= SLACK)
  {
    hide Walk, FetchWarcRecord, MemberOf, Streaming, Warc.Head;
    StoredBlocks.StoredIsStreaming();
    FetchAtReportedStart(StoredBlocks.STORED, contents, k, |recs[k].block|);
    StoredMemberSize(contents[k]);
  }

  // ── cutting off the header block ──

  /** CRLFCRLF stands at `i`. */
  predicate SepAt(s: bytes, i: nat)
  {
    i + 4 <= |s| && s[i] == CR && s[i + 1] == LF && s[i + 2] == CR && s[i + 3] == LF
  }

  /** The first separator at or after `at`. */
  function FirstSep(s: bytes, at: nat): (r: Option<nat>)
    requires at <= |s|
    ensures r.Some? ==> at <= r.value && SepAt(s, r.value) && forall j | at <= j < r.value :: !SepAt(s, j)
    ensures r.None? ==> forall j | at <= j :: !SepAt(s, j)
    decreases |s| - at
  {
    if at + 4 > |s| then None else if SepAt(s, at) then Some(at) else FirstSep(s, at + 1)
  }

  /** Everything after the first separator; all of it when there is none. */
  function WarcHttpBlock(s: bytes): bytes
  {
    match FirstSep(s, 0) case None => s case Some(i) => s[i + 4..]
  }

  /** With no CRLFCRLF in it a text is returned whole; otherwise it comes apart at the first
      one, and what is behind that is returned. */
  lemma HttpBlockOfAny(s: bytes)
    ensures (forall i: nat :: !At(s, i, CRLFCRLF)) ==> WarcHttpBlock(s) == s
    ensures forall a, b: bytes | s == a + CRLFCRLF + b && (forall i: nat | i < |a| :: !At(s, i, CRLFCRLF)) ::
      WarcHttpBlock(s) == b
  {
    hide WarcHttpBlock;
    forall i: nat ensures SepAt(s, i) <==> At(s, i, CRLFCRLF) { SepIsAt(s, i); }
    FirstDecides(s);
    forall a, b: bytes | s == a + CRLFCRLF + b && (forall i: nat | i < |a| :: !At(s, i, CRLFCRLF))
      ensures WarcHttpBlock(s) == b
    {
      assert s[|a|..|a| + 4] == CRLFCRLF && s[|a| + 4..] == b;
      assert At(s, |a|, CRLFCRLF);
      SepIsAt(s, |a|);
    }
  }

  lemma SepIsAt(s: bytes, i: nat)
    ensures SepAt(s, i) <==> At(s, i, CRLFCRLF)
  {
    if i + 4 <= |s| { assert s[i..i + 4] == [s[i], s[i + 1], s[i + 2], s[i + 3]]; }
  }

  lemma FirstDecides(s: bytes)
    ensures (forall i: nat :: !SepAt(s, i)) ==> WarcHttpBlock(s) == s
    ensures forall i: nat | SepAt(s, i) && (forall j: nat | j < i :: !SepAt(s, j)) :: WarcHttpBlock(s) == s[i + 4..]
  {
  }

  /** A line that is not blank. */
  ghost predicate FilledLine(l: bytes)
  {
    Warc.IsLine(l) && !Warc.IsBlank(l)
  }

  lemma LineEndsInLf(l: bytes)
    requires Warc.IsLine(l)
    ensures l[|l| - 1] == LF && forall j | 0 <= j < |l| - 1 :: l[j] != LF
  {
    IndexOfFound(l, LF);
  }

  /** A line that starts with CRLF is blank. */
  lemma CrlfStartsBlank(l: bytes, t: bytes)
    requires Warc.IsLine(l) && |l + t| >= 2 && (l + t)[0] == CR && (l + t)[1] == LF
    ensures l == CRLF
  {
    LineEndsInLf(l);
    assert (l + t)[0] == l[0];
    if |l| > 1 { assert (l + t)[1] == l[1]; }
  }

  lemma Shifted(l: bytes, u: bytes, i: nat)
    requires |l| <= i
    ensures SepAt(l + u, i) <==> SepAt(u, i - |l|)
  {
  }

  /** No separator ends before the blank line does: a blank line is the only way
      to have one, and the first blank line ends the header block. */
  lemma {:induction false} NoSepBeforeEnd(l: bytes, lines: seq<bytes>, blank: bytes, t: bytes, i: nat)
    requires Warc.IsLine(l) && (forall k | 0 <= k < |lines| :: FilledLine(lines[k])) && Warc.IsBlank(blank)
    requires SepAt(l + (Flatten(lines) + (blank + t)), i)
    ensures i + 4 >= |l| + |Flatten(lines)| + |blank|
    decreases |lines|
  {
    hide Warc.IsLine, FilledLine;
    var u := Flatten(lines) + (blank + t);
    LineEndsInLf(l);
    if |l| <= i {
      Shifted(l, u, i);
      if lines != [] {
        LinesTail(lines, blank, t);
        FilledLineIsLine(lines[0]);
        NoSepBeforeEnd(lines[0], lines[1..], blank, t, i - |l|);
      }
    } else {
      InsideLine(l, u, i);
      if lines != [] {
        LinesTail(lines, blank, t);
        FilledLineIsLine(lines[0]);
        CrlfStartsBlank(lines[0], Flatten(lines[1..]) + (blank + t));
      }
    }
  }

  /** A separator that starts inside a line straddles its end. */
  lemma InsideLine(l: bytes, u: bytes, i: nat)
    requires i < |l| && SepAt(l + u, i) && l[|l| - 1] == LF && forall j | 0 <= j < |l| - 1 :: l[j] != LF
    ensures i + 2 == |l| && |u| >= 2 && u[0] == CR && u[1] == LF
  {
    var s := l + u;
    assert s[|l|] == u[0] && s[|l| + 1] == u[1];
  }

  lemma LinesTail(lines: seq<bytes>, blank: bytes, t: bytes)
    requires lines != []
    ensures Flatten(lines) + (blank + t) == lines[0] + (Flatten(lines[1..]) + (blank + t))
    ensures |Flatten(lines)| == |lines[0]| + |Flatten(lines[1..])|
  {
    Assoc(lines[0], Flatten(lines[1..]), blank + t);
  }

  lemma FilledLineIsLine(l: bytes)
    requires FilledLine(l)
    ensures Warc.IsLine(l) && l != CRLF
  {
  }

  lemma FirstSepAt(head: bytes, t: bytes)
    requires |head| >= 4 && forall i: nat | SepAt(head + t, i) :: i + 4 >= |head|
    ensures WarcHttpBlock(head + t) == t <==> head[|head| - 4..] == CRLFCRLF
  {
    var s, e := head + t, |head| - 4;
    assert SepAt(s, e) <==> head[e..] == CRLFCRLF by {
      assert forall j | 0 <= j < 4 :: s[e + j] == head[e + j] == head[e..][j];
      if SepAt(s, e) { assert head[e..] == [s[e], s[e + 1], s[e + 2], s[e + 3]]; }
    }
    assert s[e + 4..] == t;
    match FirstSep(s, 0)
    case None =>
    case Some(i) => if i != e { assert |s[i + 4..]| < |t|; }
  }

  /** Cutting a record at its first separator gives exactly the block and the
      terminator when its header block ends in CRLFCRLF, and only then. */
  lemma HttpBlockExactly(r: Warc.Record)
    requires Warc.WellFormed(r)
    ensures WarcHttpBlock(Warc.Print(r)) == r.block + CRLFCRLF <==>
            Warc.Head(r)[|Warc.Head(r)| - 4..] == CRLFCRLF
  {
    hide Warc.IsLine, WarcHttpBlock, Warc.DeclaredLength;
    var t := r.block + CRLFCRLF;
    forall i: nat | SepAt(Warc.Head(r) + t, i) ensures i + 4 >= |Warc.Head(r)| {
      HeadParts(r, t);
      NoSepBeforeEnd(r.version, r.headers, r.blank, t, i);
    }
    HeadIsLong(r);
    FirstSepAt(Warc.Head(r), t);
  }

  lemma HeadParts(r: Warc.Record, t: bytes)
    ensures Warc.Head(r) + t == r.version + (Flatten(r.headers) + (r.blank + t))
    ensures |Warc.Head(r)| == |r.version| + |Flatten(r.headers)| + |r.blank|
  {
  }

  lemma HeadIsLong(r: Warc.Record)
    requires Warc.WellFormed(r)
    ensures |Warc.Head(r)| >= 5
  {
    HeadParts(r, []);
  }

  /** The whole way back: a record written by the rewriter, whose header block ends
      in CRLFCRLF and whose member fits the window, is fetched by the start the
      splitter reported and its Content-Length as its block and the terminator. */
  lemma FetchedBlock(c: Coder, pieces: seq<Piece>, k: nat)
    requires Streaming(c) && GoodPieces(pieces) && k < |pieces|
    requires |MemberOf(c, Warc.Print(pieces[k].rec))| <= |pieces[k].rec.block| + SLACK
    requires Warc.Head(pieces[k].rec)[|Warc.Head(pieces[k].rec)| - 4..] == CRLFCRLF
    ensures var file := Rewriter.FileOf(c, pieces);
      var members := Walk(Trusting(c), file, 0).members;
      && k < |members|
      && var r := FetchWarcRecord(c, file, Some(members[k].start), |pieces[k].rec.block|);
         r.Fetched? && WarcHttpBlock(r.data) == pieces[k].rec.block + CRLFCRLF
  {
    hide Walk, FetchWarcRecord, MemberOf, Streaming, Warc.Head, Warc.Print, Warc.WellFormed, WarcHttpBlock;
    PrintsAt(pieces, k);
    FetchAtReportedStart(c, Prints(pieces), k, |pieces[k].rec.block|);
    HttpBlockExactly(pieces[k].rec);
  }
}
