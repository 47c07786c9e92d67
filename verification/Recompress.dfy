/** The gate of `tywb recompress`: an object is replaced only after its rewrite
  has been decompressed again and compared with the original. */
module Recompress {
  import opened Bytes
  import opened Codec
  import opened Gzip
  import opened MemberWalk
  import Warc
  import opened RewritePlan
  import opened Rewriter
  import GzSplitter

  // ── framing of a local file ──

  /** Members read to their trailer, and whether the file ends inside one more. */
  datatype Shape = Shape(complete: nat, truncatedTail: bool)

  function MemberCount(s: Shape): nat
  {
    s.complete + if s.truncatedTail then 1 else 0
  }

  /** None stands for a file that is not gzip all the way. */
  function ShapeOf(w: Walked): Option<Shape>
  {
    match w.stop
    case None => Some(Shape(|w.members|, false))
    case Some(e) => if e.UnexpectedEof? then Some(Shape(|w.members|, true)) else None
  }

  /** Count members one decoder run at a time. */
  method GzShape(c: Coder, file: bytes) returns (r: Option<Shape>)
    ensures r == ShapeOf(Walk(Checking(c), file, 0))
  {
    hide Walk, Continues, CheckedMember, Read, Checking;
    var at, complete: nat := 0, 0;
    ghost var p := Checking(c);
    ghost var whole, members: seq<Found> := Walk(p, file, 0), [];
    WalkStarts(whole);
    while true
      invariant at <= |file| && complete == |members| && Continues(whole, members, Walk(p, file, at))
      decreases |file| - at
    {
      WalkStep(p, file, at, whole, members);
      CheckingReads(c, file[at..]);
      match CheckedMember(c, file[at..])
      case NoMember => return Some(Shape(complete, false));
      case Failed(e) => return if e.UnexpectedEof? then Some(Shape(complete, true)) else None;
      case Member(n, data) =>
        members := members + [Found(at, data)];
        at, complete := at + n, complete + 1;
    }
  }

  lemma CheckingReads(c: Coder, s: bytes)
    ensures Read(Checking(c), s) == CheckedMember(c, s)
    ensures CheckedMember(c, s) == NoMember ==> s == []
    ensures CheckedMember(c, s).Member? ==> 0 < CheckedMember(c, s).size <= |s|
  {
  }

  // ── its decompressed content ──

  datatype Unpacked = Unpacked(data: bytes, end: End)

  function EndOf(stop: Option<Error>): End
  {
    match stop case None => Clean case Some(e) => if e.UnexpectedEof? then CutOff else Broken
  }

  /** All members of `file` from `at` on, decompressed one after the other. */
  function Unpack(c: Coder, file: bytes, at: nat): Unpacked
    requires at <= |file|
    decreases |file| - at
  {
    CheckingReads(c, file[at..]);
    match CheckedMember(c, file[at..])
    case NoMember => Unpacked([], Clean)
    case Failed(e) => Unpacked(Delivered(c, file[at..]), EndOf(Some(e)))
    case Member(n, data) =>
      var tail := Unpack(c, file, at + n);
      Unpacked(data + tail.data, tail.end)
  }

  /** Both ways through a file read the same member at `at`. */
  lemma SameMember(c: Coder, file: bytes, at: nat, n: nat, data: bytes)
    requires at <= |file| && CheckedMember(c, file[at..]) == Member(n, data)
    ensures 0 < n && at + n <= |file|
    ensures Unpack(c, file, at) == Unpacked(data + Unpack(c, file, at + n).data, Unpack(c, file, at + n).end)
    ensures var tail := Walk(Checking(c), file, at + n);
      Walk(Checking(c), file, at) == Walked([Found(at, data)] + tail.members, tail.stop)
  {
    hide CheckedMember, Delivered;
    CheckingReads(c, file[at..]);
  }

  lemma SameStop(c: Coder, file: bytes, at: nat)
    requires at <= |file| && !CheckedMember(c, file[at..]).Member?
    ensures var w := Walk(Checking(c), file, at);
      && w.members == [] && Unpack(c, file, at).end == EndOf(w.stop)
      && (w.stop == None ==> Unpack(c, file, at).data == [])
  {
    hide CheckedMember, Delivered;
    CheckingReads(c, file[at..]);
  }

  lemma ContentsCons(m: Found, tail: seq<Found>)
    ensures Flatten(Contents([m] + tail)) == m.data + Flatten(Contents(tail))
  {
    assert ([m] + tail)[1..] == tail;
    FlattenCons(m.data, Contents(tail));
  }

  /** Decompressing and counting members go over the same members. */
  lemma {:induction false} UnpackIsWalk(c: Coder, file: bytes, at: nat)
    requires at <= |file|
    ensures var w := Walk(Checking(c), file, at);
      && Unpack(c, file, at).end == EndOf(w.stop)
      && (w.stop == None ==> Unpack(c, file, at).data == Flatten(Contents(w.members)))
    decreases |file| - at
  {
    hide CheckedMember, Delivered, Walk, Unpack, Flatten;
    var m := CheckedMember(c, file[at..]);
    if m.Member? {
      SameMember(c, file, at, m.size, m.data);
      UnpackIsWalk(c, file, at + m.size);
      ContentsCons(Found(at, m.data), Walk(Checking(c), file, at + m.size).members);
    } else {
      SameStop(c, file, at);
      NothingFlat();
    }
  }

  lemma NothingFlat()
    ensures Flatten(Contents([])) == []
  {
  }

  /** What an encoder wrote decompresses to what it was given. */
  lemma UnpackMembers(c: Coder, contents: seq<bytes>)
    requires Streaming(c)
    ensures var file := Flatten(Members(c, contents));
      && Unpack(c, file, 0) == Unpacked(Flatten(contents), Clean)
      && ShapeOf(Walk(Checking(c), file, 0)) == Some(Shape(|contents|, false))
  {
    hide Walk, Streaming, Unpack;
    GzSplitter.SplitInvertsEncode(c, Checking(c), contents);
    var file := Flatten(Members(c, contents));
    UnpackIsWalk(c, file, 0);
    ContentsCount(Walk(Checking(c), file, 0).members);
  }

  // ── hashing ──

  /** A digest stands for what was hashed: SHA-256 is taken to be injective. */
  datatype Summary = Summary(digest: bytes, length: nat)

  /** What hashing at most `limit` bytes of a stream gives; None for an error. */
  function Hashed(p: Unpacked, limit: Option<nat>, tolerateTruncation: bool): Option<Summary>
  {
    if limit.Some? && limit.value <= |p.data| then Some(Summary(p.data[..limit.value], limit.value))
    else if p.end.Clean? || (tolerateTruncation && p.end.CutOff?) then Some(Summary(p.data, |p.data|))
    else None
  }

  /** Hash chunk by chunk, stopping after `limit` bytes; a source that ends inside
      a member is an error unless that is tolerated. */
  method Sha256GunzipLimited(c: Coder, file: bytes, limit: Option<nat>,
    tolerateTruncation: bool) returns (r: Option<Summary>)
    ensures r == Hashed(Unpack(c, file, 0), limit, tolerateTruncation)
  {
    hide Unpack;
    var unpacked := Unpack(c, file, 0);
    var dec := new Payload(unpacked.data, unpacked.end);
    var hashed: bytes, total: nat := [], 0;
    while true
      invariant fresh(dec) && dec.Valid() && dec.data == unpacked.data && dec.end == unpacked.end
      invariant total == dec.at && hashed == dec.data[..total] && (limit.Some? ==> total <= limit.value)
      decreases |dec.data| - dec.at
    {
      if limit == Some(total) { break; }
      var want := if limit.Some? && limit.value - total < CHUNK then limit.value - total else CHUNK;
      var n := dec.Read(want);
      if n == Some([]) { break; }
      if n.None? {
        if tolerateTruncation && unpacked.end.CutOff? { break; }
        return None;
      }
      hashed, total := hashed + n.value, total + |n.value|;
    }
    assert total == |dec.data| ==> hashed == dec.data;
    return Some(Summary(hashed, total));
  }

  // ── what the comparison notices ──

  ghost predicate NoGaps(pieces: seq<Piece>)
  {
    forall k | 0 <= k < |pieces| :: pieces[k].gap == []
  }

  lemma PrefixSplit(a: bytes, x: bytes, y: bytes)
    ensures a + x <= a + y <==> x <= y
  {
    if x <= y { assert (a + y)[..|a + x|] == a + x; }
    if a + x <= a + y {
      assert (a + y)[..|a + x|][|a|..] == y[..|x|];
      assert (a + x)[|a|..] == x;
    }
  }

  lemma GapHides(p: Piece, more: bytes, tail: bytes)
    requires Warc.BlankLines(p.gap) && Warc.WellFormed(p.rec) && p.gap != []
    ensures !(Warc.Print(p.rec) + more <= p.gap + tail)
  {
    assert (Warc.Print(p.rec) + more)[0] == p.rec.version[0] == Warc.WARC_SLASH[0];
    assert (p.gap + tail)[0] == p.gap[0] != Warc.WARC_SLASH[0];
  }

  /** The records one after the other are a prefix of the source exactly when no
      stray separator stands in front of any of them. */
  lemma {:induction false} GapsShow(pieces: seq<Piece>, rest: bytes)
    requires GoodPieces(pieces)
    ensures Flatten(Prints(pieces)) <= Source(pieces) + rest <==> NoGaps(pieces)
    ensures NoGaps(pieces) ==> Source(pieces) == Flatten(Prints(pieces))
    decreases |pieces|
  {
    hide Warc.Print, Warc.WellFormed, Warc.BlankLines;
    if pieces != [] {
      var p, more := pieces[0], pieces[1..];
      var printed := Warc.Print(p.rec);
      GapsShow(more, rest);
      FlattenCons(printed, Prints(more));
      Assoc(p.gap, printed + Source(more), rest);
      Assoc(printed, Source(more), rest);
      if p.gap == [] {
        assert p.gap + (printed + (Source(more) + rest)) == printed + (Source(more) + rest);
        assert p.gap + (printed + Source(more)) == printed + Source(more);
        PrefixSplit(printed, Flatten(Prints(more)), Source(more) + rest);
      } else {
        GapHides(p, Flatten(Prints(more)), printed + (Source(more) + rest));
      }
    }
  }

  lemma {:induction false} PrintsFit(pieces: seq<Piece>)
    ensures |Flatten(Prints(pieces))| <= |Source(pieces)|
  {
    hide Warc.Print;
    if pieces != [] {
      PrintsFit(pieces[1..]);
      FlattenCons(Warc.Print(pieces[0].rec), Prints(pieces[1..]));
    }
  }

  // ── the gate ──

  datatype Verdict = Skipped | Rejected | Passed(file: bytes, records: nat, dropped: nat)

  /** What becomes of an object that passed the first checks: it gets through with
      one member per record when its payload is a WARC with no stray separator in
      front of any record. */
  ghost function GatePlan(c: Coder, plan: Plan): Verdict
  {
    if Answer(plan).Rewrote? && NoGaps(plan.pieces) then Passed(FileOf(c, plan.pieces), |plan.pieces|, |plan.rest|)
    else Rejected
  }

  /** Which objects get through, and with what: one member, cut off only if the
      caller wants to salvage, and a payload that passes `GatePlan`. */
  ghost function Gate(c: Coder, orig: bytes, salvage: bool): Verdict
  {
    match ShapeOf(Walk(Checking(c), orig, 0))
    case None => Rejected
    case Some(shape) =>
      var p := Unpack(c, orig, 0);
      if MemberCount(shape) != 1 then Skipped
      else if shape.truncatedTail && !salvage then Rejected
      else if p.data == [] then Skipped
      else GatePlan(c, PlanOf(p.data, p.end, salvage))
  }

  /** Decompress both files again and compare: the content of the rewrite with as
      much of the original, byte counts, and the member count. */
  method Compare(c: Coder, orig: bytes, file: bytes, rewrite: Rewrite, truncated: bool) returns (ok: bool, length: nat)
    ensures var p, q := Unpack(c, orig, 0), Hashed(Unpack(c, file, 0), None, false);
      ok <==>
        && q.Some? && Hashed(p, Some(q.value.length), truncated) == q
        && q.value.length == rewrite.payloadBytes
        && ShapeOf(Walk(Checking(c), file, 0)) == Some(Shape(rewrite.records, false))
    ensures ok ==> length == rewrite.payloadBytes
  {
    hide Unpack, Walk, Hashed, ShapeOf;
    length := 0;
    var rewritten := Sha256GunzipLimited(c, file, None, false);
    if rewritten.None? { return false, 0; }
    var original := Sha256GunzipLimited(c, orig, Some(rewritten.value.length), truncated);
    if original.None? || original.value.length != rewritten.value.length { return false, 0; }
    if original.value.digest != rewritten.value.digest { return false, 0; }
    if rewritten.value.length != rewrite.payloadBytes { return false, 0; }
    var shape := GzShape(c, file);
    if shape.None? || shape.value.truncatedTail || shape.value.complete != rewrite.records { return false, 0; }
    return true, rewritten.value.length;
  }

  /** A rewrite passes the comparison exactly when the plan has no gaps. */
  lemma ComparisonFindsGaps(c: Coder, p: Unpacked, plan: Plan, truncated: bool)
    requires Streaming(c) && GoodPieces(plan.pieces) && p.data == Source(plan.pieces) + plan.rest
    ensures var file := FileOf(c, plan.pieces);
      var content := Flatten(Prints(plan.pieces));
      && Hashed(Unpack(c, file, 0), None, false) == Some(Summary(content, |content|))
      && ShapeOf(Walk(Checking(c), file, 0)) == Some(Shape(|plan.pieces|, false))
      && (Hashed(p, Some(|content|), truncated) == Some(Summary(content, |content|)) <==> NoGaps(plan.pieces))
      && |content| <= |p.data|
      && (NoGaps(plan.pieces) ==> p.data == content + plan.rest)
  {
    hide Unpack, Walk, ShapeOf, NoGaps, GoodPieces, Source, Prints, Flatten;
    var content := Flatten(Prints(plan.pieces));
    UnpackMembers(c, Prints(plan.pieces));
    GapsShow(plan.pieces, plan.rest);
    PrintsFit(plan.pieces);
    assert content <= p.data <==> p.data[..|content|] == content;
  }

  /** Rewrite the decompressed original and compare the result with it. */
  method RewriteAndCompare(c: Coder, orig: bytes, salvage: bool, truncated: bool, total: nat) returns (r: Verdict)
    requires Streaming(c) && total == |Unpack(c, orig, 0).data|
    ensures r == GatePlan(c, PlanOf(Unpack(c, orig, 0).data, Unpack(c, orig, 0).end, salvage))
  {
    hide Unpack, Walk, PlanOf, Hashed, FileOf, NoGaps, Flatten, Prints, Streaming, GoodPieces, Source;
    var p := Unpack(c, orig, 0);
    var src := new Payload(p.data, p.end);
    var out := new Counting();
    var rewrite := RewriteRecords(c, src, out, salvage);
    if !rewrite.Rewrote? { return Rejected; }
    ghost var plan := PlanOf(p.data, p.end, salvage);
    PlanSound(p.data, p.end, salvage);
    ComparisonFindsGaps(c, p, plan, truncated);
    var ok, length := Compare(c, orig, out.file, rewrite.rewrite, truncated);
    if !ok { return Rejected; }
    return Passed(out.file, rewrite.rewrite.records, total - length);
  }

  /** Shape, payload, rewrite, comparison. */
  method Verify(c: Coder, orig: bytes, salvage: bool) returns (r: Verdict)
    requires Streaming(c)
    ensures r == Gate(c, orig, salvage)
  {
    hide Unpack, Walk, PlanOf, Hashed, GatePlan, Streaming;
    var shape := GzShape(c, orig);
    if shape.None? { return Rejected; }
    if MemberCount(shape.value) != 1 { return Skipped; }
    var truncated := shape.value.truncatedTail;
    if truncated && !salvage { return Rejected; }
    EndOfShape(c, orig);
    var payload := Sha256GunzipLimited(c, orig, None, truncated);
    WholeHashed(Unpack(c, orig, 0), truncated);
    if payload.value.length == 0 { return Skipped; }
    r := RewriteAndCompare(c, orig, salvage, truncated, payload.value.length);
  }

  lemma EndOfShape(c: Coder, orig: bytes)
    ensures var shape := ShapeOf(Walk(Checking(c), orig, 0));
      shape.Some? ==> Unpack(c, orig, 0).end == if shape.value.truncatedTail then CutOff else Clean
  {
    hide Unpack, Walk;
    UnpackIsWalk(c, orig, 0);
  }

  lemma WholeHashed(p: Unpacked, truncated: bool)
    requires p.end == if truncated then CutOff else Clean
    ensures Hashed(p, None, truncated) == Some(Summary(p.data, |p.data|))
  {
  }
}
