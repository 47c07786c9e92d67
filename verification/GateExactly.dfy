/** Which objects get through the gate of `tywb recompress`, and with what: whole
  ones, ones whose gzip member is cut off, and ones whose last record is. */
module GateExactly {
  import opened Bytes
  import opened Codec
  import opened Gzip
  import GzipGrammar
  import opened MemberWalk
  import Warc
  import opened RewritePlan
  import Rewriter
  import opened Recompress
  import opened GateFacts
  import opened BrokenOff

  // ── one whole member ──

  /** A whole member goes by its payload alone. */
  lemma WholeMember(c: Coder, data: bytes, salvage: bool)
    requires Streaming(c)
    ensures Gate(c, MemberOf(c, data), salvage) ==
      if data == [] then Skipped else GatePlan(c, PlanOf(data, Clean, salvage))
  {
    hide Unpack, Walk, PlanOf, GatePlan, Streaming, MemberOf, ShapeOf;
    OneMember(c, data);
  }

  lemma NothingToPrint(pieces: seq<Piece>, tail: bytes)
    ensures Source(pieces) + tail == [] <==> pieces == [] && tail == []
  {
    if pieces != [] { assert |Warc.Print(pieces[0].rec)| >= |CRLFCRLF|; }
  }

  /** Any number of records with blank lines behind the last one: they get through, one
      member each, if and only if there are some and no separator stands in front of
      any of them. */
  lemma RecordsGetThrough(c: Coder, pieces: seq<Piece>, tail: bytes, salvage: bool)
    requires Streaming(c) && GoodPieces(pieces) && Warc.BlankLines(tail)
    ensures Gate(c, MemberOf(c, Source(pieces) + tail), salvage) ==
      if pieces == [] && tail == [] then Skipped
      else if pieces != [] && NoGaps(pieces) then Passed(Rewriter.FileOf(c, pieces), |pieces|, |tail|)
      else Rejected
  {
    hide PlanOf, Gate, Streaming, MemberOf, GoodPieces, NoGaps, Source, Rewriter.FileOf, Warc.BlankLines, Flatten,
      Prints;
    WholeMember(c, Source(pieces) + tail, salvage);
    NothingToPrint(pieces, tail);
    PlanOfBlankLines(tail, salvage);
    PlanComplete(pieces, tail, Clean, salvage);
    assert pieces + [] == pieces;
  }

  /** A whole member whose last record is cut off: only salvaging keeps what is in front
      of it, and only when its start can be told. */
  lemma CutRecordGetsThrough(c: Coder, pieces: seq<Piece>, gap: bytes, r: Warc.Record, k: nat, salvage: bool)
    requires Streaming(c) && GoodPieces(pieces) && Warc.BlankLines(gap) && Warc.WellFormed(r)
    requires 0 < k < |Warc.Print(r)|
    ensures Gate(c, MemberOf(c, Source(pieces) + (gap + Warc.Print(r)[..k])), salvage) ==
      if salvage && k >= |Warc.WARC_SLASH| && pieces != [] && NoGaps(pieces)
      then Passed(Rewriter.FileOf(c, pieces), |pieces|, |gap| + k) else Rejected
  {
    hide PlanOf, Gate, Streaming, MemberOf, GoodPieces, NoGaps, Source, Rewriter.FileOf, Flatten, Prints, Warc.Print,
      Warc.WellFormed, Warc.BlankLines;
    WholeMember(c, Source(pieces) + (gap + Warc.Print(r)[..k]), salvage);
    BrokenOffPlans(pieces, gap, r, k, Clean, salvage);
  }

  // ── what is hashed ──

  /** Up to `limit` bytes of what arrived; None when an error comes first. */
  function HashOf(arrived: bytes, limit: Option<nat>, toTheEnd: bool): Option<Summary>
  {
    match limit
    case Some(n) =>
      if n <= |arrived| then Some(Summary(arrived[..n], n))
      else if toTheEnd then Some(Summary(arrived, |arrived|)) else None
    case None => if toTheEnd then Some(Summary(arrived, |arrived|)) else None
  }

  /** Hashing a whole member goes over its content, hashing a cut one over what has
      arrived: that is an error unless it is tolerated or the limit comes first. */
  lemma HashOfMember(c: Coder, d: bytes, k: nat, limit: Option<nat>, tolerate: bool)
    requires Streaming(c) && 0 < k <= |MemberOf(c, d)|
    ensures var whole := k == |MemberOf(c, d)|;
      Hashed(Unpack(c, MemberOf(c, d)[..k], 0), limit, tolerate) ==
        HashOf(if whole then d else Arrived(c, d, k), limit, whole || tolerate)
  {
    hide Unpack, Streaming, MemberOf, Arrived;
    var m := MemberOf(c, d);
    if k == |m| {
      assert m[..k] == m;
      OneMember(c, d);
    } else {
      CutMember(c, d, k);
    }
  }

  /** A file that is damaged is an error even then. */
  lemma HashOfDamaged(c: Coder, contents: seq<bytes>, rest: bytes, tolerate: bool)
    requires Streaming(c) && CheckedMember(c, rest).Failed? && CheckedMember(c, rest).error != UnexpectedEof
    ensures Hashed(Unpack(c, Flatten(Members(c, contents)) + rest, 0), None, tolerate) == None
  {
    hide Streaming, CheckedMember, Members, Unpack, Walk, Flatten;
    var file := Flatten(Members(c, contents)) + rest;
    assert file[0..] == file;
    WalkUpTo(c, file, 0, contents, rest);
    UnpackIsWalk(c, file, 0);
  }

  // ── any other number of members, and what is no gzip ──

  /** Members in front of something that is none. */
  lemma {:induction false} WalkUpTo(c: Coder, file: bytes, at: nat, contents: seq<bytes>, rest: bytes)
    requires Streaming(c) && at <= |file| && file[at..] == Flatten(Members(c, contents)) + rest
    requires CheckedMember(c, rest).Failed?
    ensures var w := Walk(Checking(c), file, at);
      |w.members| == |contents| && w.stop == Some(CheckedMember(c, rest).error)
    decreases |contents|
  {
    hide Streaming, Walk, CheckedMember, MemberOf, Unpack, Members, Flatten;
    if contents == [] {
      NoMembers(c, rest);
      StopsAtOnce(c, file, at, rest);
    } else {
      var m, more := MemberOf(c, contents[0]), contents[1..];
      FirstMember(c, contents, rest);
      var tail := Flatten(Members(c, more)) + rest;
      GzipGrammar.EncodedMemberParses(c, contents[0], tail);
      SameMember(c, file, at, |m|, contents[0]);
      assert file[at + |m|..] == file[at..][|m|..] == tail;
      WalkUpTo(c, file, at + |m|, more, rest);
    }
  }

  lemma NoMembers(c: Coder, rest: bytes)
    ensures Flatten(Members(c, [])) + rest == rest
  {
  }

  lemma FirstMember(c: Coder, contents: seq<bytes>, rest: bytes)
    requires contents != []
    ensures Flatten(Members(c, contents)) + rest ==
      MemberOf(c, contents[0]) + (Flatten(Members(c, contents[1..])) + rest)
  {
    hide MemberOf;
    FlattenCons(MemberOf(c, contents[0]), Members(c, contents[1..]));
    Assoc(MemberOf(c, contents[0]), Flatten(Members(c, contents[1..])), rest);
  }

  lemma StopsAtOnce(c: Coder, file: bytes, at: nat, rest: bytes)
    requires at <= |file| && file[at..] == rest && CheckedMember(c, rest).Failed?
    ensures Walk(Checking(c), file, at) == Walked([], Some(CheckedMember(c, rest).error))
  {
    hide CheckedMember;
    CheckingReads(c, rest);
  }

  /** Several members, or none, are passed over, be they followed by the end of the file
      or by a part of one more; a file with anything else in it is refused. */
  lemma OtherNumbers(c: Coder, contents: seq<bytes>, rest: bytes, salvage: bool)
    requires Streaming(c)
    ensures |contents| != 1 ==> Gate(c, Flatten(Members(c, contents)), salvage) == Skipped
    ensures CheckedMember(c, rest) == Failed(UnexpectedEof) && contents != [] ==>
      Gate(c, Flatten(Members(c, contents)) + rest, salvage) == Skipped
    ensures CheckedMember(c, rest).Failed? && CheckedMember(c, rest).error != UnexpectedEof ==>
      Gate(c, Flatten(Members(c, contents)) + rest, salvage) == Rejected
  {
    hide Streaming, CheckedMember, Members, Unpack, Walk, PlanOf, GatePlan, Flatten;
    UnpackMembers(c, contents);
    var file := Flatten(Members(c, contents)) + rest;
    if CheckedMember(c, rest).Failed? {
      assert file[0..] == file;
      WalkUpTo(c, file, 0, contents, rest);
    }
  }

  // ── what the rewriter reports ──

  /** Records and blank lines: the number of records and their bytes, nothing salvaged. */
  lemma AnswerForRecords(pieces: seq<Piece>, tail: bytes, salvage: bool)
    requires GoodPieces(pieces) && Warc.BlankLines(tail)
    ensures Rewriter.Answer(PlanOf(Source(pieces) + tail, Clean, salvage)) ==
      if pieces == [] then Rewriter.NoRecords
      else Rewriter.Rewrote(Rewriter.Rewrite(|pieces|, |Flatten(Prints(pieces))|, false))
  {
    hide PlanOf, GoodPieces, Source, Warc.BlankLines, Flatten, Prints;
    PlanOfBlankLines(tail, salvage);
    PlanComplete(pieces, tail, Clean, salvage);
    assert pieces + [] == pieces;
  }

  /** A source that breaks off inside a record: refused, or with salvaging the same for
      the whole records in front of it, and marked as salvaged. */
  lemma AnswerForCut(pieces: seq<Piece>, gap: bytes, r: Warc.Record, k: nat, end: End, salvage: bool)
    requires GoodPieces(pieces) && Warc.BlankLines(gap) && Warc.WellFormed(r) && 0 < k < |Warc.Print(r)|
    ensures Rewriter.Answer(PlanOf(Source(pieces) + (gap + Warc.Print(r)[..k]), end, salvage)) ==
      if end == Clean && k < |Warc.WARC_SLASH| then Rewriter.Refused(NoVersionLine)
      else if end == Broken || !salvage then Rewriter.Refused(RanOut)
      else if pieces == [] then Rewriter.NoRecords
      else Rewriter.Rewrote(Rewriter.Rewrite(|pieces|, |Flatten(Prints(pieces))|, true))
  {
    hide PlanOf, GoodPieces, Source, Warc.Print, Warc.WellFormed, Warc.BlankLines, Flatten, Prints;
    BrokenOffPlans(pieces, gap, r, k, end, salvage);
  }

  // ── one member, cut off ──

  /** How much of `d` a reader gets when the first `k` bytes of its member are there. */
  function Arrived(c: Coder, d: bytes, k: nat): bytes
  {
    if k < 10 then []
    else if k - 10 < |Deflate(c, d)| then Inflate(c, Deflate(c, d)[..k - 10]).out
    else d
  }

  lemma ArrivedIsPrefix(c: Coder, d: bytes, k: nat)
    requires Streaming(c)
    ensures Arrived(c, d, k) <= d
  {
    assert RoundTrips(c, d);
    hide Streaming;
    if 10 <= k && k - 10 < |Deflate(c, d)| { InflateCut(c, Deflate(c, d), k - 10); }
  }

  /** More of the member, more of its content. */
  lemma ArrivedGrows(c: Coder, d: bytes, j: nat, k: nat)
    requires Streaming(c) && j <= k
    ensures Arrived(c, d, j) <= Arrived(c, d, k)
  {
    assert RoundTrips(c, d);
    ArrivedIsPrefix(c, d, j);
    if 10 <= j && k - 10 < |Deflate(c, d)| {
      var s := Deflate(c, d)[..k - 10];
      InflateCut(c, Deflate(c, d), j - 10);
      assert s[..j - 10] == Deflate(c, d)[..j - 10];
      assert Stable(c, s, j - 10);
    }
  }

  lemma HeaderOfMember(c: Coder, d: bytes)
    ensures ReadHeader(MemberOf(c, d)) == Body(10)
  {
    hide Trailer;
    var m := MemberOf(c, d);
    assert m[3] == 0 && FIXED_HEADER <= m;
  }

  lemma BytesBehindHeader(c: Coder, d: bytes, k: nat)
    requires 10 <= k <= |MemberOf(c, d)|
    ensures MemberOf(c, d)[..k][10..] ==
      if k - 10 < |Deflate(c, d)| then Deflate(c, d)[..k - 10]
      else Deflate(c, d) + Trailer(c, d)[..k - 10 - |Deflate(c, d)|]
  {
    hide Trailer;
  }

  /** A cut member hands out what has arrived of its content. */
  lemma DeliveredOfCut(c: Coder, d: bytes, k: nat)
    requires Streaming(c) && k < |MemberOf(c, d)|
    ensures Delivered(c, MemberOf(c, d)[..k]) == Arrived(c, d, k)
  {
    assert RoundTrips(c, d);
    hide Streaming, ReadHeader, MemberOf, Trailer;
    HeaderOfMember(c, d);
    ReadHeaderCut(MemberOf(c, d), k);
    if 10 <= k {
      BytesBehindHeader(c, d, k);
      if k - 10 >= |Deflate(c, d)| { InflateIgnoresTail(c, Deflate(c, d), Trailer(c, d)[..k - 10 - |Deflate(c, d)|]); }
    }
  }

  /** What gate and rewriter see of a member of which `k` bytes are there. */
  lemma CutMember(c: Coder, d: bytes, k: nat)
    requires Streaming(c) && 0 < k < |MemberOf(c, d)|
    ensures Unpack(c, MemberOf(c, d)[..k], 0) == Unpacked(Arrived(c, d, k), CutOff)
    ensures ShapeOf(Walk(Checking(c), MemberOf(c, d)[..k], 0)) == Some(Shape(0, true))
  {
    var m := MemberOf(c, d);
    var o := m[..k];
    assert m + [] == m && o[0..] == o;
    hide Streaming, MemberOf, CheckedMember, Delivered, Arrived;
    GzipGrammar.EncodedMemberParses(c, d, []);
    CheckedNeedsExactlyItsBytes(c, m, k);
    DeliveredOfCut(c, d, k);
    CheckingReads(c, o);
  }

  /** The number of records that are whole in the first `n` bytes. */
  function Whole(pieces: seq<Piece>, n: nat): (w: nat)
    ensures w <= |pieces|
  {
    if pieces == [] || n < |Warc.Print(pieces[0].rec)| then 0
    else 1 + Whole(pieces[1..], n - |Warc.Print(pieces[0].rec)|)
  }

  /** `out` is the first `w` records and a part of the next one. */
  ghost predicate ComesApart(pieces: seq<Piece>, out: bytes, w: nat)
  {
    && w <= |pieces| && Flatten(Prints(pieces[..w])) <= out
    && var part := out[|Flatten(Prints(pieces[..w]))|..];
       if w == |pieces| then part == []
       else |part| < |Warc.Print(pieces[w].rec)| && part == Warc.Print(pieces[w].rec)[..|part|]
  }

  lemma FirstComesOff(pieces: seq<Piece>, out: bytes, w: nat)
    requires pieces != [] && Warc.Print(pieces[0].rec) <= out && w < |pieces|
    requires ComesApart(pieces[1..], out[|Warc.Print(pieces[0].rec)|..], w)
    ensures ComesApart(pieces, out, w + 1)
  {
    hide Warc.Print, Flatten, Prints;
    var p, more := Warc.Print(pieces[0].rec), pieces[1..];
    assert pieces[..w + 1] == [pieces[0]] + more[..w];
    PrintsCons(pieces[0], more[..w]);
    FlattenCons(p, Prints(more[..w]));
    var f := Flatten(Prints(more[..w]));
    assert out == p + out[|p|..];
    assert p + f <= out by { PrefixSplit(p, f, out[|p|..]); }
    assert out[|p + f|..] == out[|p|..][|f|..];
  }

  lemma PrintsCons(p: Piece, more: seq<Piece>)
    ensures Prints([p] + more) == [Warc.Print(p.rec)] + Prints(more)
  {
    hide Warc.Print;
    assert ([p] + more)[1..] == more;
  }

  lemma NoneWhole(pieces: seq<Piece>, out: bytes)
    requires out <= Flatten(Prints(pieces)) && (pieces == [] || |out| < |Warc.Print(pieces[0].rec)|)
    ensures ComesApart(pieces, out, 0)
  {
    hide Warc.Print;
    assert Prints(pieces[..0]) == [];
    if pieces != [] {
      FlattenCons(Warc.Print(pieces[0].rec), Prints(pieces[1..]));
      assert out == Flatten(Prints(pieces))[..|out|] == Warc.Print(pieces[0].rec)[..|out|];
      assert out[0..] == out;
    }
  }

  lemma {:induction false} PrefixComesApart(pieces: seq<Piece>, out: bytes)
    requires out <= Flatten(Prints(pieces))
    ensures ComesApart(pieces, out, Whole(pieces, |out|))
    decreases |pieces|
  {
    hide Warc.Print, ComesApart;
    if pieces == [] || |out| < |Warc.Print(pieces[0].rec)| {
      NoneWhole(pieces, out);
    } else {
      var p, more := Warc.Print(pieces[0].rec), pieces[1..];
      FlattenCons(p, Prints(more));
      assert p <= out by { assert out == (p + Flatten(Prints(more)))[..|out|]; assert out[..|p|] == p; }
      var tail := out[|p|..];
      assert out == p + tail;
      PrefixSplit(p, tail, Flatten(Prints(more)));
      PrefixComesApart(more, tail);
      FirstComesOff(pieces, out, Whole(more, |tail|));
    }
  }

  lemma SomeArePieces(pieces: seq<Piece>, w: nat)
    requires GoodPieces(pieces) && NoGaps(pieces) && w <= |pieces|
    ensures GoodPieces(pieces[..w]) && NoGaps(pieces[..w])
    ensures w < |pieces| ==> Warc.WellFormed(pieces[w].rec)
  {
    hide Warc.WellFormed, Warc.BlankLines;
  }

  /** The plan of the first bytes of some records, of a source that is cut off there. */
  lemma CutPlan(pieces: seq<Piece>, out: bytes, salvage: bool)
    requires GoodPieces(pieces) && NoGaps(pieces) && out <= Flatten(Prints(pieces))
    ensures var some := pieces[..Whole(pieces, |out|)];
      && |Flatten(Prints(some))| <= |out|
      && PlanOf(out, CutOff, salvage) == Plan(some, out[|Flatten(Prints(some))|..],
           if salvage then Salvaged else Aborted(RanOut))
  {
    var w := Whole(pieces, |out|);
    var some := pieces[..w];
    PrefixComesApart(pieces, out);
    hide PlanOf, GoodPieces, NoGaps, Source, Warc.Print, Warc.WellFormed, Flatten, Prints, Whole;
    SomeArePieces(pieces, w);
    GapsShow(some, []);
    var whole := Flatten(Prints(some));
    var part := out[|whole|..];
    assert out == whole + part;
    if w == |pieces| {
      assert out == whole;
      assert [] + part == part && Source(some) + part == out;
      UnfinishedLinePlans(some, [], part, CutOff, salvage);
    } else {
      assert [] + part == part;
      BrokenOffPlans(some, [], pieces[w].rec, |part|, CutOff, salvage);
    }
  }

  /** The gate, for an object that is cut off inside its only member. */
  lemma GateOfCut(c: Coder, o: bytes, out: bytes, some: seq<Piece>, rest: bytes, salvage: bool)
    requires ShapeOf(Walk(Checking(c), o, 0)) == Some(Shape(0, true)) && Unpack(c, o, 0) == Unpacked(out, CutOff)
    requires PlanOf(out, CutOff, salvage) == Plan(some, rest, if salvage then Salvaged else Aborted(RanOut))
    requires NoGaps(some)
    ensures Gate(c, o, salvage) ==
      if !salvage then Rejected else if out == [] then Skipped else if some == [] then Rejected
      else Passed(Rewriter.FileOf(c, some), |some|, |rest|)
  {
    hide Unpack, Walk, ShapeOf, PlanOf, NoGaps, Rewriter.FileOf, Flatten, Prints;
  }

  /** What salvaging makes of the first bytes `out` of the content of a member. */
  ghost function Salvage(c: Coder, pieces: seq<Piece>, out: bytes): Verdict
    requires out <= Flatten(Prints(pieces))
  {
    PrefixComesApart(pieces, out);
    var some := pieces[..Whole(pieces, |out|)];
    if out == [] then Skipped else if some == [] then Rejected
    else Passed(Rewriter.FileOf(c, some), |some|, |out| - |Flatten(Prints(some))|)
  }

  /** An object whose gzip member is cut off, of records without separators in front of
      them: nothing becomes of it unless the caller wants to salvage; then exactly the
      records get through that are whole in what has arrived, if there are any. */
  lemma CutMemberGetsThrough(c: Coder, pieces: seq<Piece>, k: nat, salvage: bool)
    requires Streaming(c) && GoodPieces(pieces) && NoGaps(pieces)
    requires 0 < k < |MemberOf(c, Flatten(Prints(pieces)))|
    ensures var d := Flatten(Prints(pieces));
      && Arrived(c, d, k) <= d
      && Gate(c, MemberOf(c, d)[..k], salvage) == if salvage then Salvage(c, pieces, Arrived(c, d, k)) else Rejected
  {
    var d := Flatten(Prints(pieces));
    hide Unpack, Walk, ShapeOf, PlanOf, Gate, Streaming, MemberOf, GoodPieces, NoGaps, Rewriter.FileOf, Arrived,
      Flatten, Prints, Whole, ComesApart;
    CutMember(c, d, k);
    ArrivedIsPrefix(c, d, k);
    var out := Arrived(c, d, k);
    var w := Whole(pieces, |out|);
    SomeArePieces(pieces, w);
    CutPlan(pieces, out, salvage);
    GateOfCut(c, MemberOf(c, d)[..k], out, pieces[..w], out[|Flatten(Prints(pieces[..w]))|..], salvage);
  }
}
