/** The indexer's two ways through an object: record by record through a plain
  `.warc`, member by member through a `.warc.gz`. And the framing theorem: what
  the rewriter wrote comes back through the second one record for record. */
module Ingest {
  import opened Bytes
  import opened Text
  import opened Codec
  import Gzip
  import opened MemberWalk
  import Warc
  import opened WarcReader
  import opened WarcReading
  import opened WarcRefusals
  import WarcHeader
  import opened RewritePlan
  import opened Framing
  import GzSplitter
  import Rewriter

  // ── plain ──

  ghost predicate AllReported(ws: seq<WarcRecord>, ps: seq<Parsed>)
  {
    |ws| == |ps| && forall k | 0 <= k < |ws| :: Reports(ws[k], ps[k])
  }

  /** An iteration that has yielded `done` and still has `tail` before it. */
  ghost predicate Goes(whole: Iteration, done: seq<Parsed>, tail: Iteration)
  {
    whole == Iteration(done + tail.records, tail.last)
  }

  lemma GoesOn(whole: Iteration, done: seq<Parsed>, s: bytes, at: nat)
    requires at <= |s| && Goes(whole, done, Iterate(s, at))
    ensures var o := ReadRecord(s, at);
      if o.Record? then at < o.rec.used <= |s| && Goes(whole, done + [o.rec], Iterate(s, o.rec.used))
      else whole == Iteration(done, o)
  {
    hide ReadRecord;
    var o := ReadRecord(s, at);
    if o.Record? {
      var tail := Iterate(s, o.rec.used);
      assert done + ([o.rec] + tail.records) == done + [o.rec] + tail.records;
    } else {
      assert done + [] == done;
    }
  }

  /** Every record of a plain file, up to its end or the first error. */
  method IngestPlain(data: bytes) returns (records: seq<WarcRecord>, errors: nat)
    ensures AllReported(records, Iterate(data, 0).records)
    ensures errors == if Iterate(data, 0).last.Failure? then 1 else 0
  {
    hide ReadRecord, Reports;
    var iter := new WarcIter(data);
    ghost var whole, done: seq<Parsed> := Iterate(data, 0), [];
    records, errors := [], 0;
    assert done + whole.records == whole.records;
    while true
      invariant fresh(iter) && fresh(iter.reader) && iter.Valid() && !iter.done && iter.reader.data == data
      invariant iter.reader.offset <= |data| && Goes(whole, done, Iterate(data, iter.reader.offset))
      invariant AllReported(records, done) && errors == 0
      decreases |data| - iter.reader.offset
    {
      GoesOn(whole, done, data, iter.reader.offset);
      ghost var o := ReadRecord(data, iter.reader.offset);
      var item := iter.Next();
      if item.None? { return; }
      if item.value.Err? { return records, 1; }
      records, done := records + [item.value.value.value], done + [o.rec];
    }
  }

  // ── gzip ──

  /** A record with the compressed offset of the member it was read from. */
  datatype Entry = Entry(offset: nat, record: WarcRecord)

  datatype Located = Located(offset: nat, rec: Parsed)

  /** What the indexer has after some members: one record at most from each. */
  datatype Sifted = Sifted(found: seq<Located>, skipped: nat, errors: nat)

  function SiftOne(s: Sifted, m: Found): Sifted
  {
    match ReadRecord(m.data, 0)
    case NoRecord => s.(skipped := s.skipped + 1)
    case Failure(_) => s.(errors := s.errors + 1)
    case Record(p) => s.(found := s.found + [Located(m.start, p)])
  }

  function Sift(members: seq<Found>): Sifted
  {
    if members == [] then Sifted([], 0, 0) else SiftOne(Sift(members[..|members| - 1]), members[|members| - 1])
  }

  lemma SiftSnoc(members: seq<Found>, m: Found)
    ensures Sift(members + [m]) == SiftOne(Sift(members), m)
  {
    hide SiftOne;
    assert (members + [m])[..|members|] == members;
  }

  /** Members are accounted for one by one, in order. */
  lemma {:induction false} SiftConcat(a: seq<Found>, b: seq<Found>)
    ensures var x, y, both := Sift(a), Sift(b), Sift(a + b);
      both == Sifted(x.found + y.found, x.skipped + y.skipped, x.errors + y.errors)
    decreases |b|
  {
    hide SiftOne, Sift;
    if b == [] {
      assert a + b == a;
      NoneSiftedYet();
      assert Sift(a).found + [] == Sift(a).found;
    } else {
      var n := |b| - 1;
      SiftConcat(a, b[..n]);
      assert a + b == (a + b[..n]) + [b[n]] && b == b[..n] + [b[n]];
      SiftSnoc(a + b[..n], b[n]);
      SiftSnoc(b[..n], b[n]);
      SiftOneBehind(Sift(a), Sift(b[..n]), b[n]);
    }
  }

  lemma NoneSiftedYet()
    ensures Sift([]) == Sifted([], 0, 0)
  {
  }

  lemma SiftOneBehind(x: Sifted, y: Sifted, m: Found)
    ensures var z := SiftOne(y, m);
      SiftOne(Sifted(x.found + y.found, x.skipped + y.skipped, x.errors + y.errors), m) ==
        Sifted(x.found + z.found, x.skipped + z.skipped, x.errors + z.errors)
  {
    hide ReadRecord;
    match ReadRecord(m.data, 0)
    case Record(p) => assert x.found + (y.found + [Located(m.start, p)]) == x.found + y.found + [Located(m.start, p)];
    case _ =>
  }

  lemma SiftSingle(m: Found)
    ensures Sift([m]) == SiftOne(Sifted([], 0, 0), m)
  {
    hide SiftOne;
    assert [m][..0] == [] && Sift([]) == Sifted([], 0, 0);
  }

  /** A member with nothing but lines of white space is skipped. */
  lemma BlankMember(m: Found, gap: seq<bytes>)
    requires m.data == Flatten(gap) && forall k | 0 <= k < |gap| :: SkippedLine(gap[k])
    ensures Sift([m]) == Sifted([], 1, 0)
  {
    hide SkippedLine, ReadRecord, Flatten;
    assert m.data[0..] == m.data;
    NothingThere(m.data, 0, gap);
    SiftSingle(m);
  }

  /** A member whose first other line is no version line is an error. */
  lemma RefusedMember(m: Found, gap: seq<bytes>, l: bytes, rest: bytes)
    requires m.data == Flatten(gap) + (l + rest) && Warc.IsLine(l)
    requires forall k | 0 <= k < |gap| :: SkippedLine(gap[k])
    requires ValidUtf8(l) ==> Trim(l) != [] && WarcHeader.ParseVersion(Trim(l)) == None
    ensures Sift([m]) == Sifted([], 0, 1)
  {
    hide SkippedLine, ReadRecord, Flatten, Warc.IsLine, ValidUtf8, Trim, WarcHeader.ParseVersion;
    assert m.data[0..] == m.data;
    RefusesVersion(m.data, 0, gap, l, rest);
    SiftSingle(m);
  }

  /** A member with a record the parser reads is found at its start, whatever stands
      behind the record. */
  lemma FoundMember(m: Found, gap: seq<bytes>, r: Warc.Record, rest: bytes)
    requires m.data == Flatten(gap) + (Warc.Print(r) + rest) && Readable(r)
    requires forall k | 0 <= k < |gap| :: SkippedLine(gap[k])
    ensures Sift([m]) == Sifted([Located(m.start, ReadingOf(r, |Flatten(gap)|))], 0, 0)
  {
    hide SkippedLine, ReadRecord, Flatten, Readable, ReadingOf, Warc.Print;
    assert m.data[0..] == m.data;
    ItemStands(m.data, 0, Item(gap, r), rest);
    SiftSingle(m);
  }

  /** The loop's counters and list agree with `s`. */
  ghost predicate Tallies(out: seq<Entry>, skipped: nat, errors: nat, s: Sifted)
  {
    && skipped == s.skipped && errors == s.errors && |out| == |s.found|
    && forall k | 0 <= k < |out| :: out[k].offset == s.found[k].offset && Reports(out[k].record, s.found[k].rec)
  }

  /** Read the first record of a member, if there is one, and account for it. */
  method TakeMember(m: Found, out: seq<Entry>, skipped: nat, errors: nat, ghost s: Sifted)
    returns (out': seq<Entry>, skipped': nat, errors': nat)
    requires Tallies(out, skipped, errors, s)
    ensures Tallies(out', skipped', errors', SiftOne(s, m))
  {
    hide ReadRecord, Reports;
    out', skipped', errors' := out, skipped, errors;
    var rdr := new WarcReader(m.data);
    var r := rdr.NextRecord();
    if r.Err? { errors' := errors + 1; }
    else if r.value.None? { skipped' := skipped + 1; }
    else { out' := out + [Entry(m.start, r.value.value)]; }
  }

  /** Every member of a gzip file, up to its end or the first member that is not one. */
  method IngestGz(gz: GzSplitter.GzSplitter) returns (out: seq<Entry>, skipped: nat, errors: nat)
    requires gz.Valid()
    modifies gz, gz.source
    ensures var w := Walk(Trusting(gz.coder), gz.source.data, old(gz.Pos()));
      && errors >= (if w.stop.Some? then 1 else 0)
      && Tallies(out, skipped, errors - (if w.stop.Some? then 1 else 0), Sift(w.members))
  {
    hide Continues, Gzip.ParseMember, Walk, Sift, SiftOne, Tallies, Streaming, Read, Trusting;
    ghost var p, file := Trusting(gz.coder), gz.source.data;
    ghost var whole, members: seq<Found> := Walk(p, file, gz.Pos()), [];
    out, skipped, errors := [], 0, 0;
    WalkStarts(whole);
    SiftNothing();
    while true
      invariant gz.Valid()
      invariant Continues(whole, members, Walk(p, file, gz.Pos()))
      invariant Tallies(out, skipped, errors, Sift(members))
      decreases |file| - gz.Pos()
    {
      WalkStep(p, file, gz.Pos(), whole, members);
      TrustingReads(gz.coder, file[gz.Pos()..]);
      var next := gz.NextMember();
      if next.Err? { return out, skipped, errors + 1; }
      if next.value.None? { return; }
      var m := next.value.value;
      SiftSnoc(members, m);
      out, skipped, errors := TakeMember(m, out, skipped, errors, Sift(members));
      members := members + [m];
    }
  }

  lemma SiftNothing()
    ensures Tallies([], 0, 0, Sift([]))
  {
  }

  // ── the framing theorem ──

  /** Member `m` holds record `r`, whole and alone. */
  ghost predicate HoldsRecord(m: Found, r: Warc.Record)
  {
    m.data == Warc.Print(r)
  }

  /** From such a member the parser takes that record to the end of the member if and
      only if it is plain; then there is nothing more in it. */
  lemma MemberReads(m: Found, r: Warc.Record)
    requires HoldsRecord(m, r) && Warc.WellFormed(r)
    ensures Takes(ReadRecord(m.data, 0), r.block, |m.data|) <==> PlainRecord(r)
    ensures PlainRecord(r) ==> Readable(r) && ReadRecord(m.data, 0) == Record(ReadingOf(r, 0))
    ensures ReadRecord(m.data, |m.data|) == NoRecord
  {
    hide PlainRecord, Readable, ReadRecord, Warc.WellFormed, Warc.Print, Takes, ReadingOf;
    assert m.data == Warc.Print(r) + [];
    PlainIsTaken(r, []);
    NoRecordAtEnd(m.data);
  }

  ghost predicate HoldRecords(members: seq<Found>, pieces: seq<Piece>)
  {
    |members| == |pieces| && forall k | 0 <= k < |members| :: HoldsRecord(members[k], pieces[k].rec)
  }

  ghost predicate AllPlain(pieces: seq<Piece>)
  {
    forall k | 0 <= k < |pieces| :: PlainRecord(pieces[k].rec)
  }

  /** One entry per record, located at its member, with its block and to the end of
      the member; nothing skipped, no error. */
  ghost predicate AllFound(s: Sifted, members: seq<Found>, pieces: seq<Piece>)
    requires |members| == |pieces|
  {
    && s.skipped == 0 && s.errors == 0 && |s.found| == |pieces|
    && forall k | 0 <= k < |pieces| ::
         s.found[k].offset == members[k].start && Takes(Record(s.found[k].rec), pieces[k].rec.block, |members[k].data|)
  }

  lemma NoneSifted()
    ensures AllFound(Sift([]), [], [])
  {
  }

  /** One more member adds its record, or spoils it. */
  lemma OneMoreFound(s: Sifted, members: seq<Found>, pieces: seq<Piece>, m: Found, p: Piece)
    requires |members| == |pieces|
    requires Takes(ReadRecord(m.data, 0), p.rec.block, |m.data|) <==> PlainRecord(p.rec)
    ensures AllFound(SiftOne(s, m), members + [m], pieces + [p]) <==> AllFound(s, members, pieces) && PlainRecord(p.rec)
  {
    hide ReadRecord, PlainRecord;
    var o := ReadRecord(m.data, 0);
    if o.Record? {
      var t := SiftOne(s, m);
      assert forall k | 0 <= k < |s.found| :: t.found[k] == s.found[k];
      if AllFound(t, members + [m], pieces + [p]) {
        forall k | 0 <= k < |pieces|
          ensures s.found[k].offset == members[k].start &&
            Takes(Record(s.found[k].rec), pieces[k].rec.block, |members[k].data|)
        {
          assert t.found[k] == s.found[k] && (members + [m])[k] == members[k] && (pieces + [p])[k] == pieces[k];
        }
        assert t.found[|pieces|].rec == o.rec;
      }
    }
  }

  lemma {:induction false} SiftExactly(members: seq<Found>, pieces: seq<Piece>)
    requires HoldRecords(members, pieces) && forall k | 0 <= k < |pieces| :: Warc.WellFormed(pieces[k].rec)
    ensures AllFound(Sift(members), members, pieces) <==> AllPlain(pieces)
    decreases |members|
  {
    hide AllFound, AllPlain, SiftOne, HoldsRecord, PlainRecord, Warc.WellFormed, ReadRecord, Takes;
    if members == [] {
      NoneSifted();
      NonePlain();
    } else {
      var n := |members| - 1;
      SiftExactly(members[..n], pieces[..n]);
      MemberReads(members[n], pieces[n].rec);
      OneMoreFound(Sift(members[..n]), members[..n], pieces[..n], members[n], pieces[n]);
      OneMorePlain(pieces[..n], pieces[n]);
      assert members[..n] + [members[n]] == members && pieces[..n] + [pieces[n]] == pieces;
    }
  }

  lemma NonePlain()
    ensures AllPlain([])
  {
  }

  lemma OneMorePlain(pieces: seq<Piece>, p: Piece)
    ensures AllPlain(pieces + [p]) <==> AllPlain(pieces) && PlainRecord(p.rec)
  {
    hide PlainRecord;
    var all := pieces + [p];
    assert all[|pieces|] == p && forall k | 0 <= k < |pieces| :: all[k] == pieces[k];
  }

  /** The framing theorem: a rewritten file has one member per record, which holds the
      record and nothing else; and splitter and parser together find every block
      unchanged, nothing skipped and no error, if and only if all records are plain. */
  lemma RewrittenFileIngests(c: Coder, s: bytes, end: End, salvage: bool)
    requires Streaming(c)
    ensures var pieces := PlanOf(s, end, salvage).pieces;
      var w := Walk(Trusting(c), Rewriter.FileOf(c, pieces), 0);
      && w.stop == None && HoldRecords(w.members, pieces)
      && (AllFound(Sift(w.members), w.members, pieces) <==> AllPlain(pieces))
  {
    hide PlanOf, PlainRecord, Walk, AllFound, Sift, Warc.WellFormed, Warc.Print;
    var pieces := PlanOf(s, end, salvage).pieces;
    PlanSound(s, end, salvage);
    GzSplitter.SplitInvertsEncode(c, Trusting(c), Prints(pieces));
    var w := Walk(Trusting(c), Rewriter.FileOf(c, pieces), 0);
    MembersHoldRecords(w.members, pieces);
    SiftExactly(w.members, pieces);
  }

  lemma MembersHoldRecords(members: seq<Found>, pieces: seq<Piece>)
    requires Contents(members) == Prints(pieces)
    ensures HoldRecords(members, pieces)
  {
    hide Warc.Print, Contents, Prints;
    ContentsCount(members);
    forall k | 0 <= k < |members| ensures HoldsRecord(members[k], pieces[k].rec) {
      ContentsAt(members, k);
      PrintsAt(pieces, k);
    }
  }
}
