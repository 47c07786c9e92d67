/** From printing to indexing: records printed one after the other into a single gzip
  member come out of `tywb recompress` and the indexer as what they were. */
module EndToEnd {
  import opened Bytes
  import opened Codec
  import opened Gzip
  import opened MemberWalk
  import Warc
  import opened WarcReader
  import opened WarcReading
  import opened WarcBuilder
  import opened RewritePlan
  import opened Framing
  import opened Recompress
  import opened GateFacts
  import opened GateExactly
  import opened Ingest
  import Rewriter

  /** The records printed for some orders, with nothing between them. */
  function Printed(orders: seq<Order>): seq<Piece>
  {
    seq(|orders|, i requires 0 <= i < |orders| => Piece([], RecordFor(orders[i])))
  }

  ghost predicate GoodOrders(orders: seq<Order>)
  {
    forall k | 0 <= k < |orders| :: Printable(orders[k]) && Warc.WARC_SLASH <= orders[k].version
  }

  lemma PrintedAreGood(orders: seq<Order>)
    requires GoodOrders(orders)
    ensures GoodPieces(Printed(orders)) && NoGaps(Printed(orders)) && AllPlain(Printed(orders))
  {
    hide Printable, RecordFor, Warc.WellFormed, PlainRecord, Takes, ReadRecord, Readable, ReadingOf, Warc.Print;
    forall k | 0 <= k < |orders|
      ensures Warc.WellFormed(Printed(orders)[k].rec) && PlainRecord(Printed(orders)[k].rec)
    {
      PrintedIsWellFormed(orders[k]);
      PrintedIsPlain(orders[k]);
    }
  }

  lemma PrintedIsPlain(o: Order)
    requires Printable(o) && Warc.WellFormed(RecordFor(o))
    ensures PlainRecord(RecordFor(o))
  {
    hide Printable, Warc.WellFormed, PlainRecord, Readable, ReadRecord, Warc.Print, RecordFor, ReadBack;
    var r := RecordFor(o);
    var s := Warc.Print(r) + [];
    assert s[0..] == s;
    PrintedReadsBack(o, 0);
    ReadsRecord(s, 0, r, []);
    PlainIsTaken(r, []);
    PrintedBlock(o);
  }

  lemma PrintedBlock(o: Order)
    requires Printable(o)
    ensures ReadBack(o, 0).block == RecordFor(o).block && ReadBack(o, 0).used == |Warc.Print(RecordFor(o))|
  {
    hide Printable, Warc.Print;
  }

  /** What the indexer finds in member `k` of the rewrite is what was ordered. */
  ghost predicate Finds(l: Located, m: Found, o: Order)
    requires Printable(o)
  {
    l.offset == m.start && l.rec == ReadBack(o, 0)
  }

  lemma MemberFinds(m: Found, o: Order)
    requires Printable(o) && m.data == Warc.Print(RecordFor(o))
    ensures Sift([m]) == Sifted([Located(m.start, ReadBack(o, 0))], 0, 0)
  {
    hide Printable, Warc.Print, RecordFor, ReadBack, Readable, ReadingOf, Flatten;
    PrintedReadsBack(o, 0);
    NoGapInFront(m.data);
    FoundMember(m, [], RecordFor(o), []);
  }

  lemma NoGapInFront(s: bytes)
    ensures s == Flatten([]) + (s + []) && |Flatten([])| == 0
  {
  }

  ghost predicate AllAsOrdered(s: Sifted, members: seq<Found>, orders: seq<Order>)
    requires GoodOrders(orders)
  {
    && s.skipped == 0 && s.errors == 0 && |s.found| == |members| == |orders|
    && forall k | 0 <= k < |orders| :: Finds(s.found[k], members[k], orders[k])
  }

  lemma {:induction false} MembersFind(members: seq<Found>, orders: seq<Order>)
    requires GoodOrders(orders) && HoldRecords(members, Printed(orders))
    ensures AllAsOrdered(Sift(members), members, orders)
    decreases |orders|
  {
    hide Printable, Warc.Print, RecordFor, ReadBack, SiftOne;
    if orders != [] {
      var n := |orders| - 1;
      assert Printed(orders)[..n] == Printed(orders[..n]);
      MembersFind(members[..n], orders[..n]);
      assert HoldsRecord(members[n], Printed(orders)[n].rec);
      MemberFinds(members[n], orders[n]);
      SiftConcat(members[..n], [members[n]]);
      assert members == members[..n] + [members[n]];
    }
  }

  /** The whole way: the object gets through the gate, salvaging or not, with nothing
      dropped; and the indexer finds in its rewrite exactly the records that were printed,
      each at the start of its own member, their fields in normal form, their blocks
      unchanged, and nothing is skipped or an error. */
  lemma PrintedComesBack(c: Coder, orders: seq<Order>, salvage: bool)
    requires Streaming(c) && GoodOrders(orders) && orders != []
    ensures var file := Rewriter.FileOf(c, Printed(orders));
      var w := Walk(Trusting(c), file, 0);
      && Gate(c, MemberOf(c, Flatten(Prints(Printed(orders)))), salvage) == Passed(file, |orders|, 0)
      && w.stop == None && AllAsOrdered(Sift(w.members), w.members, orders)
  {
    hide Gate, Walk, Streaming, GoodOrders, GoodPieces, NoGaps, AllPlain, PlanOf, MemberOf, Flatten, Prints, Source,
      HoldRecords, AllAsOrdered, Sift, AllFound, Rewriter.FileOf;
    var pieces := Printed(orders);
    PrintedAreGood(orders);
    GapsShow(pieces, []);
    assert Source(pieces) + [] == Flatten(Prints(pieces));
    RecordsGetThrough(c, pieces, [], salvage);
    PlanOfPrints(pieces, salvage);
    RewrittenFileIngests(c, Flatten(Prints(pieces)), Clean, salvage);
    MembersFind(Walk(Trusting(c), Rewriter.FileOf(c, pieces), 0).members, orders);
  }
}
