/** What the skip list does, said without its own two questions: which URLs it keeps
  out, which rows the purge takes, and what the table holds after a run. */
module SkipEffect {
  import opened Bytes
  import opened Text
  import opened SurtHost
  import opened CdxStore
  import opened HostFilter
  import opened SkipList

  // ── one URL ──

  /** Kept out: what stands for the host is a configured domain or a name below one, or
      some pattern matches the URL. */
  lemma UrlListedIs(cfg: Config, u: Url)
    requires UrlGood(u) && PlainConfig(cfg)
    ensures UrlListed(cfg, UrlText(u)) <==>
      || (exists i | 0 <= i < |cfg.domains| :: HostCovered(SeenHost(u), DomainOf(cfg.domains[i])))
      || (cfg.hasPatterns && cfg.pattern(UrlText(u)))
  {
    hide UrlGood, UrlText, ListedBy, PlainDomain, DomainOf, HostCovered, SeenHost, Refused;
    forall i | 0 <= i < |cfg.domains|
      ensures ListedBy(UrlText(u), cfg.domains[i]) <==> HostCovered(SeenHost(u), DomainOf(cfg.domains[i]))
    {
      ListedIs(u, cfg.domains[i]);
    }
    RefusedIs(cfg, UrlText(u), u);
  }

  /** A URL without `://` is only asked about by pattern. */
  lemma NoSchemeNoHost(cfg: Config, url: bytes)
    requires forall i: nat :: !At(url, i, SCHEME_END)
    ensures UrlListed(cfg, url) <==> cfg.hasPatterns && cfg.pattern(url)
  {
    NoScheme(url);
    hide FindScheme, HostCovered, Lower, Trim;
  }

  lemma {:induction false} NoScheme(url: bytes)
    requires forall i: nat :: !At(url, i, SCHEME_END)
    ensures FindScheme(url) == None
  {
    if |url| >= 3 {
      assert !At(url, 0, SCHEME_END);
      forall i: nat ensures !At(url[1..], i, SCHEME_END) {
        assert !At(url, i + 1, SCHEME_END);
        if i + 3 <= |url[1..]| { assert url[1..][i..i + 3] == url[i + 1..i + 4]; }
      }
      NoScheme(url[1..]);
    }
  }

  // ── the filter ──

  lemma FilteredOne(cfg: Config, r: Record)
    ensures Filtered(cfg, [r]) == if UrlListed(cfg, r.row.original) then [] else [r]
  {
    hide UrlListed;
    assert [] + [r] == [r];
    FilteredOneMore(cfg, [], r);
    assert Filtered(cfg, []) == [];
  }

  /** Records are kept or left out one by one, in order. */
  lemma {:induction false} FilteredConcat(cfg: Config, a: seq<Record>, b: seq<Record>)
    ensures Filtered(cfg, a + b) == Filtered(cfg, a) + Filtered(cfg, b)
    decreases |b|
  {
    hide UrlListed;
    if b == [] {
      assert a + b == a && Filtered(cfg, b) == [];
      assert Filtered(cfg, a) + [] == Filtered(cfg, a);
    } else {
      var n := |b| - 1;
      FilteredConcat(cfg, a, b[..n]);
      assert a + b == (a + b[..n]) + [b[n]] && b == b[..n] + [b[n]];
      FilteredOneMore(cfg, a + b[..n], b[n]);
      FilteredOneMore(cfg, b[..n], b[n]);
    }
  }

  // ── the purge ──

  /** The URL of some row with this key matches a pattern. */
  ghost predicate MatchedKey(cfg: Config, rows: Rows, surt: bytes)
  {
    exists k | k in rows :: k.surt == surt && cfg.hasPatterns && cfg.pattern(rows[k].original)
  }

  lemma HitBeforeOrAfter(cfg: Config, rows: Rows, surt: bytes)
    requires !Doomed(cfg, surt, |cfg.domains|)
    ensures PatternHit(cfg, WithoutDomains(cfg, rows, |cfg.domains|), surt) <==> MatchedKey(cfg, rows, surt)
  {
    hide Doomed;
    var left := WithoutDomains(cfg, rows, |cfg.domains|);
    if MatchedKey(cfg, rows, surt) {
      var k :| k in rows && k.surt == surt && cfg.hasPatterns && cfg.pattern(rows[k].original);
      assert k in left && Matches(cfg, left[k].original);
    }
    if PatternHit(cfg, left, surt) {
      var k :| k in left && k.surt == surt && Matches(cfg, left[k].original);
      assert k in rows && cfg.pattern(rows[k].original);
    }
  }

  /** The purge takes exactly the rows whose key matches a configured domain, and those
      of every key with a row that matches a pattern; the others stay as they are. */
  lemma PurgedExactly(cfg: Config, rows: Rows, k: Key, u: Url)
    requires PlainConfig(cfg) && k in rows && RowOf(k, rows[k].original, u)
    ensures k in Purged(cfg, rows) <==>
      (forall i | 0 <= i < |cfg.domains| :: !Wild(u, cfg.domains[i])) && !MatchedKey(cfg, rows, k.surt)
    ensures Purged(cfg, rows).Items <= rows.Items
  {
    hide UrlGood, UrlText, DomainRow, DomainToSurtHost, PlainDomain, DomainOf, Wild, PatternHit, MatchedKey;
    forall i | 0 <= i < |cfg.domains|
      ensures DomainRow(k.surt, DomainToSurtHost(cfg.domains[i])) <==> Wild(u, cfg.domains[i])
    {
      PurgedIsWild(u, cfg.domains[i]);
    }
    DoomedIs(cfg, k.surt, u);
    if !Doomed(cfg, k.surt, |cfg.domains|) { HitBeforeOrAfter(cfg, rows, k.surt); }
    hide Doomed;
  }

  // ── a whole run ──

  lemma {:induction false} UpsertedTwice(rows: Rows, a: seq<Record>, b: seq<Record>)
    ensures Upserted(Upserted(rows, a), b) == Upserted(rows, a + b)
    decreases |b|
  {
    if b == [] {
      assert a + b == a;
    } else {
      var n := |b| - 1;
      UpsertedTwice(rows, a, b[..n]);
      assert a + b == (a + b[..n]) + [b[n]];
      UpsertedOneMore(rows, a + b[..n], b[n]);
    }
  }

  /** The records of the first `n` objects, one after the other. */
  function Offered(objects: seq<seq<Record>>, n: nat): seq<Record>
    requires n <= |objects|
  {
    if n == 0 then [] else Offered(objects, n - 1) + objects[n - 1]
  }

  /** A run comes to one batch: how records are spread over objects makes no difference. */
  lemma {:induction false} RunIsOneBatch(cfg: Config, rows: Rows, objects: seq<seq<Record>>, n: nat)
    requires n <= |objects|
    ensures After(cfg, rows, objects, n) == Upserted(Purged(cfg, rows), Filtered(cfg, Offered(objects, n)))
    decreases n
  {
    hide Purged, UrlListed;
    if n > 0 {
      hide Upserted, Filtered;
      RunIsOneBatch(cfg, rows, objects, n - 1);
      FilteredConcat(cfg, Offered(objects, n - 1), objects[n - 1]);
      UpsertedTwice(Purged(cfg, rows), Filtered(cfg, Offered(objects, n - 1)), Filtered(cfg, objects[n - 1]));
    }
  }

  /** The last record offered for `k` that is not on the skip list; None for none. */
  function LastOffered(cfg: Config, records: seq<Record>, k: Key): Option<Row>
  {
    if records == [] then None
    else
      var r := records[|records| - 1];
      if r.key == k && !UrlListed(cfg, r.row.original) then Some(r.row)
      else LastOffered(cfg, records[..|records| - 1], k)
  }

  lemma {:induction false} BatchAtKey(cfg: Config, rows: Rows, records: seq<Record>, k: Key)
    ensures var after, last := Upserted(rows, Filtered(cfg, records)), LastOffered(cfg, records, k);
      if last.Some? then k in after && after[k] == last.value
      else (k in after <==> k in rows) && (k in rows ==> after[k] == rows[k])
    decreases |records|
  {
    hide UrlListed;
    if records != [] {
      var n := |records| - 1;
      BatchAtKey(cfg, rows, records[..n], k);
      assert records == records[..n] + [records[n]];
      FilteredOneMore(cfg, records[..n], records[n]);
      if !UrlListed(cfg, records[n].row.original) {
        UpsertedOneMore(rows, Filtered(cfg, records[..n]), records[n]);
      } else {
        assert Filtered(cfg, records) == Filtered(cfg, records[..n]);
      }
    }
  }

  /** What stands under a key after a run: the last record offered for it that the skip
      list lets in, or else what the purge has left there. */
  lemma RunAtKey(cfg: Config, rows: Rows, objects: seq<seq<Record>>, n: nat, k: Key)
    requires n <= |objects|
    ensures var after, last := After(cfg, rows, objects, n), LastOffered(cfg, Offered(objects, n), k);
      var left := Purged(cfg, rows);
      if last.Some? then k in after && after[k] == last.value
      else (k in after <==> k in left) && (k in left ==> after[k] == left[k])
  {
    hide Purged, UrlListed, After, LastOffered, Filtered, Upserted;
    RunIsOneBatch(cfg, rows, objects, n);
    BatchAtKey(cfg, Purged(cfg, rows), Offered(objects, n), k);
  }

  lemma {:induction false} LastOfferedIsLetIn(cfg: Config, records: seq<Record>, k: Key)
    requires LastOffered(cfg, records, k).Some?
    ensures !UrlListed(cfg, LastOffered(cfg, records, k).value.original)
    decreases |records|
  {
    hide UrlListed;
    var r := records[|records| - 1];
    if !(r.key == k && !UrlListed(cfg, r.row.original)) {
      LastOfferedIsLetIn(cfg, records[..|records| - 1], k);
    }
  }

  /** From the end of the purge to the end of the run no row matches a pattern, whatever
      the table held and whatever the objects bring. */
  lemma NoPatternRow(cfg: Config, rows: Rows, objects: seq<seq<Record>>, n: nat, k: Key)
    requires n <= |objects| && k in After(cfg, rows, objects, n)
    ensures !(cfg.hasPatterns && cfg.pattern(After(cfg, rows, objects, n)[k].original))
  {
    var records := Offered(objects, n);
    RunAtKey(cfg, rows, objects, n, k);
    if LastOffered(cfg, records, k).Some? {
      LastOfferedIsLetIn(cfg, records, k);
      hide LastOffered, After, Refused;
    } else {
      hide LastOffered, After, Doomed;
      var left := WithoutDomains(cfg, rows, |cfg.domains|);
      assert k in left && !PatternHit(cfg, left, k.surt);
    }
  }

  /** And no row has, in place of its host, a configured domain or a name below one,
      unless the purge left the row there. */
  lemma NoDomainRow(cfg: Config, rows: Rows, objects: seq<seq<Record>>, n: nat, k: Key, u: Url, i: nat)
    requires n <= |objects| && k in After(cfg, rows, objects, n) && PlainConfig(cfg) && i < |cfg.domains|
    requires After(cfg, rows, objects, n)[k].original == UrlText(u) && UrlGood(u)
    requires HostCovered(SeenHost(u), DomainOf(cfg.domains[i]))
    ensures k in Purged(cfg, rows) && After(cfg, rows, objects, n)[k] == Purged(cfg, rows)[k]
  {
    hide UrlGood, UrlText, DomainOf, HostCovered, SeenHost, LastOffered, After, Purged, UrlListed, PlainConfig;
    var records := Offered(objects, n);
    RunAtKey(cfg, rows, objects, n, k);
    UrlListedIs(cfg, u);
    if LastOffered(cfg, records, k).Some? { LastOfferedIsLetIn(cfg, records, k); }
  }
}
