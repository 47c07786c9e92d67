/** The skip list over a whole index run: what the purge removes at the start, the
  filter keeps out until the end. */
module SkipList {
  import opened Bytes
  import opened Text
  import opened SurtHost
  import opened CdxStore
  import opened HostFilter

  // ── the two questions asked of a URL ──

  /** The configured domains as written, and the URL patterns as a predicate. */
  datatype Config = Config(domains: seq<bytes>, pattern: bytes -> bool, hasPatterns: bool)

  function Matches(cfg: Config, url: bytes): bool
  {
    cfg.hasPatterns && cfg.pattern(url)
  }

  predicate UrlListed(cfg: Config, url: bytes)
  {
    Refused(cfg, url) || Matches(cfg, url)
  }

  method IsHostBlacklisted(cfg: Config, host: bytes) returns (r: bool)
    ensures r <==> exists i | 0 <= i < |cfg.domains| :: HostCovered(Lower(host), Lower(Trim(cfg.domains[i])))
  {
    var h := Lower(host);
    for i := 0 to |cfg.domains|
      invariant forall j | 0 <= j < i :: !HostCovered(h, Lower(Trim(cfg.domains[j])))
    {
      var b := Lower(Trim(cfg.domains[i]));
      if h == b || EndsWith(h, [DOT] + b) { return true; }
    }
    return false;
  }

  method IsUrlBlacklisted(cfg: Config, url: bytes) returns (r: bool)
    ensures r == UrlListed(cfg, url)
  {
    hide HostCovered, FindScheme, Lower, Trim, UpToStop;
    if cfg.domains != [] {
      var host := FastHost(url);
      if host.Some? {
        var listed := IsHostBlacklisted(cfg, host.value);
        if listed {
          var i :| 0 <= i < |cfg.domains| && HostCovered(Lower(host.value), Lower(Trim(cfg.domains[i])));
          assert ListedBy(url, cfg.domains[i]);
          return true;
        }
      }
    }
    return Matches(cfg, url);
  }

  // ── the purge ──

  /** Covered by one of the configured domains. */
  predicate Refused(cfg: Config, url: bytes)
  {
    exists i | 0 <= i < |cfg.domains| :: ListedBy(url, cfg.domains[i])
  }

  /** A key that goes with one of the first `n` configured domains. */
  predicate Doomed(cfg: Config, surt: bytes, n: nat)
    requires n <= |cfg.domains|
  {
    exists i | 0 <= i < n :: DomainRow(surt, DomainToSurtHost(cfg.domains[i]))
  }

  /** Some row of this SURT key matches a pattern. */
  predicate PatternHit(cfg: Config, rows: Rows, surt: bytes)
  {
    exists k | k in rows :: k.surt == surt && Matches(cfg, rows[k].original)
  }

  /** What is left of `rows` without the first `n` domains. */
  function WithoutDomains(cfg: Config, rows: Rows, n: nat): Rows
    requires n <= |cfg.domains|
  {
    map k | k in rows && !Doomed(cfg, k.surt, n) :: rows[k]
  }

  /** What the purge leaves: no key of a configured domain, and of the others no SURT
      key with a capture that matches a pattern. */
  function Purged(cfg: Config, rows: Rows): Rows
  {
    var left := WithoutDomains(cfg, rows, |cfg.domains|);
    map k | k in left && !PatternHit(cfg, left, k.surt) :: left[k]
  }

  lemma OneDomainMore(cfg: Config, surt: bytes, n: nat)
    requires n < |cfg.domains|
    ensures Doomed(cfg, surt, n + 1) <==> Doomed(cfg, surt, n) || DomainRow(surt, DomainToSurtHost(cfg.domains[n]))
  {
    hide DomainRow, DomainToSurtHost;
  }

  /** Delete all captures of a domain and of every name below it. */
  method PurgeDomain(cfg: Config, i: nat, cdx: CdxStore, ghost rows: Rows)
    requires i < |cfg.domains| && cdx.rows == WithoutDomains(cfg, rows, i)
    modifies cdx
    ensures cdx.rows == WithoutDomains(cfg, rows, i + 1)
  {
    hide DomainRow, DomainToSurtHost, Doomed;
    var surtHost := DomainToSurtHost(cfg.domains[i]);
    var _ := cdx.DeleteByDomainSurt(surtHost);
    forall k | k in rows
      ensures Doomed(cfg, k.surt, i + 1) <==> Doomed(cfg, k.surt, i) || DomainRow(k.surt, surtHost)
    {
      OneDomainMore(cfg, k.surt, i);
    }
    assert cdx.rows == WithoutDomains(cfg, rows, i + 1);
  }

  /** The SURT keys of all rows whose URL matches a pattern, each once. */
  method SurtsMatching(cfg: Config, cdx: CdxStore) returns (surts: seq<bytes>)
    ensures forall s :: s in surts <==> PatternHit(cfg, cdx.rows, s)
    ensures forall i, j | 0 <= i < j < |surts| :: surts[i] != surts[j]
  {
    surts := [];
    var todo := cdx.rows.Keys;
    while todo != {}
      invariant todo <= cdx.rows.Keys
      invariant forall k | k in cdx.rows && k !in todo && Matches(cfg, cdx.rows[k].original) :: k.surt in surts
      invariant forall s | s in surts :: PatternHit(cfg, cdx.rows, s)
      invariant forall i, j | 0 <= i < j < |surts| :: surts[i] != surts[j]
      decreases |todo|
    {
      var k :| k in todo;
      todo := todo - {k};
      if Matches(cfg, cdx.rows[k].original) && k.surt !in surts { surts := surts + [k.surt]; }
    }
  }

  /** Before any ingest: domains first, then patterns. */
  method Purge(cfg: Config, cdx: CdxStore)
    modifies cdx
    ensures cdx.rows == Purged(cfg, old(cdx.rows))
  {
    hide Matches, Doomed, PatternHit, WithoutDomains;
    ghost var rows := cdx.rows;
    NoDomains(cfg, rows);
    for i := 0 to |cfg.domains|
      invariant cdx.rows == WithoutDomains(cfg, rows, i)
    {
      PurgeDomain(cfg, i, cdx, rows);
    }
    if cfg.hasPatterns {
      var surts := SurtsMatching(cfg, cdx);
      var _ := cdx.DeleteBySurtUrls(surts);
    } else {
      NoPatterns(cfg, cdx.rows);
    }
    assert cdx.rows == Purged(cfg, rows);
  }

  lemma NoDomains(cfg: Config, rows: Rows)
    ensures WithoutDomains(cfg, rows, 0) == rows
  {
  }

  lemma NoPatterns(cfg: Config, rows: Rows)
    requires !cfg.hasPatterns
    ensures forall surt :: !PatternHit(cfg, rows, surt)
  {
  }

  // ── the filter ──

  /** The records that are not on the skip list, in order. */
  function Filtered(cfg: Config, records: seq<Record>): seq<Record>
  {
    if records == [] then []
    else
      var n := |records| - 1;
      Filtered(cfg, records[..n]) + if UrlListed(cfg, records[n].row.original) then [] else [records[n]]
  }

  lemma FilteredOneMore(cfg: Config, records: seq<Record>, r: Record)
    ensures Filtered(cfg, records + [r]) == Filtered(cfg, records) + if UrlListed(cfg, r.row.original) then [] else [r]
  {
    hide UrlListed;
    assert (records + [r])[..|records|] == records;
  }

  /** Ask the skip list about each record of an object. */
  method FilterRecords(cfg: Config, records: seq<Record>) returns (out: seq<Record>, skipped: nat)
    ensures out == Filtered(cfg, records) && |out| + skipped == |records|
  {
    hide UrlListed, Filtered;
    out, skipped := [], 0;
    NothingFiltered(cfg);
    for i := 0 to |records|
      invariant out == Filtered(cfg, records[..i]) && |out| + skipped == i
    {
      FilteredOneMore(cfg, records[..i], records[i]);
      assert records[..i] + [records[i]] == records[..i + 1];
      var listed := IsUrlBlacklisted(cfg, records[i].row.original);
      if listed { skipped := skipped + 1; } else { out := out + [records[i]]; }
    }
    assert records[..|records|] == records;
  }

  lemma NothingFiltered(cfg: Config)
    ensures Filtered(cfg, []) == []
  {
  }

  // ── a whole run ──

  /** The table after the purge and the first `n` objects. */
  function After(cfg: Config, rows: Rows, objects: seq<seq<Record>>, n: nat): Rows
    requires n <= |objects|
  {
    if n == 0 then Purged(cfg, rows)
    else Upserted(After(cfg, rows, objects, n - 1), Filtered(cfg, objects[n - 1]))
  }

  /** Purge, then object after object. */
  method Run(cfg: Config, cdx: CdxStore, objects: seq<seq<Record>>)
    modifies cdx
    ensures cdx.rows == After(cfg, old(cdx.rows), objects, |objects|)
  {
    hide Purged, Filtered, Upserted;
    ghost var rows := cdx.rows;
    Purge(cfg, cdx);
    for i := 0 to |objects|
      invariant cdx.rows == After(cfg, rows, objects, i)
    {
      var records, _ := FilterRecords(cfg, objects[i]);
      var _, _ := cdx.UpsertBatchCounted(records);
    }
  }

  // ── what a run keeps ──

  /** No row whose URL the skip list refuses. */
  ghost predicate NoneListed(cfg: Config, rows: Rows)
  {
    forall k | k in rows :: !UrlListed(cfg, rows[k].original)
  }

  /** A row the purge forgets: the filter refuses its URL for a domain, but its key
      goes neither with a domain nor with a pattern. */
  ghost predicate Forgotten(cfg: Config, rows: Rows, k: Key)
    requires k in rows
  {
    && Refused(cfg, rows[k].original) && !Doomed(cfg, k.surt, |cfg.domains|)
    && !PatternHit(cfg, WithoutDomains(cfg, rows, |cfg.domains|), k.surt)
  }

  /** What the purge leaves is free of listed URLs exactly when it forgets no row. */
  lemma PurgedIsClean(cfg: Config, rows: Rows)
    ensures NoneListed(cfg, Purged(cfg, rows)) <==> forall k | k in rows :: !Forgotten(cfg, rows, k)
  {
    hide Refused, Doomed, Matches;
    var left, purged := WithoutDomains(cfg, rows, |cfg.domains|), Purged(cfg, rows);
    forall k | k in purged
      ensures k in rows && purged[k] == rows[k]
      ensures UrlListed(cfg, rows[k].original) <==> Forgotten(cfg, rows, k)
    {
      assert !PatternHit(cfg, left, k.surt);
    }
    forall k | k in rows && Forgotten(cfg, rows, k) ensures k in purged { }
  }

  lemma {:induction false} FilteredIsClean(cfg: Config, records: seq<Record>)
    ensures forall i | 0 <= i < |Filtered(cfg, records)| :: !UrlListed(cfg, Filtered(cfg, records)[i].row.original)
    decreases |records|
  {
    hide UrlListed;
    if records != [] { FilteredIsClean(cfg, records[..|records| - 1]); }
  }

  lemma {:induction false} UpsertKeepsClean(cfg: Config, rows: Rows, records: seq<Record>)
    requires NoneListed(cfg, rows)
    requires forall i | 0 <= i < |records| :: !UrlListed(cfg, records[i].row.original)
    ensures NoneListed(cfg, Upserted(rows, records))
    decreases |records|
  {
    hide UrlListed;
    if records != [] { UpsertKeepsClean(cfg, rows, records[..|records| - 1]); }
  }

  /** When the purge forgets nothing, no state of the table from its end to the end
      of the run holds a row whose URL is on the skip list. */
  lemma {:induction false} StaysClean(cfg: Config, rows: Rows, objects: seq<seq<Record>>, n: nat)
    requires n <= |objects| && NoneListed(cfg, Purged(cfg, rows))
    ensures NoneListed(cfg, After(cfg, rows, objects, n))
    decreases n
  {
    hide Purged, Filtered, Upserted, NoneListed;
    if n > 0 {
      StaysClean(cfg, rows, objects, n - 1);
      FilteredIsClean(cfg, objects[n - 1]);
      UpsertKeepsClean(cfg, After(cfg, rows, objects, n - 1), Filtered(cfg, objects[n - 1]));
    }
  }

  ghost predicate AlwaysClean(cfg: Config, rows: Rows, objects: seq<seq<Record>>)
  {
    forall n: nat | n <= |objects| :: NoneListed(cfg, After(cfg, rows, objects, n))
  }

  /** For any table, skip list and objects: it never does, exactly when the purge
      forgets no row. */
  lemma SkipListHoldsExactly(cfg: Config, rows: Rows, objects: seq<seq<Record>>)
    ensures AlwaysClean(cfg, rows, objects) <==> forall k | k in rows :: !Forgotten(cfg, rows, k)
  {
    hide NoneListed, Purged, Forgotten;
    PurgedIsClean(cfg, rows);
    assert After(cfg, rows, objects, 0) == Purged(cfg, rows);
    if NoneListed(cfg, Purged(cfg, rows)) {
      forall n: nat | n <= |objects| ensures NoneListed(cfg, After(cfg, rows, objects, n)) {
        StaysClean(cfg, rows, objects, n);
      }
    }
  }

  // ── rows the indexer writes ──

  /** A row as the indexer writes it, its key the SURT of its URL, and a URL filter
      and purge agree on for every configured domain. */
  ghost predicate AgreedRow(cfg: Config, k: Key, original: bytes)
  {
    exists u: Url :: RowOf(k, original, u) && AgreeOnAll(cfg, u)
  }

  ghost predicate RowOf(k: Key, original: bytes, u: Url)
  {
    UrlGood(u) && original == UrlText(u) && k.surt == Surt(u.labels, u.rest)
  }

  ghost predicate AgreeOnAll(cfg: Config, u: Url)
  {
    forall i | 0 <= i < |cfg.domains| :: Agree(u, cfg.domains[i])
  }

  ghost predicate PlainConfig(cfg: Config)
  {
    forall i | 0 <= i < |cfg.domains| :: PlainDomain(cfg.domains[i])
  }

  lemma AgreedIsNotForgotten(cfg: Config, rows: Rows, k: Key)
    requires k in rows && PlainConfig(cfg) && AgreedRow(cfg, k, rows[k].original)
    ensures !Forgotten(cfg, rows, k)
  {
    hide UrlGood, UrlText, Surt, Agree, DomainRow, ListedBy, DomainToSurtHost, PlainDomain, PatternHit, Lower, Trim;
    var u: Url :| RowOf(k, rows[k].original, u) && AgreeOnAll(cfg, u);
    assert RowOf(k, rows[k].original, u) && AgreeOnAll(cfg, u);
    if Refused(cfg, rows[k].original) {
      var i :| 0 <= i < |cfg.domains| && ListedBy(rows[k].original, cfg.domains[i]);
      AgreeExactly(u, cfg.domains[i]);
      assert DomainRow(k.surt, DomainToSurtHost(cfg.domains[i]));
    }
  }

  /** The skip list holds over a whole run for rows the two agree on, such as those
      of all URLs without user information and dots at the end of the host. */
  lemma SkipListHolds(cfg: Config, rows: Rows, objects: seq<seq<Record>>)
    requires PlainConfig(cfg) && forall k | k in rows :: AgreedRow(cfg, k, rows[k].original)
    ensures AlwaysClean(cfg, rows, objects)
  {
    hide AlwaysClean, Forgotten, AgreedRow, PlainConfig;
    SkipListHoldsExactly(cfg, rows, objects);
    forall k | k in rows ensures !Forgotten(cfg, rows, k) { AgreedIsNotForgotten(cfg, rows, k); }
  }

  // ── which rows are forgotten, by their URLs ──

  /** For a row as the indexer writes it: some domain covers what the filter sees as the
      host, the key matches none, and no pattern deletes it. */
  lemma ForgottenIs(cfg: Config, rows: Rows, k: Key, u: Url)
    requires k in rows && PlainConfig(cfg) && RowOf(k, rows[k].original, u)
    ensures Forgotten(cfg, rows, k) <==>
      && (exists i | 0 <= i < |cfg.domains| :: HostCovered(SeenHost(u), DomainOf(cfg.domains[i])))
      && (forall i | 0 <= i < |cfg.domains| :: !Wild(u, cfg.domains[i]))
      && !PatternHit(cfg, WithoutDomains(cfg, rows, |cfg.domains|), k.surt)
  {
    hide UrlGood, UrlText, DomainRow, ListedBy, DomainToSurtHost, PlainDomain, PatternHit, DomainOf, WithoutDomains,
      HostCovered, SeenHost, Wild;
    forall i | 0 <= i < |cfg.domains|
      ensures ListedBy(rows[k].original, cfg.domains[i]) <==> HostCovered(SeenHost(u), DomainOf(cfg.domains[i]))
      ensures DomainRow(k.surt, DomainToSurtHost(cfg.domains[i])) <==> Wild(u, cfg.domains[i])
    {
      ListedIs(u, cfg.domains[i]);
      PurgedIsWild(u, cfg.domains[i]);
    }
    RefusedIs(cfg, rows[k].original, u);
    DoomedIs(cfg, k.surt, u);
  }

  lemma RefusedIs(cfg: Config, url: bytes, u: Url)
    requires forall i | 0 <= i < |cfg.domains| :: ListedBy(url, cfg.domains[i]) <==>
      HostCovered(SeenHost(u), DomainOf(cfg.domains[i]))
    ensures Refused(cfg, url) <==> exists i | 0 <= i < |cfg.domains| ::
      HostCovered(SeenHost(u), DomainOf(cfg.domains[i]))
  {
    hide ListedBy, HostCovered, SeenHost, DomainOf;
    if i :| 0 <= i < |cfg.domains| && HostCovered(SeenHost(u), DomainOf(cfg.domains[i])) {
      assert ListedBy(url, cfg.domains[i]);
    }
    if i :| 0 <= i < |cfg.domains| && ListedBy(url, cfg.domains[i]) {
      assert HostCovered(SeenHost(u), DomainOf(cfg.domains[i]));
    }
  }

  lemma DoomedIs(cfg: Config, surt: bytes, u: Url)
    requires forall i | 0 <= i < |cfg.domains| :: DomainRow(surt, DomainToSurtHost(cfg.domains[i])) <==>
      Wild(u, cfg.domains[i])
    ensures Doomed(cfg, surt, |cfg.domains|) <==> exists i | 0 <= i < |cfg.domains| :: Wild(u, cfg.domains[i])
  {
    hide DomainRow, DomainToSurtHost, Wild;
    if i :| 0 <= i < |cfg.domains| && Wild(u, cfg.domains[i]) {
      assert DomainRow(surt, DomainToSurtHost(cfg.domains[i]));
    }
    if i :| 0 <= i < |cfg.domains| && DomainRow(surt, DomainToSurtHost(cfg.domains[i])) {
      assert Wild(u, cfg.domains[i]);
    }
  }

  /** Such a row: a listed name as user with a password, in front of a host that no
      listed domain matches. */
  lemma PasswordIsForgotten(cfg: Config, rows: Rows, k: Key, u: Url, i: nat)
    requires k in rows && PlainConfig(cfg) && RowOf(k, rows[k].original, u) && i < |cfg.domains| && !cfg.hasPatterns
    requires ColonInUser(u) && Lower(u.user.value[..IndexOf(u.user.value, COLON)]) == DomainOf(cfg.domains[i])
    requires forall j | 0 <= j < |cfg.domains| :: !Wild(u, cfg.domains[j])
    ensures Forgotten(cfg, rows, k) && forall objects :: !AlwaysClean(cfg, rows, objects)
  {
    hide UrlGood, UrlText, Wild, PlainDomain, DomainOf, WithoutDomains, Lower, IndexOf, AlwaysClean, Forgotten;
    ForgottenIs(cfg, rows, k, u);
    NoPatterns(cfg, WithoutDomains(cfg, rows, |cfg.domains|));
    SeenIsUserPart(u, DomainOf(cfg.domains[i]));
    forall objects ensures !AlwaysClean(cfg, rows, objects) { SkipListHoldsExactly(cfg, rows, objects); }
  }

  lemma SeenIsUserPart(u: Url, d: bytes)
    requires ColonInUser(u) && Lower(u.user.value[..IndexOf(u.user.value, COLON)]) == d
    ensures HostCovered(SeenHost(u), d)
  {
    hide Lower, IndexOf;
  }

  /** `http://a:b@c/` with `a` on the skip list. */
  lemma PasswordExample()
    ensures exists cfg: Config, rows: Rows, k: Key :: k in rows && PlainConfig(cfg) && Forgotten(cfg, rows, k)
  {
    hide UrlGood, UrlText, Surt, Wild, PlainDomain, Forgotten, DomainOf, ColonInUser, Lower, IndexOf, AlwaysClean;
    var cfg := Config([[97]], (url: bytes) => false, false);
    var u := Url([104, 116, 116, 112], Some([97, COLON, 98]), [99], 0, [47], [[99]], [47]);
    var k := Key(KeyOf(u), []);
    var rows: Rows := map[k := Row(UrlText(u), [], 0, 0, None)];
    ExampleParts(u, cfg.domains[0]);
    assert RowOf(k, rows[k].original, u);
    PasswordIsForgotten(cfg, rows, k, u, 0);
  }

  lemma ExampleParts(u: Url, text: bytes)
    requires u == Url([104, 116, 116, 112], Some([97, COLON, 98]), [99], 0, [47], [[99]], [47]) && text == [97]
    ensures UrlGood(u) && ColonInUser(u) && PlainDomain(text) && !Wild(u, text)
    ensures Lower(u.user.value[..IndexOf(u.user.value, COLON)]) == DomainOf(text)
  {
    var user := u.user.value;
    TrimOfTrimmed(text);
    assert DomainOf(text) == [97];
    assert user[0] != COLON && user[1] == COLON;
    IndexOfIs(user, COLON, 1);
    assert user[..1] == [97] && Lower([97]) == [97];
    assert Lower(u.host) == [99] == HostOf(u);
    NoDotInside([97]);
    assert DomainToSurtHost(text) == [97] by { OneLabelKey([97]); }
    assert KeyOf(u)[0] == 99 by { OneLabelKey([99]); }
  }
}
