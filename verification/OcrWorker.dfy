/** The two processes on the OCR queue: the index run that looks a PDF up or queues
  it, and the worker that drains the queue. */
module OcrWorker {
  import opened Bytes
  import opened CachedText
  import opened OcrFiles
  import opened OcrProtocol
  import opened OcrCache

  // ── the index run ──

  datatype Looked = Text(cached: Cached) | NoTextCached | TextRejected | Queued | NotQueued

  /** A PDF record on its way into the index: answered by the cache, with a text, with
      one the quality gate `good` rejects, or with the knowledge that there is none, or
      queued. */
  method LookUpOrQueue(cache: OcrCache, digest: string, place: Place, good: string -> bool, ghost st: State)
    returns (r: Looked, ghost st': State)
    requires cache.Shows(st)
    modifies cache.fs
    ensures cache.Shows(st')
    ensures r.Text? ==>
      Lookup(st.files, digest) == Some(r.cached) && TrimString(r.cached.text) != "" && good(r.cached.text)
    ensures r.TextRejected? ==> Lookup(st.files, digest).Some? && !good(Lookup(st.files, digest).value.text)
    ensures r.NoTextCached? ==> Lookup(st.files, digest).Some? && TrimString(Lookup(st.files, digest).value.text) == ""
    ensures r.Queued? ==>
      var a := Enqueue(Job(digest, place, 0));
      Enabled(st, a) && st' == Next(st, a) && digest in st'.owed
    ensures !r.Queued? ==> st' == st
    ensures cache.fs.faults == old(cache.fs.faults) ==>
      && (r.Queued? || r.NotQueued? <==> Lookup(st.files, digest).None?)
      && (r.NotQueued? ==> FileSlug(digest).None?)
  {
    hide FileSlug, ShardDir, Lookup, ParseCachedText;
    var hit := cache.Get(digest);
    if hit.Some? {
      r := if TrimString(hit.value.text) == "" then NoTextCached
           else if !good(hit.value.text) then TextRejected else Text(hit.value);
      return r, st;
    }
    var job := Job(digest, place, 0);
    var ok := cache.Enqueue(job);
    if !ok { return NotQueued, st; }
    return Queued, Next(st, Enqueue(job));
  }

  // ── the worker ──

  /** Fetching and extracting: a text, the fact that the file has none, or a
      failure of the run. */
  datatype Extraction = Doc(title: string, body: string) | NoText | RunError

  method FetchAndExtract(job: Job) returns (e: Extraction)
  {
    e := *;
  }

  datatype Outcome = AlreadyInCache | TextStored | NegativeStored | Kept | GivenUp

  /** Remove a job whose digest is answered. */
  method RemoveAnswered(cache: OcrCache, path: Path, ghost st: State) returns (ghost st': State)
    requires path.QueueFile? && cache.Shows(st) && TaskAt(st, path.slug, Removing)
    modifies cache.fs
    ensures Leads(st, st') && cache.Shows(st') && st'.tasks == st.tasks - {path.slug}
    ensures st'.files == st.files || st'.files == st.files - {path}
    ensures cache.fs.faults >= old(cache.fs.faults)
    ensures cache.fs.faults == old(cache.fs.faults) ==> st'.files == st.files - {path}
  {
    hide Leads, FileSlug, ShardDir, RenderCachedText, Lookup;
    LeadsNowhere(st);
    var removed := cache.RemoveJob(path);
    ghost var last := if removed then Removed(path.slug) else GaveUp(path.slug);
    LeadsOn(st, st, last);
    st' := Next(st, last);
  }

  /** The first half: store the entry. */
  method StoreEntry(cache: OcrCache, slug: string, job: Job, title: string, text: string, ghost st: State)
    returns (stored: bool, ghost st': State)
    requires cache.Shows(st) && TaskAt(st, slug, Extracting) && st.tasks[slug].job == job
    modifies cache.fs
    ensures Leads(st, st') && cache.Shows(st') && st'.tasks - {slug} == st.tasks - {slug}
    ensures stored ==> TaskAt(st', slug, Removing) && FileSlug(job.digest).Some?
    ensures stored ==>
      st'.files == st.files[TextPath(job.digest) := TextBody(RenderCachedText(job.digest, title, text))]
    ensures !stored ==> st'.files == st.files && slug !in st'.tasks
    ensures cache.fs.faults >= old(cache.fs.faults)
    ensures cache.fs.faults == old(cache.fs.faults) ==> (stored <==> FileSlug(job.digest).Some?)
  {
    hide Leads, FileSlug, ShardDir, RenderCachedText, Lookup;
    LeadsNowhere(st);
    LeadsOn(st, st, Extracted(slug, title, text));
    st' := Next(st, Extracted(slug, title, text));
    stored := cache.Put(job.digest, title, text);
    ghost var last := if stored then Stored(slug) else GaveUp(slug);
    LeadsOn(st, st', last);
    st' := Next(st', last);
  }

  lemma EntryReadsBack(f: Files, digest: string, title: string, text: string)
    requires FileSlug(digest).Some?
    ensures Lookup(f[TextPath(digest) := TextBody(RenderCachedText(digest, title, text))], digest) ==
      Some(Cached(NormalTitle(title), text))
  {
    hide FileSlug, ShardDir, RenderCachedText, ParseCachedText, NormalTitle;
    SlugIsPlain(digest);
    ParseInvertsRender(digest, title, text, digest);
  }

  /** Store an entry and only then remove the job. */
  method StoreAndRemove(cache: OcrCache, path: Path, job: Job, title: string, text: string, ghost st: State)
    returns (stored: bool, ghost st': State)
    requires path.QueueFile? && cache.Shows(st) && TaskAt(st, path.slug, Extracting) && st.tasks[path.slug].job == job
    modifies cache.fs
    ensures Leads(st, st') && cache.Shows(st') && st'.tasks == st.tasks - {path.slug}
    ensures stored ==> Lookup(st'.files, job.digest) == Some(Cached(NormalTitle(title), text))
    ensures !stored ==> st'.files == st.files
    ensures OthersKeep(st.files, st'.files, path.slug)
    ensures cache.fs.faults >= old(cache.fs.faults)
    ensures cache.fs.faults == old(cache.fs.faults) ==>
      (stored <==> FileSlug(job.digest).Some?) && (stored ==> path !in st'.files)
  {
    hide Leads, FileSlug, ShardDir, RenderCachedText, Lookup, NormalTitle, Next, Enabled;
    stored, st' := StoreEntry(cache, path.slug, job, title, text, st);
    if !stored { return; }
    ghost var mid := st';
    EntryReadsBack(st.files, job.digest, title, text);
    st' := RemoveAnswered(cache, path, mid);
    LeadsFurther(st, mid, st');
    LookupDepends(mid.files, st'.files, job.digest);
  }

  /** Somebody else has answered the job: remove it. */
  method Discard(cache: OcrCache, path: Path, job: Job, ghost st: State) returns (ghost st': State)
    requires path.QueueFile? && cache.Shows(st) && TaskAt(st, path.slug, Checking) && st.tasks[path.slug].job == job
    requires Lookup(st.files, job.digest).Some?
    modifies cache.fs
    ensures Leads(st, st') && cache.Shows(st') && st'.tasks == st.tasks - {path.slug}
    ensures Lookup(st'.files, job.digest) == Lookup(st.files, job.digest)
    ensures OthersKeep(st.files, st'.files, path.slug)
    ensures cache.fs.faults >= old(cache.fs.faults)
    ensures cache.fs.faults == old(cache.fs.faults) ==> st'.files == st.files - {path}
  {
    hide Leads, FileSlug, ShardDir, RenderCachedText, ParseCachedText, Lookup;
    LeadsNowhere(st);
    LeadsOn(st, st, Hit(path.slug));
    ghost var mid := Next(st, Hit(path.slug));
    st' := RemoveAnswered(cache, path, mid);
    LeadsFurther(st, mid, st');
    LookupDepends(st.files, st'.files, job.digest);
  }

  /** What a job comes to when no file operation fails. */
  ghost predicate Resolved(o: Outcome, e: Extraction, path: Path, job: Job, maxAttempts: nat, f: Files, g: Files)
    requires FileSlug(job.digest).Some? && path.QueueFile?
  {
    if Lookup(f, job.digest).Some? then o.AlreadyInCache? && g == f - {path}
    else match e
      case Doc(title, body) => o.TextStored? && Lookup(g, job.digest) == Some(Cached(NormalTitle(title), body)) &&
        path !in g
      case NoText => o.NegativeStored? && Lookup(g, job.digest) == Some(Cached(NormalTitle(""), "")) && path !in g
      case RunError =>
        if AttemptsAfter(job) >= maxAttempts then o.GivenUp? && path in f && g == Moved(f, path, FailedFile(path.slug))
        else o.Kept? && g == f[path := JobFile(job.(attempts := AttemptsAfter(job)))]
  }

  /** One job, from the cache check to its end. */
  method RunJob(cache: OcrCache, path: Path, job: Job, maxAttempts: nat, ghost st: State)
    returns (o: Outcome, e: Extraction, ghost st': State)
    requires path.QueueFile? && cache.Shows(st) && TaskAt(st, path.slug, Checking) && st.tasks[path.slug].job == job
    modifies cache.fs
    ensures Leads(st, st') && cache.Shows(st') && st'.tasks == st.tasks - {path.slug}
    ensures o.AlreadyInCache? || o.TextStored? || o.NegativeStored? ==> Lookup(st'.files, job.digest).Some?
    ensures o.GivenUp? ==> path !in st'.files && FailedFile(path.slug) in st'.files && AttemptsAfter(job) >= maxAttempts
    ensures o.Kept? && path in st.files ==> path in st'.files
    ensures OthersKeep(st.files, st'.files, path.slug)
    ensures cache.fs.faults >= old(cache.fs.faults)
    ensures cache.fs.faults == old(cache.fs.faults) && FileSlug(job.digest).Some? ==>
      Resolved(o, e, path, job, maxAttempts, st.files, st'.files)
  {
    hide Leads, FileSlug, ShardDir, RenderCachedText, ParseCachedText, NormalTitle, Lookup;
    LeadsNowhere(st);
    e := NoText;
    var hit := cache.Get(job.digest);
    if hit.Some? {
      st' := Discard(cache, path, job, st);
      return AlreadyInCache, e, st';
    }
    LeadsOn(st, st, Miss(path.slug));
    ghost var mid := Next(st, Miss(path.slug));
    e := FetchAndExtract(job);
    if e.RunError? {
      var r;
      r, st' := cache.Retry(path, job, maxAttempts, mid);
      o := if r.MovedToFailed? then GivenUp else Outcome.Kept;
    } else {
      var stored;
      var title, body := if e.Doc? then e.title else "", if e.Doc? then e.body else "";
      stored, st' := StoreAndRemove(cache, path, job, title, body, mid);
      o := if !stored then Outcome.Kept else if e.Doc? then TextStored else NegativeStored;
    }
    LeadsFurther(st, mid, st');
  }

  datatype Counters = Counters(done: nat, fromCache: nat, extracted: nat, noText: nat, rescheduled: nat, parked: nat)

  function Count(c: Counters, o: Outcome): Counters
  {
    var d := c.(done := c.done + 1);
    match o
    case AlreadyInCache => d.(fromCache := d.fromCache + 1)
    case TextStored => d.(extracted := d.extracted + 1)
    case NegativeStored => d.(noText := d.noText + 1)
    case Kept => d.(rescheduled := d.rescheduled + 1)
    case GivenUp => d.(parked := d.parked + 1)
  }

  /** Each counter is the number of jobs that came to its outcome. */
  ghost predicate Tallies(c: Counters, os: seq<Outcome>)
  {
    && c.done == |os|
    && c.fromCache == multiset(os)[AlreadyInCache] && c.extracted == multiset(os)[TextStored]
    && c.noText == multiset(os)[NegativeStored] && c.rescheduled == multiset(os)[Outcome.Kept]
    && c.parked == multiset(os)[GivenUp]
  }

  const NOTHING := Counters(0, 0, 0, 0, 0, 0)

  lemma NothingCounted()
    ensures Tallies(NOTHING, [])
  {
  }

  lemma CountTallies(c: Counters, os: seq<Outcome>, o: Outcome)
    requires Tallies(c, os)
    ensures Tallies(Count(c, o), os + [o])
  {
  }

  lemma {:induction false} OutcomesAdd(os: seq<Outcome>)
    ensures var m := multiset(os);
      m[AlreadyInCache] + m[TextStored] + m[NegativeStored] + m[Outcome.Kept] + m[GivenUp] == |os|
    decreases |os|
  {
    if os != [] {
      var n := |os| - 1;
      OutcomesAdd(os[..n]);
      assert os == os[..n] + [os[n]];
      var m, before := multiset(os), multiset(os[..n]);
      assert forall o :: m[o] == before[o] + if o == os[n] then 1 else 0;
      match os[n] case AlreadyInCache => case TextStored => case NegativeStored => case Kept => case GivenUp =>
    }
  }

  /** Every job is in one counter besides the total. */
  lemma TalliesAdd(c: Counters, os: seq<Outcome>)
    requires Tallies(c, os)
    ensures c.done == c.fromCache + c.extracted + c.noText + c.rescheduled + c.parked
  {
    OutcomesAdd(os);
  }

  /** Only the tasks from the `i`-th listed job on are left. */
  ghost predicate Remaining(st: State, slugs: seq<string>, jobs: seq<Job>, i: nat)
  {
    && i <= |slugs| == |jobs|
    && (forall j, k | 0 <= j < k < |slugs| :: slugs[j] != slugs[k])
    && (forall j | i <= j < |slugs| :: slugs[j] in st.tasks && st.tasks[slugs[j]] == Task(jobs[j], Checking))
    && (forall k | k in st.tasks :: k in slugs[i..])
  }

  lemma AllRemain(st: State, slugs: seq<string>, jobs: seq<Job>)
    requires Listed(st, slugs, jobs)
    ensures |slugs| == |jobs| && Remaining(st, slugs, jobs, 0)
  {
    assert slugs[0..] == slugs;
  }

  lemma OneRemains(st: State, slugs: seq<string>, jobs: seq<Job>, i: nat)
    requires Remaining(st, slugs, jobs, i) && i < |slugs| == |jobs|
    ensures TaskAt(st, slugs[i], Checking) && st.tasks[slugs[i]].job == jobs[i]
  {
  }

  lemma OneLess(st: State, st': State, slugs: seq<string>, jobs: seq<Job>, i: nat)
    requires Remaining(st, slugs, jobs, i) && i < |slugs| && st'.tasks == st.tasks - {slugs[i]}
    ensures Remaining(st', slugs, jobs, i + 1)
  {
    assert slugs[i..] == [slugs[i]] + slugs[i + 1..];
  }

  lemma NoneRemain(st: State, slugs: seq<string>, jobs: seq<Job>)
    requires Remaining(st, slugs, jobs, |slugs|)
    ensures st.tasks == map[]
  {
  }

  // ── every job gets its try ──

  /** Where the job is after its try: back in the queue with one more attempt, parked, or
      out of both. */
  predicate Came(g: Files, slug: string, job: Job, o: Outcome)
  {
    match o
    case Kept => QueueFile(slug) in g && g[QueueFile(slug)] == JobFile(job.(attempts := AttemptsAfter(job)))
    case GivenUp => QueueFile(slug) !in g && FailedFile(slug) in g
    case _ => QueueFile(slug) !in g
  }

  lemma ResolvedCame(o: Outcome, e: Extraction, slug: string, job: Job, maxAttempts: nat, f: Files, g: Files)
    requires FileSlug(job.digest).Some? && Resolved(o, e, QueueFile(slug), job, maxAttempts, f, g)
    ensures Came(g, slug, job, o)
  {
    hide FileSlug, Lookup, NormalTitle;
  }

  /** The first `|os|` listed jobs have come to these outcomes, unless something failed;
      the others are still in their files. */
  ghost predicate Progress(f: Files, slugs: seq<string>, jobs: seq<Job>, os: seq<Outcome>, clean: bool)
  {
    && |os| <= |slugs| == |jobs|
    && (forall j, k | 0 <= j < k < |slugs| :: slugs[j] != slugs[k])
    && (clean ==> forall j | 0 <= j < |os| && FileSlug(jobs[j].digest).Some? :: Came(f, slugs[j], jobs[j], os[j]))
    && (forall j | |os| <= j < |slugs| :: HoldsExactly(f, slugs[j], jobs[j]))
  }

  lemma ProgressStarts(st: State, slugs: seq<string>, jobs: seq<Job>, clean: bool)
    requires Listed(st, slugs, jobs)
    ensures Progress(st.files, slugs, jobs, [], clean)
  {
  }

  lemma ProgressOn(f: Files, g: Files, slugs: seq<string>, jobs: seq<Job>, os: seq<Outcome>, o: Outcome, clean: bool,
    still: bool)
    requires Progress(f, slugs, jobs, os, clean) && |os| < |slugs| && OthersKeep(f, g, slugs[|os|]) && (still ==> clean)
    requires still && FileSlug(jobs[|os|].digest).Some? ==> Came(g, slugs[|os|], jobs[|os|], o)
    ensures Progress(g, slugs, jobs, os + [o], still)
  {
    hide FileSlug;
    var i := |os|;
    forall j | 0 <= j < i && FileSlug(jobs[j].digest).Some? && still ensures Came(g, slugs[j], jobs[j], os[j]) {
      assert Came(f, slugs[j], jobs[j], os[j]) && slugs[j] != slugs[i];
    }
    forall j | i < j < |slugs| ensures HoldsExactly(g, slugs[j], jobs[j]) {
      assert HoldsExactly(f, slugs[j], jobs[j]) && slugs[j] != slugs[i];
    }
  }

  /** The listed jobs, one after the other. */
  method WorkThrough(cache: OcrCache, maxAttempts: nat, jobs: seq<Job>, slugs: seq<string>, ghost st: State)
    returns (c: Counters, ghost os: seq<Outcome>, ghost st': State)
    requires cache.Shows(st) && Listed(st, slugs, jobs)
    modifies cache.fs
    ensures Leads(st, st') && cache.Shows(st') && st'.tasks == map[] && Tallies(c, os) && |os| == |jobs|
    ensures cache.fs.faults >= old(cache.fs.faults)
    ensures Progress(st'.files, slugs, jobs, os, cache.fs.faults == old(cache.fs.faults))
  {
    hide Leads, FileSlug, ShardDir, RenderCachedText, ParseCachedText, Lookup, Resolved, Listed, Remaining, Count,
      Tallies, TaskAt, Progress, Came, OthersKeep, HoldsExactly;
    LeadsNowhere(st);
    AllRemain(st, slugs, jobs);
    NothingCounted();
    ProgressStarts(st, slugs, jobs, true);
    c, os, st' := NOTHING, [], st;
    for i := 0 to |jobs|
      invariant Leads(st, st') && cache.Shows(st') && Tallies(c, os) && |os| == i && Remaining(st', slugs, jobs, i)
      invariant cache.fs.faults >= old(cache.fs.faults)
      invariant Progress(st'.files, slugs, jobs, os, cache.fs.faults == old(cache.fs.faults))
    {
      ghost var mid, clean := st', cache.fs.faults == old(cache.fs.faults);
      OneRemains(mid, slugs, jobs, i);
      var o, e;
      o, e, st' := RunJob(cache, QueueFile(slugs[i]), jobs[i], maxAttempts, mid);
      ghost var still := cache.fs.faults == old(cache.fs.faults);
      if still && FileSlug(jobs[i].digest).Some? {
        ResolvedCame(o, e, slugs[i], jobs[i], maxAttempts, mid.files, st'.files);
      }
      ProgressOn(mid.files, st'.files, slugs, jobs, os, o, clean, still);
      LeadsFurther(st, mid, st');
      OneLess(mid, st', slugs, jobs, i);
      CountTallies(c, os, o);
      c, os := Count(c, o), os + [o];
    }
    NoneRemain(st', slugs, jobs);
  }

  /** Each queued job is among the listed ones, and each of them has come to its outcome. */
  ghost predicate AllCame(f: Files, g: Files, slugs: seq<string>, jobs: seq<Job>, os: seq<Outcome>)
  {
    && |slugs| == |jobs| == |os|
    && (forall k | QueueFile(k) in f && f[QueueFile(k)].JobFile? :: k in slugs)
    && (forall i | 0 <= i < |slugs| :: HoldsExactly(f, slugs[i], jobs[i]) &&
         (FileSlug(jobs[i].digest).Some? ==> Came(g, slugs[i], jobs[i], os[i])))
  }

  /** One worker run: list the queue once, then work through the list. Everything it
      does is the worker's part of the protocol, so nothing queued is lost by it; when
      no file operation fails, every queued job has come to an outcome, and the counters
      say how many came to which. */
  method Drain(cache: OcrCache, maxAttempts: nat, ghost st: State)
    returns (c: Counters, ghost slugs: seq<string>, ghost jobs: seq<Job>, ghost os: seq<Outcome>, ghost st': State)
    requires cache.Shows(st)
    modifies cache.fs
    ensures Leads(st, st') && cache.Shows(st') && st'.tasks == map[] && Tallies(c, os) && |os| == |jobs| == |slugs|
    ensures forall digests :: Inv(digests, st) ==> Inv(digests, st')
    ensures cache.fs.faults == old(cache.fs.faults) ==> AllCame(st.files, st'.files, slugs, jobs, os)
  {
    hide Leads, Inv, FileSlug, ShardDir, RenderCachedText, ParseCachedText, Lookup, Listed, Came, Tallies, Progress;
    LeadsNowhere(st);
    LeadsOn(st, st, WorkerStarts);
    ghost var start := Next(st, WorkerStarts);
    var listed, names;
    listed, names, st' := cache.QueuedJobs(start);
    LeadsFurther(st, start, st');
    ghost var mid := st';
    ghost var faults := cache.fs.faults;
    c, os, st' := WorkThrough(cache, maxAttempts, listed, names, mid);
    LeadsFurther(st, mid, st');
    slugs, jobs := names, listed;
    ProgressAll(st'.files, slugs, jobs, os, cache.fs.faults == faults);
    forall digests | Inv(digests, st) ensures Inv(digests, st') { LeadsKeepsInv(digests, st, st'); }
  }

  lemma ProgressAll(g: Files, slugs: seq<string>, jobs: seq<Job>, os: seq<Outcome>, clean: bool)
    requires Progress(g, slugs, jobs, os, clean) && |os| == |jobs|
    ensures |slugs| == |jobs| && (clean ==> forall i | 0 <= i < |slugs| && FileSlug(jobs[i].digest).Some? ::
      Came(g, slugs[i], jobs[i], os[i]))
  {
    hide FileSlug, Came;
  }
}
