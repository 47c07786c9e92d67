/** The OCR cache and the worker on it, method by method. Each file-system call is
  one action of the protocol; the ghost state runs along and shows which. */
module OcrCache {
  import opened Bytes
  import opened CachedText
  import opened OcrFiles
  import opened OcrProtocol

  /** Files whose operations can fail; `faults` counts the failures. */
  class FileSystem {
    var files: Files
    var nextTmp: nat
    ghost var faults: nat

    constructor (files: Files)
      ensures this.files == files
    {
      this.files, nextTmp, faults := files, 0, 0;
    }

    /** Whether the next operation goes through. */
    method Works(possible: bool) returns (ok: bool)
      modifies this`faults
      ensures faults >= old(faults) && (ok <==> faults == old(faults)) && (ok ==> possible)
    {
      ok := *;
      ok := ok && possible;
      if !ok { faults := faults + 1; }
    }

    /** Reading can fail even when the file is there. */
    method Read(p: Path) returns (r: Option<Content>)
      modifies this`faults
      ensures faults >= old(faults) && (faults == old(faults) ==> (r.Some? <==> p in files))
      ensures r.Some? ==> p in files && r.value == files[p]
    {
      if p !in files { return None; }
      var ok := Works(true);
      r := if ok then Some(files[p]) else None;
    }

    /** A failed write can leave part of a file behind. */
    method Write(p: Path, c: Content) returns (ok: bool)
      modifies this`files, this`faults
      ensures faults >= old(faults) && (ok <==> faults == old(faults))
      ensures ok ==> files == old(files)[p := c]
      ensures !ok ==> files == old(files) || files == old(files)[p := Junk]
    {
      ok := Works(true);
      var partial: bool := *;
      if ok { files := files[p := c]; } else if partial { files := files[p := Junk]; }
    }

    method Rename(src: Path, dst: Path) returns (ok: bool)
      modifies this`files, this`faults
      ensures faults >= old(faults) && (ok <==> faults == old(faults))
      ensures ok ==> src in old(files) && files == (old(files) - {src})[dst := old(files)[src]]
      ensures !ok ==> files == old(files)
    {
      ok := Works(src in files);
      if ok { files := (files - {src})[dst := files[src]]; }
    }

    method Remove(p: Path) returns (ok: bool)
      modifies this`files, this`faults
      ensures faults >= old(faults) && (ok <==> faults == old(faults))
      ensures ok ==> p in old(files) && files == old(files) - {p}
      ensures !ok ==> files == old(files)
    {
      ok := Works(p in files);
      if ok { files := files - {p}; }
    }

    /** Temporary file, then rename: the file is the old one or the new one. */
    method AtomicWrite(p: Path, c: Content) returns (ok: bool)
      requires !p.TempFile?
      modifies this
      ensures faults >= old(faults) && (faults == old(faults) ==> ok)
      ensures Visible(files) == if ok then Visible(old(files))[p := c] else Visible(old(files))
    {
      var parentReady := Works(true);
      if !parentReady { return false; }
      var tmp := TempFile(nextTmp);
      nextTmp := nextTmp + 1;
      var written := Write(tmp, c);
      if !written {
        var _ := Remove(tmp);
        return false;
      }
      ok := Rename(tmp, p);
      if !ok { var _ := Remove(tmp); }
    }

    /** The queue directory, each name once, in no particular order; nothing when it
        cannot be listed. */
    method ListQueue() returns (slugs: seq<string>)
      modifies this`faults
      ensures faults >= old(faults)
      ensures forall i | 0 <= i < |slugs| :: QueueFile(slugs[i]) in files
      ensures forall i, j | 0 <= i < j < |slugs| :: slugs[i] != slugs[j]
      ensures faults == old(faults) ==> forall k | QueueFile(k) in files :: k in slugs
    {
      slugs := [];
      var ok := Works(true);
      if !ok { return; }
      var paths := files.Keys;
      while paths != {}
        invariant paths <= files.Keys
        invariant forall i | 0 <= i < |slugs| :: QueueFile(slugs[i]) in files.Keys - paths
        invariant forall i, j | 0 <= i < j < |slugs| :: slugs[i] != slugs[j]
        invariant forall k | QueueFile(k) in files.Keys - paths :: k in slugs
        decreases |paths|
      {
        var p :| p in paths;
        paths := paths - {p};
        if p.QueueFile? { slugs := slugs + [p.slug]; }
      }
    }
  }

  // ── running along with the protocol ──

  predicate NoEnqueue(run: seq<Action>)
  {
    forall i | 0 <= i < |run| :: !run[i].Enqueue?
  }

  /** The worker's own actions lead from `s` to `t`. */
  ghost predicate Leads(s: State, t: State)
  {
    exists run :: Runs(s, run, t) && NoEnqueue(run)
  }

  lemma LeadsNowhere(s: State)
    ensures Leads(s, s)
  {
    assert Runs(s, [], s) && NoEnqueue([]);
  }

  lemma LeadsOn(s: State, t: State, a: Action)
    requires Leads(s, t) && Enabled(t, a) && !a.Enqueue?
    ensures Leads(s, Next(t, a))
  {
    hide Next, Enabled, Runs;
    var run :| Runs(s, run, t) && NoEnqueue(run);
    assert Runs(s, run, t);
    RunsOneMore(s, run, t, a);
    assert NoEnqueue(run + [a]);
  }

  lemma LeadsFurther(s: State, t: State, u: State)
    requires Leads(s, t) && Leads(t, u)
    ensures Leads(s, u)
  {
    hide Runs;
    var a :| Runs(s, a, t) && NoEnqueue(a);
    var b :| Runs(t, b, u) && NoEnqueue(b);
    assert Runs(s, a, t) && Runs(t, b, u);
    RunsConcat(s, a, t, b, u);
    assert NoEnqueue(a + b);
  }

  /** Nothing the worker does loses a queued digest. */
  lemma {:induction false} RunKeepsInv(digests: set<string>, s: State, run: seq<Action>, t: State)
    requires Inv(digests, s) && Runs(s, run, t) && NoEnqueue(run)
    ensures Inv(digests, t)
    decreases |run|
  {
    hide Next, Enabled, Inv;
    if run != [] {
      var n := |run| - 1;
      var u :| Runs(s, run[..n], u) && Enabled(u, run[n]) && Next(u, run[n]) == t;
      assert Runs(s, run[..n], u);
      RunKeepsInv(digests, s, run[..n], u);
      ActionKeeps(digests, u, run[n]);
    }
  }

  lemma LeadsKeepsInv(digests: set<string>, s: State, t: State)
    requires Inv(digests, s) && Leads(s, t)
    ensures Inv(digests, t)
  {
    hide Inv, Runs;
    var run :| Runs(s, run, t) && NoEnqueue(run);
    assert Runs(s, run, t);
    RunKeepsInv(digests, s, run, t);
  }

  lemma UnparkedIs(s: State, slug: string, removed: bool)
    requires TaskAt(s, slug, Unparking) && (removed ==> FailedFile(slug) in s.files)
    ensures Enabled(s, Unparked(slug, removed))
    ensures var t := Next(s, Unparked(slug, removed));
      && t.files == (if removed then s.files - {FailedFile(slug)} else s.files)
      && TaskAt(t, slug, Reparking) && t.tasks - {slug} == s.tasks - {slug} && t.listed == s.listed
  {
    hide FileSlug, Lookup, RenderCachedText, ShardDir;
  }

  lemma ReparkedIs(s: State, slug: string, ok: bool)
    requires TaskAt(s, slug, Reparking) && (ok ==> QueueFile(slug) in s.files)
    ensures var a := if ok then Parked(slug) else GaveUp(slug);
      && Enabled(s, a) && Next(s, a).tasks == s.tasks - {slug} && Next(s, a).listed == s.listed
      && Next(s, a).files == if ok then Moved(s.files, QueueFile(slug), FailedFile(slug)) else s.files
  {
    hide FileSlug, Lookup, RenderCachedText, ShardDir, Moved;
  }

  /** Moving onto a place makes no difference to what was there. */
  lemma MovedOver(f: Files, src: Path, dst: Path)
    requires src in f && src != dst
    ensures Moved(f - {dst}, src, dst) == Moved(f, src, dst)
  {
  }

  /** No queue file but the one called `slug` has changed. */
  ghost predicate OthersKeep(f: Files, g: Files, slug: string)
  {
    forall k: string | k != slug ::
      && (QueueFile(k) in f <==> QueueFile(k) in g) && (QueueFile(k) in f ==> f[QueueFile(k)] == g[QueueFile(k)])
      && (FailedFile(k) in f ==> FailedFile(k) in g)
  }

  datatype JobRetry = Kept | MovedToFailed

  class OcrCache {
    const fs: FileSystem

    constructor (fs: FileSystem)
      ensures this.fs == fs
    {
      this.fs := fs;
    }

    /** The entry for `digest`; every failure is a miss. */
    method Get(digest: string) returns (r: Option<Cached>)
      modifies fs`faults
      ensures fs.faults >= old(fs.faults)
      ensures r.Some? || fs.faults == old(fs.faults) ==> r == Lookup(Visible(fs.files), digest)
    {
      var slug := FileSlug(digest);
      if slug.None? { return None; }
      var c := fs.Read(TextPath(digest));
      if c.None? || !c.value.TextBody? { return None; }
      r := ParseCachedText(c.value.body, digest);
    }

    /** Store a text, or with two empty strings a negative entry. */
    method Put(digest: string, title: string, text: string) returns (ok: bool)
      modifies fs
      ensures fs.faults >= old(fs.faults) && (fs.faults == old(fs.faults) ==> (ok <==> FileSlug(digest).Some?))
      ensures ok ==> FileSlug(digest).Some?
      ensures Visible(fs.files) ==
        if ok then Visible(old(fs.files))[TextPath(digest) := TextBody(RenderCachedText(digest, title, text))]
        else Visible(old(fs.files))
    {
      if FileSlug(digest).None? { return false; }
      ok := fs.AtomicWrite(TextPath(digest), TextBody(RenderCachedText(digest, title, text)));
    }

    /** Queue a job, in place of any other for the same file name. */
    method Enqueue(job: Job) returns (ok: bool)
      modifies fs
      ensures fs.faults >= old(fs.faults) && (fs.faults == old(fs.faults) ==> (ok <==> FileSlug(job.digest).Some?))
      ensures ok ==> FileSlug(job.digest).Some?
      ensures Visible(fs.files) ==
        if ok then Visible(old(fs.files))[QueuePath(job.digest) := JobFile(job)] else Visible(old(fs.files))
    {
      if FileSlug(job.digest).None? { return false; }
      ok := fs.AtomicWrite(QueuePath(job.digest), JobFile(job));
    }

    method RemoveJob(path: Path) returns (ok: bool)
      requires path.QueueFile?
      modifies fs
      ensures fs.faults >= old(fs.faults) && (fs.faults == old(fs.faults) ==> ok)
      ensures ok ==> path in Visible(old(fs.files)) && Visible(fs.files) == Visible(old(fs.files)) - {path}
      ensures !ok ==> Visible(fs.files) == Visible(old(fs.files))
    {
      ok := fs.Remove(path);
    }

    /** `st` shows the files as they are. */
    ghost predicate Shows(st: State)
      reads fs
    {
      st.files == Visible(fs.files)
    }

    /** After a failed rename: remove what is in the way and try again. */
    method ParkAgain(path: Path, ghost st: State) returns (ok: bool, ghost st': State)
      requires path.QueueFile? && Shows(st) && TaskAt(st, path.slug, Unparking)
      modifies fs
      ensures fs.faults >= old(fs.faults)
      ensures Leads(st, st') && Shows(st') && st'.tasks == st.tasks - {path.slug} && st'.listed == st.listed
      ensures ok ==> path in st.files && st'.files == Moved(st.files, path, FailedFile(path.slug))
      ensures !ok ==> st'.files == st.files || st'.files == st.files - {FailedFile(path.slug)}
    {
      hide Leads, Next, Enabled;
      var dst := FailedFile(path.slug);
      LeadsNowhere(st);
      var removed := fs.Remove(dst);
      UnparkedIs(st, path.slug, removed);
      LeadsOn(st, st, Unparked(path.slug, removed));
      st' := Next(st, Unparked(path.slug, removed));
      ok := fs.Rename(path, dst);
      ReparkedIs(st', path.slug, ok);
      ghost var last := if ok then Parked(path.slug) else GaveUp(path.slug);
      LeadsOn(st, st', last);
      if ok { MovedOver(st.files, path, dst); }
      st' := Next(st', last);
    }

    /** Move a queue file into failed/. */
    method Park(path: Path, ghost st: State) returns (ok: bool, ghost st': State)
      requires path.QueueFile? && Shows(st) && TaskAt(st, path.slug, Parking)
      modifies fs
      ensures fs.faults >= old(fs.faults) && (fs.faults == old(fs.faults) ==> ok)
      ensures Leads(st, st') && Shows(st') && st'.tasks == st.tasks - {path.slug} && st'.listed == st.listed
      ensures ok ==> path in st.files && st'.files == Moved(st.files, path, FailedFile(path.slug))
      ensures !ok ==> st'.files == st.files || st'.files == st.files - {FailedFile(path.slug)}
    {
      hide Leads, FileSlug, Lookup, RenderCachedText, ShardDir;
      LeadsNowhere(st);
      ok := fs.Rename(path, FailedFile(path.slug));
      if ok {
        LeadsOn(st, st, Parked(path.slug));
        return true, Next(st, Parked(path.slug));
      }
      LeadsOn(st, st, ParkFailed(path.slug));
      ghost var mid := Next(st, ParkFailed(path.slug));
      ok, st' := ParkAgain(path, mid);
      LeadsFurther(st, mid, st');
    }

    /** Record a failure of the run: one more attempt, or off to failed/. */
    method Retry(path: Path, job: Job, maxAttempts: nat, ghost st: State) returns (r: JobRetry, ghost st': State)
      requires path.QueueFile? && Shows(st) && TaskAt(st, path.slug, Extracting) && st.tasks[path.slug].job == job
      modifies fs
      ensures fs.faults >= old(fs.faults)
      ensures fs.faults == old(fs.faults) ==>
        && (r.MovedToFailed? <==> AttemptsAfter(job) >= maxAttempts)
        && (if r.MovedToFailed? then path in st.files && st'.files == Moved(st.files, path, FailedFile(path.slug))
            else st'.files == st.files[path := JobFile(job.(attempts := AttemptsAfter(job)))])
      ensures Leads(st, st') && Shows(st') && st'.tasks == st.tasks - {path.slug} && st'.listed == st.listed
      ensures r.MovedToFailed? ==>
        AttemptsAfter(job) >= maxAttempts && path !in st'.files && FailedFile(path.slug) in st'.files
      ensures r.Kept? && path in st.files ==> path in st'.files
      ensures OthersKeep(st.files, st'.files, path.slug)
    {
      hide Leads, FileSlug, Lookup, RenderCachedText, ShardDir;
      ghost var failed := RunFailed(path.slug, maxAttempts);
      LeadsNowhere(st);
      LeadsOn(st, st, failed);
      st' := Next(st, failed);
      var attempts := AttemptsAfter(job);
      if attempts >= maxAttempts {
        ghost var mid := st';
        var parked;
        parked, st' := Park(path, st');
        LeadsFurther(st, mid, st');
        return if parked then MovedToFailed else Kept, st';
      }
      var ok := fs.AtomicWrite(path, JobFile(job.(attempts := attempts)));
      ghost var last := if ok then Rescheduled(path.slug) else GaveUp(path.slug);
      LeadsOn(st, st', last);
      st' := Next(st', last);
      r := Kept;
    }

    /** Read one entry of the queue directory; park it when it cannot be read. */
    method TakeEntry(slug: string, ghost st: State) returns (job: Option<Job>, ghost st': State)
      requires Shows(st) && QueueFile(slug) in st.files && slug !in st.tasks && slug !in st.listed
      modifies fs
      ensures fs.faults >= old(fs.faults)
      ensures fs.faults == old(fs.faults) ==> (job.Some? <==> st.files[QueueFile(slug)].JobFile?)
      ensures job.Some? ==> st.files[QueueFile(slug)] == JobFile(job.value) && st'.files == st.files
      ensures Leads(st, st') && Shows(st') && st'.listed == st.listed + {slug}
      ensures st'.tasks == if job.Some? then st.tasks[slug := Task(job.value, Checking)] else st.tasks
      ensures OthersKeep(st.files, st'.files, slug)
      ensures QueueFile(slug) in st'.files || FailedFile(slug) in st'.files
    {
      hide Leads, FileSlug, Lookup, RenderCachedText, ShardDir;
      LeadsNowhere(st);
      var c := fs.Read(QueueFile(slug));
      if c.Some? && c.value.JobFile? {
        LeadsOn(st, st, List(slug));
        return Some(c.value.job), Next(st, List(slug));
      }
      LeadsOn(st, st, ListUnreadable(slug));
      ghost var mid := Next(st, ListUnreadable(slug));
      var parked;
      parked, st' := Park(QueueFile(slug), mid);
      LeadsFurther(st, mid, st');
      job := None;
    }

    /** The entries of a listing, one after the other. */
    method TakeEntries(names: seq<string>, ghost st: State) returns (jobs: seq<Job>, slugs: seq<string>,
      ghost st': State)
      requires Shows(st) && st.tasks == map[] && st.listed == {}
      requires forall i | 0 <= i < |names| :: QueueFile(names[i]) in st.files
      requires forall i, j | 0 <= i < j < |names| :: names[i] != names[j]
      modifies fs
      ensures Leads(st, st') && Shows(st') && Listed(st', slugs, jobs) && fs.faults >= old(fs.faults)
      ensures |slugs| == |jobs| && forall i | 0 <= i < |slugs| :: HoldsExactly(st.files, slugs[i], jobs[i])
      ensures fs.faults == old(fs.faults) ==>
        forall i | 0 <= i < |names| && st.files[QueueFile(names[i])].JobFile? :: names[i] in slugs
    {
      hide Leads, Next, Enabled, Listed;
      jobs, slugs, st' := [], [], st;
      LeadsNowhere(st);
      NothingListed(st);
      for n := 0 to |names|
        invariant Leads(st, st') && Shows(st') && Listed(st', slugs, jobs) && fs.faults >= old(fs.faults)
        invariant |slugs| == |jobs| && forall i | 0 <= i < |slugs| :: HoldsExactly(st.files, slugs[i], jobs[i])
        invariant forall k | k in st'.tasks || k in st'.listed :: k in names[..n]
        invariant forall i | n <= i < |names| ::
          QueueFile(names[i]) in st'.files && st'.files[QueueFile(names[i])] == st.files[QueueFile(names[i])]
        invariant fs.faults == old(fs.faults) ==> forall i | 0 <= i < n && st.files[QueueFile(names[i])].JobFile? ::
          names[i] in slugs
      {
        var slug := names[n];
        assert slug !in names[..n];
        ghost var mid := st';
        var job;
        job, st' := TakeEntry(slug, st');
        LeadsFurther(st, mid, st');
        ListedOneMore(mid, st', slugs, jobs, slug, job);
        if job.Some? { jobs, slugs := jobs + [job.value], slugs + [slug]; }
      }
    }

    /** All pending jobs; entries that cannot be read are parked. When nothing fails,
        that is every job in the queue. */
    method QueuedJobs(ghost st: State) returns (jobs: seq<Job>, slugs: seq<string>, ghost st': State)
      requires Shows(st) && st.tasks == map[] && st.listed == {}
      modifies fs
      ensures Leads(st, st') && Shows(st') && Listed(st', slugs, jobs) && fs.faults >= old(fs.faults)
      ensures |slugs| == |jobs| && forall i | 0 <= i < |slugs| :: HoldsExactly(st.files, slugs[i], jobs[i])
      ensures fs.faults == old(fs.faults) ==>
        forall k | QueueFile(k) in st.files && st.files[QueueFile(k)].JobFile? :: k in slugs
    {
      hide Leads, Next, Enabled, Listed;
      var names := fs.ListQueue();
      ghost var complete := fs.faults == old(fs.faults);
      assert complete ==> forall k | QueueFile(k) in st.files :: k in names;
      jobs, slugs, st' := TakeEntries(names, st);
    }
  }

  /** The queue file called `slug` holds this job. */
  predicate HoldsExactly(files: Files, slug: string, job: Job)
  {
    QueueFile(slug) in files && files[QueueFile(slug)] == JobFile(job)
  }

  /** The worker has one task for each of `slugs`, with the job from its file, at its start. */
  ghost predicate Listed(st: State, slugs: seq<string>, jobs: seq<Job>)
  {
    && |slugs| == |jobs|
    && (forall i, j | 0 <= i < j < |slugs| :: slugs[i] != slugs[j])
    && (forall i | 0 <= i < |slugs| :: slugs[i] in st.tasks && st.tasks[slugs[i]] == Task(jobs[i], Checking))
    && (forall i | 0 <= i < |slugs| :: HoldsExactly(st.files, slugs[i], jobs[i]))
    && (forall k | k in st.tasks :: k in slugs)
  }

  lemma NothingListed(st: State)
    requires st.tasks == map[]
    ensures Listed(st, [], [])
  {
  }

  lemma ListedOneMore(st: State, st': State, slugs: seq<string>, jobs: seq<Job>, slug: string, job: Option<Job>)
    requires Listed(st, slugs, jobs) && slug !in st.tasks
    requires st'.tasks == if job.Some? then st.tasks[slug := Task(job.value, Checking)] else st.tasks
    requires job.Some? ==> HoldsExactly(st'.files, slug, job.value)
    requires OthersKeep(st.files, st'.files, slug)
    ensures if job.Some? then Listed(st', slugs + [slug], jobs + [job.value]) else Listed(st', slugs, jobs)
  {
    forall i | 0 <= i < |slugs| ensures slugs[i] != slug && HoldsExactly(st'.files, slugs[i], jobs[i]) {
      assert HoldsExactly(st.files, slugs[i], jobs[i]);
    }
  }
}
