/** The OCR queue as a protocol: any number of index processes queue jobs while one
  worker process takes them off, and either can be stopped between any two
  file-system operations. Every action below is one such operation, or the
  decision in front of it. */
module OcrProtocol {
  import opened Bytes
  import opened CachedText
  import opened OcrFiles

  /** What a task of the worker is about to do with its job. */
  datatype Phase =
    | Checking                        // look into the cache
    | Extracting                      // fetch and extract
    | Storing(body: string)           // rename the entry into place
    | Removing                        // the entry is there: remove the job
    | Rescheduling                    // rename the job with one more attempt into place
    | Parking                         // rename the job into failed/
    | Unparking                       // that failed: remove what is in the way
    | Reparking                       // rename again

  datatype Task = Task(job: Job, phase: Phase)

  /** The files, the worker's tasks by queue file, the queue files its listing has
      returned, and the digests somebody has queued successfully. */
  datatype State = State(files: Files, tasks: map<string, Task>, listed: set<string>, owed: set<string>)

  datatype Action =
    | Enqueue(job: Job)               // an index run, or prefill
    | WorkerStarts                    // after a normal end or a crash of the one before
    | List(slug: string)
    | ListUnreadable(slug: string)
    | Hit(slug: string)
    | Miss(slug: string)
    | Extracted(slug: string, title: string, text: string)   // two empty strings: no text in it
    | RunFailed(slug: string, maxAttempts: nat)
    | Stored(slug: string)
    | Removed(slug: string)
    | Rescheduled(slug: string)
    | Parked(slug: string)
    | ParkFailed(slug: string)
    | Unparked(slug: string, removed: bool)
    | GaveUp(slug: string)            // the operation this task was at failed: the task ends

  predicate TaskAt(s: State, slug: string, p: Phase)
  {
    slug in s.tasks && s.tasks[slug].phase == p
  }

  function Goto(s: State, slug: string, p: Phase): State
    requires slug in s.tasks
  {
    s.(tasks := s.tasks[slug := s.tasks[slug].(phase := p)])
  }

  function End(s: State, slug: string): State
  {
    s.(tasks := s.tasks - {slug})
  }

  function Moved(files: Files, src: Path, dst: Path): Files
    requires src in files
  {
    (files - {src})[dst := files[src]]
  }

  predicate Enabled(s: State, a: Action)
  {
    match a
    case Enqueue(job) => FileSlug(job.digest).Some?
    case WorkerStarts => true
    case List(slug) => QueueFile(slug) in s.files && s.files[QueueFile(slug)].JobFile? && slug !in s.listed &&
      slug !in s.tasks
    case ListUnreadable(slug) => QueueFile(slug) in s.files && slug !in s.listed && slug !in s.tasks
    case Hit(slug) => TaskAt(s, slug, Checking) && Lookup(s.files, s.tasks[slug].job.digest).Some?
    case Miss(slug) => TaskAt(s, slug, Checking)
    case Extracted(slug, _, _) => TaskAt(s, slug, Extracting)
    case RunFailed(slug, _) => TaskAt(s, slug, Extracting)
    case Stored(slug) => slug in s.tasks && s.tasks[slug].phase.Storing? && FileSlug(s.tasks[slug].job.digest).Some?
    case Removed(slug) => TaskAt(s, slug, Removing) && QueueFile(slug) in s.files
    case Rescheduled(slug) => TaskAt(s, slug, Rescheduling)
    case Parked(slug) => (TaskAt(s, slug, Parking) || TaskAt(s, slug, Reparking)) && QueueFile(slug) in s.files
    case ParkFailed(slug) => TaskAt(s, slug, Parking)
    case Unparked(slug, removed) => TaskAt(s, slug, Unparking) && (removed ==> FailedFile(slug) in s.files)
    case GaveUp(slug) =>
      slug in s.tasks && !s.tasks[slug].phase.Checking? && !s.tasks[slug].phase.Parking? &&
        !s.tasks[slug].phase.Unparking?
  }

  function Next(s: State, a: Action): State
    requires Enabled(s, a)
  {
    match a
    case Enqueue(job) => s.(files := s.files[QueuePath(job.digest) := JobFile(job)], owed := s.owed + {job.digest})
    case WorkerStarts => s.(tasks := map[], listed := {})
    case List(slug) => s.(tasks := s.tasks[slug := Task(s.files[QueueFile(slug)].job, Checking)],
      listed := s.listed + {slug})
    case ListUnreadable(slug) =>
      var job := if s.files[QueueFile(slug)].JobFile? then s.files[QueueFile(slug)].job
        else Job("", Place("", "", 0, None, 0, ""), 0);
      s.(tasks := s.tasks[slug := Task(job, Parking)], listed := s.listed + {slug})
    case Hit(slug) => Goto(s, slug, Removing)
    case Miss(slug) => Goto(s, slug, Extracting)
    case Extracted(slug, title, text) =>
      Goto(s, slug, Storing(RenderCachedText(s.tasks[slug].job.digest, title, text)))
    case RunFailed(slug, maxAttempts) =>
      Goto(s, slug, if AttemptsAfter(s.tasks[slug].job) >= maxAttempts then Parking else Rescheduling)
    case Stored(slug) =>
      var path, body := TextPath(s.tasks[slug].job.digest), TextBody(s.tasks[slug].phase.body);
      Goto(s.(files := s.files[path := body]), slug, Removing)
    case Removed(slug) => End(s.(files := s.files - {QueueFile(slug)}), slug)
    case Rescheduled(slug) =>
      var job := s.tasks[slug].job;
      End(s.(files := s.files[QueueFile(slug) := JobFile(job.(attempts := AttemptsAfter(job)))]), slug)
    case Parked(slug) => End(s.(files := Moved(s.files, QueueFile(slug), FailedFile(slug))), slug)
    case ParkFailed(slug) => Goto(s, slug, Unparking)
    case Unparked(slug, removed) =>
      Goto(if removed then s.(files := s.files - {FailedFile(slug)}) else s, slug, Reparking)
    case GaveUp(slug) => End(s, slug)
  }

  // ── runs ──

  /** `run` leads from `s` to `t`. */
  ghost predicate Runs(s: State, run: seq<Action>, t: State)
    decreases |run|
  {
    if run == [] then s == t
    else
      var n := |run| - 1;
      exists u :: Runs(s, run[..n], u) && Enabled(u, run[n]) && Next(u, run[n]) == t
  }

  lemma RunsOneMore(s: State, run: seq<Action>, t: State, a: Action)
    requires Runs(s, run, t) && Enabled(t, a)
    ensures Runs(s, run + [a], Next(t, a))
  {
    hide Next, Enabled;
    assert (run + [a])[..|run|] == run;
  }

  lemma {:induction false} RunsConcat(s: State, a: seq<Action>, t: State, b: seq<Action>, u: State)
    requires Runs(s, a, t) && Runs(t, b, u)
    ensures Runs(s, a + b, u)
    decreases |b|
  {
    hide Next, Enabled;
    if b == [] {
      assert a + b == a;
    } else {
      var n := |b| - 1;
      var v :| Runs(t, b[..n], v) && Enabled(v, b[n]) && Next(v, b[n]) == u;
      assert Runs(t, b[..n], v);
      RunsConcat(s, a, t, b[..n], v);
      RunsOneMore(s, a + b[..n], v, b[n]);
      assert a + b[..n] + [b[n]] == a + b;
    }
  }

  lemma RunsTwo(s: State, a: Action, b: Action)
    requires Enabled(s, a) && Enabled(Next(s, a), b)
    ensures Runs(s, [a, b], Next(Next(s, a), b))
  {
    hide Next, Enabled;
    RunsOneMore(s, [], s, a);
    RunsOneMore(s, [] + [a], Next(s, a), b);
    assert [] + [a] + [b] == [a, b];
  }

  // ── no loss ──

  /** A file at `p` with a job for `digest`. */
  predicate HoldsJob(files: Files, p: Path, digest: string)
  {
    p in files && files[p].JobFile? && files[p].job.digest == digest
  }

  /** The digest is still in the queue, or parked, or answered. */
  predicate Safe(files: Files, digest: string)
    requires FileSlug(digest).Some?
  {
    || HoldsJob(files, QueuePath(digest), digest)
    || HoldsJob(files, FailedFile(FileSlug(digest).value), digest)
    || Lookup(files, digest).Some?
  }

  /** The digests in use; no two of them share a file name. */
  ghost predicate Distinct(digests: set<string>)
  {
    && (forall d | d in digests :: FileSlug(d).Some?)
    && (forall d, e | d in digests && e in digests && FileSlug(d) == FileSlug(e) :: d == e)
  }

  /** The one digest in use whose job file is called `slug`. */
  ghost predicate Names(digests: set<string>, slug: string, digest: string)
  {
    digest in digests && FileSlug(digest) == Some(slug)
  }

  ghost predicate FilesGood(digests: set<string>, files: Files)
  {
    forall slug: string ::
      && (QueueFile(slug) in files ==>
        files[QueueFile(slug)].JobFile? && Names(digests, slug, files[QueueFile(slug)].job.digest))
      && (FailedFile(slug) in files ==>
        files[FailedFile(slug)].JobFile? && Names(digests, slug, files[FailedFile(slug)].job.digest))
  }

  /** A task's job file is there until the task itself takes it away; it is taken
      away for good only when the entry is in the cache. */
  ghost predicate TaskGood(digests: set<string>, files: Files, slug: string, t: Task)
  {
    && Names(digests, slug, t.job.digest)
    && (if t.phase.Removing? then Lookup(files, t.job.digest).Some? else QueueFile(slug) in files)
    && (t.phase.Storing? ==> ParseCachedText(t.phase.body, t.job.digest).Some?)
  }

  ghost predicate TasksGood(digests: set<string>, s: State)
  {
    forall slug | slug in s.tasks :: TaskGood(digests, s.files, slug, s.tasks[slug])
  }

  ghost predicate AllSafe(digests: set<string>, s: State)
  {
    s.owed <= digests && (forall d | d in digests :: FileSlug(d).Some?) && forall d | d in s.owed :: Safe(s.files, d)
  }

  ghost predicate Inv(digests: set<string>, s: State)
  {
    Distinct(digests) && FilesGood(digests, s.files) && TasksGood(digests, s) && AllSafe(digests, s)
  }

  /** Only jobs for digests in use are queued. */
  predicate Uses(digests: set<string>, a: Action)
  {
    a.Enqueue? ==> a.job.digest in digests
  }

  /** What one file operation may do: whatever was safe or answered stays so, and
      no job file goes except `gone`. */
  ghost predicate Keeps(digests: set<string>, f: Files, g: Files, gone: Option<string>)
  {
    && FilesGood(digests, g)
    && (forall d | d in digests && FileSlug(d).Some? && Safe(f, d) :: Safe(g, d))
    && (forall d | d in digests && Lookup(f, d).Some? :: Lookup(g, d).Some?)
    && (forall slug | QueueFile(slug) in f && gone != Some(slug) :: QueueFile(slug) in g)
  }

  lemma LookupDepends(f: Files, g: Files, d: string)
    requires FileSlug(d).Some? ==>
      (TextPath(d) in f <==> TextPath(d) in g) && (TextPath(d) in f ==> f[TextPath(d)] == g[TextPath(d)])
    ensures Lookup(f, d) == Lookup(g, d)
  {
  }

  lemma NothingChanges(digests: set<string>, f: Files)
    requires FilesGood(digests, f)
    ensures Keeps(digests, f, f, None)
  {
  }

  /** A job file for `job` put in place. */
  lemma QueueWritten(digests: set<string>, f: Files, slug: string, job: Job)
    requires Distinct(digests) && FilesGood(digests, f) && Names(digests, slug, job.digest)
    ensures Keeps(digests, f, f[QueueFile(slug) := JobFile(job)], None)
    ensures Safe(f[QueueFile(slug) := JobFile(job)], job.digest)
  {
    hide FileSlug, ParseCachedText, ShardDir;
    var g := f[QueueFile(slug) := JobFile(job)];
    forall d | d in digests ensures Lookup(g, d) == Lookup(f, d) { LookupDepends(f, g, d); }
  }

  /** A cache entry for `digest` put in place. */
  lemma EntryWritten(digests: set<string>, f: Files, digest: string, body: string)
    requires Distinct(digests) && FilesGood(digests, f) && digest in digests
    requires FileSlug(digest).Some? && ParseCachedText(body, digest).Some?
    ensures Keeps(digests, f, f[TextPath(digest) := TextBody(body)], None)
    ensures Lookup(f[TextPath(digest) := TextBody(body)], digest).Some?
  {
    hide FileSlug, ParseCachedText, ShardDir;
    var g := f[TextPath(digest) := TextBody(body)];
    forall d | d in digests && d != digest ensures Lookup(g, d) == Lookup(f, d) {
      assert FileSlug(d) != FileSlug(digest);
      LookupDepends(f, g, d);
    }
  }

  /** A job file removed after its digest has been answered. */
  lemma JobRemoved(digests: set<string>, f: Files, slug: string, digest: string)
    requires Distinct(digests) && FilesGood(digests, f) && Names(digests, slug, digest) && Lookup(f, digest).Some?
    ensures Keeps(digests, f, f - {QueueFile(slug)}, Some(slug))
  {
    hide FileSlug, ParseCachedText, ShardDir;
    var g := f - {QueueFile(slug)};
    forall d | d in digests ensures Lookup(g, d) == Lookup(f, d) { LookupDepends(f, g, d); }
    assert forall d | d in digests && d != digest :: FileSlug(d) != FileSlug(digest);
  }

  /** A job file moved into failed/, over whatever was there. */
  lemma JobParked(digests: set<string>, f: Files, slug: string)
    requires Distinct(digests) && FilesGood(digests, f) && QueueFile(slug) in f
    ensures Keeps(digests, f, Moved(f, QueueFile(slug), FailedFile(slug)), Some(slug))
  {
    hide FileSlug, ParseCachedText, ShardDir;
    var g := Moved(f, QueueFile(slug), FailedFile(slug));
    forall d | d in digests ensures Lookup(g, d) == Lookup(f, d) { LookupDepends(f, g, d); }
    var digest := f[QueueFile(slug)].job.digest;
    assert Names(digests, slug, digest);
    assert forall d | d in digests && d != digest :: FileSlug(d) != FileSlug(digest);
  }

  /** A parked file removed while the same job is still queued. */
  lemma ParkedRemoved(digests: set<string>, f: Files, slug: string)
    requires Distinct(digests) && FilesGood(digests, f) && QueueFile(slug) in f
    ensures Keeps(digests, f, f - {FailedFile(slug)}, None)
  {
    hide FileSlug, ParseCachedText, ShardDir;
    var g := f - {FailedFile(slug)};
    forall d | d in digests ensures Lookup(g, d) == Lookup(f, d) { LookupDepends(f, g, d); }
    var digest := f[QueueFile(slug)].job.digest;
    assert Names(digests, slug, digest);
    assert forall d | d in digests && d != digest :: FileSlug(d) != FileSlug(digest);
  }

  /** A step keeps the invariant when its file operation keeps what must be kept
      and the one task it concerns is still good. */
  lemma StepKeeps(digests: set<string>, s: State, t: State, slug: string, gone: Option<string>)
    requires Inv(digests, s) && Keeps(digests, s.files, t.files, gone)
    requires forall k | k in t.tasks && k != slug :: k in s.tasks && t.tasks[k] == s.tasks[k]
    requires slug in t.tasks ==> TaskGood(digests, t.files, slug, t.tasks[slug])
    requires gone == None || gone == Some(slug)
    requires t.owed == s.owed
    ensures Inv(digests, t)
  {
    hide FileSlug, ParseCachedText, ShardDir, Lookup, FilesGood, Distinct;
    forall k | k in t.tasks ensures TaskGood(digests, t.files, k, t.tasks[k]) {
      if k != slug { assert TaskGood(digests, s.files, k, s.tasks[k]); }
    }
  }

  lemma EnqueueKeeps(digests: set<string>, s: State, job: Job)
    requires Inv(digests, s) && job.digest in digests && Enabled(s, Enqueue(job))
    ensures Inv(digests, Next(s, Enqueue(job)))
  {
    hide FileSlug, ParseCachedText, ShardDir, Lookup, FilesGood, Distinct;
    var slug := FileSlug(job.digest).value;
    QueueWritten(digests, s.files, slug, job);
    var t := Next(s, Enqueue(job));
    assert slug in s.tasks ==> TaskGood(digests, s.files, slug, s.tasks[slug]);
    StepKeeps(digests, s, t.(owed := s.owed), slug, None);
  }

  /** Actions that touch no file. */
  predicate Silent(a: Action)
  {
    a.List? || a.ListUnreadable? || a.Hit? || a.Miss? || a.Extracted? || a.RunFailed? || a.ParkFailed? || a.GaveUp?
  }

  lemma ExtractedParses(digest: string, title: string, text: string)
    requires FileSlug(digest).Some?
    ensures ParseCachedText(RenderCachedText(digest, title, text), digest).Some?
  {
    hide FileSlug, ParseCachedText, RenderCachedText;
    SlugIsPlain(digest);
    ParseInvertsRender(digest, title, text, digest);
  }

  /** A task that is new starts with the job its file holds. */
  lemma ListedIsGood(digests: set<string>, s: State, a: Action)
    requires FilesGood(digests, s.files) && (a.List? || a.ListUnreadable?) && Enabled(s, a)
    ensures TaskGood(digests, s.files, a.slug, Next(s, a).tasks[a.slug])
  {
    hide FileSlug, ParseCachedText, ShardDir, Lookup, RenderCachedText;
  }

  /** A task that goes on, or ends. */
  lemma GoneOnIsGood(digests: set<string>, s: State, a: Action)
    requires a.Hit? || a.Miss? || a.Extracted? || a.RunFailed? || a.ParkFailed? || a.GaveUp?
    requires Enabled(s, a) && TaskGood(digests, s.files, a.slug, s.tasks[a.slug])
    ensures a.slug in Next(s, a).tasks ==> TaskGood(digests, s.files, a.slug, Next(s, a).tasks[a.slug])
  {
    hide FileSlug, ParseCachedText, RenderCachedText, ShardDir, Lookup;
    if a.Extracted? { ExtractedParses(s.tasks[a.slug].job.digest, a.title, a.text); }
  }

  lemma SilentIs(s: State, a: Action)
    requires Silent(a) && Enabled(s, a)
    ensures var t := Next(s, a);
      t.files == s.files && t.owed == s.owed && forall k | k in t.tasks && k != a.slug ::
        k in s.tasks && t.tasks[k] == s.tasks[k]
    ensures !a.List? && !a.ListUnreadable? ==> a.slug in s.tasks
  {
    hide FileSlug, ShardDir, Lookup, RenderCachedText;
  }

  lemma SilentKeeps(digests: set<string>, s: State, a: Action)
    requires Inv(digests, s) && Silent(a) && Enabled(s, a)
    ensures Inv(digests, Next(s, a))
  {
    hide Next, Enabled, FilesGood, TaskGood, Distinct, AllSafe, Keeps;
    NothingChanges(digests, s.files);
    SilentIs(s, a);
    if a.List? || a.ListUnreadable? {
      ListedIsGood(digests, s, a);
    } else {
      assert TaskGood(digests, s.files, a.slug, s.tasks[a.slug]);
      GoneOnIsGood(digests, s, a);
    }
    StepKeeps(digests, s, Next(s, a), a.slug, None);
  }

  lemma StoredKeeps(digests: set<string>, s: State, slug: string)
    requires Inv(digests, s) && Enabled(s, Stored(slug))
    ensures Inv(digests, Next(s, Stored(slug)))
  {
    hide FileSlug, ParseCachedText, ShardDir, Lookup, Distinct, AllSafe, FilesGood;
    var task := s.tasks[slug];
    assert TaskGood(digests, s.files, slug, task);
    EntryWritten(digests, s.files, task.job.digest, task.phase.body);
    StepKeeps(digests, s, Next(s, Stored(slug)), slug, None);
  }

  lemma RemovedKeeps(digests: set<string>, s: State, slug: string)
    requires Inv(digests, s) && Enabled(s, Removed(slug))
    ensures Inv(digests, Next(s, Removed(slug)))
  {
    hide FileSlug, ParseCachedText, ShardDir, Lookup, Distinct, AllSafe, FilesGood;
    assert TaskGood(digests, s.files, slug, s.tasks[slug]);
    JobRemoved(digests, s.files, slug, s.tasks[slug].job.digest);
    StepKeeps(digests, s, Next(s, Removed(slug)), slug, Some(slug));
  }

  lemma RescheduledKeeps(digests: set<string>, s: State, slug: string)
    requires Inv(digests, s) && Enabled(s, Rescheduled(slug))
    ensures Inv(digests, Next(s, Rescheduled(slug)))
  {
    hide FileSlug, ParseCachedText, ShardDir, Lookup, Distinct, AllSafe, FilesGood;
    var job := s.tasks[slug].job;
    assert TaskGood(digests, s.files, slug, s.tasks[slug]);
    QueueWritten(digests, s.files, slug, job.(attempts := AttemptsAfter(job)));
    StepKeeps(digests, s, Next(s, Rescheduled(slug)), slug, None);
  }

  lemma ParkedKeeps(digests: set<string>, s: State, slug: string)
    requires Inv(digests, s) && Enabled(s, Parked(slug))
    ensures Inv(digests, Next(s, Parked(slug)))
  {
    hide FileSlug, ParseCachedText, ShardDir, Lookup, Distinct, AllSafe, FilesGood, Moved;
    JobParked(digests, s.files, slug);
    StepKeeps(digests, s, Next(s, Parked(slug)), slug, Some(slug));
  }

  lemma UnparkedKeeps(digests: set<string>, s: State, slug: string, removed: bool)
    requires Inv(digests, s) && Enabled(s, Unparked(slug, removed))
    ensures Inv(digests, Next(s, Unparked(slug, removed)))
  {
    hide FileSlug, ParseCachedText, ShardDir, Lookup, Distinct, AllSafe, FilesGood;
    assert TaskGood(digests, s.files, slug, s.tasks[slug]);
    NothingChanges(digests, s.files);
    ParkedRemoved(digests, s.files, slug);
    StepKeeps(digests, s, Next(s, Unparked(slug, removed)), slug, None);
  }

  lemma ActionKeeps(digests: set<string>, s: State, a: Action)
    requires Inv(digests, s) && Enabled(s, a) && Uses(digests, a)
    ensures Inv(digests, Next(s, a))
  {
    hide Inv, Next, Enabled;
    if Silent(a) { SilentKeeps(digests, s, a); }
    else if a.WorkerStarts? { CrashKeeps(digests, s); }
    else if a.Enqueue? { EnqueueKeeps(digests, s, a.job); }
    else if a.Stored? { StoredKeeps(digests, s, a.slug); }
    else if a.Removed? { RemovedKeeps(digests, s, a.slug); }
    else if a.Rescheduled? { RescheduledKeeps(digests, s, a.slug); }
    else if a.Parked? { ParkedKeeps(digests, s, a.slug); }
    else { UnparkedKeeps(digests, s, a.slug, a.removed); }
  }

  lemma CrashKeeps(digests: set<string>, s: State)
    requires Inv(digests, s)
    ensures Inv(digests, Next(s, WorkerStarts))
  {
    hide FileSlug, Lookup, Distinct, Safe, FilesGood;
  }

  /** A state to start from: any cache with job files where they belong, and nothing running. */
  ghost predicate Fresh(digests: set<string>, s: State)
  {
    Distinct(digests) && FilesGood(digests, s.files) && s.tasks == map[] && s.owed == {}
  }

  lemma {:induction false} RunKeeps(digests: set<string>, s: State, run: seq<Action>, t: State)
    requires Fresh(digests, s) && Runs(s, run, t) && forall i | 0 <= i < |run| :: Uses(digests, run[i])
    ensures Inv(digests, t)
    decreases |run|
  {
    hide Next, Enabled, Inv;
    if run == [] {
      FreshIsGood(digests, s);
    } else {
      var n := |run| - 1;
      var u :| Runs(s, run[..n], u) && Enabled(u, run[n]) && Next(u, run[n]) == t;
      assert Runs(s, run[..n], u);
      RunKeeps(digests, s, run[..n], u);
      ActionKeeps(digests, u, run[n]);
    }
  }

  lemma FreshIsGood(digests: set<string>, s: State)
    requires Fresh(digests, s)
    ensures Inv(digests, s)
  {
    hide FileSlug, Lookup, FilesGood;
  }

  /** No loss: with one worker process and any number of index processes, in any
      interleaving, with any operation failing and any process stopped anywhere,
      a digest once queued is in the queue, in failed/, or answered by the cache. */
  lemma NothingLost(digests: set<string>, s: State, run: seq<Action>, t: State, digest: string)
    requires Fresh(digests, s) && Runs(s, run, t) && forall i | 0 <= i < |run| :: Uses(digests, run[i])
    requires digest in t.owed
    ensures FileSlug(digest).Some? && Safe(t.files, digest)
  {
    hide Next, Enabled, FileSlug, Runs, Fresh;
    RunKeeps(digests, s, run, t);
  }

  // ── why the assumptions are needed ──

  const EMPTY := State(map[], map[], {}, {})

  /** Of two digests that share a file name, queueing the second loses the first. */
  lemma SharedNameLoses(d: Job, e: Job)
    requires FileSlug(d.digest).Some? && FileSlug(d.digest) == FileSlug(e.digest) && d.digest != e.digest
    ensures exists t :: Runs(EMPTY, [Enqueue(d), Enqueue(e)], t) && d.digest in t.owed && !Safe(t.files, d.digest)
  {
    hide FileSlug, ParseCachedText, ShardDir;
    var t1 := Next(EMPTY, Enqueue(d));
    var t2 := Next(t1, Enqueue(e));
    RunsTwo(EMPTY, Enqueue(d), Enqueue(e));
    assert TextPath(d.digest) !in t2.files;
  }

  /** No run from an empty cache that queues only `digests` loses one of them. */
  ghost predicate Lossless(digests: set<string>)
  {
    forall run: seq<Action>, t: State | Runs(EMPTY, run, t) && (forall i | 0 <= i < |run| :: Uses(digests, run[i])) ::
      forall d | d in t.owed :: FileSlug(d).Some? && Safe(t.files, d)
  }

  /** So distinct file names are exactly what it takes. */
  lemma LosslessExactly(digests: set<string>)
    requires forall d | d in digests :: FileSlug(d).Some?
    ensures Lossless(digests) <==> Distinct(digests)
  {
    hide FileSlug, Runs, Next, Enabled, Safe, ShardDir;
    if Distinct(digests) {
      assert Fresh(digests, EMPTY);
      forall run: seq<Action>, t: State | Runs(EMPTY, run, t) && forall i | 0 <= i < |run| :: Uses(digests, run[i])
        ensures forall d | d in t.owed :: FileSlug(d).Some? && Safe(t.files, d)
      {
        forall d | d in t.owed ensures FileSlug(d).Some? && Safe(t.files, d) { NothingLost(digests, EMPTY, run, t, d); }
      }
    } else {
      var d, e :| d in digests && e in digests && FileSlug(d) == FileSlug(e) && d != e;
      var x, y := JobFor(d), JobFor(e);
      SharedNameLoses(x, y);
      var t :| Runs(EMPTY, [Enqueue(x), Enqueue(y)], t) && d in t.owed && !Safe(t.files, d);
      assert Runs(EMPTY, [Enqueue(x), Enqueue(y)], t) && forall i | 0 <= i < 2 ::
        Uses(digests, [Enqueue(x), Enqueue(y)][i]);
    }
  }

  function JobFor(digest: string): Job
  {
    Job(digest, Place("", "", 0, None, 0, ""), 0)
  }

  // ── how often a job is tried ──

  /** Nobody queues `slug` again, its file can be read, extraction never succeeds, the
      rename into failed/ does, and every worker run allows the same number of attempts.
      Recording a failure may fail: then it is not recorded. */
  predicate Failing(a: Action, slug: string, maxAttempts: nat)
  {
    match a
    case Enqueue(job) => FileSlug(job.digest) != Some(slug)
    case ListUnreadable(k) => k != slug
    case Hit(k) => k != slug
    case Extracted(k, _, _) => k != slug
    case RunFailed(k, m) => k == slug ==> m == maxAttempts
    case ParkFailed(k) => k != slug
    case _ => true
  }

  /** Failures that have been recorded, in the job file or by parking it. */
  function Recorded(run: seq<Action>, slug: string): nat
  {
    if run == [] then 0
    else
      var last := run[|run| - 1];
      Recorded(run[..|run| - 1], slug) + if last == Rescheduled(slug) || last == Parked(slug) then 1 else 0
  }

  /** How many failures a job is allowed that already has `attempts` behind it. */
  function Allowed(attempts: nat, maxAttempts: nat): nat
  {
    if maxAttempts > attempts + 1 then maxAttempts - attempts else 1
  }

  /** After `n` recorded failures: still queued, with that many more attempts, or
      parked, at the last allowed one. */
  ghost predicate Tried(s: State, slug: string, attempts: nat, maxAttempts: nat, n: nat)
  {
    && n <= Allowed(attempts, maxAttempts)
    && (n < Allowed(attempts, maxAttempts) ==>
          QueueFile(slug) in s.files && s.files[QueueFile(slug)].JobFile? &&
            s.files[QueueFile(slug)].job.attempts == attempts + n)
    && (n == Allowed(attempts, maxAttempts) ==>
      QueueFile(slug) !in s.files && FailedFile(slug) in s.files && slug !in s.tasks)
    && (slug in s.tasks ==>
          var t := s.tasks[slug];
          && t.job.attempts == attempts + n
          && (t.phase.Checking? || t.phase.Extracting? || t.phase.Rescheduling? || t.phase.Parking?)
          && (t.phase.Rescheduling? ==> AttemptsAfter(t.job) < maxAttempts)
          && (t.phase.Parking? ==> AttemptsAfter(t.job) >= maxAttempts))
  }

  lemma FailureCounted(s: State, a: Action, slug: string, attempts: nat, maxAttempts: nat, n: nat)
    requires maxAttempts <= 0xFFFF_FFFF && Tried(s, slug, attempts, maxAttempts, n) && Enabled(s, a) &&
      Failing(a, slug, maxAttempts)
    ensures var recorded := if a == Rescheduled(slug) || a == Parked(slug) then 1 else 0;
      Tried(Next(s, a), slug, attempts, maxAttempts, n + recorded)
  {
    hide FileSlug, RenderCachedText, ShardDir, Lookup;
  }

  /** The attempt bound: across any number of worker runs, a job whose extraction
      keeps failing is parked by exactly the max(1, maxAttempts - attempts)-th
      recorded failure; until then it stays queued, one attempt more each time. */
  lemma {:induction false} AttemptBound(s: State, run: seq<Action>, t: State, slug: string, maxAttempts: nat)
    requires QueueFile(slug) in s.files && s.files[QueueFile(slug)].JobFile? && slug !in s.tasks
    requires maxAttempts <= 0xFFFF_FFFF
    requires Runs(s, run, t) && forall i | 0 <= i < |run| :: Failing(run[i], slug, maxAttempts)
    ensures Tried(t, slug, s.files[QueueFile(slug)].job.attempts, maxAttempts, Recorded(run, slug))
    decreases |run|
  {
    hide Next, Enabled, Failing;
    if run != [] {
      var n := |run| - 1;
      var u :| Runs(s, run[..n], u) && Enabled(u, run[n]) && Next(u, run[n]) == t;
      assert Runs(s, run[..n], u);
      AttemptBound(s, run[..n], u, slug, maxAttempts);
      FailureCounted(u, run[n], slug, s.files[QueueFile(slug)].job.attempts, maxAttempts, Recorded(run[..n], slug));
    }
  }
}
