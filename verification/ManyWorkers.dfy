/** The OCR queue with any number of worker processes at once. Each has its own
  listing and its own tasks; the files are common. One step is the only dangerous
  one: clearing the way in failed/ for a job that is no longer in the queue. */
module ManyWorkers {
  import opened Bytes
  import opened CachedText
  import opened OcrFiles
  import opened OcrProtocol

  /** What one worker process has in memory. */
  datatype Worker = Worker(tasks: map<string, Task>, listed: set<string>)

  datatype System = System(files: Files, workers: map<nat, Worker>, owed: set<string>)

  /** An action of one worker; who queues a job makes no difference. */
  datatype Move = Move(worker: nat, action: Action)

  function WorkerOf(s: System, w: nat): Worker
  {
    if w in s.workers then s.workers[w] else Worker(map[], {})
  }

  /** The system as worker `w` sees it. */
  function View(s: System, w: nat): State
  {
    State(s.files, WorkerOf(s, w).tasks, WorkerOf(s, w).listed, s.owed)
  }

  predicate Can(s: System, m: Move)
  {
    Enabled(View(s, m.worker), m.action)
  }

  function After(s: System, m: Move): System
    requires Can(s, m)
  {
    var t := Next(View(s, m.worker), m.action);
    System(t.files, s.workers[m.worker := Worker(t.tasks, t.listed)], t.owed)
  }

  // ── runs ──

  predicate Possible(s: System, run: seq<Move>)
    decreases |run|
  {
    run == [] || (Can(s, run[0]) && Possible(After(s, run[0]), run[1..]))
  }

  function Outcome(s: System, run: seq<Move>): System
    requires Possible(s, run)
    decreases |run|
  {
    if run == [] then s else Outcome(After(s, run[0]), run[1..])
  }

  /** Every digest somebody has queued is in the queue, parked or answered. */
  predicate NoneLost(s: System)
  {
    forall d | d in s.owed :: FileSlug(d).Some? && Safe(s.files, d)
  }

  /** In every state of the run. */
  predicate NeverLost(s: System, run: seq<Move>)
    requires Possible(s, run)
    decreases |run|
  {
    NoneLost(s) && (run != [] ==> NeverLost(After(s, run[0]), run[1..]))
  }

  /** A worker clears the way in failed/ for a job it no longer finds in the queue,
      whose digest is owed and not answered. */
  predicate Careless(s: System, m: Move)
    requires Can(s, m)
  {
    && m.action.Unparked? && m.action.removed && QueueFile(m.action.slug) !in s.files
    && var digest := WorkerOf(s, m.worker).tasks[m.action.slug].job.digest;
       digest in s.owed && Lookup(s.files, digest).None?
  }

  predicate NeverCareless(s: System, run: seq<Move>)
    requires Possible(s, run)
    decreases |run|
  {
    run == [] || (!Careless(s, run[0]) && NeverCareless(After(s, run[0]), run[1..]))
  }

  predicate UsesAll(digests: set<string>, run: seq<Move>)
  {
    forall i | 0 <= i < |run| :: Uses(digests, run[i].action)
  }

  // ── what holds in every state ──

  /** A task knows its digest, and is about to remove the job only when that is answered. */
  ghost predicate TaskSound(digests: set<string>, files: Files, slug: string, t: Task)
  {
    && Names(digests, slug, t.job.digest)
    && (t.phase.Removing? ==> Lookup(files, t.job.digest).Some?)
    && (t.phase.Storing? ==> ParseCachedText(t.phase.body, t.job.digest).Some?)
  }

  ghost predicate TasksSound(digests: set<string>, files: Files, tasks: map<string, Task>)
  {
    forall slug | slug in tasks :: TaskSound(digests, files, slug, tasks[slug])
  }

  ghost predicate Sound(digests: set<string>, s: System)
  {
    && Distinct(digests) && FilesGood(digests, s.files) && s.owed <= digests
    && forall w | w in s.workers :: TasksSound(digests, s.files, s.workers[w].tasks)
  }

  /** What a step may do to the files: job files stay in their places, what is
      answered stays answered. */
  ghost predicate FilesStep(digests: set<string>, f: Files, g: Files)
  {
    FilesGood(digests, g) && forall d | d in digests && Lookup(f, d).Some? :: Lookup(g, d).Some?
  }

  /** And of the digests in `owed` none is lost. */
  ghost predicate SafeStep(owed: set<string>, f: Files, g: Files)
  {
    forall d | d in owed && FileSlug(d).Some? && Safe(f, d) :: Safe(g, d)
  }

  lemma KeepsIsStep(digests: set<string>, owed: set<string>, f: Files, g: Files, gone: Option<string>)
    requires Keeps(digests, f, g, gone) && owed <= digests
    ensures FilesStep(digests, f, g) && SafeStep(owed, f, g)
  {
    hide FileSlug, Lookup, FilesGood, Safe;
  }

  /** A parked file removed: nobody but its digest is concerned. */
  lemma ClearedFiles(digests: set<string>, f: Files, slug: string, digest: string)
    requires Distinct(digests) && FilesGood(digests, f) && Names(digests, slug, digest)
    ensures var g := f - {FailedFile(slug)};
      && FilesStep(digests, f, g)
      && (forall d | d in digests && d != digest && Safe(f, d) :: Safe(g, d))
      && (Safe(g, digest) <==> QueueFile(slug) in f || Lookup(f, digest).Some?)
  {
    hide FileSlug, ParseCachedText, ShardDir;
    var g := f - {FailedFile(slug)};
    forall d | d in digests ensures Lookup(g, d) == Lookup(f, d) { LookupDepends(f, g, d); }
    assert forall d | d in digests && d != digest :: FileSlug(d) != FileSlug(digest);
  }

  // ── one step ──

  /** What an action of a worker does to the files. */
  lemma FilesAfter(digests: set<string>, s: State, a: Action)
    requires Distinct(digests) && FilesGood(digests, s.files) && TasksSound(digests, s.files, s.tasks) &&
      s.owed <= digests
    requires Enabled(s, a) && Uses(digests, a) && !a.Unparked?
    ensures FilesStep(digests, s.files, Next(s, a).files) && SafeStep(s.owed, s.files, Next(s, a).files)
    ensures a.Enqueue? ==> Safe(Next(s, a).files, a.job.digest)
  {
    hide FileSlug, ParseCachedText, RenderCachedText, ShardDir, Lookup, FilesGood, Distinct, Moved, Keeps, Safe,
      FilesStep, SafeStep;
    NothingChanges(digests, s.files);
    ghost var gone: Option<string> := None;
    match a {
      case Enqueue(job) => QueueWritten(digests, s.files, FileSlug(job.digest).value, job);
      case Stored(slug) =>
        assert TaskSound(digests, s.files, slug, s.tasks[slug]);
        EntryWritten(digests, s.files, s.tasks[slug].job.digest, s.tasks[slug].phase.body);
      case Removed(slug) =>
        assert TaskSound(digests, s.files, slug, s.tasks[slug]);
        JobRemoved(digests, s.files, slug, s.tasks[slug].job.digest);
        gone := Some(slug);
      case Rescheduled(slug) =>
        assert TaskSound(digests, s.files, slug, s.tasks[slug]);
        var job := s.tasks[slug].job;
        QueueWritten(digests, s.files, slug, job.(attempts := AttemptsAfter(job)));
      case Parked(slug) =>
        JobParked(digests, s.files, slug);
        gone := Some(slug);
      case _ =>
    }
    KeepsIsStep(digests, s.owed, s.files, Next(s, a).files, gone);
  }

  lemma SoundStays(digests: set<string>, f: Files, g: Files, slug: string, t: Task)
    requires TaskSound(digests, f, slug, t) && FilesStep(digests, f, g)
    ensures TaskSound(digests, g, slug, t)
  {
    hide FileSlug, Lookup, FilesGood, ParseCachedText;
  }

  /** The tasks of the worker that acted. */
  lemma TasksAfter(digests: set<string>, s: State, a: Action)
    requires Distinct(digests) && FilesGood(digests, s.files) && TasksSound(digests, s.files, s.tasks)
    requires Enabled(s, a) && FilesStep(digests, s.files, Next(s, a).files)
    ensures TasksSound(digests, Next(s, a).files, Next(s, a).tasks)
  {
    hide FileSlug, ParseCachedText, RenderCachedText, ShardDir, Lookup, Distinct, Moved, FilesStep, FilesGood;
    var t := Next(s, a);
    forall k | k in t.tasks ensures TaskSound(digests, t.files, k, t.tasks[k]) {
      if k in s.tasks {
        assert TaskSound(digests, s.files, k, s.tasks[k]);
        SoundStays(digests, s.files, t.files, k, s.tasks[k]);
      }
      if !(k in s.tasks && t.tasks[k] == s.tasks[k]) { ActingTask(digests, s, a, k); }
    }
  }

  lemma ActingTask(digests: set<string>, s: State, a: Action, k: string)
    requires FilesGood(digests, s.files) && Enabled(s, a) && FilesStep(digests, s.files, Next(s, a).files)
    requires k in s.tasks ==> TaskSound(digests, s.files, k, s.tasks[k])
    requires k in Next(s, a).tasks && !(k in s.tasks && Next(s, a).tasks[k] == s.tasks[k])
    ensures TaskSound(digests, Next(s, a).files, k, Next(s, a).tasks[k])
  {
    hide FileSlug, ParseCachedText, RenderCachedText, ShardDir, Lookup, Moved;
    if a.Extracted? { ExtractedParses(s.tasks[a.slug].job.digest, a.title, a.text); }
    if a.Stored? { StoredAnswers(s.files, s.tasks[a.slug].job.digest, s.tasks[a.slug].phase.body); }
  }

  lemma StoredAnswers(f: Files, digest: string, body: string)
    requires FileSlug(digest).Some?
    ensures Lookup(f[TextPath(digest) := TextBody(body)], digest) == ParseCachedText(body, digest)
  {
    hide FileSlug, ParseCachedText, ShardDir;
  }

  lemma StepFiles(digests: set<string>, s: System, m: Move)
    requires Sound(digests, s) && Can(s, m) && Uses(digests, m.action)
    ensures FilesStep(digests, s.files, After(s, m).files)
    ensures Careless(s, m) || SafeStep(s.owed, s.files, After(s, m).files)
    ensures Careless(s, m) ==> !NoneLost(After(s, m))
    ensures m.action.Enqueue? ==> Safe(After(s, m).files, m.action.job.digest)
  {
    hide FileSlug, ParseCachedText, RenderCachedText, ShardDir, Lookup, FilesGood, Distinct, Moved, Safe, Names;
    var v, a := View(s, m.worker), m.action;
    if a.Unparked? {
      assert TaskSound(digests, s.files, a.slug, v.tasks[a.slug]);
      ClearedFiles(digests, s.files, a.slug, v.tasks[a.slug].job.digest);
    } else {
      FilesAfter(digests, v, a);
    }
  }

  lemma StepSound(digests: set<string>, s: System, m: Move)
    requires Sound(digests, s) && Can(s, m) && Uses(digests, m.action)
    ensures Sound(digests, After(s, m))
  {
    hide FileSlug, Lookup, FilesGood, Distinct, Next, Enabled, TasksSound, Careless, Safe;
    StepFiles(digests, s, m);
    NoTasks(digests, s.files);
    var t := After(s, m);
    TasksAfter(digests, View(s, m.worker), m.action);
    forall w | w in t.workers ensures TasksSound(digests, t.files, t.workers[w].tasks) {
      if w != m.worker { AllSoundStay(digests, s.files, t.files, s.workers[w].tasks); }
    }
    OwedAfter(digests, View(s, m.worker), m.action);
  }

  lemma NoTasks(digests: set<string>, files: Files)
    ensures TasksSound(digests, files, map[])
  {
  }

  lemma AllSoundStay(digests: set<string>, f: Files, g: Files, tasks: map<string, Task>)
    requires TasksSound(digests, f, tasks) && FilesStep(digests, f, g)
    ensures TasksSound(digests, g, tasks)
  {
    hide TaskSound, FilesStep;
    forall k | k in tasks ensures TaskSound(digests, g, k, tasks[k]) { SoundStays(digests, f, g, k, tasks[k]); }
  }

  lemma OwedAfter(digests: set<string>, s: State, a: Action)
    requires Enabled(s, a) && Uses(digests, a) && s.owed <= digests
    ensures Next(s, a).owed == (if a.Enqueue? then s.owed + {a.job.digest} else s.owed) <= digests
    ensures a.Enqueue? ==> FileSlug(a.job.digest).Some?
  {
    hide FileSlug, ShardDir, RenderCachedText, Lookup;
  }

  /** A step loses something exactly when it is careless. */
  lemma StepLoses(digests: set<string>, s: System, m: Move)
    requires Sound(digests, s) && NoneLost(s) && Can(s, m) && Uses(digests, m.action)
    ensures NoneLost(After(s, m)) <==> !Careless(s, m)
  {
    hide FileSlug, Lookup, FilesGood, Distinct, Next, Enabled, TasksSound, Careless, Safe;
    StepFiles(digests, s, m);
    OwedAfter(digests, View(s, m.worker), m.action);
  }

  // ── any run ──

  /** A state to start from: any cache with job files where they belong, nobody at work. */
  ghost predicate FreshSystem(digests: set<string>, s: System)
  {
    Distinct(digests) && FilesGood(digests, s.files) && s.owed == {}
    && forall w | w in s.workers :: s.workers[w].tasks == map[]
  }

  lemma {:induction false} LossIsCarelessness(digests: set<string>, s: System, run: seq<Move>)
    requires Sound(digests, s) && NoneLost(s) && Possible(s, run) && UsesAll(digests, run)
    ensures NeverLost(s, run) <==> NeverCareless(s, run)
    decreases |run|
  {
    hide Sound, NoneLost, Can, After, Careless, Uses;
    if run != [] {
      assert Uses(digests, run[0].action);
      StepSound(digests, s, run[0]);
      StepLoses(digests, s, run[0]);
      if !Careless(s, run[0]) {
        assert UsesAll(digests, run[1..]);
        LossIsCarelessness(digests, After(s, run[0]), run[1..]);
      } else {
        LostAtFirst(After(s, run[0]), run[1..]);
      }
    }
  }

  lemma LostAtFirst(s: System, run: seq<Move>)
    requires Possible(s, run) && !NoneLost(s)
    ensures !NeverLost(s, run)
  {
    hide NoneLost, Can, After;
  }

  /** Any number of workers, in any interleaving, with any operation failing and any
      process stopped anywhere: queued digests are lost exactly by careless steps. */
  lemma LostExactly(digests: set<string>, s: System, run: seq<Move>)
    requires FreshSystem(digests, s) && Possible(s, run) && UsesAll(digests, run)
    ensures NeverLost(s, run) <==> NeverCareless(s, run)
  {
    hide Possible, NeverLost, NeverCareless, FilesGood, Distinct;
    LossIsCarelessness(digests, s, run);
  }

  // ── with one worker ──

  /** All actions but queueing are those of worker `w`. */
  predicate OnlyBy(w: nat, run: seq<Move>)
  {
    forall i | 0 <= i < |run| :: run[i].worker == w || run[i].action.Enqueue?
  }

  function Actions(run: seq<Move>): seq<Action>
  {
    if run == [] then [] else [run[0].action] + Actions(run[1..])
  }

  lemma ViewAfter(s: System, m: Move, w: nat)
    requires Can(s, m) && (m.worker == w || m.action.Enqueue?)
    ensures Enabled(View(s, w), m.action) && View(After(s, m), w) == Next(View(s, w), m.action)
  {
    hide FileSlug, ShardDir, RenderCachedText, Lookup;
  }

  /** A run with one worker is a run of the protocol, in which nothing is ever lost. */
  lemma {:induction false} OneWorkerRuns(s: System, run: seq<Move>, w: nat)
    requires Possible(s, run) && OnlyBy(w, run)
    ensures Runs(View(s, w), Actions(run), View(Outcome(s, run), w))
    decreases |run|
  {
    hide Can, After, Next, Enabled, View;
    if run != [] {
      var m := run[0];
      ViewAfter(s, m, w);
      OneWorkerRuns(After(s, m), run[1..], w);
      RunsOneMore(View(s, w), [], View(s, w), m.action);
      assert [] + [m.action] == [m.action];
      RunsConcat(View(s, w), [m.action], View(After(s, m), w), Actions(run[1..]), View(Outcome(s, run), w));
    }
  }

  lemma {:induction false} OneWorkerIsCareful(digests: set<string>, s: System, run: seq<Move>, w: nat)
    requires Inv(digests, View(s, w)) && Possible(s, run) && UsesAll(digests, run) && OnlyBy(w, run)
    ensures NeverCareless(s, run)
    decreases |run|
  {
    hide Inv, Can, After, Next, Enabled, View, Uses, Careless;
    if run != [] {
      var m := run[0];
      ViewAfter(s, m, w);
      assert Uses(digests, m.action);
      ActionKeeps(digests, View(s, w), m.action);
      NotCareless(digests, s, m);
      assert UsesAll(digests, run[1..]);
      OneWorkerIsCareful(digests, After(s, m), run[1..], w);
    }
  }

  lemma NotCareless(digests: set<string>, s: System, m: Move)
    requires Can(s, m) && (m.action.Enqueue? || Inv(digests, View(s, m.worker)))
    ensures !Careless(s, m)
  {
    hide FileSlug, Lookup, FilesGood, Distinct, AllSafe;
  }

  /** With one worker nothing is ever lost. */
  lemma OneWorkerLosesNothing(digests: set<string>, s: System, run: seq<Move>, w: nat)
    requires FreshSystem(digests, s) && Possible(s, run) && UsesAll(digests, run) && OnlyBy(w, run)
    ensures NeverLost(s, run)
  {
    hide Possible, NeverLost, NeverCareless, FilesGood, Distinct, UsesAll, OnlyBy;
    FreshIsGood(digests, View(s, w));
    OneWorkerIsCareful(digests, s, run, w);
    LostExactly(digests, s, run);
  }

  // ── with two ──

  /** Two workers list the same job and both fail at it; the first parks it, the
      second finds the queue file gone, clears the way in failed/ and fails again. */
  function BothPark(job: Job, slug: string, maxAttempts: nat): seq<Move>
  {
    [Move(0, Enqueue(job)), Move(0, List(slug)), Move(1, List(slug)), Move(0, Miss(slug)), Move(1, Miss(slug)),
     Move(0, RunFailed(slug, maxAttempts)), Move(1, RunFailed(slug, maxAttempts)), Move(0, Parked(slug)),
     Move(1, ParkFailed(slug)), Move(1, Unparked(slug, true)), Move(1, GaveUp(slug))]
  }

  function Two(files: Files, a: Worker, b: Worker, owed: set<string>): System
  {
    System(files, map[0 := a, 1 := b], owed)
  }

  /** Worker with this one task. */
  function Busy(job: Job, slug: string, phase: Phase): Worker
  {
    Worker(map[slug := Task(job, phase)], {slug})
  }

  const IDLE := Worker(map[], {})

  const NOTHING: Files := map[]

  function Queued(job: Job, slug: string): Files
  {
    map[QueueFile(slug) := JobFile(job)]
  }

  function InFailed(job: Job, slug: string): Files
  {
    map[FailedFile(slug) := JobFile(job)]
  }

  /** What the two workers and the files look like after each move of `BothPark`. */
  function Scenes(job: Job, slug: string): seq<System>
  {
    var q, f, owed, done := Queued(job, slug), InFailed(job, slug), {job.digest}, Worker(map[], {slug});
    var check, extract, park := Busy(job, slug, Checking), Busy(job, slug, Extracting), Busy(job, slug, Parking);
    [Two(NOTHING, IDLE, IDLE, {}), Two(q, IDLE, IDLE, owed), Two(q, check, IDLE, owed), Two(q, check, check, owed),
     Two(q, extract, check, owed), Two(q, extract, extract, owed),
     Two(q, park, extract, owed), Two(q, park, park, owed),
     Two(f, done, park, owed), Two(f, done, Busy(job, slug, Unparking), owed),
     Two(NOTHING, done, Busy(job, slug, Reparking), owed), Two(NOTHING, done, done, owed)]
  }

  /** Move `m` leads from `s` to `t`. */
  predicate Makes(s: System, m: Move, t: System)
  {
    Can(s, m) && After(s, m) == t
  }

  lemma {:induction false} ScenesFollow(scenes: seq<System>, run: seq<Move>)
    requires |scenes| == |run| + 1 && forall k | 0 <= k < |run| :: Makes(scenes[k], run[k], scenes[k + 1])
    ensures Possible(scenes[0], run) && Outcome(scenes[0], run) == scenes[|run|]
    decreases |run|
  {
    hide Can, After;
    if run != [] {
      assert Makes(scenes[0], run[0], scenes[1]);
      forall k | 0 <= k < |run[1..]| ensures Makes(scenes[1..][k], run[1..][k], scenes[1..][k + 1]) {
        assert Makes(scenes[k + 1], run[k + 1], scenes[k + 2]);
      }
      ScenesFollow(scenes[1..], run[1..]);
    }
  }

  /** What a worker with this one task sees. */
  function Seen(files: Files, w: Worker, owed: set<string>): State
  {
    State(files, w.tasks, w.listed, owed)
  }

  lemma Listing(job: Job, slug: string, owed: set<string>)
    ensures Enabled(Seen(Queued(job, slug), IDLE, owed), List(slug))
    ensures Next(Seen(Queued(job, slug), IDLE, owed), List(slug)) ==
      Seen(Queued(job, slug), Busy(job, slug, Checking), owed)
  {
    hide FileSlug, ShardDir, RenderCachedText, Lookup;
  }

  /** The steps in which only the task goes on. */
  lemma GoesOn(files: Files, job: Job, slug: string, owed: set<string>, p: Phase, act: Action, q: Phase)
    requires Enabled(Seen(files, Busy(job, slug, p), owed), act)
    requires Next(Seen(files, Busy(job, slug, p), owed), act) == Goto(Seen(files, Busy(job, slug, p), owed), slug, q)
    ensures Next(Seen(files, Busy(job, slug, p), owed), act) == Seen(files, Busy(job, slug, q), owed)
  {
    hide Next, Enabled;
    assert map[slug := Task(job, p)][slug := Task(job, q)] == map[slug := Task(job, q)];
  }

  lemma Finishes(files: Files, job: Job, slug: string, owed: set<string>, p: Phase)
    ensures End(Seen(files, Busy(job, slug, p), owed), slug) == Seen(files, Worker(map[], {slug}), owed)
  {
  }

  /** An action of the first worker, and of the second. */
  lemma FirstActs(f: Files, a: Worker, b: Worker, owed: set<string>, act: Action, g: Files, a': Worker,
    owed': set<string>)
    requires Enabled(Seen(f, a, owed), act) && Next(Seen(f, a, owed), act) == Seen(g, a', owed')
    ensures Makes(Two(f, a, b, owed), Move(0, act), Two(g, a', b, owed'))
  {
    hide Next, Enabled;
    assert map[0 := a, 1 := b][0 := a'] == map[0 := a', 1 := b];
  }

  lemma SecondActs(f: Files, a: Worker, b: Worker, owed: set<string>, act: Action, g: Files, b': Worker,
    owed': set<string>)
    requires Enabled(Seen(f, b, owed), act) && Next(Seen(f, b, owed), act) == Seen(g, b', owed')
    ensures Makes(Two(f, a, b, owed), Move(1, act), Two(g, a, b', owed'))
  {
    hide Next, Enabled;
    assert map[0 := a, 1 := b][1 := b'] == map[0 := a, 1 := b'];
  }

  lemma BothList(job: Job, slug: string)
    requires FileSlug(job.digest) == Some(slug)
    ensures var q, owed, check := Queued(job, slug), {job.digest}, Busy(job, slug, Checking);
      && Makes(Two(NOTHING, IDLE, IDLE, {}), Move(0, Enqueue(job)), Two(q, IDLE, IDLE, owed))
      && Makes(Two(q, IDLE, IDLE, owed), Move(0, List(slug)), Two(q, check, IDLE, owed))
      && Makes(Two(q, check, IDLE, owed), Move(1, List(slug)), Two(q, check, check, owed))
  {
    hide FileSlug, ShardDir, RenderCachedText, Lookup, Makes;
    var q, owed, check := Queued(job, slug), {job.digest}, Busy(job, slug, Checking);
    FirstActs(NOTHING, IDLE, IDLE, {}, Enqueue(job), q, IDLE, owed);
    Listing(job, slug, owed);
    FirstActs(q, IDLE, IDLE, owed, List(slug), q, check, owed);
    SecondActs(q, check, IDLE, owed, List(slug), q, check, owed);
  }

  lemma BothFail(job: Job, slug: string, maxAttempts: nat)
    requires AttemptsAfter(job) >= maxAttempts
    ensures var q, owed, check := Queued(job, slug), {job.digest}, Busy(job, slug, Checking);
      var extract, park, fail := Busy(job, slug, Extracting), Busy(job, slug, Parking), RunFailed(slug, maxAttempts);
      && Makes(Two(q, check, check, owed), Move(0, Miss(slug)), Two(q, extract, check, owed))
      && Makes(Two(q, extract, check, owed), Move(1, Miss(slug)), Two(q, extract, extract, owed))
      && Makes(Two(q, extract, extract, owed), Move(0, fail), Two(q, park, extract, owed))
      && Makes(Two(q, park, extract, owed), Move(1, fail), Two(q, park, park, owed))
  {
    hide FileSlug, ShardDir, RenderCachedText, Lookup, Makes, AttemptsAfter;
    var q, owed, check := Queued(job, slug), {job.digest}, Busy(job, slug, Checking);
    var extract, park, fail := Busy(job, slug, Extracting), Busy(job, slug, Parking), RunFailed(slug, maxAttempts);
    GoesOn(q, job, slug, owed, Checking, Miss(slug), Extracting);
    GoesOn(q, job, slug, owed, Extracting, fail, Parking);
    FirstActs(q, check, check, owed, Miss(slug), q, extract, owed);
    SecondActs(q, extract, check, owed, Miss(slug), q, extract, owed);
    FirstActs(q, extract, extract, owed, fail, q, park, owed);
    SecondActs(q, park, extract, owed, fail, q, park, owed);
  }

  lemma ParkingIs(job: Job, slug: string, owed: set<string>)
    ensures var done := Worker(map[], {slug});
      Next(Seen(Queued(job, slug), Busy(job, slug, Parking), owed), Parked(slug)) ==
        Seen(InFailed(job, slug), done, owed)
    ensures Next(Seen(InFailed(job, slug), Busy(job, slug, Unparking), owed), Unparked(slug, true)) ==
      Seen(NOTHING, Busy(job, slug, Reparking), owed)
  {
    hide FileSlug, ShardDir, RenderCachedText, Lookup;
    assert Moved(Queued(job, slug), QueueFile(slug), FailedFile(slug)) == InFailed(job, slug);
    assert InFailed(job, slug) - {FailedFile(slug)} == NOTHING;
    assert map[slug := Task(job, Unparking)][slug := Task(job, Reparking)] == map[slug := Task(job, Reparking)];
  }

  lemma FirstParks(job: Job, slug: string)
    ensures var q, f, owed, done := Queued(job, slug), InFailed(job, slug), {job.digest}, Worker(map[], {slug});
      var park, unpark := Busy(job, slug, Parking), Busy(job, slug, Unparking);
      && Makes(Two(q, park, park, owed), Move(0, Parked(slug)), Two(f, done, park, owed))
      && Makes(Two(f, done, park, owed), Move(1, ParkFailed(slug)), Two(f, done, unpark, owed))
  {
    hide FileSlug, ShardDir, RenderCachedText, Lookup, Makes, Moved;
    var q, f, owed, done := Queued(job, slug), InFailed(job, slug), {job.digest}, Worker(map[], {slug});
    var park, unpark := Busy(job, slug, Parking), Busy(job, slug, Unparking);
    ParkingIs(job, slug, owed);
    FirstActs(q, park, park, owed, Parked(slug), f, done, owed);
    GoesOn(f, job, slug, owed, Parking, ParkFailed(slug), Unparking);
    SecondActs(f, done, park, owed, ParkFailed(slug), f, unpark, owed);
  }

  lemma SecondParks(job: Job, slug: string)
    ensures var f, owed, done := InFailed(job, slug), {job.digest}, Worker(map[], {slug});
      var unpark, repark := Busy(job, slug, Unparking), Busy(job, slug, Reparking);
      && Makes(Two(f, done, unpark, owed), Move(1, Unparked(slug, true)), Two(NOTHING, done, repark, owed))
      && Makes(Two(NOTHING, done, repark, owed), Move(1, GaveUp(slug)), Two(NOTHING, done, done, owed))
  {
    hide FileSlug, ShardDir, RenderCachedText, Lookup, Makes, Goto, End;
    var f, owed, done := InFailed(job, slug), {job.digest}, Worker(map[], {slug});
    var unpark, repark := Busy(job, slug, Unparking), Busy(job, slug, Reparking);
    ParkingIs(job, slug, owed);
    SecondActs(f, done, unpark, owed, Unparked(slug, true), NOTHING, repark, owed);
    Finishes(NOTHING, job, slug, owed, Reparking);
    SecondActs(NOTHING, done, repark, owed, GaveUp(slug), NOTHING, done, owed);
  }

  lemma BothParkGoes(job: Job, slug: string, maxAttempts: nat)
    requires FileSlug(job.digest) == Some(slug) && AttemptsAfter(job) >= maxAttempts
    ensures var s, run, done := Two(NOTHING, IDLE, IDLE, {}), BothPark(job, slug, maxAttempts), Worker(map[], {slug});
      Possible(s, run) && Outcome(s, run) == Two(NOTHING, done, done, {job.digest})
  {
    hide FileSlug, Makes, AttemptsAfter, Possible, Outcome, Two, Busy, Queued, InFailed;
    BothList(job, slug);
    BothFail(job, slug, maxAttempts);
    FirstParks(job, slug);
    SecondParks(job, slug);
    ScenesFollow(Scenes(job, slug), BothPark(job, slug, maxAttempts));
  }

  /** So with a second worker a job can be lost: from an empty cache, for every job
      and every limit its next failure reaches. */
  lemma SecondParkLoses(job: Job, slug: string, maxAttempts: nat)
    requires FileSlug(job.digest) == Some(slug) && AttemptsAfter(job) >= maxAttempts
    ensures var s, run := Two(NOTHING, IDLE, IDLE, {}), BothPark(job, slug, maxAttempts);
      && FreshSystem({job.digest}, s) && UsesAll({job.digest}, run) && Possible(s, run)
      && job.digest in Outcome(s, run).owed && !Safe(Outcome(s, run).files, job.digest)
  {
    hide FileSlug, ShardDir, ParseCachedText, AttemptsAfter, Possible, Outcome;
    BothParkGoes(job, slug, maxAttempts);
  }
}
