/** The replacement protocol of `tywb recompress` on S3: back up, check, overwrite,
  drop the sidecar. Any step can fail, the process can be stopped after any step,
  and the command can be run again any number of times. */
module Replace {
  import opened Bytes
  import opened Codec
  import Gzip
  import opened MemberWalk
  import Warc
  import opened Recompress
  import opened GateFacts
  import opened ReplaceHistory

  const DOWNLOAD_ATTEMPTS := 3
  const UPLOAD_ATTEMPTS := 3

  datatype Head = Size(n: nat) | NotFound | HeadFailed

  /** What becomes of one step: it goes through, it fails, or it happens and only
      the answer is lost. */
  datatype Fate = Through | Failing | Unheard

  /** Past the end of the list everything goes through. */
  function FateOf(fates: seq<Fate>, step: nat): Fate
  {
    if step < |fates| then fates[step] else Through
  }

  /** Nothing goes wrong any more from `step` on. */
  predicate Calm(fates: seq<Fate>, step: nat)
  {
    forall k | step <= k < |fates| :: fates[k].Through?
  }

  /** The next `n` steps go through. */
  predicate Smooth(fates: seq<Fate>, step: nat, n: nat)
  {
    forall k: nat | step <= k < step + n :: FateOf(fates, k).Through?
  }

  /** The next `n` steps go through and the one behind them fails. */
  predicate StopsAfter(fates: seq<Fate>, step: nat, n: nat)
  {
    Smooth(fates, step, n) && FateOf(fates, step + n).Failing?
  }

  /** The bucket, seen from one key. GET and server-side COPY are faithful or fail,
      PUT is atomic; a failed write may have happened all the same. `fates` holds
      what becomes of every step, a stop of the process included; `step` counts. */
  class Bucket {
    var key: bytes
    var bak: Option<bytes>
    var sidecar: bool
    var fates: seq<Fate>
    var step: nat

    ghost function State(): Store
      reads this
    {
      Store(key, bak, sidecar)
    }

    /** What becomes of the next step. */
    function Fate(): Fate
      reads this
    {
      FateOf(fates, step)
    }

    method GetObject() returns (r: Option<bytes>)
      modifies this`step
      ensures step == old(step) + 1
      ensures r == if old(Fate()).Through? then Some(key) else None
    {
      r := if Fate().Through? then Some(key) else None;
      step := step + 1;
    }

    method CopyToBackup() returns (ok: bool)
      modifies this`bak, this`step
      ensures step == old(step) + 1 && ok == old(Fate()).Through?
      ensures bak == if old(Fate()).Failing? then old(bak) else Some(key)
    {
      ok := Fate().Through?;
      if !Fate().Failing? { bak := Some(key); }
      step := step + 1;
    }

    method PutObject(data: bytes) returns (ok: bool)
      modifies this`key, this`step
      ensures step == old(step) + 1 && ok == old(Fate()).Through?
      ensures key == if old(Fate()).Failing? then old(key) else data
    {
      ok := Fate().Through?;
      if !Fate().Failing? { key := data; }
      step := step + 1;
    }

    method DeleteSidecar() returns (ok: bool)
      modifies this`sidecar, this`step
      ensures step == old(step) + 1 && ok == old(Fate()).Through?
      ensures sidecar == (old(sidecar) && old(Fate()).Failing?)
    {
      ok := Fate().Through?;
      if !Fate().Failing? { sidecar := false; }
      step := step + 1;
    }

    method HeadKey() returns (h: Head)
      modifies this`step
      ensures step == old(step) + 1
      ensures h == if old(Fate()).Through? then Size(|key|) else HeadFailed
    {
      h := if Fate().Through? then Size(|key|) else HeadFailed;
      step := step + 1;
    }

    method HeadBackup() returns (h: Head)
      modifies this`step
      ensures step == old(step) + 1
      ensures h == if !old(Fate()).Through? then HeadFailed else if bak.Some? then Size(|bak.value|) else NotFound
    {
      h := if !Fate().Through? then HeadFailed else if bak.Some? then Size(|bak.value|) else NotFound;
      step := step + 1;
    }

    method HeadSidecar() returns (h: Head)
      modifies this`step
      ensures step == old(step) + 1
      ensures h == if !old(Fate()).Through? then HeadFailed else if sidecar then Size(0) else NotFound
    {
      h := if !Fate().Through? then HeadFailed else if sidecar then Size(0) else NotFound;
      step := step + 1;
    }

    /** Whether the process is stopped here. */
    method Stopped() returns (stop: bool)
      modifies this`step
      ensures step == old(step) + 1 && stop == !old(Fate()).Through?
    {
      stop := !Fate().Through?;
      step := step + 1;
    }
  }

  datatype Outcome =
    | Rewrote(records: nat, dropped: nat)
    | WouldRewrite(records: nat, dropped: nat)
    | Skip | Fail | Killed

  // ── one run ──

  /** Steps until the download is there, the backup is made, the new object is
      there, and until the sidecar is gone. */
  const DOWNLOADED: nat := 1
  const BACKED_UP: nat := 4
  const UPLOADED: nat := 9
  const ALL_DONE: nat := 12

  /** Download until the size is the listed one (0: not listed), three times at most. */
  method Download(b: Bucket, size: nat) returns (r: Option<bytes>)
    modifies b`step
    ensures b.step > old(b.step)
    ensures r.Some? ==> r.value == b.key && (size == 0 || size == |b.key|)
    ensures old(b.Fate()).Through? && (size == 0 || size == |b.key|) ==> r.Some? && b.step == old(b.step) + 1
  {
    for attempt := 1 to DOWNLOAD_ATTEMPTS + 1
      invariant attempt == 1 ==> b.step == old(b.step)
      invariant attempt > 1 ==> b.step > old(b.step)
      invariant attempt > 1 && (size == 0 || size == |b.key|) ==> !old(b.Fate()).Through?
    {
      r := b.GetObject();
      if r.Some? && (size == 0 || |r.value| == size) { return; }
    }
    return None;
  }

  /** Upload until the object has the expected size, three times at most. */
  method Upload(b: Bucket, file: bytes) returns (ok: bool)
    modifies b`key, b`step
    ensures b.step > old(b.step)
    ensures b.key == file || (!ok && b.key == old(b.key))
    ensures Smooth(b.fates, old(b.step), 3) ==> ok && b.step == old(b.step) + 3
  {
    for attempt := 1 to UPLOAD_ATTEMPTS + 1
      invariant attempt == 1 ==> b.step == old(b.step)
      invariant attempt > 1 ==> b.step > old(b.step) && !Smooth(b.fates, old(b.step), 3)
      invariant b.key == file || b.key == old(b.key)
    {
      var put := b.PutObject(file);
      var stop := b.Stopped();
      if stop { return false; }
      if put {
        var head := b.HeadKey();
        if !head.Size? { return false; }
        if head.n == |file| { return true; }
      }
    }
    return false;
  }

  /** Delete the sidecar if there is one; failing to is only worth a warning. */
  method DropSidecar(b: Bucket)
    modifies b`sidecar, b`step
    ensures b.step > old(b.step)
    ensures b.sidecar ==> old(b.sidecar)
    ensures Smooth(b.fates, old(b.step), 2) ==> !b.sidecar
  {
    var head := b.HeadSidecar();
    if head.Size? { var _ := b.DeleteSidecar(); }
  }

  /** Replace one object, after its rewrite got through the gate. */
  method ReplaceObject(b: Bucket, orig: bytes, file: bytes) returns (done: bool)
    requires b.key == orig
    modifies b`key, b`bak, b`sidecar, b`step
    ensures b.step > old(b.step)
    ensures b.State() == old(b.State()) ||
      (b.bak == Some(orig) && (b.key == orig || b.key == file)
       && (b.sidecar == old(b.sidecar) || (b.key == file && !b.sidecar)))
    ensures done ==> b.key == file && b.bak == Some(orig)
    ensures StopsAfter(b.fates, old(b.step), 1) ==> b.State() == Store(orig, Some(orig), old(b.sidecar))
    ensures StopsAfter(b.fates, old(b.step), 6) ==> b.State() == Store(file, Some(orig), old(b.sidecar))
    ensures Smooth(b.fates, old(b.step), 9) ==> done && !b.sidecar
  {
    var copied := b.CopyToBackup();
    var stop := b.Stopped();
    if stop || !copied { return false; }
    var head := b.HeadBackup();
    if head != Size(|orig|) { return false; }
    var uploaded := Upload(b, file);
    if !uploaded { return false; }
    stop := b.Stopped();
    if stop { return false; }
    DropSidecar(b);
    return true;
  }

  /** Download, verify, back up, overwrite. */
  method ProcessOne(c: Coder, b: Bucket, size: nat, salvage: bool, dryRun: bool) returns (r: Outcome)
    requires Streaming(c)
    modifies b`key, b`bak, b`sidecar, b`step
    ensures b.step > old(b.step)
    ensures Run(JudgeOf(c), salvage, old(b.State()), b.State())
    ensures dryRun || r.Skip? || r.WouldRewrite? ==> b.State() == old(b.State())
    ensures r.Rewrote? ==>
      var v := Gate(c, old(b.key), salvage);
      && v.Passed? && r.records == v.records && r.dropped == v.dropped
      && b.key == v.file && b.bak == Some(old(b.key))
    ensures StopsAfter(b.fates, old(b.step), DOWNLOADED) ==> b.State() == old(b.State())
    ensures (size == 0 || size == |old(b.key)|) && !dryRun && Gate(c, old(b.key), salvage).Passed? ==>
      var o, file := old(b.key), Gate(c, old(b.key), salvage).file;
      && (StopsAfter(b.fates, old(b.step), BACKED_UP) ==> b.State() == Store(o, Some(o), old(b.sidecar)))
      && (StopsAfter(b.fates, old(b.step), UPLOADED) ==> b.State() == Store(file, Some(o), old(b.sidecar)))
    ensures (size == 0 || size == |old(b.key)|) && Smooth(b.fates, old(b.step), ALL_DONE) ==>
      && (r.Rewrote? ==> !b.sidecar)
      && match Gate(c, old(b.key), salvage)
         case Skipped => r == Skip
         case Rejected => r == Fail
         case Passed(_, records, dropped) =>
           r == if dryRun then WouldRewrite(records, dropped) else Rewrote(records, dropped)
  {
    hide Gate, Streaming, JudgeOf;
    JudgeIsGate(c, b.key, salvage);
    var orig := Download(b, size);
    if orig.None? { return Fail; }
    var stop := b.Stopped();
    if stop { return Killed; }
    var v := Verify(c, orig.value, salvage);
    if v.Skipped? { return Skip; }
    if v.Rejected? { return Fail; }
    if dryRun { return WouldRewrite(v.records, v.dropped); }
    stop := b.Stopped();
    if stop { return Killed; }
    var done := ReplaceObject(b, orig.value, v.file);
    if !done { return Fail; }
    return Rewrote(v.records, v.dropped);
  }

  // ── everything `Run` allows does happen ──

  /** As many steps that go through, then one that fails. */
  function Failure(n: nat): (fates: seq<Fate>)
    ensures StopsAfter(fates, 0, n)
  {
    seq(n, _ => Through) + [Failing]
  }

  /** Whatever `Run` allows, the program comes to when the world wills it so. */
  method Reach(c: Coder, b: Bucket, salvage: bool, t: Store)
    requires Streaming(c) && Run(JudgeOf(c), salvage, b.State(), t)
    modifies b
    ensures b.State() == t
  {
    hide Gate, Streaming, JudgeOf, Smooth;
    JudgeIsGate(c, b.key, salvage);
    b.step := 0;
    b.fates := Failure(
      if t == Store(b.key, b.bak, b.sidecar) then DOWNLOADED
      else if t.sidecar != b.sidecar then ALL_DONE
      else if t.key == b.key then BACKED_UP
      else UPLOADED);
    var _ := ProcessOne(c, b, 0, salvage, false);
  }

  /** So every history is one of the program, run again and again. */
  method Replay(c: Coder, b: Bucket, h: seq<Store>)
    requires Streaming(c) && History(JudgeOf(c), h) && b.State() == h[0]
    modifies b
    ensures b.State() == h[|h| - 1]
  {
    hide Gate, Streaming, JudgeOf, Run;
    GateIsLawful(c);
    for i := 1 to |h|
      invariant b.State() == h[i - 1]
    {
      assert Step(JudgeOf(c), h[i - 1], h[i]);
      SalvagingAllowsAll(JudgeOf(c), h[i - 1], h[i]);
      Reach(c, b, true, h[i]);
    }
  }

  /** Stopped between the upload and the clean-up, a run leaves the stale sidecar. */
  method StopBeforeCleanUp(c: Coder, b: Bucket)
    requires Streaming(c) && b.sidecar && Gate(c, b.key, true).Passed?
    requires StopsAfter(b.fates, b.step, UPLOADED)
    modifies b`key, b`bak, b`sidecar, b`step
    ensures Judged(JudgeOf(c), old(b.key), true).Passed? && b.State() == Stale(JudgeOf(c), old(b.State()))
  {
    hide Gate, Streaming, JudgeOf, StopsAfter;
    JudgeIsGate(c, b.key, true);
    var _ := ProcessOne(c, b, 0, true, false);
  }

  /** Two runs in which nothing at all goes wrong lose what the rewrite of a single
      record drops. */
  method LoseOriginal(c: Coder, b: Bucket, salvage: bool)
    requires Streaming(c) && Calm(b.fates, b.step)
    requires var v := Gate(c, b.key, salvage); v.Passed? && v.records == 1 && v.dropped > 0
    modifies b`key, b`bak, b`sidecar, b`step
    ensures var file := Gate(c, old(b.key), salvage).file;
      b.State() == Store(file, Some(file), false)
    ensures !HasPayload(JudgeOf(c), b.State(), Payload(JudgeOf(c), old(b.key)))
  {
    hide Gate, Streaming, JudgeOf;
    ghost var j, o := JudgeOf(c), b.key;
    GateIsLawful(c);
    JudgeIsGate(c, o, salvage);
    assert Once(j, o, salvage);
    var _ := ProcessOne(c, b, 0, salvage, false);
    JudgeIsGate(c, b.key, salvage);
    var _ := ProcessOne(c, b, 0, salvage, false);
  }

  // ── the gate is a lawful judge ──

  ghost function JudgeOf(c: Coder): Judge
  {
    Judge((o, salvage) => Gate(c, o, salvage), o => Unpack(c, o, 0).data)
  }

  lemma JudgeIsGate(c: Coder, o: bytes, salvage: bool)
    ensures Judged(JudgeOf(c), o, salvage) == Gate(c, o, salvage)
    ensures Payload(JudgeOf(c), o) == Unpack(c, o, 0).data
  {
    hide Gate, Unpack;
  }

  lemma PassedHasRecords(c: Coder, o: bytes, salvage: bool)
    ensures Gate(c, o, salvage).Passed? ==> Gate(c, o, salvage).records > 0
  {
    hide Unpack, Walk, ShapeOf, NoGaps, RewritePlan.PlanOf, Rewriter.FileOf;
  }

  /** So everything proved about histories holds of the program. */
  lemma GateIsLawful(c: Coder)
    requires Streaming(c)
    ensures Lawful(JudgeOf(c))
  {
    hide Gate, Streaming, Unpack, Walk, Droppable, ShapeOf, JudgeOf;
    var j := JudgeOf(c);
    forall o: bytes, salvage: bool ensures Once(j, o, salvage) {
      JudgeIsGate(c, o, salvage);
      JudgeIsGate(c, o, true);
      var v := Gate(c, o, salvage);
      if v.Passed? {
        PassedHasRecords(c, o, salvage);
        PassedIsFaithful(c, o, salvage);
        RewriteOfRewrite(c, o, salvage, false);
        RewriteOfRewrite(c, o, salvage, true);
        JudgeIsGate(c, v.file, false);
        JudgeIsGate(c, v.file, true);
        if !salvage { GateIgnoresNeedlessSalvage(c, o); }
      }
    }
  }

  /** The payload of an object survives every history of runs of the command exactly
      unless its rewrite holds a single record and drops something. No salvaging is
      needed for that: a blank line behind the record will do. This is about runs that
      work on the object: of its own accord a scan does so only under the condition of
      `Targets.ScanTakesExactly`. */
  lemma RunsAreSafeExactly(c: Coder, s: Store)
    requires Streaming(c)
    ensures Safe(JudgeOf(c), s) <==>
      !(Gate(c, s.key, true).Passed? && Gate(c, s.key, true).records == 1 && Gate(c, s.key, true).dropped > 0)
  {
    hide Gate, Streaming, JudgeOf, Safe;
    GateIsLawful(c);
    JudgeIsGate(c, s.key, true);
    SafeExactly(JudgeOf(c), s);
  }

  /** Such an object: one record with a blank line behind it. */
  lemma BlankLineIsLost(c: Coder, r: Warc.Record, tail: bytes, s: Store)
    requires Streaming(c) && Warc.WellFormed(r) && Warc.BlankLines(tail) && tail != []
    requires s.key == Gzip.MemberOf(c, Warc.Print(r) + tail)
    ensures !Safe(JudgeOf(c), s)
  {
    hide Gate, Streaming, JudgeOf, Safe, Warc.WellFormed, Gzip.MemberOf;
    BlankLinesAreDropped(c, r, tail, true);
    RunsAreSafeExactly(c, s);
  }
}
