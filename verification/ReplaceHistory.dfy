/** Any number of runs of the replacement protocol of `tywb recompress`, each failing
  or stopped anywhere: what is never lost, and exactly when something is. */
module ReplaceHistory {
  import opened Bytes
  import opened Recompress

  /** The three objects one run may touch. */
  datatype Store = Store(key: bytes, bak: Option<bytes>, sidecar: bool)

  /** The gate as the protocol sees it: a verdict on an object, with or without
      salvaging, and the payload an object decompresses to. */
  datatype Judge = Judge(verdict: (bytes, bool) -> Verdict, payload: bytes -> bytes)

  function Judged(j: Judge, o: bytes, salvage: bool): Verdict { j.verdict(o, salvage) }
  function Payload(j: Judge, o: bytes): bytes { j.payload(o) }

  /** What passing means: some records; salvaging or not makes no difference to the
      rewrite; a rewrite of one record is rewritten to itself, one of more is skipped;
      the payload is the same exactly when nothing was dropped. */
  ghost predicate Once(j: Judge, o: bytes, salvage: bool)
  {
    var v := Judged(j, o, salvage);
    v.Passed? ==>
      && v.records > 0 && Judged(j, o, true) == v
      && Judged(j, v.file, false) == Judged(j, v.file, true)
      && Judged(j, v.file, true) == (if v.records == 1 then Passed(v.file, 1, 0) else Skipped)
      && (Payload(j, v.file) == Payload(j, o) <==> v.dropped == 0)
  }

  ghost predicate Lawful(j: Judge)
  {
    forall o: bytes, salvage: bool :: Once(j, o, salvage)
  }

  // ── one run ──

  /** Everything one run can leave behind, however far it came: nothing, or a
      backup of what was there and, under the key, that or its rewrite. */
  ghost predicate Run(j: Judge, salvage: bool, s: Store, t: Store)
  {
    t == s ||
    (var v := Judged(j, s.key, salvage);
     && v.Passed? && t.bak == Some(s.key) && (t.key == s.key || t.key == v.file)
     && (t.sidecar == s.sidecar || (t.key == v.file && !t.sidecar)))
  }

  // ── any number of runs ──

  /** One run, with or without salvaging. */
  ghost predicate Step(j: Judge, s: Store, t: Store)
  {
    Run(j, false, s, t) || Run(j, true, s, t)
  }

  ghost predicate History(j: Judge, h: seq<Store>)
  {
    h != [] && forall i | 0 < i < |h| :: Step(j, h[i - 1], h[i])
  }

  /** Whatever a run can do without salvaging it can do with it. */
  lemma SalvagingAllowsAll(j: Judge, s: Store, t: Store)
    requires Lawful(j) && Step(j, s, t)
    ensures Run(j, true, s, t)
  {
    assert Once(j, s.key, false);
  }

  /** What a history that starts from `s0` can come to. The sidecar only ever goes,
      and not before the object is replaced. */
  ghost predicate Known(j: Judge, s0: Store, s: Store)
  {
    var o, v := s0.key, Judged(j, s0.key, true);
    && (s.sidecar ==> s0.sidecar)
    && (|| (s.key == o && s.sidecar == s0.sidecar && (s.bak == s0.bak || s.bak == Some(o)))
        || (v.Passed? && s.key == v.file && s.bak == Some(o))
        || (v.Passed? && v.records == 1 && s.key == v.file && s.bak == Some(v.file)))
  }

  lemma RunKeepsKnown(j: Judge, s0: Store, salvage: bool, s: Store, t: Store)
    requires Lawful(j) && Known(j, s0, s) && Run(j, salvage, s, t)
    ensures Known(j, s0, t)
  {
    var v := Judged(j, s0.key, true);
    if t != s {
      if s.key == s0.key { assert Once(j, s0.key, salvage); }
      if v.Passed? && s.key == v.file { assert Once(j, s0.key, true); }
    }
  }

  lemma {:induction false} HistoryIsKnown(j: Judge, h: seq<Store>, i: nat)
    requires Lawful(j) && History(j, h) && i < |h|
    ensures Known(j, h[0], h[i])
    decreases i
  {
    hide Known, Run;
    if i == 0 {
      KnownAtFirst(j, h[0]);
    } else {
      HistoryIsKnown(j, h, i - 1);
      assert Step(j, h[i - 1], h[i]);
      if Run(j, false, h[i - 1], h[i]) {
        RunKeepsKnown(j, h[0], false, h[i - 1], h[i]);
      } else {
        RunKeepsKnown(j, h[0], true, h[i - 1], h[i]);
      }
    }
  }

  lemma KnownAtFirst(j: Judge, s: Store)
    ensures Known(j, s, s)
  {
  }

  // ── what is never lost ──

  /** A rewrite of two records or more, or none at all: in every state of every
      history the exact original is under the key or in the backup. */
  lemma OriginalKept(j: Judge, h: seq<Store>, i: nat)
    requires Lawful(j) && History(j, h) && i < |h|
    requires var v := Judged(j, h[0].key, true); v.Passed? ==> v.records >= 2
    ensures h[i].key == h[0].key || h[i].bak == Some(h[0].key)
  {
    hide History;
    HistoryIsKnown(j, h, i);
  }

  /** No history from `s` loses the exact original. */
  ghost predicate KeepsOriginal(j: Judge, s: Store)
  {
    forall h: seq<Store>, i: nat | i < |h| && History(j, h) && h[0] == s :: h[i].key == s.key || h[i].bak == Some(s.key)
  }

  /** The exact original can be lost exactly when its rewrite is another file with
      a single record in it. */
  lemma OriginalKeptExactly(j: Judge, s: Store)
    requires Lawful(j)
    ensures var v := Judged(j, s.key, true);
      KeepsOriginal(j, s) <==> !(v.Passed? && v.records == 1 && v.file != s.key)
  {
    hide History, Known;
    var v := Judged(j, s.key, true);
    if v.Passed? && v.records == 1 && v.file != s.key {
      SecondRunOverwritesBackup(j, s);
      var h := [s, Store(v.file, Some(s.key), s.sidecar), Store(v.file, Some(v.file), s.sidecar)];
      assert History(j, h) && h[2].key != s.key && h[2].bak != Some(s.key);
    } else {
      forall h: seq<Store>, i: nat | i < |h| && History(j, h) && h[0] == s
        ensures h[i].key == s.key || h[i].bak == Some(s.key)
      {
        assert Once(j, s.key, true);
        if v.Passed? && v.records == 1 {
          OriginalIsItsRewrite(j, h, i);
        } else {
          OriginalKept(j, h, i);
        }
      }
    }
  }

  lemma OriginalIsItsRewrite(j: Judge, h: seq<Store>, i: nat)
    requires Lawful(j) && History(j, h) && i < |h|
    requires var v := Judged(j, h[0].key, true); v.Passed? && v.file == h[0].key
    ensures h[i].key == h[0].key
  {
    hide History;
    HistoryIsKnown(j, h, i);
  }

  lemma RunAfterRewrite(j: Judge, o: bytes, salvage: bool, s: Store, t: Store)
    requires Lawful(j) && Judged(j, o, true).Passed? && Judged(j, o, true).records >= 2
    requires s.key == Judged(j, o, true).file && Run(j, salvage, s, t)
    ensures t == s
  {
    assert Once(j, o, true);
  }

  /** Once such a rewrite is in place, later runs write nothing at all: the object,
      the exact original in the backup, and the sidecar stay as they are. That
      includes a stale sidecar left by a run that was stopped before dropping it. */
  lemma {:induction false} NothingWrittenAfterwards(j: Judge, h: seq<Store>, i: nat, k: nat)
    requires Lawful(j) && History(j, h) && i <= k < |h|
    requires var v := Judged(j, h[0].key, true); v.Passed? && v.records >= 2 && h[i].key == v.file
    ensures h[k] == h[i] && h[i].bak == Some(h[0].key)
    decreases k
  {
    hide Run, Lawful;
    if k == i {
      HistoryIsKnown(j, h, i);
      RewriteIsNew(j, h[0].key);
    } else {
      NothingWrittenAfterwards(j, h, i, k - 1);
      assert Step(j, h[k - 1], h[k]);
      if Run(j, false, h[k - 1], h[k]) {
        RunAfterRewrite(j, h[0].key, false, h[k - 1], h[k]);
      } else {
        RunAfterRewrite(j, h[0].key, true, h[k - 1], h[k]);
      }
    }
  }

  /** An object that gets through is not its own rewrite into several members. */
  lemma RewriteIsNew(j: Judge, o: bytes)
    requires Lawful(j) && Judged(j, o, true).Passed? && Judged(j, o, true).records >= 2
    ensures Judged(j, o, true).file != o
  {
    assert Once(j, o, true);
  }

  // ── the payload ──

  ghost predicate HasPayload(j: Judge, s: Store, payload: bytes)
  {
    Payload(j, s.key) == payload || (s.bak.Some? && Payload(j, s.bak.value) == payload)
  }

  /** When the rewrite drops nothing, the key decompresses to the original payload
      in every state of every history. */
  lemma KeyAlwaysReadable(j: Judge, h: seq<Store>, i: nat)
    requires Lawful(j) && History(j, h) && i < |h|
    requires var v := Judged(j, h[0].key, true); v.Passed? ==> v.dropped == 0
    ensures Payload(j, h[i].key) == Payload(j, h[0].key)
  {
    hide History;
    HistoryIsKnown(j, h, i);
    assert Once(j, h[0].key, true);
  }

  /** That is the only case in which the key always does. */
  lemma KeyReadableExactly(j: Judge, s: Store)
    requires Lawful(j)
    ensures var v := Judged(j, s.key, true);
      KeyReadable(j, s) <==> !(v.Passed? && v.dropped > 0)
  {
    hide History, Known;
    var v := Judged(j, s.key, true);
    assert Once(j, s.key, true);
    if v.Passed? && v.dropped > 0 {
      var h := [s, Store(v.file, Some(s.key), s.sidecar)];
      OneRun(j, s);
      assert History(j, h) && Payload(j, h[1].key) != Payload(j, s.key);
    } else {
      forall h: seq<Store>, i: nat | i < |h| && History(j, h) && h[0] == s
        ensures Payload(j, h[i].key) == Payload(j, s.key)
      {
        KeyAlwaysReadable(j, h, i);
      }
    }
  }

  /** In every history from `s` the key decompresses to its payload. */
  ghost predicate KeyReadable(j: Judge, s: Store)
  {
    forall h: seq<Store>, i: nat | i < |h| && History(j, h) && h[0] == s :: Payload(j, h[i].key) == Payload(j, s.key)
  }

  lemma OneRun(j: Judge, s: Store)
    requires Judged(j, s.key, true).Passed?
    ensures History(j, [s, Store(Judged(j, s.key, true).file, Some(s.key), s.sidecar)])
  {
    assert Run(j, true, s, Store(Judged(j, s.key, true).file, Some(s.key), s.sidecar));
  }

  /** No history from `s` loses the payload. */
  ghost predicate Safe(j: Judge, s: Store)
  {
    forall h: seq<Store>, i: nat | i < |h| && History(j, h) && h[0] == s :: HasPayload(j, h[i], Payload(j, s.key))
  }

  /** A one-record rewrite still is one member: the run after it rewrites it again,
      and the backup of the original gives way to a backup of the rewrite. */
  lemma SecondRunOverwritesBackup(j: Judge, s: Store)
    requires Lawful(j) && Judged(j, s.key, true).Passed? && Judged(j, s.key, true).records == 1
    ensures var file := Judged(j, s.key, true).file;
      History(j, [s, Store(file, Some(s.key), s.sidecar), Store(file, Some(file), s.sidecar)])
  {
    assert Once(j, s.key, true);
  }

  /** The payload survives every history exactly unless the rewrite holds a single
      record and drops something. */
  lemma SafeExactly(j: Judge, s: Store)
    requires Lawful(j)
    ensures var v := Judged(j, s.key, true);
      Safe(j, s) <==> !(v.Passed? && v.records == 1 && v.dropped > 0)
  {
    hide History, Known;
    var v := Judged(j, s.key, true);
    if v.Passed? && v.records == 1 && v.dropped > 0 {
      SecondRunOverwritesBackup(j, s);
      assert Once(j, s.key, true);
      var h := [s, Store(v.file, Some(s.key), s.sidecar), Store(v.file, Some(v.file), s.sidecar)];
      assert History(j, h) && !HasPayload(j, h[2], Payload(j, s.key));
    } else {
      forall h: seq<Store>, i: nat | i < |h| && History(j, h) && h[0] == s
        ensures HasPayload(j, h[i], Payload(j, s.key))
      {
        assert Once(j, s.key, true);
        if v.Passed? && v.dropped == 0 {
          KeyAlwaysReadable(j, h, i);
        } else {
          OriginalKept(j, h, i);
        }
      }
    }
  }

  // ── the sidecar ──

  /** No run creates a sidecar. */
  lemma NoSidecarAppears(j: Judge, h: seq<Store>, i: nat)
    requires Lawful(j) && History(j, h) && i < |h| && !h[0].sidecar
    ensures !h[i].sidecar
  {
    hide History;
    HistoryIsKnown(j, h, i);
  }

  /** What a run leaves that is stopped between the upload and the clean-up, in
      place of `s`: the new object beside a sidecar with the offsets of the old one. */
  ghost function Stale(j: Judge, s: Store): Store
    requires Judged(j, s.key, true).Passed?
  {
    Store(Judged(j, s.key, true).file, Some(s.key), true)
  }

  /** No history from `s` gets rid of the sidecar. */
  ghost predicate SidecarStays(j: Judge, s: Store)
  {
    forall h: seq<Store>, i: nat | i < |h| && History(j, h) && h[0] == s :: h[i].sidecar
  }

  /** A stale sidecar stays for good exactly when the rewrite beside it has two
      records or more: the run that rewrites a single record again drops it. */
  lemma StaleSidecarStaysExactly(j: Judge, s: Store)
    requires Lawful(j) && Judged(j, s.key, true).Passed?
    ensures SidecarStays(j, Stale(j, s)) <==> Judged(j, s.key, true).records >= 2
  {
    var v := Judged(j, s.key, true);
    assert Once(j, s.key, true);
    if v.records == 1 {
      var h := [Stale(j, s), Store(v.file, Some(v.file), false)];
      assert Run(j, true, h[0], h[1]);
      assert History(j, h) && !h[1].sidecar;
    } else {
      forall h: seq<Store>, i: nat | i < |h| && History(j, h) && h[0] == Stale(j, s) ensures h[i].sidecar {
        SkippedStays(j, h, i);
      }
    }
  }

  /** An object that every run skips, and all that lies beside it, stays as it is. */
  lemma {:induction false} SkippedStays(j: Judge, h: seq<Store>, i: nat)
    requires History(j, h) && i < |h|
    requires !Judged(j, h[0].key, false).Passed? && !Judged(j, h[0].key, true).Passed?
    ensures h[i] == h[0]
    decreases i
  {
    if i > 0 {
      SkippedStays(j, h, i - 1);
      assert Step(j, h[i - 1], h[i]);
    }
  }
}
