/** Atomic publication of several files, its restore, the journal both write, and
    every state a stopped process can leave (`atomic_file`, `publish_identity_files`,
    `recovery_temporaries`, `preserve_identity_source_temporary`, `repair_identity`
    in `deployment/analytics_task014_resume.py`). */
module Publication {
  import opened Wrappers

  type Bytes = seq<nat>

  /** An installed file, `audit.json`, `recovery-audit.json`, the public result, or
      a private copy of an input or a preimage. */
  datatype Path = Target(name: string) | Audit | RecoveryAudit | Result | Copy(n: nat)

  const LOGS: set<Path> := {Audit, RecoveryAudit, Result}

  datatype Entry = Entry(path: Path, before: Bytes, after: Bytes)

  /** The live files, the two kinds of temporaries keyed by their target
      (`.resume-next`, `.resume-recovery-next`), and private evidence. */
  datatype Files = Files(live: map<Path, Bytes>, next: map<Path, Bytes>, recovery: map<Path, Bytes>,
                         evidence: map<Path, Bytes>)

  predicate DistinctPaths(es: seq<Entry>) {
    && (forall i, j | 0 <= i < j < |es| :: es[i].path != es[j].path)
    && forall i | 0 <= i < |es| :: es[i].path.Target?
  }

  /** All but the journals and the result. */
  function Code(f: Files): Files {
    f.(live := f.live - LOGS, next := f.next - LOGS, recovery := f.recovery - LOGS)
  }

  /** The installed files. */
  function Installed(f: Files): (r: map<Path, Bytes>)
    ensures forall p: Path :: (p in r <==> p.Target? && p in f.live) && (p in r ==> r[p] == f.live[p])
  {
    var live := Code(f).live;
    map p | p in live && p.Target? :: live[p]
  }

  /** A recovery keeps its own journal; its temporaries are those of a restore. */
  function Journal(recovering: bool): Path {
    if recovering then RecoveryAudit else Audit
  }

  predicate SameAt(m0: map<Path, Bytes>, m: map<Path, Bytes>, p: Path) {
    (p in m <==> p in m0) && (p in m && p in m0 ==> m[p] == m0[p])
  }

  /** The temporaries of the other kind of process beside the logs are untouched. */
  predicate Quiet(f0: Files, f: Files, recovering: bool) {
    forall p | p in LOGS :: SameAt(Temporaries(f0, recovering), Temporaries(f, recovering), p)
  }

  /** Only logs changed. */
  predicate LogsOnly(f0: Files, f: Files, recovering: bool) {
    Code(f) == Code(f0) && Quiet(f0, f, recovering)
  }

  predicate Holds(f: Files, path: Path, raw: Bytes) {
    path in f.live && f.live[path] == raw
  }

  /** Each file of the set is old or new. */
  predicate Mixed(f: Files, es: seq<Entry>) {
    forall i | 0 <= i < |es| :: Holds(f, es[i].path, es[i].before) || Holds(f, es[i].path, es[i].after)
  }

  predicate AllOld(f: Files, es: seq<Entry>) {
    forall i | 0 <= i < |es| :: Holds(f, es[i].path, es[i].before)
  }

  predicate AllNew(f: Files, es: seq<Entry>) {
    forall i | 0 <= i < |es| :: Holds(f, es[i].path, es[i].after)
  }

  function Wanted(e: Entry, forward: bool): Bytes {
    if forward then e.after else e.before
  }

  function Targets(es: seq<Entry>): set<Path> {
    set i | 0 <= i < |es| :: es[i].path
  }

  /** The first `k` files have what is wanted; the others, and every path
      outside the set, have what they had. */
  predicate Prefix(f0: Files, f: Files, es: seq<Entry>, forward: bool, k: nat) {
    && k <= |es|
    && f.live.Keys == f0.live.Keys
    && (forall i | 0 <= i < k :: Holds(f, es[i].path, Wanted(es[i], forward)))
    && (forall i | k <= i < |es| :: es[i].path in f0.live ==> Holds(f, es[i].path, f0.live[es[i].path]))
    && (forall p | p in f0.live && p !in Targets(es) :: f.live[p] == f0.live[p])
  }

  function Temporaries(f: Files, forward: bool): map<Path, Bytes> {
    if forward then f.next else f.recovery
  }

  function SetTemporaries(f: Files, forward: bool, t: map<Path, Bytes>): Files {
    if forward then f.(next := t) else f.(recovery := t)
  }

  /** Between two files: `k` are done and no temporary was left. */
  predicate Settled(f0: Files, f: Files, es: seq<Entry>, forward: bool, k: nat) {
    && Prefix(f0, f, es, forward, k)
    && f.next == f0.next && f.recovery == f0.recovery && f.evidence == f0.evidence
  }

  /** Inside file `k`: a temporary of this direction, holding part of what is wanted. */
  predicate Writing(f0: Files, f: Files, es: seq<Entry>, forward: bool, k: nat) {
    && k < |es| && Prefix(f0, f, es, forward, k)
    && es[k].path !in Temporaries(f0, forward)
    && IsStage(f0.(live := f.live), f, es[k].path, Wanted(es[k], forward), forward)
  }

  /** Every state inside one publication. */
  ghost predicate Within(f0: Files, f: Files, es: seq<Entry>, forward: bool) {
    exists k: nat :: Settled(f0, f, es, forward, k) || Writing(f0, f, es, forward, k)
  }

  /** Every state inside one publication and the journal it keeps. */
  ghost predicate Running(f0: Files, f: Files, es: seq<Entry>, forward: bool, recovering: bool) {
    Within(Code(f0), Code(f), es, forward) && Quiet(f0, f, recovering)
  }

  function WithTemporary(f0: Files, forward: bool, path: Path, part: Bytes): Files {
    SetTemporaries(f0, forward, Temporaries(f0, forward)[path := part])
  }

  predicate IsStage(f0: Files, f: Files, path: Path, raw: Bytes, forward: bool) {
    exists n | 0 <= n <= |raw| :: f == WithTemporary(f0, forward, path, raw[..n])
  }

  /** Every state inside one `atomic_file`. */
  predicate Staged(f0: Files, f: Files, path: Path, raw: Bytes, forward: bool) {
    && path !in Temporaries(f0, forward)
    && (f == f0 || f == f0.(live := f0.live[path := raw]) || IsStage(f0, f, path, raw, forward))
  }

  class Disk {
    const faultless: bool // no operation fails for a reason outside the files
    var files: Files
    ghost var reached: seq<Files>

    constructor (files: Files, faultless: bool)
      ensures this.files == files && this.faultless == faultless && reached == [files]
    {
      this.files, this.faultless, reached := files, faultless, [files];
    }

    /** Something outside may fail. */
    method Works() returns (ok: bool)
      ensures faultless ==> ok
    {
      ok := *;
      ok := ok || faultless;
    }

    /** One atomic filesystem step. */
    method Become(next: Files)
      modifies this
      ensures files == next && reached == old(reached) + [next]
    {
      files := next;
      reached := reached + [next];
    }

    /** `bounded_file`: the bytes, unless the read fails. */
    method Read(path: Path) returns (r: Option<Bytes>)
      ensures r.Some? ==> Holds(files, path, r.value)
      ensures path !in files.live ==> r == None
      ensures faultless && path in files.live ==> r.Some?
    {
      var ok := Works();
      return if !ok || path !in files.live then None else Some(files.live[path]);
    }

    /** The bytes of `raw` into the temporary, in as many partial writes as it takes. */
    method FillTemporary(path: Path, raw: Bytes, forward: bool, ghost f0: Files) returns (ok: bool, ghost part: Bytes)
      requires path !in Temporaries(f0, forward)
      requires files == WithTemporary(f0, forward, path, [])
      modifies this
      ensures part <= raw && files == WithTemporary(f0, forward, path, part) && (ok ==> part == raw)
      ensures faultless ==> ok
      ensures Logged(old(reached), f0, path, raw, forward)
    {
      var done := 0;
      while done < |raw|
        invariant 0 <= done <= |raw|
        invariant files == WithTemporary(f0, forward, path, raw[..done])
        invariant Logged(old(reached), f0, path, raw, forward)
      {
        ok := Works();
        var count: nat :| count <= |raw| - done && (ok ==> count > 0);
        if count == 0 {
          return false, raw[..done];
        }
        done := done + count;
        WriteMore(path, raw, forward, done, f0, old(reached));
      }
      ok := Works(); // owner, mode, sync
      part := raw[..done];
    }

    method WriteMore(path: Path, raw: Bytes, forward: bool, done: nat, ghost f0: Files, ghost log: seq<Files>)
      requires path !in Temporaries(f0, forward) && done <= |raw|
      requires exists part: Bytes | part <= raw :: files == WithTemporary(f0, forward, path, part)
      requires Logged(log, f0, path, raw, forward)
      modifies this
      ensures files == WithTemporary(f0, forward, path, raw[..done])
      ensures Logged(log, f0, path, raw, forward)
    {
      Become(WithTemporary(files, forward, path, raw[..done]));
      assert files == WithTemporary(f0, forward, path, raw[..done]);
      assert IsStage(f0, files, path, raw, forward);
    }

    /** Every state since `log` is inside this `atomic_file`. */
    ghost predicate Logged(log: seq<Files>, f0: Files, path: Path, raw: Bytes, forward: bool)
      reads this
    {
      && log <= reached
      && forall i | |log| <= i < |reached| :: Staged(f0, reached[i], path, raw, forward)
    }

    /** `finally` in `atomic_file`: remove the own temporary if it is still there. */
    method Discard(path: Path, forward: bool, ghost f0: Files, ghost part: Bytes)
      requires path !in Temporaries(f0, forward) && files == WithTemporary(f0, forward, path, part)
      modifies this
      ensures (files == old(files) && reached == old(reached)) || (files == f0 && reached == old(reached) + [f0])
    {
      var fault: bool := *;
      if !fault {
        var t := Temporaries(files, forward);
        assert t - {path} == Temporaries(f0, forward);
        Become(SetTemporaries(files, forward, t - {path}));
      }
    }

    /** `atomic_file` on a fixed target with a known preimage. */
    method AtomicFile(path: Path, raw: Bytes, expected: Option<Bytes>, forward: bool) returns (ok: bool)
      modifies this
      ensures ok ==> files == old(files).(live := old(files.live)[path := raw])
      ensures ok ==> Fits(old(files), path, expected)
      ensures faultless ==> (ok <==> Fits(old(files), path, expected) && path !in old(Temporaries(files, forward)))
      ensures files == old(files) || Staged(old(files), files, path, raw, forward)
      ensures path !in old(Temporaries(files, forward)) ==> Logged(old(reached), old(files), path, raw, forward)
      ensures path in old(Temporaries(files, forward)) || !Fits(old(files), path, expected) ==>
        !ok && files == old(files) && reached == old(reached)
      ensures ok ==> |old(reached)| < |reached| && reached[|old(reached)|] == WithTemporary(old(files), forward, path, [])
    {
      var fits := Preimage(path, expected);
      if !fits || path in Temporaries(files, forward) {
        return false;
      }
      ok := StageAndReplace(path, raw, expected, forward);
    }

    /** From the exclusive creation of the temporary on. */
    method StageAndReplace(path: Path, raw: Bytes, expected: Option<Bytes>, forward: bool) returns (ok: bool)
      requires path !in Temporaries(files, forward)
      modifies this
      ensures ok ==> files == old(files).(live := old(files.live)[path := raw])
      ensures faultless && (expected.Some? ==> Fits(old(files), path, expected)) ==> ok
      ensures Staged(old(files), files, path, raw, forward)
      ensures Logged(old(reached), old(files), path, raw, forward)
      ensures |old(reached)| < |reached| && reached[|old(reached)|] == WithTemporary(old(files), forward, path, [])
    {
      ghost var f0 := files;
      Become(WithTemporary(files, forward, path, []));
      assert raw[..0] == [];
      ghost var part;
      ok, part := FillTemporary(path, raw, forward, f0);
      assert part == raw[..|part|];
      if ok && expected.Some? {
        ok := Preimage(path, expected);
      }
      if !ok {
        Discard(path, forward, f0, part);
        return;
      }
      Replace(path, raw, forward, f0);
      ok := Works(); // the parent's sync may still fail
    }

    /** `os.replace`. */
    method Replace(path: Path, raw: Bytes, forward: bool, ghost f0: Files)
      requires path !in Temporaries(f0, forward) && files == WithTemporary(f0, forward, path, raw)
      modifies this
      ensures files == f0.(live := f0.live[path := raw]) && reached == old(reached) + [files]
    {
      var t := Temporaries(files, forward);
      assert t - {path} == Temporaries(f0, forward);
      Become(SetTemporaries(files, forward, t - {path}).(live := files.live[path := raw]));
    }

    method Preimage(path: Path, expected: Option<Bytes>) returns (fits: bool)
      ensures fits ==> Fits(files, path, expected)
      ensures faultless ==> (fits <==> Fits(files, path, expected))
    {
      if expected.None? {
        return path !in files.live;
      }
      var r := Read(path);
      return r == expected;
    }

    /** `persist`, or the write of the result: the whole log again, whatever it says now. */
    method Persist(path: Path, recovering: bool) returns (ok: bool)
      requires path in LOGS
      modifies this
      ensures LogsOnly(old(files), files, recovering) && Chatter(old(reached), old(files), recovering)
      ensures ok ==> files == old(files).(live := files.live)
      ensures ok ==> |old(reached)| < |reached| && reached[|old(reached)|] == WithTemporary(old(files), !recovering, path, [])
      ensures faultless ==> (ok <==> path !in old(Temporaries(files, !recovering)))
      ensures faultless ==> files == old(files).(live := files.live)
    {
      ok := Works(); // its size
      if !ok {
        return;
      }
      var current: Option<Bytes> := None;
      if path in files.live {
        current := Read(path);
        if current.None? {
          return false;
        }
      }
      var text: Bytes := *;
      ok := AtomicFile(path, text, current, !recovering);
      StagedLog(old(files), path, text, recovering);
    }

    /** Every state since `log` differs from `f0` in logs only. */
    ghost predicate Chatter(log: seq<Files>, f0: Files, recovering: bool)
      reads this
    {
      && log <= reached
      && forall i | |log| <= i < |reached| :: LogsOnly(f0, reached[i], recovering)
    }

    /** One file of `publish_identity_files`. */
    method PublishOne(es: seq<Entry>, forward: bool, recovering: bool, k: nat, current: Bytes,
                      ghost f0: Files, ghost log: seq<Files>)
      returns (ok: bool)
      requires DistinctPaths(es) && k < |es| && Settled(Code(f0), Code(files), es, forward, k)
      requires files == f0.(live := files.live)
      requires es[k].path in f0.live && current == f0.live[es[k].path]
      requires PublishLog(log, f0, es, forward, recovering)
      modifies this
      ensures ok ==> Settled(Code(f0), Code(files), es, forward, k + 1) && files == f0.(live := files.live)
      ensures faultless ==> (ok <==> Journal(recovering) !in Temporaries(f0, !recovering) && Free(f0, es[k], forward))
      ensures faultless ==> files == f0.(live := files.live)
      ensures Running(f0, files, es, forward, recovering)
      ensures PublishLog(log, f0, es, forward, recovering)
    {
      ok := PlaceFile(es, forward, recovering, k, current, f0, log);
      if ok {
        ok := Checkpoint(es, forward, recovering, k + 1, f0, log);
      }
    }

    method PlaceFile(es: seq<Entry>, forward: bool, recovering: bool, k: nat, current: Bytes,
                     ghost f0: Files, ghost log: seq<Files>)
      returns (ok: bool)
      requires DistinctPaths(es) && k < |es| && Settled(Code(f0), Code(files), es, forward, k)
      requires files == f0.(live := files.live)
      requires es[k].path in f0.live && current == f0.live[es[k].path]
      requires PublishLog(log, f0, es, forward, recovering)
      modifies this
      ensures ok ==> Settled(Code(f0), Code(files), es, forward, k + 1) && files == f0.(live := files.live)
      ensures faultless ==> (ok <==> Free(f0, es[k], forward)) && files == f0.(live := files.live)
      ensures Running(f0, files, es, forward, recovering)
      ensures PublishLog(log, f0, es, forward, recovering)
    {
      ghost var mid := reached;
      FileIsRunning(f0, files, es, forward, recovering, k);
      var wanted := Wanted(es[k], forward);
      assert Code(files).live[es[k].path] == Code(f0).live[es[k].path];
      if current == wanted {
        return true;
      }
      ok := AtomicFile(es[k].path, wanted, Some(current), forward);
      PublishLogGrows(mid, log, f0, es, forward, recovering);
    }

    /** The checkpoint between two files. */
    method Checkpoint(es: seq<Entry>, forward: bool, recovering: bool, k: nat, ghost f0: Files, ghost log: seq<Files>)
      returns (ok: bool)
      requires k <= |es| && Settled(Code(f0), Code(files), es, forward, k) && files == f0.(live := files.live)
      requires PublishLog(log, f0, es, forward, recovering)
      modifies this
      ensures Settled(Code(f0), Code(files), es, forward, k) && Quiet(f0, files, recovering)
      ensures ok ==> files == f0.(live := files.live)
      ensures faultless ==> (ok <==> Journal(recovering) !in Temporaries(f0, !recovering))
      ensures faultless ==> files == f0.(live := files.live)
      ensures PublishLog(log, f0, es, forward, recovering)
    {
      ghost var f1, mid := files, reached;
      ok := Persist(Journal(recovering), recovering);
      ChatterIsRunning(mid, f1, f0, es, forward, recovering, k);
      PublishLogGrows(mid, log, f0, es, forward, recovering);
    }

    /** `publish_identity_files`: every preimage is checked before the first write.
        Without faults it gets through exactly when the files permit. */
    method PublishIdentityFiles(es: seq<Entry>, forward: bool, recovering: bool) returns (ok: bool)
      requires DistinctPaths(es)
      modifies this
      ensures !Qualified(old(files), es, forward) ==> !ok && files == old(files) && reached == old(reached)
      ensures ok ==> Settled(Code(old(files)), Code(files), es, forward, |es|) && files == old(files).(live := files.live)
      ensures Running(old(files), files, es, forward, recovering)
      ensures PublishLog(old(reached), old(files), es, forward, recovering)
      ensures faultless ==> (ok <==> Publishable(old(files), es, forward, recovering))
      ensures faultless ==> files == old(files).(live := files.live)
    {
      ghost var f0 := files;
      assert Settled(Code(f0), Code(f0), es, forward, 0);
      var qualified, currents := ReadPreimages(es, forward);
      if !qualified {
        return false;
      }
      var k := 0;
      while k < |es|
        invariant 0 <= k <= |es|
        invariant Settled(Code(f0), Code(files), es, forward, k) && files == f0.(live := files.live)
        invariant PublishLog(old(reached), f0, es, forward, recovering)
        invariant faultless ==> forall i | 0 <= i < k :: Free(f0, es[i], forward)
        invariant faultless && k > 0 ==> Journal(recovering) !in Temporaries(f0, !recovering)
      {
        ok := PublishOne(es, forward, recovering, k, currents[k], f0, old(reached));
        if !ok {
          return;
        }
        k := k + 1;
      }
      ok := Works(); // the final readback
    }

    /** The first loop of `publish_identity_files`. */
    method ReadPreimages(es: seq<Entry>, forward: bool) returns (ok: bool, currents: seq<Bytes>)
      ensures ok ==> Qualified(files, es, forward) && |currents| == |es|
      ensures ok ==> forall i | 0 <= i < |es| :: Holds(files, es[i].path, currents[i])
      ensures faultless ==> (ok <==> Qualified(files, es, forward))
    {
      currents := [];
      while |currents| < |es|
        invariant |currents| <= |es|
        invariant forall i | 0 <= i < |currents| :: Holds(files, es[i].path, currents[i]) && Known(es[i], currents[i], forward)
      {
        var e := es[|currents|];
        var r := Read(e.path);
        if r.None? || !Known(e, r.value, forward) {
          return false, currents;
        }
        currents := currents + [r.value];
      }
      ok := true;
    }

    /** The private copies of a first run: the inputs and then each preimage. */
    method Retain(copies: seq<Bytes>) returns (ok: bool)
      modifies this
      ensures Collecting(old(files), files, copies)
      ensures ok ==> Collected(old(files), files, copies, |copies|)
      ensures old(reached) <= reached
      ensures forall i | |old(reached)| <= i < |reached| :: Collecting(old(files), reached[i], copies)
      ensures faultless ==> (ok <==> Unattempted(old(files)))
      ensures faultless && ok ==> old(files.evidence) == map[] && forall p: Path | p.Copy? || p == Audit || p == RecoveryAudit ::
        p !in old(files.live) && p !in old(files.next) && p !in old(files.recovery)
    {
      ghost var f0 := files;
      assert Unattempted(f0) ==> Collected(f0, f0, copies, 0);
      ok := Works(); // the two directories
      if !ok || !Unattempted(files) {
        return false;
      }
      var k := 0;
      while k < |copies|
        invariant 0 <= k <= |copies| && Unattempted(f0) && old(reached) <= reached
        invariant Collected(f0, files, copies, k) && Copy(k) !in files.next
        invariant forall n: nat | k <= n :: Copy(n) !in files.next
        invariant forall i | |old(reached)| <= i < |reached| :: Collecting(f0, reached[i], copies)
      {
        ghost var f1, mid := files, reached;
        ok := AtomicFile(Copy(k), copies[k], None, true);
        CopyCollects(f0, f1, copies, k);
        assert forall i | |mid| <= i < |reached| :: Staged(f1, reached[i], Copy(k), copies[k], true);
        if !ok {
          return;
        }
        k := k + 1;
      }
      ok := Works(); // the copies read back
    }

    /** `repair_identity --recover`: intent, every known live byte and the
        interrupted writes are qualified before anything is stopped or changed.
        Without faults it gets through exactly from the recoverable states; whenever
        it does, it passed a state from which no other recovery would. */
    method Recover(es: seq<Entry>, inputs: seq<Bytes>, sources: nat) returns (ok: bool)
      requires DistinctPaths(es) && sources <= |es|
      modifies this
      ensures !Untorn(old(files), es) || !Qualified(old(files), es, false) || !Intended(old(files), inputs, es)
        ==> !ok && files == old(files) && reached == old(reached)
      ensures ok ==> Restored(Code(old(files)), Code(files), es, sources)
      ensures RestoreState(old(files), files, es)
      ensures RecoverLog(old(reached), old(files), es)
      ensures ok ==> exists i | |old(reached)| <= i < |reached| :: TornInJournal(reached[i], es)
      ensures faultless ==> (ok <==> Recoverable(old(files), inputs, es, sources))
      ensures faultless ==> (ok <==> Returnable(old(files), inputs, es, sources))
    {
      ghost var f0 := files;
      RecoverableIff(f0, inputs, es, sources);
      RestoreStateStarts(f0, es);
      ok := QualifyRecovery(es, inputs);
      if !ok {
        return;
      }
      ok := Works(); // the closed tree, no application, every unit confirmed stopped
      if !ok {
        return;
      }
      ok := PreserveAndRestore(es, sources);
      if ok {
        ok := Conclude(es, f0, old(reached));
      }
    }

    /** What follows a completed restore: commands, each audited, the last
        checkpoint, the outcome and the public result. */
    method Conclude(es: seq<Entry>, ghost f0: Files, ghost log: seq<Files>) returns (ok: bool)
      requires DistinctPaths(es) && Untorn(files, es)
      requires RestoreState(f0, files, es) && RecoverLog(log, f0, es)
      modifies this
      ensures Code(files) == old(Code(files)) && RestoreState(f0, files, es) && RecoverLog(log, f0, es)
      ensures ok ==> exists i | |log| <= i < |reached| :: TornInJournal(reached[i], es)
      ensures faultless ==> ok
    {
      var commands: nat :| true;
      var k := 0;
      while k < commands
        invariant k <= commands && Untorn(files, es) && Code(files) == old(Code(files))
        invariant RestoreState(f0, files, es) && RecoverLog(log, f0, es)
      {
        ok := Works(); // the command itself
        if !ok {
          return;
        }
        ok := Note(RecoveryAudit, es, f0, log);
        if !ok {
          return;
        }
        k := k + 1;
      }
      ok := Note(RecoveryAudit, es, f0, log); // the checkpoint
      if !ok {
        return;
      }
      ok := Note(RecoveryAudit, es, f0, log); // the outcome
      if !ok {
        return;
      }
      ok := Note(Result, es, f0, log);
    }

    /** One write to a log of a recovery. */
    method Note(path: Path, es: seq<Entry>, ghost f0: Files, ghost log: seq<Files>) returns (ok: bool)
      requires DistinctPaths(es) && path in LOGS && Untorn(files, es)
      requires RestoreState(f0, files, es) && RecoverLog(log, f0, es)
      modifies this
      ensures Code(files) == old(Code(files)) && RestoreState(f0, files, es) && RecoverLog(log, f0, es)
      ensures old(reached) <= reached && (ok ==> Untorn(files, es))
      ensures ok ==> exists i | |old(reached)| <= i < |reached| :: TornInJournal(reached[i], es)
      ensures faultless ==> ok
    {
      ghost var f1, mid := files, reached;
      ok := Persist(path, true);
      LogsOnlyRestores(f0, f1, es);
      forall i | |log| <= i < |reached| ensures RestoreState(f0, reached[i], es) {
        assert i < |mid| ==> reached[i] == mid[i];
      }
      assert ok ==> TornInJournal(reached[|mid|], es);
    }

    /** What a qualified recovery restores. */
    method PreserveAndRestore(es: seq<Entry>, sources: nat) returns (ok: bool)
      requires DistinctPaths(es) && sources <= |es| && Qualified(files, es, false) && Untorn(files, es)
      modifies this
      ensures ok ==> Restored(Code(old(files)), Code(files), es, sources) && Untorn(files, es)
      ensures RestoreState(old(files), files, es)
      ensures RecoverLog(old(reached), old(files), es)
      ensures faultless ==> (ok <==> EvidenceFree(old(files), es, sources))
    {
      ghost var f0 := files;
      ok := PreserveTemporaries(es, sources);
      ghost var f1, mid := files, reached;
      PreservedIsRestoreState(f0, es);
      if !ok {
        return;
      }
      QualifiedStays(f0, f1, es);
      ok := PublishIdentityFiles(es, false, true);
      RestoringIsRestoreState(f0, f1, es);
      RecoverLogGrows(mid, old(reached), f0, f1, es);
      if ok {
        PreservedCode(f0, f1);
        SettledIsRestored(Code(f0), Code(f1), Code(files), es, sources);
      }
    }

    /** The first lines of the recovery, which only read. */
    method QualifyRecovery(es: seq<Entry>, inputs: seq<Bytes>) returns (ok: bool)
      ensures ok ==> Intended(files, inputs, es) && Qualified(files, es, false) && Untorn(files, es)
      ensures faultless ==> (ok <==> Intended(files, inputs, es) && Qualified(files, es, false) && Untorn(files, es))
    {
      var k := 0;
      while k < |inputs|
        invariant 0 <= k <= |inputs| && forall i | 0 <= i < k :: Holds(files, Copy(i), inputs[i])
      {
        var copy := Read(Copy(k));
        if copy != Some(inputs[k]) {
          return false;
        }
        k := k + 1;
      }
      k := 0;
      while k < |es|
        invariant 0 <= k <= |es|
        invariant forall i | 0 <= i < k :: Holds(files, Copy(|inputs| + i), es[i].before)
        invariant forall i | 0 <= i < k :: es[i].path in files.live && Known(es[i], files.live[es[i].path], false)
      {
        var copy := Read(Copy(|inputs| + k));
        if copy != Some(es[k].before) {
          return false;
        }
        var r := Read(es[k].path);
        if r.None? || !Known(es[k], r.value, false) {
          return false;
        }
        k := k + 1;
      }
      ok := Works(); // the metadata and bytes of the temporaries
      ok := ok && Untorn(files, es);
    }

    /** `preserve_identity_source_temporary`, once per source: an interrupted
        write moves to the private evidence, never over evidence already there. */
    method PreserveTemporaries(es: seq<Entry>, sources: nat) returns (ok: bool)
      requires DistinctPaths(es) && sources <= |es|
      modifies this
      ensures Preserved(old(files), files)
      ensures old(reached) <= reached
      ensures forall i | |old(reached)| <= i < |reached| :: Preserved(old(files), reached[i])
      ensures ok ==> forall i | 0 <= i < sources :: es[i].path !in files.next
      ensures forall p | p in old(files.next) && p !in Targets(es[..sources]) :: p in files.next
      ensures faultless ==> (ok <==> EvidenceFree(old(files), es, sources))
    {
      ghost var f0 := files;
      var k := 0;
      while k < sources
        invariant 0 <= k <= sources && old(reached) <= reached
        invariant Preserved(f0, files)
        invariant forall i | |old(reached)| <= i < |reached| :: Preserved(f0, reached[i])
        invariant forall i | 0 <= i < k :: es[i].path !in files.next
        invariant forall i | k <= i < |es| :: Same(f0, files, es[i].path)
        invariant forall p | p in f0.next && p !in Targets(es[..sources]) :: p in files.next
        invariant faultless ==> EvidenceFree(f0, es, k)
      {
        var p := es[k].path;
        assert es[..sources][k].path in Targets(es[..sources]);
        assert Same(f0, files, p);
        if p in files.next {
          ok := Works();
          if !ok || p in files.evidence {
            return false;
          }
          MovePreserves(f0, files, p);
          Become(Moved(files, p));
        }
        k := k + 1;
      }
      ok := Works(); // the directory syncs
    }

    /** Every state since `log` is one a recovery can be stopped in. */
    ghost predicate RecoverLog(log: seq<Files>, f0: Files, es: seq<Entry>)
      reads this
    {
      && log <= reached
      && forall i | |log| <= i < |reached| :: RestoreState(f0, reached[i], es)
    }

    lemma RecoverLogGrows(mid: seq<Files>, log: seq<Files>, f0: Files, f1: Files, es: seq<Entry>)
      requires log <= mid <= reached
      requires forall i | |log| <= i < |mid| :: RestoreState(f0, mid[i], es)
      requires forall i | |mid| <= i < |reached| :: Running(f1, reached[i], es, false, true)
      requires forall x :: Running(f1, x, es, false, true) ==> RestoreState(f0, x, es)
      ensures RecoverLog(log, f0, es)
    {
    }

    ghost predicate PublishLog(log: seq<Files>, f0: Files, es: seq<Entry>, forward: bool, recovering: bool)
      reads this
    {
      && log <= reached
      && forall i | |log| <= i < |reached| :: Running(f0, reached[i], es, forward, recovering)
    }

    lemma PublishLogGrows(mid: seq<Files>, log: seq<Files>, f0: Files, es: seq<Entry>, forward: bool, recovering: bool)
      requires log <= mid <= reached
      requires forall i | |log| <= i < |mid| :: Running(f0, mid[i], es, forward, recovering)
      requires forall i | |mid| <= i < |reached| :: Running(f0, reached[i], es, forward, recovering)
      ensures PublishLog(log, f0, es, forward, recovering)
    {
    }
  }

  // ----- the journal beside the files -----------------------------------------

  lemma AtLog(m: map<Path, Bytes>, path: Path, raw: Bytes)
    ensures path in LOGS ==> m[path := raw] - LOGS == m - LOGS
    ensures path !in LOGS ==> m[path := raw] - LOGS == (m - LOGS)[path := raw]
  {
  }

  /** A temporary or a new content beside a log changes no code, beside a file no log. */
  lemma TemporaryBeside(f0: Files, forward: bool, path: Path, part: Bytes)
    ensures path in LOGS ==> LogsOnly(f0, WithTemporary(f0, forward, path, part), !forward)
    ensures path !in LOGS ==> Code(WithTemporary(f0, forward, path, part)) == WithTemporary(Code(f0), forward, path, part)
    ensures path !in LOGS ==> forall b :: Quiet(f0, WithTemporary(f0, forward, path, part), b)
  {
    AtLog(f0.next, path, part);
    AtLog(f0.recovery, path, part);
  }

  lemma ContentBeside(f0: Files, path: Path, raw: Bytes)
    ensures var f := f0.(live := f0.live[path := raw]);
      && (path in LOGS ==> forall b :: LogsOnly(f0, f, b))
      && (path !in LOGS ==> Code(f) == Code(f0).(live := Code(f0).live[path := raw]) && forall b :: Quiet(f0, f, b))
  {
    AtLog(f0.live, path, raw);
  }

  /** Writing a log leaves everything else as it is. */
  lemma StagedLog(f0: Files, path: Path, raw: Bytes, recovering: bool)
    requires path in LOGS
    ensures LogsOnly(f0, f0, recovering)
    ensures forall x :: Staged(f0, x, path, raw, !recovering) ==> LogsOnly(f0, x, recovering)
  {
    ContentBeside(f0, path, raw);
    forall x | Staged(f0, x, path, raw, !recovering) ensures LogsOnly(f0, x, recovering) {
      if IsStage(f0, x, path, raw, !recovering) {
        var n :| 0 <= n <= |raw| && x == WithTemporary(f0, !recovering, path, raw[..n]);
        TemporaryBeside(f0, !recovering, path, raw[..n]);
      }
    }
  }

  /** Writing a target leaves the logs as they are. */
  lemma StagedCode(f0: Files, x: Files, path: Path, raw: Bytes, forward: bool)
    requires path !in LOGS && Staged(f0, x, path, raw, forward)
    ensures Staged(Code(f0), Code(x), path, raw, forward)
    ensures Quiet(f0, x, true) && Quiet(f0, x, false)
  {
    ContentBeside(f0, path, raw);
    if IsStage(f0, x, path, raw, forward) {
      var n :| 0 <= n <= |raw| && x == WithTemporary(f0, forward, path, raw[..n]);
      TemporaryBeside(f0, forward, path, raw[..n]);
    }
  }

  /** One file written between two checkpoints: where that may stop, and where it leads. */
  lemma FileIsRunning(f0: Files, f: Files, es: seq<Entry>, forward: bool, recovering: bool, k: nat)
    requires DistinctPaths(es) && k < |es| && Settled(Code(f0), Code(f), es, forward, k)
    requires f == f0.(live := f.live) && es[k].path in f0.live
    ensures forall x :: Staged(f, x, es[k].path, Wanted(es[k], forward), forward) ==> Running(f0, x, es, forward, recovering)
    ensures var x := f.(live := f.live[es[k].path := Wanted(es[k], forward)]);
      Settled(Code(f0), Code(x), es, forward, k + 1) && x == f0.(live := x.live)
    ensures Running(f0, f, es, forward, recovering)
  {
    StagedIsWithin(Code(f0), Code(f), es, forward, k);
    ContentBeside(f, es[k].path, Wanted(es[k], forward));
    forall x | Staged(f, x, es[k].path, Wanted(es[k], forward), forward) ensures Running(f0, x, es, forward, recovering) {
      StagedCode(f, x, es[k].path, Wanted(es[k], forward), forward);
      assert Quiet(f, x, recovering);
    }
  }

  predicate Fits(f: Files, path: Path, expected: Option<Bytes>) {
    if expected.None? then path !in f.live else Holds(f, path, expected.value)
  }

  /** The bytes `publish_identity_files` accepts as a preimage. */
  predicate Known(e: Entry, current: Bytes, forward: bool) {
    current == e.before || (!forward && current == e.after)
  }

  predicate Qualified(f: Files, es: seq<Entry>, forward: bool) {
    forall i | 0 <= i < |es| :: es[i].path in f.live && Known(es[i], f.live[es[i].path], forward)
  }

  /** Nothing to do, or no temporary of this direction in the way. */
  predicate Free(f: Files, e: Entry, forward: bool) {
    Holds(f, e.path, Wanted(e, forward)) || e.path !in Temporaries(f, forward)
  }

  /** Where a publication gets through: the files permit, and so does the journal. */
  predicate Publishable(f: Files, es: seq<Entry>, forward: bool, recovering: bool) {
    && Qualified(f, es, forward) && (forall i | 0 <= i < |es| :: Free(f, es[i], forward))
    && (es != [] ==> Journal(recovering) !in Temporaries(f, !recovering))
  }

  /** Installing starts from the old bytes only, restoring from the old or the new
      ones; where a write is needed its temporary must not be there. */
  predicate ReadyAt(f: Files, e: Entry, forward: bool) {
    && e.path in f.live
    && if forward then f.live[e.path] == e.before && (e.before == e.after || e.path !in f.next)
       else f.live[e.path] == e.before || (f.live[e.path] == e.after && e.path !in f.recovery)
  }

  predicate Ready(f: Files, es: seq<Entry>, forward: bool, recovering: bool) {
    && (forall i | 0 <= i < |es| :: ReadyAt(f, es[i], forward))
    && (es == [] || if recovering then RecoveryAudit !in f.recovery else Audit !in f.next)
  }

  lemma PublishableIff(f: Files, es: seq<Entry>, forward: bool, recovering: bool)
    ensures Publishable(f, es, forward, recovering) <==> Ready(f, es, forward, recovering)
  {
    forall i | 0 <= i < |es|
      ensures ReadyAt(f, es[i], forward) <==>
        es[i].path in f.live && Known(es[i], f.live[es[i].path], forward) && Free(f, es[i], forward)
    {
    }
  }

  /** The private copies are complete, every live file is the old or the new one, no
      recovery was stopped inside a file of the set, a journal or the result, and no
      interrupted write of a source would go over evidence. */
  predicate Returnable(f: Files, inputs: seq<Bytes>, es: seq<Entry>, sources: nat)
    requires sources <= |es|
  {
    && (forall i | 0 <= i < |inputs| :: Copy(i) in f.live && f.live[Copy(i)] == inputs[i])
    && (forall i | 0 <= i < |es| :: ReturnableAt(f, |inputs| + i, es[i], i < sources))
    && Audit !in f.recovery && RecoveryAudit !in f.recovery && Result !in f.recovery
  }

  predicate ReturnableAt(f: Files, copy: nat, e: Entry, source: bool) {
    && Copy(copy) in f.live && f.live[Copy(copy)] == e.before
    && e.path in f.live && (f.live[e.path] == e.before || f.live[e.path] == e.after)
    && e.path !in f.recovery && (source ==> e.path !in f.next || e.path !in f.evidence)
  }

  lemma RecoverableIff(f: Files, inputs: seq<Bytes>, es: seq<Entry>, sources: nat)
    requires sources <= |es|
    ensures Recoverable(f, inputs, es, sources) <==> Returnable(f, inputs, es, sources)
  {
    if Returnable(f, inputs, es, sources) {
      forall i | 0 <= i < |es|
        ensures Holds(f, Copy(|inputs| + i), es[i].before) && es[i].path !in f.recovery
        ensures es[i].path in f.live && Known(es[i], f.live[es[i].path], false)
        ensures i < sources && es[i].path in f.next ==> es[i].path !in f.evidence
      {
        assert ReturnableAt(f, |inputs| + i, es[i], i < sources);
      }
    }
    if Recoverable(f, inputs, es, sources) {
      forall i | 0 <= i < |es| ensures ReturnableAt(f, |inputs| + i, es[i], i < sources) {
        assert Holds(f, Copy(|inputs| + i), es[i].before);
      }
    }
  }

  /** As long as the journal can be written, what is in the logs does not matter. */
  lemma LogsDoNotMatter(f0: Files, f: Files, es: seq<Entry>, forward: bool)
    requires DistinctPaths(es) && Code(f) == Code(f0) && Audit !in f0.next && Audit !in f.next
    ensures Publishable(f, es, forward, false) <==> Publishable(f0, es, forward, false)
  {
    forall i | 0 <= i < |es|
      ensures SameAt(f0.live, f.live, es[i].path) && SameAt(Temporaries(f0, forward), Temporaries(f, forward), es[i].path)
    {
      var p := es[i].path;
      assert SameAt(f0.live, Code(f0).live, p) && SameAt(f.live, Code(f).live, p);
      assert SameAt(Temporaries(f0, forward), Temporaries(Code(f0), forward), p);
      assert SameAt(Temporaries(f, forward), Temporaries(Code(f), forward), p);
    }
  }

  lemma RunningAfterLogs(f0: Files, f1: Files, f: Files, es: seq<Entry>, forward: bool)
    requires LogsOnly(f0, f1, false) && Running(f1, f, es, forward, false)
    ensures Running(f0, f, es, forward, false)
  {
  }

  lemma RunningStarts(f0: Files, f: Files, es: seq<Entry>, forward: bool)
    requires LogsOnly(f0, f, false)
    ensures Running(f0, f, es, forward, false)
  {
    assert Settled(Code(f), Code(f), es, forward, 0);
  }

  /** No restore or recovery was stopped inside a file, a journal or the result. */
  predicate Untorn(f: Files, es: seq<Entry>) {
    && (forall i | 0 <= i < |es| :: es[i].path !in f.recovery)
    && forall p | p in LOGS :: p !in f.recovery
  }

  /** Stopped inside a log, and inside no file of the set. */
  predicate TornInJournal(f: Files, es: seq<Entry>) {
    (forall i | 0 <= i < |es| :: es[i].path !in f.recovery) && exists p | p in LOGS :: p in f.recovery
  }

  /** The private copies are all there: the inputs and the preimages to go back to. */
  predicate Intended(f: Files, inputs: seq<Bytes>, es: seq<Entry>) {
    && (forall i | 0 <= i < |inputs| :: Holds(f, Copy(i), inputs[i]))
    && forall i | 0 <= i < |es| :: Holds(f, Copy(|inputs| + i), es[i].before)
  }

  /** Every interrupted write of a source still has its place in the evidence. */
  predicate EvidenceFree(f: Files, es: seq<Entry>, sources: nat)
    requires sources <= |es|
  {
    forall i | 0 <= i < sources :: es[i].path in f.next ==> es[i].path !in f.evidence
  }

  /** Where a recovery gets through. */
  predicate Recoverable(f: Files, inputs: seq<Bytes>, es: seq<Entry>, sources: nat)
    requires sources <= |es|
  {
    Intended(f, inputs, es) && Qualified(f, es, false) && Untorn(f, es) && EvidenceFree(f, es, sources)
  }

  // ----- the private copies -----------------------------------------------------

  predicate Private(p: Path) {
    p.Copy? || p == Audit || p == RecoveryAudit
  }

  /** There is no private directory yet. */
  predicate Unattempted(f: Files) {
    && (forall p <- f.live :: !Private(p)) && (forall p <- f.next :: !Private(p)) && (forall p <- f.recovery :: !Private(p))
    && f.evidence == map[]
  }

  /** The first `k` copies are written; beside copies and their temporaries nothing changed. */
  ghost predicate Collected(f0: Files, f: Files, copies: seq<Bytes>, k: nat) {
    && k <= |copies| && f.recovery == f0.recovery && f.evidence == f0.evidence
    && (forall p: Path | !p.Copy? :: SameAt(f0.live, f.live, p) && SameAt(f0.next, f.next, p))
    && (forall i | 0 <= i < k :: Holds(f, Copy(i), copies[i]))
    && forall n: nat | k <= n :: Copy(n) !in f.live
  }

  ghost predicate Collecting(f0: Files, f: Files, copies: seq<Bytes>) {
    f == f0 || exists k: nat :: Collected(f0, f, copies, k)
  }

  function Copies(inputs: seq<Bytes>, es: seq<Entry>): (r: seq<Bytes>)
    ensures |r| == |inputs| + |es|
    ensures forall i | 0 <= i < |inputs| :: r[i] == inputs[i]
    ensures forall i | 0 <= i < |es| :: r[|inputs| + i] == es[i].before
  {
    inputs + seq(|es|, i requires 0 <= i < |es| => es[i].before)
  }

  lemma CopyCollects(f0: Files, f: Files, copies: seq<Bytes>, k: nat)
    requires k < |copies| && Collected(f0, f, copies, k)
    ensures forall x :: Staged(f, x, Copy(k), copies[k], true) ==> Collecting(f0, x, copies)
    ensures Collected(f0, f.(live := f.live[Copy(k) := copies[k]]), copies, k + 1)
  {
    forall x | Staged(f, x, Copy(k), copies[k], true) ensures Collecting(f0, x, copies) {
      if IsStage(f, x, Copy(k), copies[k], true) {
        assert Collected(f0, x, copies, k);
      } else if x == f {
        assert Collected(f0, x, copies, k);
      } else {
        assert Collected(f0, x, copies, k + 1);
      }
    }
  }

  // ----- interrupted writes kept as evidence --------------------------------

  predicate Same(f0: Files, f: Files, p: Path) {
    && (p in f.next <==> p in f0.next) && (p in f0.next && p in f.next ==> f.next[p] == f0.next[p])
    && (p in f.evidence <==> p in f0.evidence)
  }

  predicate Kept(f0: Files, f: Files, p: Path) {
    && (p in f.next ==> p in f0.next && f.next[p] == f0.next[p])
    && (p in f0.evidence ==> p in f.evidence && f.evidence[p] == f0.evidence[p])
    && (p in f0.next ==> p in f.next || (p.Target? && p !in f0.evidence && p in f.evidence && f.evidence[p] == f0.next[p]))
    && (p in f.evidence ==> p in f0.evidence || (p in f0.next && p !in f.next))
  }

  /** Some interrupted writes moved to the evidence, and nothing else. */
  ghost predicate Preserved(f0: Files, f: Files) {
    f.live == f0.live && f.recovery == f0.recovery && forall p :: Kept(f0, f, p)
  }

  function Moved(f: Files, p: Path): Files
    requires p in f.next
  {
    f.(next := f.next - {p}, evidence := f.evidence[p := f.next[p]])
  }

  lemma MovePreserves(f0: Files, f: Files, p: Path)
    requires Preserved(f0, f) && Same(f0, f, p) && p.Target? && p in f.next && p !in f.evidence
    ensures Preserved(f0, Moved(f, p))
  {
    forall q ensures Kept(f0, Moved(f, p), q) {
      assert Kept(f0, f, q);
    }
  }

  /** Moving targets' temporaries leaves the logs alone. */
  lemma PreservedCode(f0: Files, f: Files)
    requires Preserved(f0, f)
    ensures Preserved(Code(f0), Code(f)) && Quiet(f0, f, true)
  {
    forall p ensures Kept(Code(f0), Code(f), p) && (p in LOGS ==> SameAt(f0.next, f.next, p)) {
      assert Kept(f0, f, p);
    }
  }

  /** Every state a recovery can be stopped in: some interrupted writes moved, then
      a restore inside or between its files, and its journal in any state. */
  ghost predicate RestoreState(f0: Files, f: Files, es: seq<Entry>) {
    Quiet(f0, f, true) && exists f1 :: Preserved(Code(f0), Code(f1)) && Within(Code(f1), Code(f), es, false)
  }

  lemma RestoreStateStarts(f0: Files, es: seq<Entry>)
    ensures RestoreState(f0, f0, es)
  {
    PreservedIsRestoreState(f0, es);
    assert Preserved(f0, f0);
  }

  lemma PreservedIsRestoreState(f0: Files, es: seq<Entry>)
    ensures forall f :: Preserved(f0, f) ==> RestoreState(f0, f, es)
  {
    forall f | Preserved(f0, f) ensures RestoreState(f0, f, es) {
      PreservedCode(f0, f);
      assert Settled(Code(f), Code(f), es, false, 0);
    }
  }

  lemma RestoringIsRestoreState(f0: Files, f1: Files, es: seq<Entry>)
    requires Preserved(f0, f1)
    ensures forall f :: Running(f1, f, es, false, true) ==> RestoreState(f0, f, es)
  {
    PreservedCode(f0, f1);
  }

  /** Writing logs stays among these states. */
  lemma LogsOnlyRestores(f0: Files, f1: Files, es: seq<Entry>)
    requires RestoreState(f0, f1, es)
    ensures forall f :: LogsOnly(f1, f, true) ==> RestoreState(f0, f, es)
  {
  }

  lemma ChatterIsRunning(mid: seq<Files>, f1: Files, f0: Files, es: seq<Entry>, forward: bool, recovering: bool, k: nat)
    requires Settled(Code(f0), Code(f1), es, forward, k) && f1 == f0.(live := f1.live)
    ensures forall x :: LogsOnly(f1, x, recovering) ==> Running(f0, x, es, forward, recovering)
  {
  }

  /** A completed recovery: every file old, no interrupted source write left in
      place, each kept as evidence, and nothing else changed. */
  ghost predicate Restored(f0: Files, f: Files, es: seq<Entry>, sources: nat)
    requires sources <= |es|
  {
    && Prefix(f0, f, es, false, |es|)
    && Preserved(f0, f.(live := f0.live))
    && forall i | 0 <= i < sources :: es[i].path !in f.next
  }

  lemma SettledIsRestored(f0: Files, f1: Files, f: Files, es: seq<Entry>, sources: nat)
    requires sources <= |es| && Preserved(f0, f1) && Settled(f1, f, es, false, |es|)
    requires forall i | 0 <= i < sources :: es[i].path !in f1.next
    ensures Restored(f0, f, es, sources)
  {
    forall p ensures Kept(f0, f.(live := f0.live), p) {
      assert Kept(f0, f1, p);
    }
  }

  lemma QualifiedStays(f0: Files, f1: Files, es: seq<Entry>)
    requires DistinctPaths(es) && Preserved(f0, f1) && Qualified(f0, es, false) && Untorn(f0, es)
    ensures Publishable(f1, es, false, true) && Untorn(f1, es)
  {
  }

  lemma ReplacedIsSettled(f0: Files, f: Files, es: seq<Entry>, forward: bool, k: nat)
    requires DistinctPaths(es) && k < |es| && Settled(f0, f, es, forward, k) && es[k].path in f0.live
    ensures Settled(f0, f.(live := f.live[es[k].path := Wanted(es[k], forward)]), es, forward, k + 1)
  {
    assert es[k].path in Targets(es);
  }

  lemma StageIsWriting(f0: Files, f: Files, x: Files, es: seq<Entry>, forward: bool, k: nat)
    requires k < |es| && Settled(f0, f, es, forward, k)
    requires es[k].path !in Temporaries(f, forward) && IsStage(f, x, es[k].path, Wanted(es[k], forward), forward)
    ensures Writing(f0, x, es, forward, k)
  {
  }

  lemma StagedIsWithin(f0: Files, f: Files, es: seq<Entry>, forward: bool, k: nat)
    requires DistinctPaths(es) && k < |es| && Settled(f0, f, es, forward, k)
    requires es[k].path in f0.live
    ensures forall x :: Staged(f, x, es[k].path, Wanted(es[k], forward), forward) ==> Within(f0, x, es, forward)
    ensures Within(f0, f, es, forward)
    ensures Settled(f0, f.(live := f.live[es[k].path := Wanted(es[k], forward)]), es, forward, k + 1)
  {
    ReplacedIsSettled(f0, f, es, forward, k);
    forall x | Staged(f, x, es[k].path, Wanted(es[k], forward), forward) ensures Within(f0, x, es, forward) {
      if IsStage(f, x, es[k].path, Wanted(es[k], forward), forward) {
        StageIsWriting(f0, f, x, es, forward, k);
      }
    }
  }

  // ----- crashes and recoveries ---------------------------------------------

  /** A publication stopped anywhere in a set that was old or new leaves a set that is old or new. */
  lemma WithinStaysMixed(f0: Files, f: Files, es: seq<Entry>, forward: bool)
    requires Mixed(f0, es) && Within(f0, f, es, forward)
    ensures Mixed(f, es)
  {
  }

  /** Forward, it is a prefix of new files and the rest old. */
  lemma ForwardLeavesPrefix(f0: Files, f: Files, es: seq<Entry>) returns (k: nat)
    requires AllOld(f0, es) && Within(f0, f, es, true)
    ensures k <= |es| && AllNew(f, es[..k]) && AllOld(f, es[k..])
  {
    k :| Settled(f0, f, es, true, k) || Writing(f0, f, es, true, k);
  }

  /** No installed file outside the set ever changed, nor any private copy. */
  ghost predicate SameOutside(f0: Files, f: Files, es: seq<Entry>) {
    forall p | p !in LOGS && p !in Targets(es) :: SameAt(f0.live, f.live, p)
  }

  /** The same for installed files only: the copies may be new. */
  ghost predicate SameInstalled(f0: Files, f: Files, es: seq<Entry>) {
    forall p: Path | p.Target? && p !in Targets(es) :: SameAt(f0.live, f.live, p)
  }

  lemma WithinIsSameOutside(f0: Files, f: Files, es: seq<Entry>, forward: bool)
    requires Within(Code(f0), Code(f), es, forward)
    ensures SameOutside(f0, f, es)
    ensures DistinctPaths(es) && Mixed(f0, es) ==> Mixed(f, es)
  {
    var k: nat :| Settled(Code(f0), Code(f), es, forward, k) || Writing(Code(f0), Code(f), es, forward, k);
    forall p | p !in LOGS && p !in Targets(es) ensures SameAt(f0.live, f.live, p) {
      assert SameAt(Code(f0).live, Code(f).live, p);
    }
    if DistinctPaths(es) && Mixed(f0, es) {
      assert Mixed(Code(f0), es);
      WithinStaysMixed(Code(f0), Code(f), es, forward);
    }
  }

  lemma RestoreStateStaysMixed(f0: Files, f: Files, es: seq<Entry>)
    requires DistinctPaths(es) && RestoreState(f0, f, es)
    ensures Mixed(f0, es) ==> Mixed(f, es)
    ensures SameOutside(f0, f, es)
  {
    var f1 :| Preserved(Code(f0), Code(f1)) && Within(Code(f1), Code(f), es, false);
    WithinIsSameOutside(f1, f, es, false);
    SameLiveSameOutside(f0, f1, f, es);
  }

  lemma SameLiveSameOutside(f0: Files, f1: Files, f: Files, es: seq<Entry>)
    requires Code(f0).live == Code(f1).live && SameOutside(f1, f, es)
    ensures SameOutside(f0, f, es)
    ensures DistinctPaths(es) && Mixed(f0, es) ==> Mixed(f1, es)
  {
    forall p | p !in LOGS ensures SameAt(f0.live, f1.live, p) {
      assert SameAt(Code(f0).live, f0.live, p) && SameAt(Code(f1).live, f1.live, p);
    }
    forall p | p !in LOGS && p !in Targets(es) ensures SameAt(f0.live, f.live, p) {
      assert SameAt(f1.live, f.live, p);
    }
    if DistinctPaths(es) && Mixed(f0, es) {
      forall i | 0 <= i < |es| ensures SameAt(f0.live, f1.live, es[i].path) {
        assert es[i].path !in LOGS;
      }
    }
  }

  /** What a first run finds: all files old, nothing private yet, and no
      temporary of a recovery beside a file of the set or the result. */
  predicate Fresh(f: Files, es: seq<Entry>) {
    AllOld(f, es) && Unattempted(f) && Untorn(f, es)
  }

  /** Every state a first run can be stopped in: inside the copies, or after them
      inside the publication or the restore the run makes itself. Its logs may
      have temporaries of the first kind. */
  ghost predicate RepairState(f0: Files, f: Files, inputs: seq<Bytes>, es: seq<Entry>) {
    || Collecting(f0, f, Copies(inputs, es))
    || exists f1 :: Collected(f0, f1, Copies(inputs, es), |inputs| + |es|) && Resumed(f1, f, es)
  }

  /** After a publication and then a restore, both stopped anywhere. */
  ghost predicate Resumed(f0: Files, f: Files, es: seq<Entry>) {
    Quiet(f0, f, false) && exists f1 :: Within(Code(f0), Code(f1), es, true) && Within(Code(f1), Code(f), es, false)
  }

  lemma CollectedIsIntended(f0: Files, f: Files, inputs: seq<Bytes>, es: seq<Entry>)
    requires Collected(f0, f, Copies(inputs, es), |inputs| + |es|)
    ensures Intended(f, inputs, es)
  {
    forall i | 0 <= i < |es| ensures Holds(f, Copy(|inputs| + i), es[i].before) {
      assert Holds(f, Copy(|inputs| + i), Copies(inputs, es)[|inputs| + i]);
    }
  }

  lemma IntendedStays(f0: Files, f: Files, inputs: seq<Bytes>, es: seq<Entry>)
    requires DistinctPaths(es) && SameOutside(f0, f, es)
    ensures Intended(f0, inputs, es) <==> Intended(f, inputs, es)
  {
    forall n: nat ensures SameAt(f0.live, f.live, Copy(n)) {
      assert Copy(n) !in LOGS && Copy(n) !in Targets(es);
    }
  }

  /** From wherever a publication over complete copies was stopped, the recovery gets through. */
  lemma ForwardCrashIsRecoverable(f0: Files, f1: Files, f: Files, inputs: seq<Bytes>, es: seq<Entry>, sources: nat)
    requires DistinctPaths(es) && sources <= |es| && Fresh(f0, es)
    requires Collected(f0, f1, Copies(inputs, es), |inputs| + |es|) && Running(f1, f, es, true, false)
    ensures Recoverable(f, inputs, es, sources)
  {
    CollectedIsIntended(f0, f1, inputs, es);
    WithinIsSameOutside(f1, f, es, true);
    IntendedStays(f1, f, inputs, es);
    ForwardStaysUntorn(f1, f, es);
  }

  lemma ForwardStaysUntorn(f0: Files, f: Files, es: seq<Entry>)
    requires DistinctPaths(es) && Running(f0, f, es, true, false)
    ensures Untorn(f0, es) ==> Untorn(f, es)
    ensures f.evidence == f0.evidence
  {
    assert Code(f).recovery == Code(f0).recovery;
    if Untorn(f0, es) {
      forall i | 0 <= i < |es| ensures es[i].path !in f.recovery {
        assert es[i].path !in Code(f).recovery;
      }
      forall p | p in LOGS ensures p !in f.recovery {
        assert SameAt(Temporaries(f0, false), Temporaries(f, false), p);
      }
    }
  }

  lemma WithinKeepsEvidence(f0: Files, f: Files, es: seq<Entry>, forward: bool)
    requires Within(f0, f, es, forward)
    ensures f.evidence == f0.evidence
  {
  }

  lemma RepairStaysMixed(f0: Files, f: Files, inputs: seq<Bytes>, es: seq<Entry>)
    requires DistinctPaths(es) && Fresh(f0, es) && RepairState(f0, f, inputs, es)
    ensures Mixed(f, es) && SameInstalled(f0, f, es) && f.evidence == f0.evidence
    ensures Intended(f, inputs, es) || Installed(f) == Installed(f0)
  {
    if Collecting(f0, f, Copies(inputs, es)) {
      CollectingKeepsInstalled(f0, f, Copies(inputs, es), es);
    } else {
      var f1 :| Collected(f0, f1, Copies(inputs, es), |inputs| + |es|) && Resumed(f1, f, es);
      CollectedIsIntended(f0, f1, inputs, es);
      CollectingKeepsInstalled(f0, f1, Copies(inputs, es), es);
      ResumedStaysMixed(f1, f, es);
      IntendedStays(f1, f, inputs, es);
      SameInstalledTwice(f0, f1, f, es);
    }
  }

  lemma CollectingKeepsInstalled(f0: Files, f: Files, copies: seq<Bytes>, es: seq<Entry>)
    requires Collecting(f0, f, copies)
    ensures Installed(f) == Installed(f0) && f.evidence == f0.evidence && SameInstalled(f0, f, es)
    ensures DistinctPaths(es) && AllOld(f0, es) ==> Mixed(f, es)
  {
    forall p: Path | p.Target? ensures SameAt(f0.live, f.live, p) {
      assert !p.Copy?;
    }
  }

  lemma SameInstalledTwice(f0: Files, f1: Files, f: Files, es: seq<Entry>)
    requires SameInstalled(f0, f1, es) && SameOutside(f1, f, es)
    ensures SameInstalled(f0, f, es)
  {
    forall p: Path | p.Target? && p !in Targets(es) ensures SameAt(f0.live, f.live, p) {
      assert SameAt(f0.live, f1.live, p) && SameAt(f1.live, f.live, p);
    }
  }

  /** A publication and the restore after it, both stopped anywhere. */
  lemma ResumedStaysMixed(f0: Files, f: Files, es: seq<Entry>)
    requires DistinctPaths(es) && Resumed(f0, f, es)
    ensures Mixed(f0, es) ==> Mixed(f, es)
    ensures SameOutside(f0, f, es) && f.evidence == f0.evidence
  {
    var f1 :| Within(Code(f0), Code(f1), es, true) && Within(Code(f1), Code(f), es, false);
    WithinIsSameOutside(f0, f1, es, true);
    WithinIsSameOutside(f1, f, es, false);
    WithinKeepsEvidence(Code(f0), Code(f1), es, true);
    WithinKeepsEvidence(Code(f1), Code(f), es, false);
  }

  /** From wherever a first run was stopped, the recovery gets through if and only if
      the copies were complete and no restore of that run was stopped inside a file.
      Before the copies are complete no installed file has changed. */
  lemma RepairCrashIsRecoverableIff(f0: Files, f: Files, inputs: seq<Bytes>, es: seq<Entry>, sources: nat)
    requires DistinctPaths(es) && sources <= |es| && Fresh(f0, es) && RepairState(f0, f, inputs, es)
    ensures Recoverable(f, inputs, es, sources) <==> Intended(f, inputs, es) && Untorn(f, es)
    ensures !Intended(f, inputs, es) ==> Installed(f) == Installed(f0)
  {
    RepairStaysMixed(f0, f, inputs, es);
    MixedIsQualified(f, es);
    assert f.evidence == map[];
  }

  lemma MixedIsQualified(f: Files, es: seq<Entry>)
    ensures Mixed(f, es) <==> Qualified(f, es, false)
  {
  }

  /** From wherever a recovery was stopped, the next one gets through if and only
      if that was not inside a file, a journal or the result. */
  lemma RestoreCrashIsRecoverableIffUntorn(f0: Files, f: Files, inputs: seq<Bytes>, es: seq<Entry>, sources: nat)
    requires DistinctPaths(es) && sources <= |es| && Recoverable(f0, inputs, es, sources) && RestoreState(f0, f, es)
    ensures Recoverable(f, inputs, es, sources) <==> Untorn(f, es)
    ensures Intended(f, inputs, es)
  {
    RestoreStateStaysMixed(f0, f, es);
    IntendedStays(f0, f, inputs, es);
    EvidenceStaysFree(f0, f, es, sources);
  }

  lemma EvidenceStaysFree(f0: Files, f: Files, es: seq<Entry>, sources: nat)
    requires DistinctPaths(es) && sources <= |es| && EvidenceFree(f0, es, sources) && RestoreState(f0, f, es)
    ensures EvidenceFree(f, es, sources)
  {
    var f1 :| Preserved(Code(f0), Code(f1)) && Within(Code(f1), Code(f), es, false);
    forall i | 0 <= i < sources ensures es[i].path in f.next ==> es[i].path !in f.evidence {
      EvidenceOfOne(f0, f1, f, es, es[i].path);
    }
  }

  lemma EvidenceOfOne(f0: Files, f1: Files, f: Files, es: seq<Entry>, p: Path)
    requires p.Target? && Preserved(Code(f0), Code(f1)) && Within(Code(f1), Code(f), es, false)
    requires p in f0.next ==> p !in f0.evidence
    ensures p in f.next ==> p !in f.evidence
  {
    assert Kept(Code(f0), Code(f1), p);
    assert SameAt(Code(f0).next, f0.next, p) && SameAt(Code(f).next, f.next, p);
  }

  /** The files at the start, after a first run that stopped anywhere, and after
      each of any number of recoveries that stopped anywhere or were refused. */
  ghost predicate CrashChain(fs: seq<Files>, inputs: seq<Bytes>, es: seq<Entry>, sources: nat)
    requires sources <= |es|
  {
    && fs != [] && Fresh(fs[0], es) && DistinctPaths(es)
    && forall i | 0 < i < |fs| :: Link(fs, inputs, es, sources, i)
  }

  ghost predicate Link(fs: seq<Files>, inputs: seq<Bytes>, es: seq<Entry>, sources: nat, i: nat)
    requires 0 < i < |fs| && sources <= |es|
  {
    if i == 1 then RepairState(fs[0], fs[1], inputs, es)
    else if Recoverable(fs[i - 1], inputs, es, sources) then RestoreState(fs[i - 1], fs[i], es)
    else fs[i] == fs[i - 1]
  }

  lemma {:induction false} ChainStaysMixed(fs: seq<Files>, inputs: seq<Bytes>, es: seq<Entry>, sources: nat, i: nat)
    requires sources <= |es| && CrashChain(fs, inputs, es, sources) && i < |fs|
    ensures Mixed(fs[i], es) && SameInstalled(fs[0], fs[i], es)
  {
    if i > 0 {
      ChainStaysMixed(fs, inputs, es, sources, i - 1);
      assert Link(fs, inputs, es, sources, i);
      if i == 1 {
        RepairStaysMixed(fs[0], fs[1], inputs, es);
      } else if Recoverable(fs[i - 1], inputs, es, sources) {
        RestoreStateStaysMixed(fs[i - 1], fs[i], es);
      }
    }
  }

  /** However often the recovery was stopped, the next one gets through exactly when
      the copies were complete and nothing was stopped inside a file of a restore, or
      inside a journal or result of a recovery. */
  lemma {:induction false} ChainIsRecoverableIffUntorn(fs: seq<Files>, inputs: seq<Bytes>, es: seq<Entry>, sources: nat, i: nat)
    requires sources <= |es| && CrashChain(fs, inputs, es, sources) && 0 < i < |fs|
    ensures Recoverable(fs[i], inputs, es, sources) <==> Intended(fs[i], inputs, es) && Untorn(fs[i], es)
  {
    assert Link(fs, inputs, es, sources, i);
    if i == 1 {
      RepairCrashIsRecoverableIff(fs[0], fs[1], inputs, es, sources);
    } else {
      ChainIsRecoverableIffUntorn(fs, inputs, es, sources, i - 1);
      if Recoverable(fs[i - 1], inputs, es, sources) {
        RestoreCrashIsRecoverableIffUntorn(fs[i - 1], fs[i], inputs, es, sources);
      }
    }
  }

  /** After such a stop nothing is ever changed again. */
  lemma {:induction false} TornIsFinal(fs: seq<Files>, inputs: seq<Bytes>, es: seq<Entry>, sources: nat, i: nat, j: nat)
    requires sources <= |es| && CrashChain(fs, inputs, es, sources) && 0 < i <= j < |fs|
    requires !(Intended(fs[i], inputs, es) && Untorn(fs[i], es))
    ensures fs[j] == fs[i]
  {
    if i < j {
      TornIsFinal(fs, inputs, es, sources, i, j - 1);
      assert Link(fs, inputs, es, sources, j);
    }
  }

  /** However often the first run and its recoveries were stopped, one restore
      that completes brings back exactly the installed files of the start. */
  lemma RecoveredExactly(fs: seq<Files>, inputs: seq<Bytes>, es: seq<Entry>, sources: nat, f: Files)
    requires sources <= |es| && CrashChain(fs, inputs, es, sources)
    requires Prefix(Code(fs[|fs| - 1]), Code(f), es, false, |es|)
    ensures Installed(f) == Installed(fs[0])
  {
    ChainStaysMixed(fs, inputs, es, sources, |fs| - 1);
    RestoredIsOld(fs[0], fs[|fs| - 1], f, es);
  }

  lemma RestoredIsOld(f0: Files, f1: Files, f: Files, es: seq<Entry>)
    requires DistinctPaths(es) && AllOld(f0, es) && SameInstalled(f0, f1, es) && Prefix(Code(f1), Code(f), es, false, |es|)
    ensures Installed(f) == Installed(f0)
  {
    forall p: Path | p.Target? ensures SameAt(f0.live, f.live, p) {
      assert SameAt(f.live, Code(f).live, p) && SameAt(f1.live, Code(f1).live, p);
      if p in Targets(es) {
        var i :| 0 <= i < |es| && es[i].path == p;
        assert Holds(Code(f), es[i].path, es[i].before) && Holds(f0, es[i].path, es[i].before);
      } else {
        assert SameAt(f0.live, f1.live, p);
      }
    }
  }

  /** Restoring what is already restored changes no installed file. */
  lemma RestoreIsIdempotent(f0: Files, f: Files, es: seq<Entry>, k: nat)
    requires DistinctPaths(es) && AllOld(f0, es) && Prefix(Code(f0), Code(f), es, false, k)
    ensures Installed(f) == Installed(f0)
  {
    forall p: Path | p.Target? ensures SameAt(f0.live, f.live, p) {
      assert SameAt(f.live, Code(f).live, p) && SameAt(f0.live, Code(f0).live, p);
      if p in Targets(es) {
        var i :| 0 <= i < |es| && es[i].path == p;
        assert Holds(Code(f), es[i].path, es[i].before);
      }
    }
  }
}
