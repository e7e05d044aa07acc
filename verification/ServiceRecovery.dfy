/** The service control and the resume transaction with its recovery
    (`AnalyticsServiceControl` and `resume_analytics` in
    `deployment/analytics_service_recovery.py`), over the published files of
    `Publication`. Times are in milliseconds. */
module ServiceRecovery {
  import opened Wrappers
  import opened Publication
  import opened ServiceUnits

  type Properties = map<string, string>
  type Authority = map<Unit, Properties>

  const STABLE_FOR: nat := 1000
  const PAUSE: nat := 100

  /** What the transaction commands and passes, in order. */
  datatype Event = StopIssued(u: Unit) | NoApplication | PrepareEntered | Verified | CountersCleared
                 | StartIssued(u: Unit) | ProbePassed | StableObserved | RecoveryBegun | RestoreEntered

  const STOPS: seq<Event> := [StopIssued(Broker), StopIssued(Listener), StopIssued(Executor)]

  /** Everything a resume does when nothing goes wrong. */
  const FORWARD: seq<Event> := [StopIssued(Broker), StopIssued(Listener), StopIssued(Executor), NoApplication, PrepareEntered,
                                Verified, CountersCleared, StartIssued(Listener), ProbePassed, NoApplication,
                                StartIssued(Broker), StableObserved]

  /** Everything a recovery does when nothing goes wrong. */
  const RECOVERY: seq<Event> := [RecoveryBegun, StopIssued(Broker), StopIssued(Listener), StopIssued(Executor),
                                 NoApplication, RestoreEntered, Verified]

  /** One look at the broker: read at `clock`, its runtime compared by `until`. */
  datatype Look = Look(clock: nat, until: nat, broker: UnitState)

  /** Looks from `from` on, a pause between them; all but the last over before the second was. */
  predicate Watched(from: nat, looks: seq<Look>, pid: nat) {
    && (forall i | 0 <= i < |looks| :: LookAt(from, looks, pid, i))
    && (forall i | 0 <= i < |looks| - 1 :: looks[i].until < from + STABLE_FOR)
  }

  /** The same process, running without a job. */
  predicate LookAt(from: nat, looks: seq<Look>, pid: nat, i: nat)
    requires i < |looks|
  {
    && looks[i].broker == UnitState(Active, pid, false) && pid > 0
    && (if i == 0 then from else looks[i - 1].until + PAUSE) <= looks[i].clock <= looks[i].until
  }

  /** The broker as `require_stable_broker` wants to see it. */
  predicate Stable(from: nat, looks: seq<Look>) {
    && |looks| > 0
    && Watched(from, looks, looks[0].broker.pid)
    && looks[|looks| - 1].until >= from + STABLE_FOR
  }

  /** The looks are bounded: each takes a pause off the second. */
  lemma {:induction false} LooksAreBounded(from: nat, looks: seq<Look>, pid: nat)
    requires Watched(from, looks, pid) && |looks| > 0
    ensures looks[|looks| - 1].clock >= from + PAUSE * (|looks| - 1)
    ensures |looks| <= 11
  {
    if |looks| > 1 {
      var shorter := looks[..|looks| - 1];
      forall i | 0 <= i < |shorter| ensures LookAt(from, shorter, pid, i) {
        assert LookAt(from, looks, pid, i);
      }
      LooksAreBounded(from, shorter, pid);
      assert LookAt(from, looks, pid, |looks| - 1) && LookAt(from, looks, pid, |looks| - 2);
    } else {
      assert LookAt(from, looks, pid, 0);
    }
  }

  /** One process is seen twice exactly if the first look did not use up the second:
      a look slow enough makes a single observation pass. */
  lemma StableSeesTwiceUnlessSlow(from: nat, looks: seq<Look>)
    requires Stable(from, looks)
    ensures |looks| >= 2 <==> looks[0].until < from + 1000
  {
  }

  /** A stop, or a look at a unit, and how it ended. */
  datatype Call = StopCall(u: Unit, o: Outcome) | ShowCall(u: Unit, o: Outcome, stopped: bool)

  /** The looks of one `require_stopped` that all found their unit stopped. */
  predicate Confirmed(looks: seq<Call>) {
    && |looks| == 3
    && looks[0] == ShowCall(Broker, Returned, true)
    && looks[1] == ShowCall(Listener, Returned, true)
    && looks[2] == ShowCall(Executor, Returned, true)
  }

  predicate AnyInterrupt(calls: seq<Call>) {
    exists i | 0 <= i < |calls| :: calls[i].o == Control
  }

  /** What the unit files in `files` make of a unit. */
  type Manager = (Unit, map<Path, Bytes>) -> Properties

  /** The loaded configuration is what the files on disk say and what is expected. */
  predicate InEffect(m: Manager, loaded: map<Path, Bytes>, live: map<Path, Bytes>, expected: Authority) {
    && expected.Keys == {Broker, Listener, Executor}
    && forall u <- expected :: m(u, loaded) == m(u, live) == expected[u]
  }

  /** What the unit files would make of the units is what is expected. */
  predicate Configures(m: Manager, live: map<Path, Bytes>, expected: Authority) {
    expected.Keys == {Broker, Listener, Executor} && forall u <- expected :: m(u, live) == expected[u]
  }

  function With(s: Units, u: Unit, x: UnitState): Units {
    match u
    case Broker => s.(broker := x)
    case Listener => s.(listener := x)
    case Executor => s.(executor := x)
  }

  predicate Up(x: UnitState) {
    x.activity == Active && x.pid != 0 && !x.job
  }

  class AnalyticsServiceControl {
    const manager: Manager
    const disk: Disk
    const calm: bool // systemd answers and does as it is told, and no callback fails
    var units: Units
    var loaded: map<Path, Bytes>
    var clock: nat
    ghost var trace: seq<Event>
    ghost var calls: seq<Call> // how each stop and each look ended

    constructor (manager: Manager, disk: Disk, calm: bool, units: Units, loaded: map<Path, Bytes>, clock: nat)
      ensures this.manager == manager && this.disk == disk && this.calm == calm && trace == [] && calls == []
      ensures this.units == units && this.loaded == loaded && this.clock == clock
    {
      this.manager, this.disk, this.calm := manager, disk, calm;
      this.units, this.loaded, this.clock := units, loaded, clock;
      trace, calls := [], [];
    }

    /** Nothing goes wrong, and the journal can be written. */
    predicate Calm()
      reads disk
    {
      calm && disk.faultless && Audit !in disk.files.next
    }

    ghost method Note(e: Event)
      modifies this`trace
      ensures trace == old(trace) + [e]
    {
      trace := trace + [e];
    }

    /** Time passes, and units do what they may do unasked. */
    method Advance()
      modifies this`units, this`clock
      ensures Passes(old(units), units) && clock >= old(clock) && (calm ==> units == old(units))
    {
      var next: Units, d: nat := *, *;
      if Passes(units, next) && !calm {
        units := next;
      }
      clock := clock + d;
    }

    method Ends() returns (o: Outcome)
      ensures calm ==> o == Returned
    {
      o := *;
      o := if calm then Returned else o;
    }

    /** The audit of a command, or a checkpoint: a write of the journal. */
    method Record(o: Outcome) returns (after: Outcome)
      modifies disk
      ensures LogsOnly(old(disk.files), disk.files, false)
      ensures after == o || after != Returned
      ensures old(Calm()) ==> Calm() && after == o
    {
      var ok := disk.Persist(Audit, false);
      var interrupted: bool := *;
      after := if ok then o else if interrupted then Control else Failed;
    }

    /** A callback of the owner, or a command whose effect is only that time
        passes, and its record. */
    method Callback() returns (o: Outcome)
      modifies this`units, this`clock, disk
      ensures Passes(old(units), units) && clock >= old(clock)
      ensures LogsOnly(old(disk.files), disk.files, false)
      ensures old(Calm()) ==> Calm() && o == Returned && units == old(units)
    {
      Advance();
      o := Ends();
      if o != Control {
        o := Record(o);
      }
    }

    /** `systemctl show` on one unit: what it is at the time of the answer. */
    method Show(u: Unit) returns (o: Outcome, state: UnitState)
      modifies this`units, this`clock, this`calls, disk
      ensures Passes(old(units), units) && clock >= old(clock)
      ensures LogsOnly(old(disk.files), disk.files, false)
      ensures state == At(units, u)
      ensures calls == old(calls) + [ShowCall(u, o, Stopped(units, u))]
      ensures old(Calm()) ==> Calm() && o == Returned && units == old(units)
    {
      o := Callback();
      state := At(units, u);
      calls := calls + [ShowCall(u, o, Stopped(units, u))];
    }

    /** `require_stopped`: an unreadable unit counts as not stopped; only an interrupt ends it early. */
    method RequireStopped() returns (o: Outcome, ghost looks: seq<Call>)
      modifies this`units, this`clock, this`calls, disk
      ensures LogsOnly(old(disk.files), disk.files, false)
      ensures Passes(old(units), units) && clock >= old(clock)
      ensures calls == old(calls) + looks
      ensures o == Returned <==> Confirmed(looks)
      ensures o == Control <==> AnyInterrupt(looks)
      ensures o == Returned ==> AllStopped(units)
      ensures o == Returned ==> AtRest(units.broker, false) && AtRest(units.listener, true) && AtRest(units.executor, false)
      ensures old(Calm()) ==> Calm() && units == old(units) && (o == Returned <==> AllStopped(units))
      ensures old(Calm()) ==>
        (o == Returned <==> AtRest(units.broker, false) && AtRest(units.listener, true) && AtRest(units.executor, false))
    {
      var failures := 0;
      var broker; o, broker := Show(Broker);
      looks := [ShowCall(Broker, o, Stopped(units, Broker))];
      if o == Control {
        assert looks[0].o == Control;
        return;
      }
      if o == Failed || !Stopped(units, Broker) { failures := failures + 1; }
      var listener; o, listener := Show(Listener);
      looks := looks + [ShowCall(Listener, o, Stopped(units, Listener))];
      if o == Control {
        assert looks[1].o == Control;
        return;
      }
      if o == Failed || !Stopped(units, Listener) { failures := failures + 1; }
      var executor; o, executor := Show(Executor);
      looks := looks + [ShowCall(Executor, o, Stopped(units, Executor))];
      if o == Control {
        assert looks[2].o == Control;
        return;
      }
      if o == Failed || !Stopped(units, Executor) { failures := failures + 1; }
      o := if failures == 0 then Returned else Failed;
      AllStoppedIff(units);
    }

    /** `stop` on one unit: whether it reports success is not believed. */
    method Stop(u: Unit) returns (o: Outcome)
      modifies this`units, this`clock, this`calls, this`trace, disk
      ensures LogsOnly(old(disk.files), disk.files, false)
      ensures Passes(old(units), units) && clock >= old(clock)
      ensures trace == old(trace) + [StopIssued(u)]
      ensures calls == old(calls) + [StopCall(u, o)]
      ensures old(Calm()) ==> Calm() && o == Returned && Stopped(units, u)
    {
      Note(StopIssued(u));
      var took: bool := *;
      if took || calm {
        units := With(units, u, UnitState(Inactive, 0, false));
      }
      o := Callback();
      calls := calls + [StopCall(u, o)];
    }

    /** `stop_and_confirm`: every stop is attempted, whatever the others did. An
        interrupt of a stop is passed on exactly when the looks after it confirm the
        stop; when they do not, it is lost in the failure, unless a look is interrupted too. */
    method StopAndConfirm() returns (o: Outcome, ghost stops: seq<Call>, ghost looks: seq<Call>)
      modifies this`units, this`clock, this`calls, this`trace, disk
      ensures LogsOnly(old(disk.files), disk.files, false)
      ensures Passes(old(units), units) && clock >= old(clock)
      ensures trace == old(trace) + STOPS
      ensures calls == old(calls) + stops + looks
      ensures |stops| == 3 && forall i | 0 <= i < 3 :: stops[i].StopCall? && StopIssued(stops[i].u) == STOPS[i]
      ensures o == Returned <==> Confirmed(looks) && !AnyInterrupt(stops)
      ensures o == Control <==> AnyInterrupt(looks) || (AnyInterrupt(stops) && Confirmed(looks))
      ensures o == Returned ==> AllStopped(units)
      ensures old(Calm()) ==> Calm() && o == Returned
    {
      var broker := Stop(Broker);
      var listener := Stop(Listener);
      var executor := Stop(Executor);
      stops := [StopCall(Broker, broker), StopCall(Listener, listener), StopCall(Executor, executor)];
      assert stops[0].o == broker && stops[1].o == listener && stops[2].o == executor;
      o, looks := RequireStopped();
      if o == Returned && Control in [broker, listener, executor] {
        o := Control;
      }
    }

    /** `clear_failed_counters`. */
    method ClearFailedCounters() returns (o: Outcome)
      modifies this`units, this`clock, this`calls, disk
      ensures LogsOnly(old(disk.files), disk.files, false)
      ensures Passes(old(units), units) && clock >= old(clock)
      ensures old(Calm()) ==> Calm() && o == Returned
    {
      o := ClearFailedCounter(Executor);
      if o == Returned {
        o := ClearFailedCounter(Listener);
      }
    }

    method ClearFailedCounter(u: Unit) returns (o: Outcome)
      modifies this`units, this`clock, this`calls, disk
      ensures LogsOnly(old(disk.files), disk.files, false)
      ensures Passes(old(units), units) && clock >= old(clock)
      ensures old(Calm()) ==> Calm() && o == Returned
    {
      o := Callback(); // reset-failed
      var nonzero: bool := *;
      if o == Returned && nonzero && !calm {
        var state;
        o, state := Show(u);
        if o == Returned && (state.activity != Inactive || state.job) {
          o := Failed;
        }
      }
    }

    /** `daemon-reload`: it may or may not have loaded the files, whatever it reports. */
    method DaemonReload() returns (o: Outcome)
      modifies this`units, this`clock, this`loaded, disk
      ensures LogsOnly(old(disk.files), disk.files, false)
      ensures Passes(old(units), units) && clock >= old(clock)
      ensures loaded == old(loaded) || loaded == Installed(disk.files)
      ensures old(Calm()) ==> Calm() && o == Returned && units == old(units) && loaded == Installed(disk.files)
    {
      var did: bool := *;
      if did || calm {
        loaded := Installed(disk.files);
      }
      o := Callback();
    }

    /** `reload_and_verify`: `NeedDaemonReload` compares what is loaded with the files. */
    method ReloadAndVerify(expected: Authority) returns (o: Outcome)
      modifies this`units, this`clock, this`calls, this`loaded, this`trace, disk
      ensures LogsOnly(old(disk.files), disk.files, false)
      ensures Passes(old(units), units) && clock >= old(clock)
      ensures o == Returned ==> AllStopped(units) && InEffect(manager, loaded, Installed(disk.files), expected)
      ensures trace == old(trace) + (if o == Returned then [Verified] else [])
      ensures old(Calm()) ==> Calm()
      ensures old(Calm()) && AllStopped(old(units)) ==>
        o == if Configures(manager, Installed(disk.files), expected) then Returned else Failed
    {
      ghost var looks;
      o, looks := RequireStopped();
      if o != Returned { return; }
      o := DaemonReload();
      if o != Returned { return; }
      o := VerifyUnits(expected);
      if o != Returned { return; }
      Note(Verified);
    }

    method VerifyUnits(expected: Authority) returns (o: Outcome)
      modifies this`units, this`clock, disk
      ensures LogsOnly(old(disk.files), disk.files, false)
      ensures Passes(old(units), units) && clock >= old(clock)
      ensures o == Returned ==> InEffect(manager, loaded, Installed(disk.files), expected)
      ensures old(Calm()) ==> Calm() && units == old(units)
      ensures old(Calm()) && loaded == Installed(old(disk.files)) ==>
        o == if Configures(manager, Installed(disk.files), expected) then Returned else Failed
    {
      if expected.Keys != {Broker, Listener, Executor} {
        return Failed;
      }
      o := VerifyUnit(Broker, expected);
      if o != Returned { return; }
      o := VerifyUnit(Listener, expected);
      if o != Returned { return; }
      o := VerifyUnit(Executor, expected);
    }

    method VerifyUnit(u: Unit, expected: Authority) returns (o: Outcome)
      requires u in expected
      modifies this`units, this`clock, disk
      ensures LogsOnly(old(disk.files), disk.files, false)
      ensures Passes(old(units), units) && clock >= old(clock)
      ensures o == Returned ==> manager(u, loaded) == manager(u, Installed(disk.files)) == expected[u]
      ensures old(Calm()) ==> Calm() && units == old(units)
      ensures old(Calm()) ==> o == if manager(u, loaded) == manager(u, Installed(disk.files)) == expected[u] then Returned else Failed
    {
      o := Callback();
      var needsReload := manager(u, loaded) != manager(u, Installed(disk.files));
      if o == Returned && (needsReload || manager(u, loaded) != expected[u]) {
        o := Failed;
      }
    }

    /** `start`: a returned one was seen active. */
    method Start(u: Unit) returns (o: Outcome)
      modifies this`units, this`clock, this`calls, this`trace, disk
      ensures LogsOnly(old(disk.files), disk.files, false)
      ensures Starts(old(units), units, u) && clock >= old(clock)
      ensures o == Returned ==> At(units, u).activity == Active
      ensures trace == old(trace) + [StartIssued(u)]
      ensures old(Calm()) ==> Calm() && o == Returned && At(units, u).pid != 0 && !At(units, u).job
    {
      Note(StartIssued(u));
      var next: Units := *;
      if calm {
        units := With(units, u, UnitState(Active, 1, false));
      } else if Starts(units, next, u) {
        units := next;
      }
      o := Callback();
      if o != Returned { return; }
      var state;
      o, state := Show(u);
      if o == Returned && state.activity != Active {
        o := Failed;
      }
    }

    /** `require_stable_broker`. */
    method RequireStableBroker(expected: Properties) returns (o: Outcome, ghost looks: seq<Look>)
      modifies this`units, this`clock, this`calls, disk
      ensures LogsOnly(old(disk.files), disk.files, false)
      ensures Passes(old(units), units) && clock >= old(clock)
      ensures o == Returned ==> Stable(old(clock), looks) && manager(Broker, loaded) == expected
      ensures old(Calm()) && Up(old(units).broker) && manager(Broker, loaded) == expected ==> Calm() && o == Returned
    {
      looks := [];
      var deadline := clock + STABLE_FOR;
      var pid: Option<nat> := None;
      while true
        invariant Passes(old(units), units) && clock >= old(clock) == deadline - STABLE_FOR
        invariant LogsOnly(old(disk.files), disk.files, false)
        invariant old(Calm()) ==> Calm() && units == old(units) && (pid.Some? ==> pid.value == units.broker.pid)
        invariant (looks == [] <==> pid == None) && (pid.Some? ==> Watched(old(clock), looks, pid.value))
        invariant looks != [] ==> looks[|looks| - 1].until < deadline && looks[|looks| - 1].until + PAUSE <= clock
        decreases deadline + PAUSE - clock
      {
        var state;
        o, state := Show(Broker);
        if o != Returned { return; }
        if state.activity != Active || state.pid == 0 || state.job || (pid.Some? && pid.value != state.pid) {
          return Failed, looks;
        }
        pid := Some(state.pid);
        ghost var seen := clock;
        o := Callback();
        if o != Returned { return; }
        if manager(Broker, loaded) != expected {
          return Failed, looks;
        }
        var look := Look(seen, clock, state);
        WatchedGrows(old(clock), looks, look, state.pid);
        looks := looks + [look];
        assert LookAt(old(clock), looks, state.pid, 0);
        if clock >= deadline { return; }
        var wake := clock + PAUSE;
        Advance();
        clock := if clock < wake then wake else clock;
      }
    }

    /** Everything stopped, and no application found after that. */
    method Quiesce() returns (o: Outcome, ghost k: nat)
      modifies this`units, this`clock, this`calls, this`trace, disk
      ensures LogsOnly(old(disk.files), disk.files, false)
      ensures clock >= old(clock)
      ensures 3 <= k <= 4 && trace == old(trace) + FORWARD[..k]
      ensures o == Returned ==> k == 4 && AllStopped(units)
      ensures old(Calm()) ==> Calm() && o == Returned
    {
      QuiesceScript();
      k := 3;
      ghost var stops, looks;
      o, stops, looks := StopAndConfirm();
      if o != Returned { return; }
      o := Callback(); // the checkpoint
      if o != Returned { return; }
      o := Callback(); // no application
      if o != Returned { return; }
      k := 4;
      Note(NoApplication);
    }

    /** The new files, and their configuration loaded and verified. */
    method PublishAndVerify(es: seq<Entry>, expected: Authority) returns (o: Outcome, ghost k: nat)
      requires DistinctPaths(es)
      modifies this, disk
      ensures clock >= old(clock)
      ensures PREPARED <= k <= VERIFIED && trace == old(trace) + FORWARD[4..k]
      ensures Running(old(disk.files), disk.files, es, true, false)
      ensures o == Returned ==>
        && k == VERIFIED && AllStopped(units) && InEffect(manager, loaded, Installed(disk.files), expected)
        && Settled(Code(old(disk.files)), Code(disk.files), es, true, |es|)
      ensures old(Calm()) && AllStopped(old(units)) ==> Calm() && Settles(old(disk.files), disk.files, es, o, expected)
    {
      PublishScript();
      k := PREPARED;
      Note(PrepareEntered);
      o := Place(es, true);
      if o != Returned { return; }
      o := Callback(); // the checkpoint
      if o != Returned { return; }
      o := ReloadAndVerify(expected);
      if o == Returned {
        k := VERIFIED;
        o := Callback(); // the checkpoint
      }
    }

    /** How a forward run ends when nothing goes wrong: complete if the files can
        be published and configure the units as expected. */
    predicate Settles(f0: Files, f: Files, es: seq<Entry>, o: Outcome, expected: Authority) {
      && o != Control
      && (o == Returned <==> Publishable(f0, es, true, false) && Configures(manager, Installed(f), expected))
      && (Publishable(f0, es, true, false) ==> Settled(Code(f0), Code(f), es, true, |es|))
    }

    /** Where a forward run gets through when nothing goes wrong. */
    ghost predicate Succeeds(f0: Files, es: seq<Entry>, expected: Authority) {
      Publishable(f0, es, true, false) && NewConfigures(manager, f0, es, expected)
    }

    lemma SettledSucceeds(f0: Files, f: Files, es: seq<Entry>, o: Outcome, expected: Authority)
      requires Settles(f0, f, es, o, expected)
      ensures o == if Succeeds(f0, es, expected) then Returned else Failed
    {
      if Publishable(f0, es, true, false) {
        NewConfiguresIff(manager, f0, f, es, expected);
      }
    }

    /** The happy path up to the verified new configuration. `k` events were passed. */
    method Publish(es: seq<Entry>, expected: Authority) returns (o: Outcome, changed: bool, ghost k: nat)
      requires DistinctPaths(es)
      modifies this, disk
      ensures clock >= old(clock)
      ensures 3 <= k <= VERIFIED && trace == old(trace) + FORWARD[..k]
      ensures changed <==> k >= PREPARED
      ensures !changed ==> LogsOnly(old(disk.files), disk.files, false) && loaded == old(loaded)
      ensures Running(old(disk.files), disk.files, es, true, false)
      ensures o == Returned ==>
        && k == VERIFIED && AllStopped(units) && InEffect(manager, loaded, Installed(disk.files), expected)
        && Settled(Code(old(disk.files)), Code(disk.files), es, true, |es|)
      ensures old(Calm()) ==> Calm() && changed && Settles(old(disk.files), disk.files, es, o, expected)
    {
      changed := false;
      o, k := Quiesce();
      ghost var f1 := disk.files;
      RunningStarts(old(disk.files), f1, es, true);
      if o != Returned { return; }
      if old(Calm()) {
        LogsDoNotMatter(old(disk.files), f1, es, true);
      }
      changed := true;
      o, k := PublishAndVerify(es, expected);
      RunningAfterLogs(old(disk.files), f1, disk.files, es, true);
      assert FORWARD[..4] + FORWARD[4..k] == FORWARD[..k];
    }

    /** `prepare` and `restore`: one publication and a readback. */
    method Place(es: seq<Entry>, forward: bool) returns (o: Outcome)
      requires DistinctPaths(es)
      modifies disk, this`units, this`clock
      ensures Passes(old(units), units) && clock >= old(clock)
      ensures Running(old(disk.files), disk.files, es, forward, false)
      ensures o == Returned ==> Settled(Code(old(disk.files)), Code(disk.files), es, forward, |es|)
      ensures o == Returned ==> Qualified(old(disk.files), es, forward)
      ensures old(Calm()) ==> Calm() && o != Control && units == old(units)
      ensures old(Calm()) ==> (o == Returned <==> Publishable(old(disk.files), es, forward, false))
    {
      var ok := disk.PublishIdentityFiles(es, forward, false);
      o := Callback();
      if !ok && o == Returned {
        o := Failed;
      }
    }

    /** From the verified configuration to the passed probe. */
    method OpenListener() returns (o: Outcome, ghost k: nat)
      modifies this`units, this`clock, this`calls, this`trace, disk
      ensures LogsOnly(old(disk.files), disk.files, false)
      ensures clock >= old(clock)
      ensures VERIFIED <= k <= PROBED && trace == old(trace) + FORWARD[VERIFIED..k]
      ensures o == Returned ==> k == PROBED
      ensures old(Calm()) ==> Calm() && o == Returned
    {
      ListenerScript();
      k := VERIFIED;
      o := ClearFailedCounters();
      if o != Returned { return; }
      k := 7;
      Note(CountersCleared);
      o := Start(Listener);
      k := 8;
      if o != Returned { return; }
      o := Callback(); // the probe
      if o != Returned { return; }
      k := PROBED;
      Note(ProbePassed);
      o := Callback(); // the checkpoint
    }

    /** From the passed probe to the result. */
    method OpenBroker(expected: Authority) returns (o: Outcome, ghost k: nat, ghost from: nat, ghost looks: seq<Look>)
      requires Broker in expected
      modifies this`units, this`clock, this`calls, this`trace, disk
      ensures LogsOnly(old(disk.files), disk.files, false)
      ensures clock >= old(clock)
      ensures PROBED <= k <= |FORWARD| && trace == old(trace) + FORWARD[PROBED..k]
      ensures o == Returned ==> k == |FORWARD| && Stable(from, looks) && old(clock) <= from
      ensures old(Calm()) && manager(Broker, loaded) == expected[Broker] ==> Calm() && o == Returned
    {
      BrokerScript();
      k, from, looks := PROBED, 0, [];
      o := Callback(); // no application
      if o != Returned { return; }
      k := 10;
      Note(NoApplication);
      o := Start(Broker);
      k := 11;
      if o != Returned { return; }
      from := clock;
      o, looks := RequireStableBroker(expected[Broker]);
      if o != Returned { return; }
      k := 12;
      Note(StableObserved);
      o := Callback(); // broker ready, the checkpoint, the completion
    }

    /** The happy path from the verified configuration to the result. */
    method BringUp(expected: Authority) returns (o: Outcome, ghost k: nat, ghost from: nat, ghost looks: seq<Look>)
      requires Broker in expected
      modifies this`units, this`clock, this`calls, this`trace, disk
      ensures LogsOnly(old(disk.files), disk.files, false)
      ensures clock >= old(clock)
      ensures VERIFIED <= k <= |FORWARD| && trace == old(trace) + FORWARD[VERIFIED..k]
      ensures o == Returned ==> k == |FORWARD| && Stable(from, looks) && old(clock) <= from
      ensures old(Calm()) && manager(Broker, loaded) == expected[Broker] ==> Calm() && o == Returned
    {
      from, looks := 0, [];
      o, k := OpenListener();
      if o == Returned {
        o, k, from, looks := OpenBroker(expected);
        assert FORWARD[VERIFIED..PROBED] + FORWARD[PROBED..k] == FORWARD[VERIFIED..k];
      }
    }

    /** The whole happy path. */
    method Forward(es: seq<Entry>, expected: Authority)
      returns (o: Outcome, changed: bool, ghost k: nat, ghost from: nat, ghost looks: seq<Look>)
      requires DistinctPaths(es)
      modifies this, disk
      ensures 3 <= k <= |FORWARD| && trace == old(trace) + FORWARD[..k]
      ensures changed <==> k >= PREPARED
      ensures !changed ==> LogsOnly(old(disk.files), disk.files, false) && loaded == old(loaded)
      ensures Running(old(disk.files), disk.files, es, true, false)
      ensures o == Returned ==>
        && k == |FORWARD| && Stable(from, looks) && InEffect(manager, loaded, Installed(disk.files), expected)
        && Settled(Code(old(disk.files)), Code(disk.files), es, true, |es|)
      ensures old(Calm()) ==> Calm() && changed && o == if Succeeds(old(disk.files), es, expected) then Returned else Failed
    {
      from, looks := 0, [];
      o, changed, k := Publish(es, expected);
      if o == Returned {
        o, k, from, looks := BringUp(expected);
        assert FORWARD[..VERIFIED] + FORWARD[VERIFIED..k] == FORWARD[..k];
      }
      if old(Calm()) {
        SettledSucceeds(old(disk.files), disk.files, es, o, expected);
      }
    }

    /** The old files, and their configuration loaded and verified. */
    method RestoreAndVerify(es: seq<Entry>, expected: Authority) returns (recovered: bool, ghost m: nat)
      requires DistinctPaths(es) && AllStopped(units)
      modifies this, disk
      ensures clock >= old(clock)
      ensures 4 <= m <= |RECOVERY| && trace == old(trace) + RECOVERY[4..m]
      ensures Running(old(disk.files), disk.files, es, false, false)
      ensures recovered ==>
        && m == |RECOVERY| && AllStopped(units) && InEffect(manager, loaded, Installed(disk.files), expected)
        && Settled(Code(old(disk.files)), Code(disk.files), es, false, |es|)
      ensures old(Calm()) ==> Returns(old(disk.files), disk.files, es, recovered, expected)
    {
      RestoreScript();
      m, recovered := 4, false;
      var o := Callback(); // no application
      ghost var f1 := disk.files;
      RunningStarts(old(disk.files), f1, es, false);
      if o != Returned { return; }
      if old(Calm()) {
        LogsDoNotMatter(old(disk.files), f1, es, false);
      }
      Note(NoApplication);
      m := 6;
      Note(RestoreEntered);
      ghost var verified;
      recovered, verified := RestoreFiles(es, expected);
      RunningAfterLogs(old(disk.files), f1, disk.files, es, false);
      m := if verified then 7 else 6;
    }

    /** The restore itself, up to the last checkpoint. */
    method RestoreFiles(es: seq<Entry>, expected: Authority) returns (recovered: bool, ghost verified: bool)
      requires DistinctPaths(es) && AllStopped(units)
      modifies this, disk
      ensures clock >= old(clock)
      ensures trace == old(trace) + (if verified then [Verified] else [])
      ensures Running(old(disk.files), disk.files, es, false, false)
      ensures recovered ==>
        && verified && AllStopped(units) && InEffect(manager, loaded, Installed(disk.files), expected)
        && Settled(Code(old(disk.files)), Code(disk.files), es, false, |es|)
      ensures old(Calm()) ==> Returns(old(disk.files), disk.files, es, recovered, expected)
    {
      recovered, verified := false, false;
      var o := Place(es, false);
      if o != Returned { return; }
      o := ReloadAndVerify(expected);
      if o != Returned { return; }
      verified := true;
      o := Callback(); // the checkpoint
      recovered := o == Returned;
    }

    /** How a restore ends when nothing goes wrong. */
    predicate Returns(f0: Files, f: Files, es: seq<Entry>, recovered: bool, expected: Authority) {
      Publishable(f0, es, false, false) ==>
        Settled(Code(f0), Code(f), es, false, |es|) && (recovered <==> Configures(manager, Installed(f), expected))
    }

    method BeginRecovery() returns (o: Outcome)
      modifies this`units, this`clock, this`calls, this`trace, disk
      ensures LogsOnly(old(disk.files), disk.files, false) && clock >= old(clock)
      ensures trace == old(trace) + RECOVERY[..4]
      ensures o == Returned ==> AllStopped(units)
      ensures old(Calm()) ==> Calm() && o == Returned
    {
      assert RECOVERY[..4] == [RecoveryBegun] + STOPS;
      Note(RecoveryBegun);
      ghost var stops, looks;
      o, stops, looks := StopAndConfirm();
    }

    /** The recovery: stop first; restore only what may have changed, and only once stopped. */
    method Recover(es: seq<Entry>, expected: Authority, changed: bool) returns (recovered: bool, ghost m: nat)
      requires DistinctPaths(es)
      modifies this, disk
      ensures clock >= old(clock)
      ensures 4 <= m <= |RECOVERY| && trace == old(trace) + RECOVERY[..m]
      ensures recovered ==> AllStopped(units)
      ensures !changed ==> m == 4 && LogsOnly(old(disk.files), disk.files, false) && loaded == old(loaded)
      ensures Running(old(disk.files), disk.files, es, false, false)
      ensures changed && recovered ==>
        && m == |RECOVERY| && InEffect(manager, loaded, Installed(disk.files), expected)
        && Settled(Code(old(disk.files)), Code(disk.files), es, false, |es|)
      ensures old(Calm()) && changed ==> Returns(old(disk.files), disk.files, es, recovered, expected)
    {
      m, recovered := 4, false;
      var o := BeginRecovery();
      ghost var f1 := disk.files;
      RunningStarts(old(disk.files), f1, es, false);
      if o != Returned { return; }
      if !changed {
        return true, m;
      }
      if old(Calm()) {
        LogsDoNotMatter(old(disk.files), f1, es, false);
      }
      recovered, m := RestoreAndVerify(es, expected);
      RunningAfterLogs(old(disk.files), f1, disk.files, es, false);
      assert RECOVERY[..4] + RECOVERY[4..m] == RECOVERY[..m];
    }

    /** `resume_analytics`: whatever fails or interrupts, the result is ready, or stopped
        on the old generation, or handed over; an interrupt is passed on after the same recovery. */
    method ResumeAnalytics(es: seq<Entry>, expected: Authority, restoredExpected: Option<Authority>)
      returns (status: Status, ghost run: Run)
      requires DistinctPaths(es)
      modifies this, disk
      ensures trace == old(trace) + Events(run)
      ensures status == Ready <==> run.m == 0
      ensures status == Ready ==>
        && run.k == |FORWARD| && Stable(run.from, run.looks)
        && InEffect(manager, loaded, Installed(disk.files), expected)
        && Settled(Code(old(disk.files)), Code(disk.files), es, true, |es|)
      ensures status == StoppedRecovered ==> run.recovered
      ensures status == ManualRecovery ==> !run.recovered
      ensures run.recovered ==>
        && AllStopped(units)
        && (run.k < PREPARED ==> LogsOnly(old(disk.files), disk.files, false) && loaded == old(loaded))
        && (run.k >= PREPARED ==>
          && run.m == |RECOVERY| && AllOld(disk.files, es)
          && InEffect(manager, loaded, Installed(disk.files), restoredExpected.GetOr(expected)))
      ensures run.recovered && AllOld(old(disk.files), es) ==> Installed(disk.files) == Installed(old(disk.files))
      ensures Carried(old(disk.files), disk.files, es)
      ensures old(Calm()) ==> (status == Ready <==> Succeeds(old(disk.files), es, expected))
      ensures old(Calm()) && status != Ready ==>
        ReturnsTo(old(disk.files), disk.files, es, status == StoppedRecovered, restoredExpected.GetOr(expected))
        && (status == StoppedRecovered || status == ManualRecovery)
    {
      var o, changed, k, from, looks := Forward(es, expected);
      if o == Returned {
        ForwardIsCarried(old(disk.files), disk.files, es);
        run := Run(k, 0, from, looks, false);
        Continues(old(trace), FORWARD[..k], RECOVERY[..0]);
        return Ready, run;
      }
      var recovered;
      ghost var m;
      recovered, m := RecoverTo(es, restoredExpected.GetOr(expected), changed, old(disk.files), old(loaded), old(trace), FORWARD[..k]);
      run := Run(k, m, from, looks, recovered);
      status := if o == Control then Interrupted else if recovered then StoppedRecovered else ManualRecovery;
    }

    /** From old files, with nothing torn, they are back, and their configuration
        decides whether that is a recovery. */
    predicate ReturnsTo(f0: Files, f: Files, es: seq<Entry>, recovered: bool, expected: Authority) {
      AllOld(f0, es) && Untorn(f0, es) ==>
        Installed(f) == Installed(f0) && (recovered <==> Configures(manager, Installed(f0), expected))
    }

    /** The recovery as seen from the start, where the files were `f0` and
        `l0` was loaded; `script` has been passed since `t0`. */
    method RecoverTo(es: seq<Entry>, expected: Authority, changed: bool, ghost f0: Files, ghost l0: map<Path, Bytes>,
                     ghost t0: seq<Event>, ghost script: seq<Event>)
      returns (recovered: bool, ghost m: nat)
      requires DistinctPaths(es) && Running(f0, disk.files, es, true, false) && trace == t0 + script
      requires !changed ==> LogsOnly(f0, disk.files, false) && loaded == l0
      modifies this, disk
      ensures 4 <= m <= |RECOVERY| && trace == t0 + (script + RECOVERY[..m])
      ensures recovered ==> AllStopped(units)
      ensures recovered && !changed ==> LogsOnly(f0, disk.files, false) && loaded == l0
      ensures recovered && changed ==>
        m == |RECOVERY| && AllOld(disk.files, es) && InEffect(manager, loaded, Installed(disk.files), expected)
      ensures recovered && AllOld(f0, es) ==> Installed(disk.files) == Installed(f0)
      ensures Carried(f0, disk.files, es)
      ensures old(Calm()) && changed ==> ReturnsTo(f0, disk.files, es, recovered, expected)
    {
      ghost var f1 := disk.files;
      if AllOld(f0, es) && Untorn(f0, es) && Audit !in f1.next {
        ForwardCrashIsPublishable(f0, f1, es);
      }
      recovered, m := Recover(es, expected, changed);
      ThereAndBack(f0, f1, disk.files, es);
      Continues(t0, script, RECOVERY[..m]);
    }
  }

  /** The unit files of the new generation make of the units what is expected. */
  ghost predicate NewConfigures(m: Manager, f0: Files, es: seq<Entry>, expected: Authority) {
    forall f: Files | Settled(Code(f0), Code(f), es, true, |es|) :: Configures(m, Installed(f), expected)
  }

  /** There is one new generation. */
  lemma NewConfiguresIff(m: Manager, f0: Files, f: Files, es: seq<Entry>, expected: Authority)
    requires Settled(Code(f0), Code(f), es, true, |es|)
    ensures NewConfigures(m, f0, es, expected) <==> Configures(m, Installed(f), expected)
  {
    forall f': Files | Settled(Code(f0), Code(f'), es, true, |es|) ensures Installed(f') == Installed(f) {
      OneGeneration(Code(f0), Code(f), Code(f'), es);
    }
  }

  lemma OneGeneration(f0: Files, f: Files, f': Files, es: seq<Entry>)
    requires Prefix(f0, f, es, true, |es|) && Prefix(f0, f', es, true, |es|)
    ensures f.live == f'.live
  {
    forall p | p in f.live ensures f'.live[p] == f.live[p] {
      if p in Targets(es) {
        var i :| 0 <= i < |es| && es[i].path == p;
        assert Holds(f, es[i].path, es[i].after) && Holds(f', es[i].path, es[i].after);
      }
    }
  }

  /** A restore gets through from wherever a forward run over old files stopped. */
  lemma ForwardCrashIsPublishable(f0: Files, f: Files, es: seq<Entry>)
    requires DistinctPaths(es) && AllOld(f0, es) && Untorn(f0, es) && Running(f0, f, es, true, false)
    requires Audit !in f.next
    ensures Publishable(f, es, false, false)
  {
    WithinIsSameOutside(f0, f, es, true);
    ForwardStaysUntorn(f0, f, es);
  }

  datatype Status = Ready | StoppedRecovered | ManualRecovery | Interrupted

  /** How far a resume came, how far its recovery, and whether that completed. */
  datatype RunRecord = Run(k: nat, m: nat, from: nat, looks: seq<Look>, recovered: bool)

  type Run = r: RunRecord | 3 <= r.k <= |FORWARD| && (r.m == 0 || 4 <= r.m <= |RECOVERY|) witness Run(3, 0, 0, [], false)

  /** How many events come up to and with entering `prepare`, the
      verification, and the passed probe. */
  const PREPARED: nat := 5
  const VERIFIED: nat := 6
  const PROBED: nat := 9

  function Events(run: Run): seq<Event> {
    FORWARD[..run.k] + RECOVERY[..run.m]
  }

  lemma Continues(before: seq<Event>, forward: seq<Event>, recovery: seq<Event>)
    ensures before + forward + recovery == before + (forward + recovery)
    ensures recovery == [] ==> before + forward == before + (forward + recovery)
  {
  }

  /** What any run keeps: each file old or new, nothing outside the set touched,
      and a state from which the recovery is understood. */
  ghost predicate Carried(f0: Files, f: Files, es: seq<Entry>) {
    (Mixed(f0, es) ==> Mixed(f, es)) && SameOutside(f0, f, es) && Resumed(f0, f, es)
  }

  lemma ForwardIsCarried(f0: Files, f: Files, es: seq<Entry>)
    requires DistinctPaths(es) && Running(f0, f, es, true, false)
    ensures Carried(f0, f, es)
  {
    RunningStarts(f, f, es, false);
    ThereAndBack(f0, f, f, es);
  }

  /** A forward run stopped anywhere and then a restore stopped anywhere. */
  lemma ThereAndBack(f0: Files, f1: Files, f2: Files, es: seq<Entry>)
    requires DistinctPaths(es) && Running(f0, f1, es, true, false) && Running(f1, f2, es, false, false)
    ensures Carried(f0, f2, es)
    ensures Settled(Code(f1), Code(f2), es, false, |es|) && AllOld(f0, es) ==> Installed(f2) == Installed(f0)
  {
    assert Resumed(f0, f2, es);
    ResumedStaysMixed(f0, f2, es);
    WithinIsSameOutside(f0, f1, es, true);
    if AllOld(f0, es) && Settled(Code(f1), Code(f2), es, false, |es|) {
      RestoredIsOld(f0, f1, f2, es);
    }
  }

  /** Over every run: the executor is never started by command, nothing before the
      verification, the broker not before the probe, and nothing in a recovery. */
  lemma StartsComeLate(run: Run, i: nat, u: Unit)
    requires i < |Events(run)| && Events(run)[i] == StartIssued(u)
    ensures u != Executor && i < run.k
    ensures exists v | 0 <= v < i :: Events(run)[v] == Verified
    ensures u == Broker ==> exists p | 0 <= p < i - 1 :: Events(run)[p] == ProbePassed && Events(run)[i - 1] == NoApplication
    ensures forall r | 0 <= r < i :: Events(run)[r] != RecoveryBegun
    ensures run.m > 0 ==> Events(run)[run.k..][..4] == [RecoveryBegun] + STOPS
  {
    assert forall j | 0 <= j < run.m :: !RECOVERY[..run.m][j].StartIssued?;
    assert Events(run)[..run.k] == FORWARD[..run.k] && Events(run)[run.k..] == RECOVERY[..run.m];
    assert FORWARD[..run.k][i] == StartIssued(u);
    assert Events(run)[VERIFIED - 1] == FORWARD[VERIFIED - 1];
    if u == Broker {
      assert Events(run)[8] == FORWARD[8] && Events(run)[9] == FORWARD[9];
    }
  }


  lemma QuiesceScript()
    ensures FORWARD[..3] == STOPS && FORWARD[..4] == FORWARD[..3] + [NoApplication]
  {
  }

  lemma PublishScript()
    ensures FORWARD[4..PREPARED] == [PrepareEntered] && FORWARD[4..VERIFIED] == FORWARD[4..PREPARED] + [Verified]
  {
  }

  lemma ListenerScript()
    ensures FORWARD[VERIFIED..VERIFIED] == [] && FORWARD[VERIFIED..7] == [CountersCleared]
    ensures FORWARD[VERIFIED..8] == FORWARD[VERIFIED..7] + [StartIssued(Listener)]
    ensures FORWARD[VERIFIED..PROBED] == FORWARD[VERIFIED..8] + [ProbePassed]
  {
  }

  lemma BrokerScript()
    ensures FORWARD[PROBED..PROBED] == [] && FORWARD[PROBED..10] == [NoApplication]
    ensures FORWARD[PROBED..11] == FORWARD[PROBED..10] + [StartIssued(Broker)]
    ensures FORWARD[PROBED..12] == FORWARD[PROBED..11] + [StableObserved]
  {
  }

  lemma RestoreScript()
    ensures RECOVERY[4..4] == [] && RECOVERY[4..6] == [NoApplication] + [RestoreEntered]
    ensures RECOVERY[4..7] == RECOVERY[4..6] + [Verified]
  {
  }

  lemma WatchedGrows(from: nat, looks: seq<Look>, look: Look, pid: nat)
    requires Watched(from, looks, pid)
    requires looks != [] ==> looks[|looks| - 1].until < from + STABLE_FOR
    requires look.broker == UnitState(Active, pid, false) && pid > 0
    requires (if looks == [] then from else looks[|looks| - 1].until + PAUSE) <= look.clock <= look.until
    ensures Watched(from, looks + [look], pid)
  {
    forall i | 0 <= i < |looks| + 1 ensures LookAt(from, looks + [look], pid, i) {
      assert i < |looks| ==> LookAt(from, looks, pid, i);
    }
  }
}
