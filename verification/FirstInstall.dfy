/** The first Analytics install: one slot, one monotonic work deadline, and a
    stop-only rollback (`AnalyticsFirstInstallOperation` in
    `deployment/analytics_first_install.py`). Times are in milliseconds. */
module FirstInstall {
  import opened Wrappers

  type Digest = nat

  const OPERATION_TIMEOUT: nat := 570_000
  const PULL_TIMEOUT: nat := 500_000
  const COMMAND_TIMEOUT: nat := 30_000
  const RUN_TIMEOUT: nat := 45_000
  const STOP_TIMEOUT: nat := 45_000
  const HEALTH_PROBES: nat := 12
  const INTERVAL: nat := 2_000
  const SECOND: nat := 1_000

  /** The blue container. `Live` is under the restart policy, so it may go down
      and come back by itself; `Halted` was stopped by command and stays so. */
  datatype Slot = Absent | Halted(owner: Digest) | Live(owner: Digest, running: bool)

  datatype Effect = Up(owner: Digest) | Stop

  datatype Marker = RollbackStopped | RollbackUnconfirmed

  /** What an install has to get through, in this order. */
  datatype Check = PreflightPassed | ImagePulled | DigestMatches | ContainerUp | ContainerNamed | ContainerVerified | PrivatelyReady

  const INSTALL: seq<Check> :=
    [PreflightPassed, ImagePulled, DigestMatches, ContainerUp, ContainerNamed, ContainerVerified, PrivatelyReady]

  datatype StopResult = Confirmed | Unconfirmed | Interrupted

  /** What the slot may do while nobody commands it. */
  predicate Drift(a: Slot, b: Slot) {
    a == b || (a.Live? && b.Live? && a.owner == b.owner)
  }

  predicate OwnedBy(s: Slot, h: Digest) {
    s.Absent? || s.owner == h
  }

  /** The Docker host: effects are recorded, each command takes at most the
      time it is given, and any command may fail or be interrupted. */
  class Host {
    const smooth: bool // all that is asked is in order, and answered within a second
    var slot: Slot
    var clock: nat
    var effects: seq<Effect>
    var markers: seq<Marker>

    constructor (smooth: bool)
      ensures this.smooth == smooth && slot == Absent && effects == [] && markers == []
    {
      this.smooth, slot, clock, effects, markers := smooth, Absent, 0, [], [];
    }

    /** How a command ends. */
    method Ends() returns (o: Outcome)
      ensures smooth ==> o == Returned
    {
      o := *;
      o := if smooth then Returned else o;
    }

    method Elapse(limit: nat)
      modifies this`clock, this`slot
      ensures old(clock) <= clock <= old(clock) + limit && Drift(old(slot), slot)
      ensures smooth ==> clock <= old(clock) + SECOND
    {
      var d: nat :| d <= limit && (smooth ==> d <= SECOND);
      clock := clock + d;
      var flip: bool := *;
      if flip && slot.Live? {
        slot := slot.(running := !slot.running);
      }
    }

    method Query(limit: nat) returns (o: Outcome, expected: bool)
      modifies this`clock, this`slot
      ensures old(clock) <= clock <= old(clock) + limit && Drift(old(slot), slot)
      ensures smooth ==> o == Returned && expected && clock <= old(clock) + SECOND
    {
      Elapse(limit);
      o := Ends();
      expected := *;
      expected := expected || smooth;
    }

    method PsAll(limit: nat) returns (o: Outcome, empty: bool)
      modifies this`clock, this`slot
      ensures old(clock) <= clock <= old(clock) + limit && Drift(old(slot), slot)
      ensures o == Returned ==> (empty <==> slot == Absent)
      ensures smooth ==> o == Returned && clock <= old(clock) + SECOND
    {
      Elapse(limit);
      o := Ends();
      empty := slot == Absent;
    }

    method PsRunning(limit: nat) returns (o: Outcome, empty: bool)
      modifies this`clock, this`slot
      ensures old(clock) <= clock <= old(clock) + limit && Drift(old(slot), slot)
      ensures o == Returned ==> (empty <==> !(slot.Live? && slot.running))
      ensures smooth ==> o == Returned
    {
      Elapse(limit);
      o := Ends();
      empty := !(slot.Live? && slot.running);
    }

    /** `compose up --force-recreate`: a failing one may have made the container. */
    method ComposeUp(h: Digest, limit: nat) returns (o: Outcome)
      modifies this`clock, this`slot, this`effects
      ensures old(clock) <= clock <= old(clock) + limit && effects == old(effects) + [Up(h)]
      ensures slot == old(slot) || slot == Absent || (slot.Live? && slot.owner == h)
      ensures o == Returned ==> slot.Live? && slot.owner == h
      ensures smooth ==> o == Returned && clock <= old(clock) + SECOND
    {
      effects := effects + [Up(h)];
      o := Ends();
      var running: bool, made: bool, removed: bool := *, *, *;
      if o == Returned || made {
        slot := Live(h, running);
      } else if removed {
        slot := Absent;
      }
      var d: nat :| d <= limit && (smooth ==> d <= SECOND);
      clock := clock + d;
    }

    /** `compose stop`: a returned one has halted the container if there is one. */
    method ComposeStop(limit: nat) returns (o: Outcome)
      modifies this`clock, this`slot, this`effects
      ensures old(clock) <= clock <= old(clock) + limit && effects == old(effects) + [Stop]
      ensures Drift(old(slot), slot) || (old(slot).Live? && slot == Halted(old(slot).owner))
      ensures o == Returned ==> !slot.Live?
      ensures smooth ==> o == Returned
    {
      effects := effects + [Stop];
      o := Ends();
      var took: bool := *;
      Elapse(limit);
      if slot.Live? && (o == Returned || took) {
        slot := Halted(slot.owner);
      }
    }
  }

  class AnalyticsFirstInstallOperation {
    const host: Host
    var completed: Option<Digest>
    var deadline: Option<nat>
    ghost var passed: seq<Check>

    constructor (host: Host)
      ensures this.host == host && completed == None && deadline == None && passed == []
    {
      this.host, completed, deadline, passed := host, None, None, [];
    }

    ghost method Pass(k: nat, start: seq<Check>)
      requires k < |INSTALL| && passed == start + INSTALL[..k]
      modifies this`passed
      ensures passed == start + INSTALL[..k + 1]
    {
      assert INSTALL[..k + 1] == INSTALL[..k] + [INSTALL[k]];
      passed := passed + [INSTALL[k]];
    }

    /** Normal work never runs past its deadline. */
    predicate InTime()
      reads this, host
    {
      deadline.Some? ==> host.clock <= deadline.value
    }

    /** Everything goes well, and there is time for `n` commands. */
    predicate Ample(n: nat)
      reads this, host
    {
      host.smooth && (deadline.Some? ==> host.clock + n * SECOND < deadline.value)
    }

    /** `_work_timeout`: what is left of the deadline, or a refusal once it is reached. */
    method WorkTimeout(timeout: nat) returns (bounded: Option<nat>)
      requires timeout > 0
      ensures bounded.None? <==> deadline.Some? && host.clock >= deadline.value
      ensures bounded.Some? ==> 0 < bounded.value <= timeout
      ensures bounded.Some? && deadline.Some? ==> host.clock + bounded.value <= deadline.value
    {
      if deadline.None? {
        return Some(timeout);
      }
      if deadline.value <= host.clock {
        return None;
      }
      var remaining: nat := deadline.value - host.clock;
      return Some(if timeout < remaining then timeout else remaining);
    }

    /** `_docker` around a reading command whose output must be as expected. */
    method Docker(timeout: nat) returns (o: Outcome)
      requires timeout > 0 && InTime()
      modifies host`clock, host`slot
      ensures InTime() && old(host.clock) <= host.clock && Drift(old(host.slot), host.slot)
      ensures old(Ample(1)) ==> o == Returned && host.clock <= old(host.clock) + SECOND
    {
      var bounded := WorkTimeout(timeout);
      if bounded.None? {
        return Failed;
      }
      var expected;
      o, expected := host.Query(bounded.value);
      var left := WorkTimeout(1_000);
      if o == Returned && (left.None? || !expected) {
        o := Failed;
      }
    }

    /** `_preflight`: it returns only when no blue container exists, running or not. */
    method Preflight() returns (o: Outcome)
      requires InTime()
      modifies host`clock, host`slot
      ensures InTime() && old(host.clock) <= host.clock && Drift(old(host.slot), host.slot)
      ensures o == Returned ==> host.slot == Absent
      ensures old(Ample(3)) && old(host.slot) == Absent ==> o == Returned && host.clock <= old(host.clock) + 3 * SECOND
    {
      o := host.Ends(); // the request, source, Compose digest and secret checks
      if o != Returned {
        return;
      }
      o := Docker(COMMAND_TIMEOUT); // the network's name
      if o != Returned {
        return;
      }
      o := Docker(COMMAND_TIMEOUT); // compose config
      if o != Returned {
        return;
      }
      var bounded := WorkTimeout(COMMAND_TIMEOUT);
      if bounded.None? {
        return Failed;
      }
      var empty;
      o, empty := host.PsAll(bounded.value);
      var left := WorkTimeout(1_000);
      if o == Returned && (left.None? || !empty) {
        o := Failed;
      }
    }

    /** `_verify_private_container`: seven single facts, then the networks. */
    method VerifyPrivateContainer() returns (o: Outcome)
      requires InTime()
      modifies host`clock, host`slot
      ensures InTime() && old(host.clock) <= host.clock && Drift(old(host.slot), host.slot)
      ensures old(Ample(8)) ==> o == Returned && host.clock <= old(host.clock) + 8 * SECOND
    {
      var i := 0;
      o := Returned;
      while i < 8
        invariant InTime() && old(host.clock) <= host.clock && Drift(old(host.slot), host.slot)
        invariant i <= 8 && (old(Ample(8)) ==> o == Returned && host.clock <= old(host.clock) + i * SECOND)
      {
        o := Docker(COMMAND_TIMEOUT);
        if o != Returned {
          return;
        }
        i := i + 1;
      }
    }

    /** `_private_ready`: at most twelve probes, never past the work deadline. */
    method PrivateReady() returns (o: Outcome, probes: nat)
      requires InTime()
      modifies host`clock, host`slot
      ensures InTime() && old(host.clock) <= host.clock && Drift(old(host.slot), host.slot)
      ensures probes <= 12 && (o == Returned ==> probes > 0)
      ensures old(Ample(2)) ==> o == Returned && host.clock <= old(host.clock) + 2 * SECOND
    {
      var limit := host.clock + HEALTH_PROBES * (INTERVAL + 3_000);
      probes := 0;
      while probes < HEALTH_PROBES
        invariant InTime() && old(host.clock) <= host.clock && Drift(old(host.slot), host.slot)
        invariant probes <= HEALTH_PROBES
        invariant old(Ample(2)) ==> probes == 0 && host.clock == old(host.clock)
      {
        o := Docker(COMMAND_TIMEOUT); // the health status command itself
        if o != Returned {
          return;
        }
        probes := probes + 1;
        var healthy: bool, starting: bool := *, *;
        healthy := healthy || host.smooth;
        if healthy {
          o := Docker(5_000); // the in-container readiness answer
          return;
        }
        if !starting {
          return Failed, probes;
        }
        if host.clock + INTERVAL >= limit {
          break;
        }
        if probes < HEALTH_PROBES {
          var pause := WorkTimeout(INTERVAL);
          if pause.None? {
            return Failed, probes;
          }
          var interrupted: bool := *;
          host.Elapse(pause.value);
          if interrupted {
            return Control, probes;
          }
        }
      }
      o := Failed;
    }

    /** `_stop_first_slot`: its two commands have their own 75 s. */
    method StopFirstSlot() returns (r: StopResult)
      modifies host`clock, host`slot, host`effects
      ensures old(host.clock) <= host.clock <= old(host.clock) + 75_000
      ensures host.effects == old(host.effects) + [Stop]
      ensures Drift(old(host.slot), host.slot) || (old(host.slot).Live? && host.slot == Halted(old(host.slot).owner))
      ensures r == Confirmed ==> !host.slot.Live?
      ensures host.smooth ==> r == Confirmed
    {
      var o := host.ComposeStop(STOP_TIMEOUT);
      if o != Returned {
        return if o == Control then Interrupted else Unconfirmed;
      }
      var empty;
      o, empty := host.PsRunning(COMMAND_TIMEOUT);
      match o
      case Control => return Interrupted;
      case Failed => return Unconfirmed;
      case Returned => return if empty then Confirmed else Unconfirmed;
    }

    /** The guarded body of `deploy_analytics`; `candidate` is its cleanup duty. */
    method Install(h: Digest) returns (o: Outcome, candidate: bool, ghost k: nat)
      requires deadline.Some? && InTime()
      modifies host`clock, host`slot, host`effects, this`completed, this`passed
      ensures k <= |INSTALL| && passed == old(passed) + INSTALL[..k]
      ensures (candidate <==> k >= 3) && (o == Returned ==> k == |INSTALL|)
      ensures InTime() && old(host.clock) <= host.clock
      ensures !candidate ==> host.effects == old(host.effects) && Drift(old(host.slot), host.slot) && o != Returned
      ensures candidate ==> old(host.slot) == Absent && OwnedBy(host.slot, h) && !host.slot.Halted?
      ensures candidate ==> host.effects == old(host.effects) + [Up(h)] || (host.effects == old(host.effects) && host.slot == Absent)
      ensures o == Returned ==> host.effects == old(host.effects) + [Up(h)]
      ensures completed == if o == Returned then Some(h) else old(completed)
      ensures o == Returned ==> host.slot.Live? && host.slot.owner == h
      ensures old(Ample(17)) ==> (o == Returned <==> old(host.slot) == Absent)
    {
      candidate, k := false, 0;
      assert INSTALL[..0] == [];
      o, k := Prepare();
      if o != Returned {
        return;
      }
      candidate := true;
      var bounded := WorkTimeout(RUN_TIMEOUT);
      if bounded.None? {
        return Failed, candidate, k;
      }
      o := host.ComposeUp(h, bounded.value);
      var left := WorkTimeout(1_000);
      if o == Returned && left.None? {
        o := Failed;
      }
      if o != Returned {
        return;
      }
      Pass(3, old(passed));
      o, k := Inspect(old(passed));
      left := WorkTimeout(1_000);
      if o == Returned && left.None? {
        o := Failed;
      }
      if o == Returned {
        completed := Some(h);
      }
    }

    /** Everything before the slot may exist. */
    method Prepare() returns (o: Outcome, ghost k: nat)
      requires InTime()
      modifies host`clock, host`slot, this`passed
      ensures InTime() && old(host.clock) <= host.clock && Drift(old(host.slot), host.slot)
      ensures k <= 3 && passed == old(passed) + INSTALL[..k]
      ensures o == Returned <==> k == 3
      ensures o == Returned ==> host.slot == Absent
      ensures old(Ample(5)) && old(host.slot) == Absent ==> o == Returned && host.clock <= old(host.clock) + 5 * SECOND
    {
      k := 0;
      assert INSTALL[..0] == [];
      o := Preflight();
      if o != Returned {
        return;
      }
      Pass(0, old(passed));
      k := 1;
      o := Docker(PULL_TIMEOUT); // the digest-pinned pull
      if o != Returned {
        return;
      }
      Pass(1, old(passed));
      k := 2;
      o := Docker(COMMAND_TIMEOUT); // the local digest
      if o != Returned {
        return;
      }
      Pass(2, old(passed));
      k := 3;
    }

    /** Everything after `up` returned. */
    method Inspect(ghost start: seq<Check>) returns (o: Outcome, ghost k: nat)
      requires InTime() && passed == start + INSTALL[..4]
      modifies host`clock, host`slot, this`passed
      ensures InTime() && old(host.clock) <= host.clock && Drift(old(host.slot), host.slot)
      ensures 4 <= k <= |INSTALL| && passed == start + INSTALL[..k]
      ensures o == Returned ==> k == |INSTALL|
      ensures old(Ample(11)) ==> o == Returned && host.clock <= old(host.clock) + 11 * SECOND
    {
      k := 4;
      o := Docker(COMMAND_TIMEOUT); // the container's identity
      if o != Returned {
        return;
      }
      Pass(4, start);
      k := 5;
      o := VerifyPrivateContainer();
      if o != Returned {
        return;
      }
      Pass(5, start);
      k := 6;
      var probes;
      o, probes := PrivateReady();
      if o != Returned {
        return;
      }
      Pass(6, start);
      k := 7;
    }

    /** `deploy_analytics`. Work ends within 570 s and cleanup within 75 s more.
        An ordinary failure with a candidate leaves a halted slot or none, or a
        marker that says the stop is unconfirmed. An interrupt issues the same
        stop but writes no marker, so only the confirmed stop counts there. */
    method DeployAnalytics(h: Digest) returns (o: Outcome, ghost candidate: bool, ghost stop: StopResult)
      modifies host, this
      ensures old(host.clock) <= host.clock <= old(host.clock) + 570_000 + 75_000
      ensures o == Returned ==> host.clock <= old(host.clock) + 570_000
      ensures o == Returned ==> Completes(old(host.slot), host.slot, h) && completed == Some(h)
      ensures o == Returned ==> passed == old(passed) + INSTALL
      ensures exists k | 0 <= k <= |INSTALL| :: passed == old(passed) + INSTALL[..k] && (o != Returned ==> (candidate <==> k >= 3))
      ensures o == Returned ==> host.effects == old(host.effects) + [Up(h)] && host.markers == old(host.markers)
      ensures o != Returned ==> completed == old(completed)
      ensures o != Returned && !candidate ==> host.effects == old(host.effects) && host.markers == old(host.markers)
      ensures o != Returned && !candidate ==> Drift(old(host.slot), host.slot)
      ensures o != Returned && candidate ==> old(host.slot) == Absent && OwnedBy(host.slot, h)
      ensures o != Returned && candidate ==>
        host.effects == old(host.effects) + [Up(h), Stop] || host.effects == old(host.effects) + [Stop]
      ensures o != Returned && candidate && stop == Confirmed ==> !host.slot.Live?
      ensures o == Failed && candidate ==>
        host.markers == old(host.markers) + [if stop == Confirmed then RollbackStopped else RollbackUnconfirmed]
      ensures o == Control ==> host.markers == old(host.markers)
      ensures host.smooth ==> (o == Returned <==> old(host.slot) == Absent)
    {
      stop := Interrupted;
      deadline := Some(host.clock + OPERATION_TIMEOUT);
      var primary, mayExist, k := Install(h);
      assert INSTALL[..|INSTALL|] == INSTALL;
      candidate := mayExist;
      o := primary;
      if primary == Returned || !mayExist {
        return;
      }
      var r := StopFirstSlot();
      stop := r;
      if r == Interrupted {
        o := Control;
      } else if primary == Failed {
        host.markers := host.markers + [if r == Confirmed then RollbackStopped else RollbackUnconfirmed];
      }
    }

    /** `rollback_first_analytics`: only for the request this object completed. */
    method RollbackFirstAnalytics(h: Digest) returns (o: Outcome)
      modifies host`clock, host`slot, host`effects, this`completed
      ensures old(host.clock) <= host.clock <= old(host.clock) + 75_000
      ensures old(completed) != Some(h) ==>
        completed == old(completed) && host.slot == old(host.slot) && host.effects == old(host.effects)
          && host.clock == old(host.clock) && o == if old(completed).None? then Returned else Failed
      ensures old(completed) == Some(h) ==> host.effects == old(host.effects) + [Stop]
      ensures old(completed) == Some(h) ==>
        Drift(old(host.slot), host.slot) || (old(host.slot).Live? && host.slot == Halted(old(host.slot).owner))
      ensures old(completed) == Some(h) && o == Returned ==> completed == None && !host.slot.Live?
      ensures o != Returned ==> completed == old(completed)
      ensures old(completed) == Some(h) && host.smooth ==> o == Returned
    {
      if completed.None? {
        return Returned;
      }
      if completed.value != h {
        return Failed;
      }
      var r := StopFirstSlot();
      match r
      case Confirmed => completed := None; return Returned;
      case Unconfirmed => return Failed;
      case Interrupted => return Control;
    }
  }

  /** From no container at all to one of this request's own. */
  predicate Completes(before: Slot, after: Slot, h: Digest) {
    before == Absent && after.Live? && after.owner == h
  }
}
