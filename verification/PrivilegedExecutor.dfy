/** One private execution over the replay guard and the first-install operation,
    and what a slot goes through under any sequence of them
    (`AnalyticsPrivilegedExecutor` in `deployment/analytics_executor.py`). */
module PrivilegedExecutor {
  import opened Wrappers
  import opened FirstInstall
  import ReplayStore
  import ReplayGuard

  const RESPONSE_WINDOW: nat := 720_000

  /** The response, the two refusals, or an interrupt passed on. */
  datatype Result = Success(hash: Digest) | Rejected | Unavailable | Raised

  /** Everything later requests can see of the earlier ones. `begun` holds the
      request hashes whose begin succeeded. */
  datatype World = World(slot: Slot, completed: Option<Digest>, begun: set<Digest>,
                         effects: seq<Effect>, markers: seq<Marker>)

  predicate WellFormed(w: World) {
    w.completed.Some? ==> w.completed.value in w.begun
  }

  /** Nothing was commanded. */
  predicate Untouched(w: World, w': World) {
    w'.effects == w.effects && Drift(w.slot, w'.slot) && w'.completed == w.completed
  }

  predicate Marked(w: World, w': World) {
    w.markers <= w'.markers && RollbackUnconfirmed in w'.markers[|w.markers|..]
  }

  /** What one execution for the request `h` may do, ending with `result`; `stop`
      is how its last stop command ended, if it gave one. */
  predicate RunOf(w: World, w': World, h: Digest, result: Result, stop: StopResult) {
    && w.begun <= w'.begun <= w.begun + {h}
    && w.markers <= w'.markers
    // A container that is already there is left alone, whoever made it.
    && (w.slot != Absent ==> Untouched(w, w') && !result.Success?)
    // Success: exactly one `up`, for this request, and nothing stopped.
    && (result.Success? ==>
        && result.hash == h && w.slot == Absent && Completes(w.slot, w'.slot, h)
        && w'.effects == w.effects + [Up(h)] && w'.completed == Some(h) && w'.markers == w.markers)
    // Otherwise whatever was brought up was also told to stop.
    && (!result.Success? ==>
        || Untouched(w, w')
        || (w'.effects == w.effects + [Up(h), Stop] && OwnedBy(w'.slot, h))
        || (w'.effects == w.effects + [Stop] && OwnedBy(w'.slot, h)))
    // A confirmed stop holds. An unconfirmed one is marked, unless an interrupt is passed on.
    && (!result.Success? && w'.effects != w.effects ==>
        && (stop == Confirmed ==> !w'.slot.Live?)
        && (stop != Confirmed && result != Raised ==> Marked(w, w')))
    && WellFormed(w')
  }

  class AnalyticsPrivilegedExecutor {
    const guard: ReplayGuard.SQLiteReplayGuard
    const operation: AnalyticsFirstInstallOperation
    const host: Host
    var active: bool
    ghost var identities: map<Digest, (ReplayStore.Jti, nat)> // of each begun request, with its retention

    constructor (guard: ReplayGuard.SQLiteReplayGuard, operation: AnalyticsFirstInstallOperation)
      requires operation.completed == None
      ensures this.guard == guard && this.operation == operation && host == operation.host
      ensures !active && identities == map[] && Valid()
    {
      this.guard, this.operation, this.host := guard, operation, operation.host;
      active, identities := false, map[];
    }

    ghost function Now(): World
      reads this, operation, host
    {
      World(host.slot, operation.completed, identities.Keys, host.effects, host.markers)
    }

    /** The store never lets a begun request begin again. */
    ghost predicate Valid()
      reads this, operation, host, guard
    {
      operation.host == host && WellFormed(Now()) && AllSpent(identities, guard.Contents())
    }

    /** Nothing goes wrong with the store or the host. */
    predicate Calm() {
      guard.faultless && host.smooth
    }

    method Interrupt() returns (interrupted: bool)
      ensures Calm() ==> !interrupted
    {
      interrupted := *;
      interrupted := interrupted && !Calm();
    }

    /** `_stop_unfinished_first_install`: an ordinary rollback failure is only marked. */
    method StopUnfinishedFirstInstall(h: Digest) returns (o: Outcome, ghost stop: StopResult)
      requires operation.host == host
      modifies operation`completed, host
      ensures old(host.clock) <= host.clock <= old(host.clock) + STOP_TIMEOUT + COMMAND_TIMEOUT
      ensures o != Failed
      ensures old(operation.completed) != Some(h) ==>
        && o == Returned && operation.completed == old(operation.completed)
        && host.slot == old(host.slot) && host.effects == old(host.effects) && host.clock == old(host.clock)
        && host.markers == old(host.markers) + (if operation.completed.None? then [] else [RollbackUnconfirmed])
      ensures old(operation.completed) == Some(h) ==>
        && host.effects == old(host.effects) + [Stop]
        && (Drift(old(host.slot), host.slot) || (old(host.slot).Live? && host.slot == Halted(old(host.slot).owner)))
        && (stop == Confirmed ==> operation.completed == None && !host.slot.Live?)
        && (stop != Confirmed ==> operation.completed == Some(h))
        && (o == Returned && stop != Confirmed ==> host.markers == old(host.markers) + [RollbackUnconfirmed])
        && (o == Control || stop == Confirmed ==> host.markers == old(host.markers))
    {
      o := operation.RollbackFirstAnalytics(h);
      stop := match o case Returned => Confirmed case Failed => Unconfirmed case Control => Interrupted;
      if o == Failed {
        host.markers := host.markers + [RollbackUnconfirmed];
        o := Returned;
      }
    }

    /** `execute_private`. The request hash covers the identity, so a begun hash
        comes with the identity it began under. `refusal` is what the checks of
        request, credential and lifetime say, the other two the clock's samples
        for the store. If nothing goes wrong it succeeds exactly for an admitted
        request, an absent slot and an identity that can begin and finish. */
    method ExecutePrivate(b: ReplayStore.Binding, refusal: Option<Result>, begun: nat, ended: nat)
      returns (result: Result, ghost stop: StopResult)
      requires Valid()
      requires b.hash in identities ==> identities[b.hash].0 == b.jti
      modifies this, guard, operation, host
      ensures Valid() && active == old(active)
      ensures RunOf(old(Now()), Now(), b.hash, result, stop)
      ensures host.clock <= old(host.clock) + COMMAND_TIMEOUT + OPERATION_TIMEOUT + STOP_TIMEOUT + COMMAND_TIMEOUT
      ensures host.clock - old(host.clock) <= RESPONSE_WINDOW
      ensures result.Success? ==> FinishedFor(guard.Contents(), b)
      ensures Calm() ==> (result.Success? <==>
        refusal.None? && !active && old(host.slot) == Absent && Executable(old(guard.Contents()), b, begun, ended))
    {
      stop := Interrupted;
      if refusal.Some? {
        return if refusal.value.Success? then Rejected else refusal.value, stop;
      }
      var o, expected := host.Query(COMMAND_TIMEOUT); // the registry manifest preflight
      if o != Returned || !expected {
        return if o == Control then Raised else Unavailable, stop;
      }
      if active {
        return Unavailable, stop;
      }
      active := true;
      result, stop := Consumed(b, begun, ended);
      active := false;
    }

    /** The part of `execute_private` inside the execution gate. */
    method Consumed(b: ReplayStore.Binding, begun: nat, ended: nat) returns (result: Result, ghost stop: StopResult)
      requires Valid()
      requires b.hash in identities ==> identities[b.hash].0 == b.jti
      modifies this`identities, guard, operation, host
      ensures Valid()
      ensures RunOf(old(Now()), Now(), b.hash, result, stop)
      ensures host.clock <= old(host.clock) + OPERATION_TIMEOUT + STOP_TIMEOUT + COMMAND_TIMEOUT
      ensures result.Success? ==> FinishedFor(guard.Contents(), b)
      ensures Calm() ==>
        (result.Success? <==> old(host.slot) == Absent && Executable(old(guard.Contents()), b, begun, ended))
    {
      stop := Interrupted;
      var interrupted := Interrupt();
      ghost var before := guard.Contents();
      var v := guard.BeginExecution(b, begun);
      MoveKeepsSpent(identities, before, guard.Contents(), b, ReplayStore.Consumed, ReplayStore.Executing, begun);
      if interrupted {
        return Raised, stop;
      }
      if v != ReplayStore.Done {
        return Rejected, stop;
      }
      BegunIsNew(identities, before, b, begun);
      identities := identities[b.hash := (b.jti, before.rows[b.jti].retainUntil)];
      result, stop := Attempt(b, ended);
    }

    /** Deploy, finish, and undo what cannot be finished. */
    method Attempt(b: ReplayStore.Binding, ended: nat) returns (result: Result, ghost stop: StopResult)
      requires Valid() && operation.completed != Some(b.hash) && b.hash in identities
      modifies guard, operation, host
      ensures Valid()
      ensures RunOf(old(Now()), Now(), b.hash, result, stop)
      ensures host.clock <= old(host.clock) + OPERATION_TIMEOUT + STOP_TIMEOUT + COMMAND_TIMEOUT
      ensures result.Success? ==> FinishedFor(guard.Contents(), b)
      ensures Calm() ==> (result.Success? <==> old(host.slot) == Absent && Finishable(old(guard.Contents()), b, ended))
    {
      var o;
      ghost var candidate;
      o, candidate, stop := operation.DeployAnalytics(b.hash);
      if o != Returned {
        var p, _ := StopUnfinishedFirstInstall(b.hash);
        ghost var added := host.markers[|old(host.markers)|..];
        assert o == Failed && candidate && stop != Confirmed ==> added[0] == RollbackUnconfirmed;
        return if o == Control || p == Control then Raised else Unavailable, stop;
      }
      result, stop := FinishOrUndo(b, ended);
    }

    /** The end of the scoped credential, and the deployment's result. */
    method Leave() returns (o: Outcome)
      ensures Calm() ==> o == Returned
    {
      o := *;
      o := if Calm() then Returned else o;
    }

    /** From a completed deployment: `finish_execution`, or the bound rollback. */
    method FinishOrUndo(b: ReplayStore.Binding, ended: nat) returns (result: Result, ghost stop: StopResult)
      requires Valid() && operation.completed == Some(b.hash)
      requires host.slot.Live? && host.slot.owner == b.hash
      modifies guard, operation`completed, host
      ensures operation.completed.Some? ==> operation.completed == Some(b.hash)
      ensures AllSpent(identities, guard.Contents())
      ensures result.Success? ==> FinishedFor(guard.Contents(), b) && Now() == old(Now()) && result.hash == b.hash
      ensures old(host.clock) <= host.clock <= old(host.clock) + STOP_TIMEOUT + COMMAND_TIMEOUT
      ensures result.Success? ==> host.clock == old(host.clock)
      ensures Calm() ==> (result.Success? <==> Finishable(old(guard.Contents()), b, ended))
      ensures !result.Success? ==>
        && host.effects == old(host.effects) + [Stop] && OwnedBy(host.slot, b.hash)
        && (stop == Confirmed ==> !host.slot.Live? && host.markers == old(host.markers))
        && old(host.markers) <= host.markers
        && (stop != Confirmed && result != Raised ==> host.markers == old(host.markers) + [RollbackUnconfirmed])
    {
      stop := Interrupted;
      var left := Leave();
      if left != Returned {
        var q;
        q, stop := StopUnfinishedFirstInstall(b.hash);
        return if left == Control || q == Control then Raised else Unavailable, stop;
      }
      var interrupted := Interrupt();
      ghost var before := guard.Contents();
      var v := guard.FinishExecution(b, ended);
      MoveKeepsSpent(identities, before, guard.Contents(), b, ReplayStore.Executing, ReplayStore.Finished, ended);
      if interrupted || v != ReplayStore.Done {
        var p;
        p, stop := StopUnfinishedFirstInstall(b.hash);
        return if interrupted || p == Control then Raised else Unavailable, stop;
      }
      return Success(b.hash), stop;
    }
  }

  predicate Finishable(s: ReplayStore.Store, b: ReplayStore.Binding, now: nat) {
    ReplayStore.Finish(s, b, now).0 == ReplayStore.Done
  }

  /** The identity can begin, and then finish. */
  predicate Executable(s: ReplayStore.Store, b: ReplayStore.Binding, begun: nat, ended: nat) {
    && ReplayStore.Begin(s, b, begun).0 == ReplayStore.Done
    && Finishable(ReplayStore.Begin(s, b, begun).1, b, ended)
  }

  /** None of these identities can begin again. */
  predicate AllSpent(identities: map<Digest, (ReplayStore.Jti, nat)>, s: ReplayStore.Store) {
    forall h <- identities :: ReplayStore.Spent(s, identities[h].0, identities[h].1)
  }

  /** A begin or a finish, reported or not, leaves what is spent spent. */
  lemma MoveKeepsSpent(identities: map<Digest, (ReplayStore.Jti, nat)>, s: ReplayStore.Store, s': ReplayStore.Store,
                       b: ReplayStore.Binding, before: ReplayStore.Status, after: ReplayStore.Status, now: nat)
    requires AllSpent(identities, s) && after != ReplayStore.Consumed
    requires s' == s || s' == ReplayStore.Transition(s, b, before, after, now).1
    ensures AllSpent(identities, s')
  {
    forall h <- identities ensures ReplayStore.Spent(s', identities[h].0, identities[h].1) {
      assert ReplayStore.Spent(s, identities[h].0, identities[h].1);
    }
  }

  /** So does any operation of any other process that keeps one retention for each identity. */
  lemma OthersKeepSpent(identities: map<Digest, (ReplayStore.Jti, nat)>, s: ReplayStore.Store, maximum: nat, op: ReplayStore.Op)
    requires AllSpent(identities, s)
    requires forall h <- identities | op.OpConsume? && op.b.jti == identities[h].0 :: op.retainUntil <= identities[h].1
    ensures AllSpent(identities, ReplayStore.Apply(s, maximum, op).1)
  {
    forall h <- identities ensures ReplayStore.Spent(ReplayStore.Apply(s, maximum, op).1, identities[h].0, identities[h].1) {
      ReplayStore.SpentStep(s, maximum, op, identities[h].0, identities[h].1);
    }
  }

  /** What could begin had not begun, and is spent now. */
  lemma BegunIsNew(identities: map<Digest, (ReplayStore.Jti, nat)>, s: ReplayStore.Store, b: ReplayStore.Binding, now: nat)
    requires AllSpent(identities, s) && ReplayStore.Begin(s, b, now).0 == ReplayStore.Done
    requires b.hash in identities ==> identities[b.hash].0 == b.jti
    ensures b.hash !in identities && b.jti in s.rows
    ensures ReplayStore.Spent(ReplayStore.Begin(s, b, now).1, b.jti, s.rows[b.jti].retainUntil)
  {
  }

  /** The store has this very binding as finished. */
  predicate FinishedFor(s: ReplayStore.Store, b: ReplayStore.Binding) {
    && b.jti in s.rows && s.rows[b.jti].status == ReplayStore.Finished
    && ReplayStore.BindingOf(b.jti, s.rows[b.jti]) == b
  }

  // ----- sequences of requests ----------------------------------------------

  /** A new process starts with nothing completed. */
  predicate Restarted(w: World, w': World) {
    w' == w.(completed := None)
  }

  /** Time passes, or another request's begin is recorded. */
  predicate Waited(w: World, w': World) {
    Untouched(w, w') && w.begun <= w'.begun && w'.markers == w.markers
  }

  ghost predicate Linked(w: World, w': World) {
    || Restarted(w, w')
    || Waited(w, w')
    || (exists h, result, stop :: RunOf(w, w', h, result, stop))
  }

  /** The history of a host from one request to the next. */
  ghost predicate Trace(ws: seq<World>) {
    forall i | 0 < i < |ws| :: Linked(ws[i - 1], ws[i])
  }

  /** Once the container exists no later request, in this process or a new one,
      commands anything at all: no `up`, and no stop of what another completed. */
  lemma {:induction false} ExistingSlotIsLeftAlone(ws: seq<World>, k: nat)
    requires k < |ws| && Trace(ws) && ws[0].slot != Absent
    ensures ws[k].effects == ws[0].effects && Drift(ws[0].slot, ws[k].slot)
  {
    if k > 0 {
      ExistingSlotIsLeftAlone(ws, k - 1);
      assert Linked(ws[k - 1], ws[k]);
      assert ws[k - 1].slot != Absent;
    }
  }

  /** In particular after a success: the one `up` of the finished request stays
      the last command, its owner stays the owner, and nobody halts it. */
  lemma CompletedSlotIsKept(w: World, ws: seq<World>, h: Digest, stop: StopResult, k: nat)
    requires ws != [] && RunOf(w, ws[0], h, Success(h), stop)
    requires Trace(ws) && k < |ws|
    ensures ws[k].effects == w.effects + [Up(h)] && ws[k].slot.Live? && ws[k].slot.owner == h
  {
    ExistingSlotIsLeftAlone(ws, k);
  }

  /** Over a whole history from an empty host, at most one request succeeds. */
  lemma OnlyOneSucceeds(ws: seq<World>, i: nat, j: nat, hi: Digest, hj: Digest, si: StopResult, sj: StopResult)
    requires Trace(ws) && 0 < i < j < |ws|
    requires RunOf(ws[i - 1], ws[i], hi, Success(hi), si)
    ensures !RunOf(ws[j - 1], ws[j], hj, Success(hj), sj)
  {
    var later := ws[i..];
    forall n | 0 < n < |later| ensures Linked(later[n - 1], later[n]) {
      assert Linked(ws[i + n - 1], ws[i + n]);
    }
    ExistingSlotIsLeftAlone(later, j - 1 - i);
  }
}
