/** `SQLiteReplayGuard` of `deployment/replay_sqlite.py`, proved against the
    transactions of `ReplayStore`. */
module ReplayGuard {
  import opened ReplayStore

  /** The guard object. A fault before the commit rolls back; a fault after it
      is reported as unavailable although the change is durable. */
  class SQLiteReplayGuard {
    const maximum: nat
    const faultless: bool // the database never fails
    var rows: map<Jti, Row>
    var lastSeen: nat

    constructor (maximum: nat, faultless: bool)
      requires 1 <= maximum <= MAXIMUM_ENTRIES
      ensures this.maximum == maximum && this.faultless == faultless && Contents() == Store(map[], 0)
    {
      this.maximum, this.faultless, rows, lastSeen := maximum, faultless, map[], 0;
    }

    function Contents(): Store
      reads this
    {
      Store(rows, lastSeen)
    }

    method Fault() returns (fault: bool)
      ensures faultless ==> !fault
    {
      fault := *;
      fault := fault && !faultless;
    }

    /** `now` is the clock's sample. */
    method Consume(b: Binding, expiresAt: nat, now: nat) returns (v: Verdict)
      modifies this
      ensures var spec := ReplayStore.Consume(old(Contents()), maximum, b, expiresAt + MAX_CLOCK_SKEW_SECONDS, now);
        Reported(spec, v, old(Contents()), Contents()) && (faultless ==> spec == (v, Contents()))
      ensures var time, kept := Later(old(lastSeen), now), Remaining(old(rows), Later(old(lastSeen), now));
        var answer :=
          if old(lastSeen) > now + 30 || |kept| >= maximum then Unavailable
          else if expiresAt + 30 < time || b.jti in kept || Used(old(rows), kept, b.run, b.attempt) then Replayed
          else Done;
        faultless ==> v == answer
      ensures var time := Later(old(lastSeen), now);
        v == Done ==> lastSeen == time && Added(old(rows), rows, Remaining(old(rows), time), b, expiresAt + 30)
    {
      var fault := Fault();
      if fault || lastSeen > now + MAX_CLOCK_SKEW_SECONDS {
        return Unavailable;
      }
      var time := if now > lastSeen then now else lastSeen;
      var kept := Purge(rows, time);
      PurgeLeaves(rows, time, b);
      if |kept| >= maximum {
        return Unavailable;
      }
      var retainUntil := expiresAt + MAX_CLOCK_SKEW_SECONDS;
      if retainUntil < time {
        return Replayed;
      }
      if Conflict(kept, b) {
        return Replayed;
      }
      rows := kept[b.jti := Row(retainUntil, b.hash, b.run, b.attempt, Consumed)];
      lastSeen := time;
      fault := Fault();
      v := if fault then Unavailable else Done;
    }

    method Move(b: Binding, before: Status, after: Status, now: nat) returns (v: Verdict)
      modifies this
      ensures var spec := Transition(old(Contents()), b, before, after, now);
        Reported(spec, v, old(Contents()), Contents()) && (faultless ==> spec == (v, Contents()))
      ensures var time := Later(old(lastSeen), now);
        var answer :=
          if old(lastSeen) > now + 30 then Unavailable
          else if Movable(old(rows), b, before, time) then Done
          else Replayed;
        faultless ==> v == answer
      ensures v == Done ==> lastSeen == Later(old(lastSeen), now) && b.jti in old(rows)
      ensures v == Done ==>
        rows == old(rows)[b.jti := Row(old(rows)[b.jti].retainUntil, b.hash, b.run, b.attempt, after)]
    {
      var fault := Fault();
      if fault || lastSeen > now + MAX_CLOCK_SKEW_SECONDS {
        return Unavailable;
      }
      var time := if now > lastSeen then now else lastSeen;
      if b.jti !in rows || BindingOf(b.jti, rows[b.jti]) != b || rows[b.jti].status != before
        || (before == Consumed && rows[b.jti].retainUntil < time)
      {
        return Replayed;
      }
      rows := rows[b.jti := rows[b.jti].(status := after)];
      lastSeen := time;
      fault := Fault();
      v := if fault then Unavailable else Done;
    }

    method BeginExecution(b: Binding, now: nat) returns (v: Verdict)
      modifies this
      ensures Reported(Begin(old(Contents()), b, now), v, old(Contents()), Contents())
      ensures faultless ==> Begin(old(Contents()), b, now) == (v, Contents())
    {
      v := Move(b, Consumed, Executing, now);
    }

    method FinishExecution(b: Binding, now: nat) returns (v: Verdict)
      modifies this
      ensures Reported(Finish(old(Contents()), b, now), v, old(Contents()), Contents())
      ensures faultless ==> Finish(old(Contents()), b, now) == (v, Contents())
    {
      v := Move(b, Executing, Finished, now);
    }
  }

  function Later(a: nat, b: nat): nat {
    if b > a then b else a
  }

  /** The identities the cleanup leaves: not yet expired, or executing. */
  function Remaining(rows: map<Jti, Row>, time: nat): set<Jti> {
    set j | j in rows && (rows[j].retainUntil >= time || rows[j].status == Executing)
  }

  /** The run and attempt have a row already, under whatever identity. */
  predicate Used(rows: map<Jti, Row>, kept: set<Jti>, run: nat, attempt: nat)
    requires kept <= rows.Keys
  {
    exists j | j in kept :: rows[j].run == run && rows[j].attempt == attempt
  }

  lemma PurgeLeaves(rows: map<Jti, Row>, time: nat, b: Binding)
    ensures Purge(rows, time).Keys == Remaining(rows, time) && |Purge(rows, time)| == |Remaining(rows, time)|
    ensures Conflict(Purge(rows, time), b) <==>
      b.jti in Remaining(rows, time) || Used(rows, Remaining(rows, time), b.run, b.attempt)
  {
    assert Purge(rows, time).Keys == Remaining(rows, time);
  }

  /** What is left and the new row. */
  predicate Added(before: map<Jti, Row>, after: map<Jti, Row>, kept: set<Jti>, b: Binding, retainUntil: nat)
    requires kept <= before.Keys
  {
    && after.Keys == kept + {b.jti} && after[b.jti] == Row(retainUntil, b.hash, b.run, b.attempt, Consumed)
    && forall j <- kept | j != b.jti :: after[j] == before[j]
  }

  /** The row of exactly this request is in the state before, and still usable. */
  predicate Movable(rows: map<Jti, Row>, b: Binding, before: Status, time: nat) {
    && b.jti in rows && rows[b.jti].hash == b.hash && rows[b.jti].run == b.run && rows[b.jti].attempt == b.attempt
    && rows[b.jti].status == before && (before == Consumed ==> rows[b.jti].retainUntil >= time)
  }

  /** What a caller may be told of a transaction whose outcome is `spec`. */
  predicate Reported(spec: (Verdict, Store), v: Verdict, before: Store, after: Store) {
    match v
    case Done => spec == (Done, after)
    case Replayed => spec.0 == Replayed && after == before
    case Unavailable => after == before || spec == (Done, after)
  }
}
