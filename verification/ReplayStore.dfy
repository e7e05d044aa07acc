/** The durable replay store (`deployment/replay_sqlite.py`): one row per
    consumed identity, one-way states, a clock watermark, and expiry cleanup. */
module ReplayStore {
  import opened Wrappers

  const MAX_CLOCK_SKEW_SECONDS: nat := 30
  const MAXIMUM_ENTRIES: nat := 10_000

  type Jti = string
  type Digest = nat

  datatype Status = Consumed | Executing | Finished

  datatype Row = Row(retainUntil: nat, hash: Digest, run: nat, attempt: nat, status: Status)

  /** What every operation must match in full. */
  datatype Binding = Binding(jti: Jti, hash: Digest, run: nat, attempt: nat)

  datatype Store = Store(rows: map<Jti, Row>, lastSeen: nat)

  /** `None`, `ReplayError`, `ReplayUnavailableError`. */
  datatype Verdict = Done | Replayed | Unavailable

  function BindingOf(jti: Jti, row: Row): Binding {
    Binding(jti, row.hash, row.run, row.attempt)
  }

  /** The watermark after a sample, or none after a rollback beyond the skew. */
  function Advance(lastSeen: nat, now: nat): Option<nat> {
    if lastSeen > now + MAX_CLOCK_SKEW_SECONDS then None
    else Some(if now > lastSeen then now else lastSeen)
  }

  /** Expired consumed and finished rows go; an executing row never does. */
  function Purge(rows: map<Jti, Row>, time: nat): (out: map<Jti, Row>)
    ensures forall j :: j in out <==> j in rows && (rows[j].retainUntil >= time || rows[j].status == Executing)
    ensures forall j | j in out :: out[j] == rows[j]
  {
    map j | j in rows && (rows[j].retainUntil >= time || rows[j].status == Executing) :: rows[j]
  }

  predicate Conflict(rows: map<Jti, Row>, b: Binding) {
    b.jti in rows || exists j | j in rows :: rows[j].run == b.run && rows[j].attempt == b.attempt
  }

  /** The transaction of `consume`; anything but `Done` rolls back whole. */
  function Consume(s: Store, maximum: nat, b: Binding, retainUntil: nat, now: nat): (Verdict, Store) {
    var time := Advance(s.lastSeen, now);
    if time.None? then (Unavailable, s)
    else
      var rows := Purge(s.rows, time.value);
      if |rows| >= maximum then (Unavailable, s)
      else if retainUntil < time.value || Conflict(rows, b) then (Replayed, s)
      else (Done, Store(rows[b.jti := Row(retainUntil, b.hash, b.run, b.attempt, Consumed)], time.value))
  }

  /** The transaction of `begin_execution` (from `Consumed`) and `finish_execution`. */
  function Transition(s: Store, b: Binding, before: Status, after: Status, now: nat): (Verdict, Store) {
    var time := Advance(s.lastSeen, now);
    if time.None? then (Unavailable, s)
    else if b.jti in s.rows && BindingOf(b.jti, s.rows[b.jti]) == b && s.rows[b.jti].status == before
      && (before == Consumed ==> s.rows[b.jti].retainUntil >= time.value)
    then (Done, Store(s.rows[b.jti := s.rows[b.jti].(status := after)], time.value))
    else (Replayed, s)
  }

  function Begin(s: Store, b: Binding, now: nat): (Verdict, Store) {
    Transition(s, b, Consumed, Executing, now)
  }

  function Finish(s: Store, b: Binding, now: nat): (Verdict, Store) {
    Transition(s, b, Executing, Finished, now)
  }

  // ----- runs of the store --------------------------------------------------

  datatype Op =
    | OpConsume(b: Binding, retainUntil: nat, now: nat)
    | OpBegin(b: Binding, now: nat)
    | OpFinish(b: Binding, now: nat)

  function Apply(s: Store, maximum: nat, op: Op): (Verdict, Store) {
    match op
    case OpConsume(b, r, now) => Consume(s, maximum, b, r, now)
    case OpBegin(b, now) => Begin(s, b, now)
    case OpFinish(b, now) => Finish(s, b, now)
  }

  function ApplyAll(s: Store, maximum: nat, ops: seq<Op>): Store
    decreases |ops|
  {
    if ops == [] then s else ApplyAll(Apply(s, maximum, ops[0]).1, maximum, ops[1..])
  }

  /** The identity was consumed with this retention and is either still on
      record or past its retention on the watermark. */
  predicate Burned(s: Store, jti: Jti, retainUntil: nat) {
    (jti in s.rows && s.rows[jti].retainUntil >= retainUntil) || retainUntil < s.lastSeen
  }

  lemma BurnedStep(s: Store, maximum: nat, op: Op, jti: Jti, retainUntil: nat)
    requires Burned(s, jti, retainUntil)
    ensures Burned(Apply(s, maximum, op).1, jti, retainUntil)
  {
    if op.OpConsume? && Advance(s.lastSeen, op.now).Some? {
      var time := Advance(s.lastSeen, op.now).value;
      var rows := Purge(s.rows, time);
      assert jti in rows || retainUntil < time || retainUntil < s.lastSeen;
    }
  }

  /** No run of operations lets an identity be consumed again under the same or
      an earlier retention: cleanup and small clock rollbacks never resurrect it. */
  lemma {:induction false} ConsumedOnce(s: Store, maximum: nat, b: Binding, retainUntil: nat, now: nat,
                                        ops: seq<Op>, b': Binding, retainUntil': nat, now': nat)
    requires Consume(s, maximum, b, retainUntil, now).0 == Done
    requires b'.jti == b.jti && retainUntil' <= retainUntil
    ensures Consume(ApplyAll(Consume(s, maximum, b, retainUntil, now).1, maximum, ops), maximum, b', retainUntil', now').0 != Done
  {
    var s' := Consume(s, maximum, b, retainUntil, now).1;
    BurnedRun(s', maximum, ops, b.jti, retainUntil);
    StillBurned(ApplyAll(s', maximum, ops), maximum, b', retainUntil', now', retainUntil);
  }

  /** A later retention under the same identity is what would resurrect it: one
      tick after the first retention has passed the row is cleaned up and the
      identity is accepted again. Tokens must fix one expiry per identity. */
  lemma LongerRetentionResurrects(b: Binding, retainUntil: nat, retainUntil': nat, now: nat)
    requires now <= retainUntil < retainUntil'
    ensures var first := Consume(Store(map[], 0), MAXIMUM_ENTRIES, b, retainUntil, now);
      first.0 == Done && Consume(first.1, MAXIMUM_ENTRIES, b, retainUntil', retainUntil + 1).0 == Done
  {
    var s := Consume(Store(map[], 0), MAXIMUM_ENTRIES, b, retainUntil, now).1;
    assert Purge(map[], now) == map[];
    assert Purge(s.rows, retainUntil + 1) == map[];
  }

  lemma StillBurned(t: Store, maximum: nat, b: Binding, retainUntil: nat, now: nat, was: nat)
    requires Burned(t, b.jti, was) && retainUntil <= was
    ensures Consume(t, maximum, b, retainUntil, now).0 != Done
  {
  }

  lemma {:induction false} BurnedRun(s: Store, maximum: nat, ops: seq<Op>, jti: Jti, retainUntil: nat)
    requires Burned(s, jti, retainUntil)
    ensures Burned(ApplyAll(s, maximum, ops), jti, retainUntil)
    decreases |ops|
  {
    if ops != [] {
      BurnedStep(s, maximum, ops[0], jti, retainUntil);
      BurnedRun(Apply(s, maximum, ops[0]).1, maximum, ops[1..], jti, retainUntil);
    }
  }

  // ----- one row for a run and attempt ----------------------------------------

  /** A row for this run and attempt, retained at least this long. */
  predicate Held(s: Store, run: nat, attempt: nat, retainUntil: nat) {
    exists j | j in s.rows :: s.rows[j].run == run && s.rows[j].attempt == attempt && s.rows[j].retainUntil >= retainUntil
  }

  /** As `Burned`, for a run and attempt under whatever identity. */
  predicate Claimed(s: Store, run: nat, attempt: nat, retainUntil: nat) {
    Held(s, run, attempt, retainUntil) || retainUntil < s.lastSeen
  }

  lemma ClaimedStep(s: Store, maximum: nat, op: Op, run: nat, attempt: nat, retainUntil: nat)
    requires Claimed(s, run, attempt, retainUntil)
    ensures Claimed(Apply(s, maximum, op).1, run, attempt, retainUntil)
  {
    var s' := Apply(s, maximum, op).1;
    if s' != s && Held(s, run, attempt, retainUntil) {
      var j :| j in s.rows && s.rows[j].run == run && s.rows[j].attempt == attempt && s.rows[j].retainUntil >= retainUntil;
      if s.rows[j].retainUntil >= s'.lastSeen {
        assert j in s'.rows && s'.rows[j] == s.rows[j].(status := s'.rows[j].status);
      }
    }
  }

  lemma {:induction false} ClaimedRun(s: Store, maximum: nat, ops: seq<Op>, run: nat, attempt: nat, retainUntil: nat)
    requires Claimed(s, run, attempt, retainUntil)
    ensures Claimed(ApplyAll(s, maximum, ops), run, attempt, retainUntil)
    decreases |ops|
  {
    if ops != [] {
      ClaimedStep(s, maximum, ops[0], run, attempt, retainUntil);
      ClaimedRun(Apply(s, maximum, ops[0]).1, maximum, ops[1..], run, attempt, retainUntil);
    }
  }

  lemma StillClaimed(t: Store, maximum: nat, b: Binding, retainUntil: nat, now: nat, was: nat)
    requires Claimed(t, b.run, b.attempt, was) && retainUntil <= was
    ensures Consume(t, maximum, b, retainUntil, now).0 != Done
  {
    var time := Advance(t.lastSeen, now);
    if time.Some? && retainUntil >= time.value {
      var j :| j in t.rows && t.rows[j].run == b.run && t.rows[j].attempt == b.attempt && t.rows[j].retainUntil >= was;
      assert j in Purge(t.rows, time.value);
    }
  }

  /** No run of operations lets a second identity be consumed for a run and
      attempt, under the same or an earlier retention. */
  lemma AttemptConsumedOnce(s: Store, maximum: nat, b: Binding, retainUntil: nat, now: nat,
                            ops: seq<Op>, b': Binding, retainUntil': nat, now': nat)
    requires Consume(s, maximum, b, retainUntil, now).0 == Done
    requires b'.run == b.run && b'.attempt == b.attempt && retainUntil' <= retainUntil
    ensures Consume(ApplyAll(Consume(s, maximum, b, retainUntil, now).1, maximum, ops), maximum, b', retainUntil', now').0 != Done
  {
    var s' := Consume(s, maximum, b, retainUntil, now).1;
    assert s'.rows[b.jti].run == b.run;
    ClaimedRun(s', maximum, ops, b.run, b.attempt, retainUntil);
    StillClaimed(ApplyAll(s', maximum, ops), maximum, b', retainUntil', now', retainUntil);
  }

  /** No two rows share run and attempt. */
  predicate OneEach(s: Store) {
    forall j, k | j in s.rows && k in s.rows && s.rows[j].run == s.rows[k].run && s.rows[j].attempt == s.rows[k].attempt :: j == k
  }

  lemma OneEachStep(s: Store, maximum: nat, op: Op)
    requires OneEach(s)
    ensures OneEach(Apply(s, maximum, op).1)
  {
  }

  /** Every store reached from one without such a pair, as the empty one, has none. */
  lemma {:induction false} OneEachRun(s: Store, maximum: nat, ops: seq<Op>)
    requires OneEach(s)
    ensures OneEach(ApplyAll(s, maximum, ops))
    decreases |ops|
  {
    if ops != [] {
      OneEachStep(s, maximum, ops[0]);
      OneEachRun(Apply(s, maximum, ops[0]).1, maximum, ops[1..]);
    }
  }

  /** Burned, and not waiting to begin. */
  predicate Spent(s: Store, jti: Jti, retainUntil: nat) {
    Burned(s, jti, retainUntil) && (jti in s.rows ==> s.rows[jti].status != Consumed)
  }

  /** No consume in the run extends the identity's retention. */
  predicate KeepsRetention(ops: seq<Op>, jti: Jti, retainUntil: nat) {
    forall i | 0 <= i < |ops| && ops[i].OpConsume? && ops[i].b.jti == jti :: ops[i].retainUntil <= retainUntil
  }

  lemma SpentStep(s: Store, maximum: nat, op: Op, jti: Jti, retainUntil: nat)
    requires Spent(s, jti, retainUntil)
    requires op.OpConsume? && op.b.jti == jti ==> op.retainUntil <= retainUntil
    ensures Spent(Apply(s, maximum, op).1, jti, retainUntil)
  {
    BurnedStep(s, maximum, op, jti, retainUntil);
    if op.OpConsume? && op.b.jti == jti {
      StillBurned(s, maximum, op.b, op.retainUntil, op.now, retainUntil);
    }
  }

  lemma {:induction false} SpentRun(s: Store, maximum: nat, ops: seq<Op>, jti: Jti, retainUntil: nat)
    requires Spent(s, jti, retainUntil) && KeepsRetention(ops, jti, retainUntil)
    ensures Spent(ApplyAll(s, maximum, ops), jti, retainUntil)
    decreases |ops|
  {
    if ops != [] {
      SpentStep(s, maximum, ops[0], jti, retainUntil);
      assert forall i | 0 <= i < |ops[1..]| :: ops[1..][i] == ops[i + 1];
      SpentRun(Apply(s, maximum, ops[0]).1, maximum, ops[1..], jti, retainUntil);
    }
  }

  /** An execution begins at most once: after one successful begin no run of
      operations makes any begin of that identity succeed again. */
  lemma BegunOnce(s: Store, maximum: nat, b: Binding, now: nat, ops: seq<Op>, b': Binding, now': nat)
    requires Begin(s, b, now).0 == Done
    requires KeepsRetention(ops, b.jti, s.rows[b.jti].retainUntil)
    requires b'.jti == b.jti
    ensures Begin(ApplyAll(Begin(s, b, now).1, maximum, ops), b', now').0 != Done
  {
    SpentRun(Begin(s, b, now).1, maximum, ops, b.jti, s.rows[b.jti].retainUntil);
  }
}
