/** The three control-plane units and what they can do on their own
    (`AnalyticsServiceControl` in `deployment/analytics_service_recovery.py`).

    None of the services restarts by itself (`Restart=no` in their unit files);
    only the executor can start unasked, and only while its socket listens. */
module ServiceUnits {
  datatype Unit = Broker | Listener | Executor

  datatype Activity = Inactive | Broken | Active | Changing

  datatype UnitState = UnitState(activity: Activity, pid: nat, job: bool)

  datatype Units = Units(broker: UnitState, listener: UnitState, executor: UnitState)

  function At(s: Units, u: Unit): UnitState {
    match u
    case Broker => s.broker
    case Listener => s.listener
    case Executor => s.executor
  }

  /** What `require_stopped` reads as stopped; a socket has no main process. */
  predicate Stopped(s: Units, u: Unit) {
    var x := At(s, u);
    (x.activity == Inactive || x.activity == Broken) && (u == Listener || x.pid == 0) && !x.job
  }

  predicate AllStopped(s: Units) {
    Stopped(s, Broker) && Stopped(s, Listener) && Stopped(s, Executor)
  }

  /** Neither running, nor being changed, nor with a main process; a failed unit counts. */
  predicate AtRest(x: UnitState, socket: bool) {
    x.activity != Active && x.activity != Changing && !x.job && (x.pid == 0 || socket)
  }

  lemma AllStoppedIff(s: Units)
    ensures AllStopped(s) <==> AtRest(s.broker, false) && AtRest(s.listener, true) && AtRest(s.executor, false)
  {
  }

  /** Time passes: a stopped unit stays stopped, the executor only behind a stopped listener. */
  predicate Passes(s: Units, s': Units) {
    && (Stopped(s, Broker) ==> Stopped(s', Broker))
    && (Stopped(s, Listener) ==> Stopped(s', Listener))
    && (Stopped(s, Executor) && Stopped(s, Listener) ==> Stopped(s', Executor))
  }

  /** A start command: anything may happen, but nothing else starts a listener. */
  predicate Starts(s: Units, s': Units, u: Unit) {
    Stopped(s, Listener) && u != Listener ==> Stopped(s', Listener)
  }

  // ----- one-by-one checks as a snapshot ------------------------------------

  /** An order in which each unit is read once. */
  predicate ReadOrder(order: seq<Unit>) {
    |order| == 3 && order[0] != order[1] && order[1] != order[2] && order[0] != order[2]
  }

  /** The units at each read: each was found stopped, and time passed in between. */
  predicate Observed(order: seq<Unit>, states: seq<Units>) {
    && |states| == |order|
    && (forall i | 0 <= i < |order| :: Stopped(states[i], order[i]))
    && (forall i | 0 < i < |order| :: Passes(states[i - 1], states[i]))
  }

  /** Reading stopped one by one implies all stopped together at the last read. */
  ghost predicate IsSnapshot(order: seq<Unit>) {
    forall states :: Observed(order, states) && states != [] ==> AllStopped(states[|states| - 1])
  }

  predicate ListenerBeforeExecutor(order: seq<Unit>) {
    exists i, j | 0 <= i < j < |order| :: order[i] == Listener && order[j] == Executor
  }

  const IDLE: UnitState := UnitState(Inactive, 0, false)
  const BUSY: UnitState := UnitState(Active, 1, false)

  lemma ListenerComesLater(order: seq<Unit>, e: nat)
    requires ReadOrder(order) && !ListenerBeforeExecutor(order) && e == (if order[0] == Executor then 0 else 1)
    ensures order[e] == Executor
    ensures forall i | 0 <= i < e :: order[i] != Listener
  {
    var l :| 0 <= l < 3 && order[l] == Listener;
    var x :| 0 <= x < 3 && order[x] == Executor;
    assert x < l;
  }

  /** The order of the reads matters in exactly one respect. */
  lemma SnapshotIffListenerFirst(order: seq<Unit>)
    requires ReadOrder(order)
    ensures IsSnapshot(order) <==> ListenerBeforeExecutor(order)
  {
    if ListenerBeforeExecutor(order) {
      forall states | Observed(order, states) && states != [] ensures AllStopped(states[|states| - 1]) {
        assert Passes(states[0], states[1]) && Passes(states[1], states[2]);
        assert Stopped(states[0], order[0]) && Stopped(states[1], order[1]) && Stopped(states[2], order[2]);
      }
    } else {
      // The executor is read first, then the still open socket starts it again.
      var first, later := Units(IDLE, BUSY, IDLE), Units(IDLE, IDLE, BUSY);
      var e := if order[0] == Executor then 0 else 1;
      var states := seq(3, i requires 0 <= i < 3 => if i <= e then first else later);
      ListenerComesLater(order, e);
      assert Observed(order, states);
      assert !AllStopped(states[2]);
    }
  }
}
