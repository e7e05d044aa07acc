/** Any number of brokers and executors over one replay store, in every
    interleaving and with crashes anywhere
    (`AnalyticsPrivatePromotionBroker.authorize_and_forward`,
    `RestrictedDeploymentBroker._authorize`,
    `AnalyticsPrivilegedExecutor.execute_private`).

    A broker sends only after a consume that reported success. An executor may
    be handed any well-formed request at all: it trusts only its own begin. A
    store operation may commit and still be reported as unavailable. */
module ReplayProtocol {
  import opened Wrappers
  import opened ReplayStore

  datatype Request = Request(jti: Jti, run: nat, attempt: nat, body: string)

  /** What a verified token fixes for its identity. */
  datatype Token = Token(retainUntil: nat, run: nat, attempt: nat)

  datatype Config = Config(sha: Request -> Digest, tokens: Jti -> Token, maximum: nat)

  datatype Broker = Idle | Holding(req: Request)

  datatype Executor = Ready | Begun(req: Request) | Deploying(req: Request) | Deployed(req: Request) | Closed(req: Request)

  datatype Event =
    | Consumption(b: Binding)
    | Send(req: Request)
    | Beginning(req: Request)
    | DeployStart(req: Request)
    | DeployReturn(req: Request, ok: bool)
    | Finishing(req: Request)
    | Success(req: Request)

  datatype State = State(store: Store, brokers: map<nat, Broker>, executors: map<nat, Executor>, log: seq<Event>)

  /** What the caller of a store operation that could commit is told. */
  datatype Report = Told | Untold | RolledBack

  datatype Action =
    | BrokerConsume(p: nat, req: Request, now: nat, report: Report)
    | BrokerSend(p: nat)
    | BrokerCrash(p: nat)
    | ExecutorBegin(p: nat, req: Request, now: nat, report: Report)
    | ExecutorDeploy(p: nat)
    | ExecutorReturn(p: nat, ok: bool)
    | ExecutorFinish(p: nat, now: nat, report: Report)
    | ExecutorRespond(p: nat)
    | ExecutorCrash(p: nat)

  const INITIAL: State := State(Store(map[], 0), map[], map[], [])

  function BrokerAt(s: State, p: nat): Broker {
    if p in s.brokers then s.brokers[p] else Idle
  }

  function ExecutorAt(s: State, p: nat): Executor {
    if p in s.executors then s.executors[p] else Ready
  }

  function Bind(c: Config, req: Request): Binding {
    Binding(req.jti, c.sha(req), req.run, req.attempt)
  }

  /** `bind_analytics_request_to_identity`: the request carries its token's identity. */
  predicate BoundToToken(c: Config, req: Request) {
    c.tokens(req.jti).run == req.run && c.tokens(req.jti).attempt == req.attempt
  }

  /** One atomic step; an action that is not enabled changes nothing. */
  function Step(c: Config, s: State, a: Action): State {
    match a
    case BrokerConsume(p, req, now, report) =>
      if BrokerAt(s, p) != Idle || !BoundToToken(c, req) then s
      else
        var (verdict, store) := Consume(s.store, c.maximum, Bind(c, req), c.tokens(req.jti).retainUntil, now);
        if verdict != Done || report == RolledBack then s
        else
          var s' := s.(store := store, log := s.log + [Consumption(Bind(c, req))]);
          if report == Told then s'.(brokers := s.brokers[p := Holding(req)]) else s'
    case BrokerSend(p) =>
      if !BrokerAt(s, p).Holding? then s
      else s.(brokers := s.brokers[p := Idle], log := s.log + [Send(BrokerAt(s, p).req)])
    case BrokerCrash(p) =>
      s.(brokers := s.brokers[p := Idle])
    case ExecutorBegin(p, req, now, report) =>
      if ExecutorAt(s, p) != Ready then s
      else
        var (verdict, store) := Begin(s.store, Bind(c, req), now);
        if verdict != Done || report == RolledBack then s
        else
          var s' := s.(store := store, log := s.log + [Beginning(req)]);
          if report == Told then s'.(executors := s.executors[p := Begun(req)]) else s'
    case ExecutorDeploy(p) =>
      if !ExecutorAt(s, p).Begun? then s
      else
        var req := ExecutorAt(s, p).req;
        s.(executors := s.executors[p := Deploying(req)], log := s.log + [DeployStart(req)])
    case ExecutorReturn(p, ok) =>
      if !ExecutorAt(s, p).Deploying? then s
      else
        var req := ExecutorAt(s, p).req;
        s.(executors := s.executors[p := if ok then Deployed(req) else Ready], log := s.log + [DeployReturn(req, ok)])
    case ExecutorFinish(p, now, report) =>
      if !ExecutorAt(s, p).Deployed? then s
      else
        var req := ExecutorAt(s, p).req;
        var (verdict, store) := Finish(s.store, Bind(c, req), now);
        if verdict != Done || report == RolledBack then s.(executors := s.executors[p := Ready])
        else
          s.(store := store, log := s.log + [Finishing(req)],
             executors := s.executors[p := if report == Told then Closed(req) else Ready])
    case ExecutorRespond(p) =>
      if !ExecutorAt(s, p).Closed? then s
      else s.(executors := s.executors[p := Ready], log := s.log + [Success(ExecutorAt(s, p).req)])
    case ExecutorCrash(p) =>
      s.(executors := s.executors[p := Ready])
  }

  function Run(c: Config, s: State, actions: seq<Action>): State {
    if actions == [] then s
    else Step(c, Run(c, s, actions[..|actions| - 1]), actions[|actions| - 1])
  }

  // ----- what the log may say -----------------------------------------------

  function JtiOf(e: Event): Jti {
    if e.Consumption? then e.b.jti else e.req.jti
  }

  function Kind(e: Event): nat {
    match e
    case Consumption(_) => 0
    case Send(_) => 1
    case Beginning(_) => 2
    case DeployStart(_) => 3
    case DeployReturn(_, _) => 4
    case Finishing(_) => 5
    case Success(_) => 6
  }

  /** The event that must come first. */
  function Cause(c: Config, e: Event): Option<Event> {
    match e
    case Consumption(_) => None
    case Send(req) => Some(Consumption(Bind(c, req)))
    case Beginning(req) => Some(Consumption(Bind(c, req)))
    case DeployStart(req) => Some(Beginning(req))
    case DeployReturn(req, _) => Some(DeployStart(req))
    case Finishing(req) => Some(DeployReturn(req, true))
    case Success(req) => Some(Finishing(req))
  }

  /** Each kind of event happens at most once for one identity. */
  predicate OncePerIdentity(log: seq<Event>) {
    forall i, j | 0 <= i < j < |log| :: Kind(log[i]) == Kind(log[j]) ==> JtiOf(log[i]) != JtiOf(log[j])
  }

  predicate CausesComeFirst(c: Config, log: seq<Event>) {
    forall i | 0 <= i < |log| :: CausedAt(c, log, i)
  }

  predicate CausedAt(c: Config, log: seq<Event>, i: nat)
    requires i < |log|
  {
    Cause(c, log[i]).Some? ==> Cause(c, log[i]).value in log[..i]
  }

  predicate Absent(log: seq<Event>, kind: nat, jti: Jti) {
    forall i | 0 <= i < |log| :: Kind(log[i]) == kind ==> JtiOf(log[i]) != jti
  }

  lemma LogExtends(c: Config, log: seq<Event>, e: Event)
    requires OncePerIdentity(log) && CausesComeFirst(c, log)
    requires Absent(log, Kind(e), JtiOf(e))
    requires Cause(c, e).Some? ==> Cause(c, e).value in log
    ensures OncePerIdentity(log + [e]) && CausesComeFirst(c, log + [e])
  {
    var out := log + [e];
    forall i | 0 <= i < |out| ensures CausedAt(c, out, i) {
      if i < |log| {
        assert CausedAt(c, log, i);
        assert out[..i] == log[..i];
      } else {
        assert out[..i] == log;
      }
    }
  }

  // ----- the invariant ------------------------------------------------------

  predicate BrokerInv(c: Config, log: seq<Event>, b: Broker) {
    b.Holding? ==> Consumption(Bind(c, b.req)) in log && Absent(log, 1, b.req.jti)
  }

  predicate ExecutorInv(log: seq<Event>, x: Executor) {
    match x
    case Ready => true
    case Begun(req) =>
      Beginning(req) in log && Absent(log, 3, req.jti) && Absent(log, 4, req.jti)
      && Absent(log, 5, req.jti) && Absent(log, 6, req.jti)
    case Deploying(req) =>
      DeployStart(req) in log && Absent(log, 4, req.jti) && Absent(log, 5, req.jti) && Absent(log, 6, req.jti)
    case Deployed(req) => DeployReturn(req, true) in log && Absent(log, 5, req.jti) && Absent(log, 6, req.jti)
    case Closed(req) => Finishing(req) in log && Absent(log, 6, req.jti)
  }

  /** A row is what some consumption wrote; a begun identity has no fresh row. */
  predicate StoreInv(c: Config, store: Store, log: seq<Event>) {
    && (forall j | j in store.rows ::
      && store.rows[j].retainUntil == c.tokens(j).retainUntil
      && Consumption(BindingOf(j, store.rows[j])) in log
      && (store.rows[j].status == Consumed ==> Absent(log, 2, j)))
    && (forall i | 0 <= i < |log| && log[i].Consumption? ::
      Burned(store, log[i].b.jti, c.tokens(log[i].b.jti).retainUntil))
  }

  /** Two live processes never work for one identity. */
  predicate Apart(s: State) {
    && (forall p, q | p in s.brokers && q in s.brokers && p != q && s.brokers[p].Holding? && s.brokers[q].Holding? ::
      s.brokers[p].req.jti != s.brokers[q].req.jti)
    && (forall p, q | p in s.executors && q in s.executors && p != q && !s.executors[p].Ready? && !s.executors[q].Ready? ::
      s.executors[p].req.jti != s.executors[q].req.jti)
  }

  /** A live executor's identity was begun. */
  predicate Live(s: State) {
    && (forall p | p in s.brokers && s.brokers[p].Holding? :: !Absent(s.log, 0, s.brokers[p].req.jti))
    && (forall p | p in s.executors && !s.executors[p].Ready? :: !Absent(s.log, 2, s.executors[p].req.jti))
  }

  predicate Inv(c: Config, s: State) {
    && OncePerIdentity(s.log) && CausesComeFirst(c, s.log)
    && StoreInv(c, s.store, s.log)
    && Apart(s) && Live(s)
    && (forall p | p in s.brokers :: BrokerInv(c, s.log, s.brokers[p]))
    && (forall p | p in s.executors :: ExecutorInv(s.log, s.executors[p]))
  }

  // ----- every action keeps the invariant -----------------------------------

  lemma AbsentExtends(log: seq<Event>, e: Event, kind: nat, jti: Jti)
    requires Absent(log, kind, jti) && (Kind(e) != kind || JtiOf(e) != jti)
    ensures Absent(log + [e], kind, jti)
  {
  }

  /** What was never consumed was never sent or begun; what was never begun was never deployed. */
  lemma {:induction false} AbsentFollows(c: Config, log: seq<Event>, from: nat, kind: nat, jti: Jti)
    requires CausesComeFirst(c, log) && Absent(log, from, jti)
    requires (from == 0 && 0 < kind <= 6) || (from == 2 && 2 < kind <= 6) || (from == kind)
    ensures Absent(log, kind, jti)
    decreases kind
  {
    if from != kind {
      var before := if kind <= 2 then 0 else kind - 1;
      AbsentFollows(c, log, from, before, jti);
      forall i | 0 <= i < |log| && Kind(log[i]) == kind ensures JtiOf(log[i]) != jti {
        assert CausedAt(c, log, i);
        var k :| 0 <= k < i && log[k] == Cause(c, log[i]).value;
        assert Kind(log[k]) == before && JtiOf(log[k]) == JtiOf(log[i]);
      }
    }
  }

  lemma BrokerInvExtends(c: Config, log: seq<Event>, e: Event, b: Broker)
    requires BrokerInv(c, log, b) && (b.Holding? && Kind(e) == 1 ==> JtiOf(e) != b.req.jti)
    ensures BrokerInv(c, log + [e], b)
  {
  }

  lemma ExecutorInvExtends(log: seq<Event>, e: Event, x: Executor)
    requires ExecutorInv(log, x) && (!x.Ready? && Kind(e) >= 3 ==> JtiOf(e) != x.req.jti)
    ensures ExecutorInv(log + [e], x)
  {
  }

  lemma StoreInvExtends(c: Config, store: Store, log: seq<Event>, e: Event)
    requires StoreInv(c, store, log)
    requires !e.Consumption?
    requires e.Beginning? ==> JtiOf(e) in store.rows ==> store.rows[JtiOf(e)].status != Consumed
    ensures StoreInv(c, store, log + [e])
  {
    forall j | j in store.rows && store.rows[j].status == Consumed ensures Absent(log + [e], 2, j) {
      AbsentExtends(log, e, 2, j);
    }
  }

  /** A consume that reports success found the identity untouched. */
  lemma ConsumeIsFresh(c: Config, s: State, req: Request, now: nat)
    requires Inv(c, s)
    requires Consume(s.store, c.maximum, Bind(c, req), c.tokens(req.jti).retainUntil, now).0 == Done
    ensures Absent(s.log, 0, req.jti)
  {
    forall i | 0 <= i < |s.log| && Kind(s.log[i]) == 0 ensures JtiOf(s.log[i]) != req.jti {
      if JtiOf(s.log[i]) == req.jti {
        StillBurned(s.store, c.maximum, Bind(c, req), c.tokens(req.jti).retainUntil, now, c.tokens(req.jti).retainUntil);
      }
    }
  }

  lemma ConsumeStore(c: Config, s: State, req: Request, now: nat)
    requires Inv(c, s)
    requires Consume(s.store, c.maximum, Bind(c, req), c.tokens(req.jti).retainUntil, now).0 == Done
    ensures StoreInv(c, Consume(s.store, c.maximum, Bind(c, req), c.tokens(req.jti).retainUntil, now).1,
                     s.log + [Consumption(Bind(c, req))])
  {
    var retain := c.tokens(req.jti).retainUntil;
    var store := Consume(s.store, c.maximum, Bind(c, req), retain, now).1;
    var e := Consumption(Bind(c, req));
    ConsumeIsFresh(c, s, req, now);
    AbsentFollows(c, s.log, 0, 2, req.jti);
    AbsentExtends(s.log, e, 2, req.jti);
    forall j | j in store.rows
      ensures store.rows[j].retainUntil == c.tokens(j).retainUntil
      ensures Consumption(BindingOf(j, store.rows[j])) in s.log + [e]
      ensures store.rows[j].status == Consumed ==> Absent(s.log + [e], 2, j)
    {
      if j != req.jti && store.rows[j].status == Consumed {
        AbsentExtends(s.log, e, 2, j);
      }
    }
    var log := s.log + [e];
    forall i | 0 <= i < |log| && log[i].Consumption?
      ensures Burned(store, log[i].b.jti, c.tokens(log[i].b.jti).retainUntil)
    {
      if i < |s.log| {
        BurnedStep(s.store, c.maximum, OpConsume(Bind(c, req), retain, now), log[i].b.jti, c.tokens(log[i].b.jti).retainUntil);
      }
    }
  }

  lemma BrokerConsumeKeeps(c: Config, s: State, p: nat, req: Request, now: nat, report: Report)
    requires Inv(c, s)
    ensures Inv(c, Step(c, s, BrokerConsume(p, req, now, report)))
  {
    var s' := Step(c, s, BrokerConsume(p, req, now, report));
    if s' != s {
      var e := Consumption(Bind(c, req));
      ConsumeIsFresh(c, s, req, now);
      ConsumeStore(c, s, req, now);
      LogExtends(c, s.log, e);
      AbsentFollows(c, s.log, 0, 1, req.jti);
      AbsentExtends(s.log, e, 1, req.jti);
      LiveExtends(s, e);
      forall q | q in s.brokers ensures BrokerInv(c, s'.log, s.brokers[q]) {
        BrokerInvExtends(c, s.log, e, s.brokers[q]);
      }
      forall q | q in s.executors ensures ExecutorInv(s'.log, s.executors[q]) {
        ExecutorInvExtends(s.log, e, s.executors[q]);
      }
      assert s'.log[|s.log|] == e;
    }
  }

  lemma LiveExtends(s: State, e: Event)
    requires Live(s)
    ensures Live(s.(log := s.log + [e]))
  {
    forall p | p in s.brokers && s.brokers[p].Holding? ensures !Absent(s.log + [e], 0, s.brokers[p].req.jti) {
      var i :| 0 <= i < |s.log| && Kind(s.log[i]) == 0 && JtiOf(s.log[i]) == s.brokers[p].req.jti;
      assert (s.log + [e])[i] == s.log[i];
    }
    forall p | p in s.executors && !s.executors[p].Ready? ensures !Absent(s.log + [e], 2, s.executors[p].req.jti) {
      var i :| 0 <= i < |s.log| && Kind(s.log[i]) == 2 && JtiOf(s.log[i]) == s.executors[p].req.jti;
      assert (s.log + [e])[i] == s.log[i];
    }
  }

  lemma BrokerSendKeeps(c: Config, s: State, p: nat)
    requires Inv(c, s)
    ensures Inv(c, Step(c, s, BrokerSend(p)))
  {
    if BrokerAt(s, p).Holding? {
      var s' := Step(c, s, BrokerSend(p));
      var e := Send(BrokerAt(s, p).req);
      LogExtends(c, s.log, e);
      StoreInvExtends(c, s.store, s.log, e);
      LiveExtends(s, e);
      forall q | q in s.brokers && q != p ensures BrokerInv(c, s'.log, s.brokers[q]) {
        BrokerInvExtends(c, s.log, e, s.brokers[q]);
      }
      forall q | q in s.executors ensures ExecutorInv(s'.log, s.executors[q]) {
        ExecutorInvExtends(s.log, e, s.executors[q]);
      }
    }
  }

  /** A begin that committed, before anyone acts on it. */
  lemma BeginLogged(c: Config, s: State, req: Request, now: nat)
    requires Inv(c, s) && Begin(s.store, Bind(c, req), now).0 == Done
    ensures Inv(c, s.(store := Begin(s.store, Bind(c, req), now).1, log := s.log + [Beginning(req)]))
    ensures Absent(s.log, 2, req.jti)
  {
    var e := Beginning(req);
    assert Consumption(BindingOf(req.jti, s.store.rows[req.jti])) == Consumption(Bind(c, req));
    LogExtends(c, s.log, e);
    BeganStore(c, s, req, now);
    LiveExtends(s, e);
    forall q | q in s.brokers ensures BrokerInv(c, s.log + [e], s.brokers[q]) {
      BrokerInvExtends(c, s.log, e, s.brokers[q]);
    }
    forall q | q in s.executors ensures ExecutorInv(s.log + [e], s.executors[q]) {
      ExecutorInvExtends(s.log, e, s.executors[q]);
    }
  }

  lemma NobodyBegan(s: State, jti: Jti)
    requires Live(s) && Absent(s.log, 2, jti)
    ensures forall q | q in s.executors && !s.executors[q].Ready? :: s.executors[q].req.jti != jti
  {
  }

  /** The executor that is told takes the identity up. */
  lemma BegunTakesUp(c: Config, s: State, p: nat, req: Request)
    requires Inv(c, s) && ExecutorAt(s, p).Ready?
    requires Beginning(req) in s.log && ExecutorInv(s.log, Begun(req))
    requires forall q | q in s.executors && !s.executors[q].Ready? :: s.executors[q].req.jti != req.jti
    ensures Inv(c, s.(executors := s.executors[p := Begun(req)]))
  {
    var i :| 0 <= i < |s.log| && s.log[i] == Beginning(req);
    assert !Absent(s.log, 2, req.jti);
  }

  lemma ExecutorBeginKeeps(c: Config, s: State, p: nat, req: Request, now: nat, report: Report)
    requires Inv(c, s)
    ensures Inv(c, Step(c, s, ExecutorBegin(p, req, now, report)))
  {
    if ExecutorAt(s, p) == Ready && Begin(s.store, Bind(c, req), now).0 == Done && report != RolledBack {
      BeginLogged(c, s, req, now);
      var e := Beginning(req);
      var mid := s.(store := Begin(s.store, Bind(c, req), now).1, log := s.log + [e]);
      if report == Told {
        forall k | 3 <= k <= 6 ensures Absent(mid.log, k, req.jti) {
          AbsentFollows(c, s.log, 2, k, req.jti);
          AbsentExtends(s.log, e, k, req.jti);
        }
        assert mid.log[|s.log|] == e;
        NobodyBegan(s, req.jti);
        BegunTakesUp(c, mid, p, req);
      }
    }
  }

  lemma BeganStore(c: Config, s: State, req: Request, now: nat)
    requires Inv(c, s) && Begin(s.store, Bind(c, req), now).0 == Done
    ensures StoreInv(c, Begin(s.store, Bind(c, req), now).1, s.log + [Beginning(req)])
  {
    MovedStore(c, s, OpBegin(Bind(c, req), now));
    StoreInvExtends(c, Begin(s.store, Bind(c, req), now).1, s.log, Beginning(req));
  }

  lemma MovedStore(c: Config, s: State, op: Op)
    requires Inv(c, s) && !op.OpConsume?
    ensures StoreInv(c, Apply(s.store, c.maximum, op).1, s.log)
  {
    var store := Apply(s.store, c.maximum, op).1;
    forall i | 0 <= i < |s.log| && s.log[i].Consumption?
      ensures Burned(store, s.log[i].b.jti, c.tokens(s.log[i].b.jti).retainUntil)
    {
      BurnedStep(s.store, c.maximum, op, s.log[i].b.jti, c.tokens(s.log[i].b.jti).retainUntil);
    }
  }

  /** An executor logs its next event and moves on. */
  lemma ExecutorMoves(c: Config, s: State, p: nat, e: Event, store: Store, next: Executor)
    requires Inv(c, s) && !ExecutorAt(s, p).Ready?
    requires 3 <= Kind(e) && e.req == ExecutorAt(s, p).req
    requires Absent(s.log, Kind(e), JtiOf(e)) && Cause(c, e).value in s.log
    requires StoreInv(c, store, s.log)
    requires next.Ready? || next.req == e.req
    requires ExecutorInv(s.log + [e], next)
    ensures Inv(c, State(store, s.brokers, s.executors[p := next], s.log + [e]))
  {
    LogExtends(c, s.log, e);
    StoreInvExtends(c, store, s.log, e);
    LiveExtends(s, e);
    var log := s.log + [e];
    forall q | q in s.brokers ensures BrokerInv(c, log, s.brokers[q]) {
      BrokerInvExtends(c, s.log, e, s.brokers[q]);
    }
    forall q | q in s.executors && q != p ensures ExecutorInv(log, s.executors[q]) {
      ExecutorInvExtends(s.log, e, s.executors[q]);
    }
  }

  lemma ExecutorDeployKeeps(c: Config, s: State, p: nat)
    requires Inv(c, s)
    ensures Inv(c, Step(c, s, ExecutorDeploy(p)))
  {
    if ExecutorAt(s, p).Begun? {
      var req := ExecutorAt(s, p).req;
      ExecutorMoves(c, s, p, DeployStart(req), s.store, Deploying(req));
    }
  }

  lemma ExecutorReturnKeeps(c: Config, s: State, p: nat, ok: bool)
    requires Inv(c, s)
    ensures Inv(c, Step(c, s, ExecutorReturn(p, ok)))
  {
    if ExecutorAt(s, p).Deploying? {
      var req := ExecutorAt(s, p).req;
      ExecutorMoves(c, s, p, DeployReturn(req, ok), s.store, if ok then Deployed(req) else Ready);
    }
  }

  lemma FinishLogged(c: Config, s: State, p: nat, store: Store, next: Executor, now: nat)
    requires Inv(c, s) && ExecutorAt(s, p).Deployed?
    requires Finish(s.store, Bind(c, ExecutorAt(s, p).req), now) == (Done, store)
    requires next == Ready || next == Closed(ExecutorAt(s, p).req)
    ensures Inv(c, State(store, s.brokers, s.executors[p := next], s.log + [Finishing(ExecutorAt(s, p).req)]))
  {
    var req := ExecutorAt(s, p).req;
    var e := Finishing(req);
    MovedStore(c, s, OpFinish(Bind(c, req), now));
    AbsentExtends(s.log, e, 6, req.jti);
    assert (s.log + [e])[|s.log|] == e;
    ExecutorMoves(c, s, p, e, store, next);
  }

  lemma ExecutorFinishKeeps(c: Config, s: State, p: nat, now: nat, report: Report)
    requires Inv(c, s)
    ensures Inv(c, Step(c, s, ExecutorFinish(p, now, report)))
  {
    if ExecutorAt(s, p).Deployed? {
      var req := ExecutorAt(s, p).req;
      var (verdict, store) := Finish(s.store, Bind(c, req), now);
      if verdict == Done && report != RolledBack {
        FinishLogged(c, s, p, store, if report == Told then Closed(req) else Ready, now);
      } else {
        ExecutorStops(c, s, p);
      }
    }
  }

  lemma ExecutorRespondKeeps(c: Config, s: State, p: nat)
    requires Inv(c, s)
    ensures Inv(c, Step(c, s, ExecutorRespond(p)))
  {
    if ExecutorAt(s, p).Closed? {
      var e := Success(ExecutorAt(s, p).req);
      assert Step(c, s, ExecutorRespond(p)) == State(s.store, s.brokers, s.executors[p := Ready], s.log + [e]);
      assert Cause(c, e).value in s.log && Absent(s.log, 6, JtiOf(e));
      ExecutorMoves(c, s, p, e, s.store, Ready);
    }
  }

  lemma ExecutorStops(c: Config, s: State, p: nat)
    requires Inv(c, s)
    ensures Inv(c, s.(executors := s.executors[p := Ready]))
  {
  }

  lemma BrokerStops(c: Config, s: State, p: nat)
    requires Inv(c, s)
    ensures Inv(c, s.(brokers := s.brokers[p := Idle]))
  {
  }

  lemma StepKeeps(c: Config, s: State, a: Action)
    requires Inv(c, s)
    ensures Inv(c, Step(c, s, a))
  {
    match a
    case BrokerConsume(p, req, now, report) => BrokerConsumeKeeps(c, s, p, req, now, report);
    case BrokerSend(p) => BrokerSendKeeps(c, s, p);
    case BrokerCrash(p) => BrokerStops(c, s, p);
    case ExecutorBegin(p, req, now, report) => ExecutorBeginKeeps(c, s, p, req, now, report);
    case ExecutorDeploy(p) => ExecutorDeployKeeps(c, s, p);
    case ExecutorReturn(p, ok) => ExecutorReturnKeeps(c, s, p, ok);
    case ExecutorFinish(p, now, report) => ExecutorFinishKeeps(c, s, p, now, report);
    case ExecutorRespond(p) => ExecutorRespondKeeps(c, s, p);
    case ExecutorCrash(p) => ExecutorStops(c, s, p);
  }

  lemma {:induction false} RunKeeps(c: Config, actions: seq<Action>)
    ensures Inv(c, Run(c, INITIAL, actions))
  {
    if actions != [] {
      RunKeeps(c, actions[..|actions| - 1]);
      StepKeeps(c, Run(c, INITIAL, actions[..|actions| - 1]), actions[|actions| - 1]);
    }
  }

  // ----- single use ---------------------------------------------------------

  /** At most one transport send and one deploy start per identity, in every
      interleaving of any number of brokers and executors with crashes. */
  lemma SingleUse(c: Config, actions: seq<Action>, i: nat, j: nat)
    requires i < j < |Run(c, INITIAL, actions).log|
    ensures var log := Run(c, INITIAL, actions).log;
      && (log[i].Send? && log[j].Send? ==> log[i].req.jti != log[j].req.jti)
      && (log[i].DeployStart? && log[j].DeployStart? ==> log[i].req.jti != log[j].req.jti)
  {
    RunKeeps(c, actions);
  }

  lemma CauseAt(c: Config, log: seq<Event>, i: nat) returns (k: nat)
    requires CausesComeFirst(c, log) && i < |log| && Cause(c, log[i]).Some?
    ensures k < i && log[k] == Cause(c, log[i]).value
  {
    assert CausedAt(c, log, i);
    k :| 0 <= k < i && log[..i][k] == Cause(c, log[i]).value;
  }

  /** A success answer was preceded, in this order, by a consumption of exactly
      this request hash, its begin, one deploy that returned cleanly, and its finish. */
  lemma SuccessHistory(c: Config, actions: seq<Action>, i: nat)
    returns (consumed: nat, began: nat, started: nat, returned: nat, finished: nat)
    requires i < |Run(c, INITIAL, actions).log| && Run(c, INITIAL, actions).log[i].Success?
    ensures var log, req := Run(c, INITIAL, actions).log, Run(c, INITIAL, actions).log[i].req;
      && consumed < began < started < returned < finished < i
      && log[consumed] == Consumption(Bind(c, req)) && log[began] == Beginning(req)
      && log[started] == DeployStart(req) && log[returned] == DeployReturn(req, true)
      && log[finished] == Finishing(req)
  {
    RunKeeps(c, actions);
    var log := Run(c, INITIAL, actions).log;
    finished := CauseAt(c, log, i);
    returned := CauseAt(c, log, finished);
    started := CauseAt(c, log, returned);
    began := CauseAt(c, log, started);
    consumed := CauseAt(c, log, began);
  }

  /** Nothing is sent or deployed but what a broker consumed, under that very
      hash; with an injective hash that is one request per identity. */
  lemma OnlyConsumedIsUsed(c: Config, actions: seq<Action>, i: nat, j: nat)
    requires forall x, y :: c.sha(x) == c.sha(y) ==> x == y
    requires i < |Run(c, INITIAL, actions).log| && j < |Run(c, INITIAL, actions).log|
    requires Run(c, INITIAL, actions).log[i].Send? && Run(c, INITIAL, actions).log[j].DeployStart?
    requires Run(c, INITIAL, actions).log[i].req.jti == Run(c, INITIAL, actions).log[j].req.jti
    ensures Run(c, INITIAL, actions).log[i].req == Run(c, INITIAL, actions).log[j].req
  {
    RunKeeps(c, actions);
    var log := Run(c, INITIAL, actions).log;
    var a := CauseAt(c, log, i);
    var began := CauseAt(c, log, j);
    var b := CauseAt(c, log, began);
    assert a == b;
  }

  // ----- only for the token's own workflow run ---------------------------------------

  function RunOf(e: Event): (nat, nat) {
    if e.Consumption? then (e.b.run, e.b.attempt) else (e.req.run, e.req.attempt)
  }

  /** The event is of the workflow run and attempt its token was issued for. */
  predicate OfToken(c: Config, e: Event) {
    RunOf(e) == (c.tokens(JtiOf(e)).run, c.tokens(JtiOf(e)).attempt)
  }

  lemma StepConsumes(c: Config, s: State, a: Action)
    ensures s.log <= Step(c, s, a).log
    ensures forall i | |s.log| <= i < |Step(c, s, a).log| :: Step(c, s, a).log[i].Consumption? ==> OfToken(c, Step(c, s, a).log[i])
  {
  }

  lemma {:induction false} ConsumedIsOfToken(c: Config, actions: seq<Action>, i: nat)
    requires i < |Run(c, INITIAL, actions).log| && Run(c, INITIAL, actions).log[i].Consumption?
    ensures OfToken(c, Run(c, INITIAL, actions).log[i])
  {
    if actions != [] {
      var s := Run(c, INITIAL, actions[..|actions| - 1]);
      StepConsumes(c, s, actions[|actions| - 1]);
      if i < |s.log| {
        ConsumedIsOfToken(c, actions[..|actions| - 1], i);
      }
    }
  }

  /** Whatever is consumed, sent, begun, deployed, finished or answered, in any run. */
  lemma {:induction false} AllIsOfToken(c: Config, actions: seq<Action>, i: nat)
    requires i < |Run(c, INITIAL, actions).log|
    ensures OfToken(c, Run(c, INITIAL, actions).log[i])
    decreases i
  {
    var log := Run(c, INITIAL, actions).log;
    RunKeeps(c, actions);
    if log[i].Consumption? {
      ConsumedIsOfToken(c, actions, i);
    } else {
      var k := CauseAt(c, log, i);
      AllIsOfToken(c, actions, k);
    }
  }

  // ----- success is reachable -------------------------------------------------------

  lemma RunSnoc(c: Config, s: State, actions: seq<Action>, a: Action)
    ensures Run(c, s, actions + [a]) == Step(c, Run(c, s, actions), a)
  {
    assert (actions + [a])[..|actions|] == actions;
  }

  /** Everything one request goes through. */
  function Whole(c: Config, req: Request): seq<Event> {
    [Consumption(Bind(c, req)), Send(req), Beginning(req), DeployStart(req), DeployReturn(req, true), Finishing(req), Success(req)]
  }

  function Held(c: Config, req: Request): State {
    var row := Row(c.tokens(req.jti).retainUntil, c.sha(req), req.run, req.attempt, Consumed);
    State(Store(map[req.jti := row], 0), map[0 := Holding(req)], map[], [Consumption(Bind(c, req))])
  }

  lemma FirstConsume(c: Config, req: Request)
    requires BoundToToken(c, req) && c.maximum > 0
    ensures Step(c, INITIAL, BrokerConsume(0, req, 0, Told)) == Held(c, req)
  {
    assert Purge(map[], 0) == map[];
  }

  lemma Delivered(c: Config, req: Request) returns (actions: seq<Action>)
    requires BoundToToken(c, req) && c.maximum > 0
    ensures Run(c, INITIAL, actions) ==
      Held(c, req).(brokers := map[0 := Idle], log := Whole(c, req)[..2])
  {
    FirstConsume(c, req);
    actions := [BrokerConsume(0, req, 0, Told)];
    assert actions[..0] == [];
    RunSnoc(c, INITIAL, actions, BrokerSend(0));
    actions := actions + [BrokerSend(0)];
    assert Held(c, req).brokers[0 := Idle] == map[0 := Idle];
  }

  lemma Installs(c: Config, req: Request) returns (actions: seq<Action>)
    requires BoundToToken(c, req) && c.maximum > 0
    ensures var s := Run(c, INITIAL, actions);
      && s.log == Whole(c, req)[..5] && ExecutorAt(s, 0) == Deployed(req)
      && Finish(s.store, Bind(c, req), 0).0 == Done
  {
    actions := Delivered(c, req);
    RunSnoc(c, INITIAL, actions, ExecutorBegin(0, req, 0, Told));
    actions := actions + [ExecutorBegin(0, req, 0, Told)];
    RunSnoc(c, INITIAL, actions, ExecutorDeploy(0));
    actions := actions + [ExecutorDeploy(0)];
    RunSnoc(c, INITIAL, actions, ExecutorReturn(0, true));
    actions := actions + [ExecutorReturn(0, true)];
  }

  /** With nobody else about, any request bound to its token gets to its success answer. */
  lemma SuccessIsReachable(c: Config, req: Request) returns (actions: seq<Action>)
    requires BoundToToken(c, req) && c.maximum > 0
    ensures Run(c, INITIAL, actions).log == Whole(c, req)
  {
    actions := Installs(c, req);
    RunSnoc(c, INITIAL, actions, ExecutorFinish(0, 0, Told));
    actions := actions + [ExecutorFinish(0, 0, Told)];
    RunSnoc(c, INITIAL, actions, ExecutorRespond(0));
    actions := actions + [ExecutorRespond(0)];
  }
}
