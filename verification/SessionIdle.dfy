/** When a client step returns early and serves no transaction: exactly in the idle states, and these last. */
module SessionIdle {
  import opened Bytes
  import opened Session
  import opened SessionInvariant
  import opened SessionRuns

  /** Nothing is registered or being registered and there is no bootstrap server to ask, or bootstrapping has failed. */
  predicate Idles(c: Client)
  {
    match c.state
    case BootstrapRequired => c.bootstrap == []
    case Registering => c.bootstrap == [] && RegistrationStatus(c.servers).RegFailed?
    case Ready => c.bootstrap == [] && RegistrationStatus(c.servers).RegFailed?
    case Bootstrapping => BootstrapStatus(c.bootstrap).BsFailed?
    case _ => false
  }

  /** The state does not make this step refresh the server list or send the first registrations, which may fail by itself. */
  predicate Calm(c: Client)
  {
    c.state in {BootstrapRequired, Registering, Ready} || (c.state.Bootstrapping? && !BootstrapStatus(c.bootstrap).BsFinished?)
  }

  /** A step returns an error, before it serves the transactions, exactly in the idle states. */
  lemma StepFailsIff(c: Client, env: Env, wait: int)
    requires env.clock >= 0 && Calm(c)
    ensures Step(c, env, wait).1 != 0 <==> Idles(c)
  {
    hide BootstrapStep, RegistrationStep, TransactionStep, RegistrationStatus, BootstrapStatus, BootstrapStart, Observe;
    var c1 := c.(state := BootstrapRequired);
    assert Settle(c1, env, wait).code != 0 <==> c.bootstrap == [];
  }

  /** A step in an idle state leaves everything but the state of the client, and leaves it idle. */
  lemma IdleStep(c: Client, env: Env, wait: int)
    requires Idles(c)
    ensures var c' := Step(c, env, wait).0; Idles(c') && c' == c.(state := c'.state)
  {
    hide BootstrapStep, RegistrationStep, TransactionStep, RegistrationStatus, BootstrapStatus, BootstrapStart, Observe;
    var c1 := c.(state := BootstrapRequired);
    assert c.bootstrap == [] ==> Settle(c1, env, wait) == Settled(c1, COAP_503_SERVICE_UNAVAILABLE, wait, 0);
  }

  predicate OnlyTicks(es: seq<Event>)
  {
    forall i :: 0 <= i < |es| ==> es[i].Tick?
  }

  /** From an idle state no number of steps changes a server, serves a transaction or sends or calls anything. */
  lemma {:induction false} IdleForEver(c: Client, es: seq<Event>)
    requires Idles(c) && OnlyTicks(es)
    ensures var c' := Run(c, es); Idles(c') && c' == c.(state := c'.state)
  {
    if es != [] {
      var before, e := es[..|es| - 1], es[|es| - 1];
      IdleForEver(c, before);
      hide Idles, Step;
      IdleStep(Run(c, before), e.env, e.wait);
    }
  }

  /** Which steps past a deadline count: all in calm states with a running clock, except the idle ones. */
  lemma OverdueStepsCount(c: Client, es: seq<Event>, uid: nat)
    requires es != []
    ensures var before, e := es[..|es| - 1], es[|es| - 1];
            var c1 := Run(c, before);
            e.Tick? && e.env.clock >= 0 && Calm(c1) && DueAt(c1, uid, e.env.clock) ==>
              OverdueSteps(c, es, uid) == OverdueSteps(c, before, uid) + if Idles(c1) then 0 else 1
  {
    var e := es[|es| - 1];
    var c1 := Run(c, es[..|es| - 1]);
    hide Step, Idles, Calm, Run;
    if e.Tick? && e.env.clock >= 0 && Calm(c1) {
      StepFailsIff(c1, e.env, e.wait);
    }
  }

  /** A client that is ready, has no bootstrap server and deregisters from its only server is stranded: the request is sent
      once, and no number of steps repeats it, gives it up or moves the server out of DEREG_PENDING. */
  lemma DeregisterStrands(c: Client, env: Env, es: seq<Event>)
    requires c.state.Ready? && c.bootstrap == [] && |c.servers| == 1 && OnlyTicks(es)
    requires c.servers[0].status.Registered? && c.servers[0].located && c.servers[0].session != 0
    requires env.clock >= 0 && env.encodable(c.nextMid)
    ensures var c1 := Deregister(c, 0, env); var c' := Run(c1, es);
            && c1.servers[0].status.DeregPending? && Idles(c1) && c1.log == c.log + [Transmitted(c.born)]
            && c'.servers == c1.servers && c'.transactions == c1.transactions && c'.log == c1.log
  {
    var c1 := Deregister(c, 0, env);
    hide Insert, Replace;
    assert c1.servers == [c.servers[0].(status := DeregPending)];
    assert Idles(c1);
    hide Deregister;
    IdleForEver(c1, es);
  }

  // ----- a run that gets there

  /** A server as the Security object describes it, and an event of a client that can connect and send at time 0. */
  const NewServer := Server(1, 1, 86400, 0, Deregistered, 0, false, false)

  function Calls(wait: int): (env: Env)
  {
    Env(0, _ => 5, _ => true, true, [(false, NewServer)], true, 0, wait)
  }

  function Request(uid: nat, mid: u16, reply: Reply): (t: Transaction)
  {
    Transaction(uid, mid, 5, Token(mid, 0), false, 2, RESPONSE_TIMEOUT, true, reply, 1)
  }

  function With(state: ClientState, s: Server, ts: seq<Transaction>, mid: u16, born: nat, log: seq<Output>): (c: Client)
  {
    Client(state, [], [s], ts, mid, born, log)
  }

  /** The first step discovers the server and sends its registration. */
  lemma FirstTick(mid: u16)
    requires mid < 65534
    ensures Step(Fresh(mid), Calls(100), 100).0 ==
            With(Registering, NewServer.(session := 5, status := RegPending), [Request(0, mid, RegisterReply)], mid + 1, 1,
                 [Transmitted(0)])
  {
    var env := Calls(100);
    var c := Fresh(mid);
    var found := env.discovered;
    assert found[1..] == [];
    var c1 := c.(servers := [NewServer]);
    assert Discover(c, found) == Discover(c1, []) == c1;
    assert RefreshServerList(c, env) == c1;
    var c2 := With(RegisterRequired, NewServer.(session := 5, status := RegPending), [Request(0, mid, RegisterReply)],
                   mid + 1, 1, [Transmitted(0)]);
    FirstRegister(mid);
    assert RegistrationStart(c1.(state := RegisterRequired), 0, env) == RegistrationStart(c2, 1, env) == (c2, COAP_NO_ERROR);
    hide Discover, Register, Token, RefreshServerList;
    assert Settle(c1.(state := RegisterRequired), env, 100) == Settled(c2.(state := Registering), 0, 100, 0);
    assert Settle(c, env, 100) == Settled(c2.(state := Registering), 0, 100, 1);
    NothingDue(c2.(state := Registering), env);
  }

  lemma FirstRegister(mid: u16)
    requires mid < 65534
    ensures Register(With(RegisterRequired, NewServer, [], mid, 0, []), 0, Calls(100)) ==
            (With(RegisterRequired, NewServer.(session := 5, status := RegPending), [Request(0, mid, RegisterReply)], mid + 1, 1,
                  [Transmitted(0)]), COAP_NO_ERROR)
  {
    hide Token;
    var t := Transaction(0, mid, 5, Token(mid, 0), false, 0, 0, false, RegisterReply, 1);
    var env, s1 := Calls(100), NewServer.(session := 5);
    var c1 := With(RegisterRequired, s1, [], mid, 0, []);
    assert SetServer(With(RegisterRequired, NewServer, [], mid, 0, []), 0, s1) == c1;
    assert Insert([], t) == [t];
    assert Replace([t], Request(0, mid, RegisterReply)) == [Request(0, mid, RegisterReply)];
    assert Resent(t, 0) == Request(0, mid, RegisterReply);
    var c2 := With(RegisterRequired, s1, [Request(0, mid, RegisterReply)], mid + 1, 1, [Transmitted(0)]);
    assert [] + [Transmitted(0)] == [Transmitted(0)];
    assert Send(With(RegisterRequired, s1, [t], mid + 1, 1, []), t, env) == (c2, true);
    assert Create(c1, 5, RegisterReply, 1, env) == (c2, Sent);
    assert SetServer(c2, 0, s1.(status := RegPending)).servers == [s1.(status := RegPending)];
  }

  /** No server wants an update and no transaction is due. */
  lemma NothingDue(c: Client, env: Env)
    requires |c.servers| == 1 && env.clock == 0 && env.notified == 0 && c.nextMid < 65535
    requires c.servers[0].status.RegPending? || (c.servers[0].status.Registered? && NextUpdate(c.servers[0]) > 0)
    requires |c.transactions| <= 1 && forall t :: t in c.transactions ==> t.time > 0
    ensures forall wait :: TransactionStep(RegistrationStep(Observe(c, env), 0, env, wait).0,
                                           RegistrationStep(Observe(c, env), 0, env, wait).0.transactions, env,
                                           RegistrationStep(Observe(c, env), 0, env, wait).1).0 == c
  {
    assert Observe(c, env) == c;
    forall wait
      ensures RegistrationStep(c, 0, env, wait).0 == c
    {}
    forall wait
      ensures TransactionStep(c, c.transactions, env, wait).0 == c
    {
      if c.transactions != [] {
        assert c.transactions[0] in c.transactions && c.transactions[1..] == [];
      }
    }
  }

  /** Discovery, registration, its answer, a step that finds the client ready, and the call to deregister. */
  function StrandingRun(mid: u16): (es: seq<Event>)
  {
    [Tick(Calls(100), 100), Receive(Packet(Ack, COAP_201_CREATED, mid, Token(mid, 0)), 5, 0), Tick(Calls(100), 100),
     AskDeregister(0, Calls(100))]
  }

  /** After it, whatever number of steps follows, the server is in DEREG_PENDING and its request outstanding. */
  lemma StrandedForEver(mid: u16, ticks: seq<Event>)
    requires mid < 65533 && OnlyTicks(ticks)
    ensures var c := Run(Run(Fresh(mid), StrandingRun(mid)), ticks);
            && |c.servers| == 1 && c.servers[0].status.DeregPending?
            && |c.transactions| == 1 && c.transactions[0].time == RESPONSE_TIMEOUT && SentCount(c.log, 1) == 1
  {
    var c0 := Fresh(mid);
    FirstTick(mid);
    var registered := NewServer.(session := 5, status := Registered, located := true);
    var c1 := Step(c0, Calls(100), 100).0;
    Answer(mid);
    var c2 := With(Registering, registered, [], mid + 1, 1, [Transmitted(0), CalledBack(0)]);
    Settles(c2);
    var c3 := c2.(state := Ready);
    RunFour(c0, StrandingRun(mid), c1, c2, c3);
    hide Run, Step, HandleResponse;
    DeregisterStrands(c3, Calls(100), ticks);
    var c4 := Deregister(c3, 0, Calls(100));
    LastRequest(c3);
  }

  lemma Answer(mid: u16)
    requires mid < 65534
    ensures HandleResponse(With(Registering, NewServer.(session := 5, status := RegPending), [Request(0, mid, RegisterReply)],
                                mid + 1, 1, [Transmitted(0)]),
                           Packet(Ack, COAP_201_CREATED, mid, Token(mid, 0)), 5, 0) ==
            With(Registering, NewServer.(session := 5, status := Registered, located := true), [], mid + 1, 1,
                 [Transmitted(0), CalledBack(0)])
  {
    var t, p := Request(0, mid, RegisterReply), Packet(Ack, COAP_201_CREATED, mid, Token(mid, 0));
    assert Concerns(p, 5, t);
    assert FirstConcerned([t], p, 5) == 0;
    assert Kept(t, p, 5, 0).None?;
    assert Drop([t], 0) == [];
  }

  lemma Settles(c: Client)
    requires c.state.Registering? && |c.servers| == 1 && c.servers[0].status.Registered? && NextUpdate(c.servers[0]) > 0
    requires c.transactions == [] && c.nextMid < 65535
    ensures Step(c, Calls(100), 100).0 == c.(state := Ready)
  {
    assert IsRegistered(c.servers[0].status);
    assert RegistrationStatus(c.servers).Registered?;
    NothingDue(c.(state := Ready), Calls(100));
    hide RegistrationStep, TransactionStep;
  }

  lemma RunFour(c0: Client, es: seq<Event>, c1: Client, c2: Client, c3: Client)
    requires |es| == 4 && Next(c0, es[0]) == c1 && Next(c1, es[1]) == c2 && Next(c2, es[2]) == c3
    ensures Run(c0, es) == Next(c3, es[3])
  {
    hide Next;
    assert es[..3][..2] == es[..2] && es[..2][..1] == es[..1] && es[..1][..0] == [];
    assert Run(c0, es[..1]) == Next(Run(c0, es[..1][..0]), es[0]);
    assert Run(c0, es[..2]) == Next(Run(c0, es[..2][..1]), es[1]);
    assert Run(c0, es[..3]) == Next(Run(c0, es[..3][..2]), es[2]);
  }

  lemma LastRequest(c: Client)
    requires |c.servers| == 1 && c.servers[0].status.Registered? && c.servers[0].located && c.servers[0].session == 5
    requires c.transactions == [] && c.born == 1 && c.log == [Transmitted(0), CalledBack(0)]
    ensures var c' := Deregister(c, 0, Calls(100));
            |c'.transactions| == 1 && c'.transactions[0].time == RESPONSE_TIMEOUT && SentCount(c'.log, 1) == 1
  {
    var t := Transaction(1, c.nextMid, 5, Token(c.nextMid, 0), false, 0, 0, false, DeregisterReply, c.servers[0].id);
    assert Insert([], t) == [t];
    assert |Replace([t], Resent(t, 0))| == 1;
  }
}
