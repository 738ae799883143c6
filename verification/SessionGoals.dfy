/** The wait that a client step asks for, and the end of bootstrapping. */
module SessionGoals {
  import opened Bytes
  import opened Session
  import opened SessionInvariant
  import opened SessionRuns

  // ----- the wake-up time

  lemma CreateKeepsServers(c: Client, peer: nat, reply: Reply, target: nat, env: Env)
    requires env.clock >= 0
    ensures var c' := Create(c, peer, reply, target, env).0;
            c'.servers == c.servers && c'.bootstrap == c.bootstrap && c'.state == c.state
  {}

  /** A wait that does not sleep past the next registration update of a server. */
  predicate UpdateInTime(s: Server, clock: int, wait: int)
  {
    s.status.Registered? && NextUpdate(s) > clock ==> wait <= NextUpdate(s) - clock
  }

  lemma UpdateIsLocal(c: Client, i: nat, withObjects: bool, env: Env)
    requires i < |c.servers| && env.clock >= 0
    ensures var c' := Update(c, i, withObjects, env);
            && c'.bootstrap == c.bootstrap && c'.state == c.state
            && (c'.servers == c.servers || c'.servers == c.servers[i := c.servers[i].(status := RegUpdatePending)])
  {
    CreateKeepsServers(c, c.servers[i].session, UpdateReply, c.servers[i].id, env);
    hide Create;
  }

  lemma {:induction false} RegistrationStepWaits(c: Client, i: nat, env: Env, wait: int)
    requires i <= |c.servers| && env.clock >= 0
    ensures var (c', w) := RegistrationStep(c, i, env, wait);
            && w <= wait && c'.bootstrap == c.bootstrap && c'.state == c.state
            && |c'.servers| == |c.servers|
            && (forall k :: 0 <= k < i ==> c'.servers[k] == c.servers[k])
            && (forall k :: i <= k < |c.servers| ==> UpdateInTime(c'.servers[k], env.clock, w))
    decreases |c.servers| - i
  {
    if i < |c.servers| {
      var s := c.servers[i];
      var interval := NextUpdate(s) - env.clock;
      UpdateIsLocal(c, i, false, env);
      UpdateIsLocal(c, i, true, env);
      hide Update;
      var c1, wait1 := c, wait;
      if s.status.RegUpdateNeeded? || (s.status.Registered? && interval <= 0) {
        c1 := Update(c, i, false, env);
      } else if s.status.RegFullUpdateNeeded? {
        c1 := Update(c, i, true, env);
      } else if s.status.RegFailed? {
        c1 := SetServer(c, i, s.(session := 0));
      } else if s.status.Registered? {
        wait1 := Min(interval, wait);
      }
      RegistrationStepWaits(c1, i + 1, env, wait1);
    }
  }

  /** Timeouts never make a server registered, nor start or prolong a bootstrap. */
  predicate OnlyFailed(s: Server, s': Server)
  {
    s' == s || s'.status in {RegFailed, Deregistered, BsFailing}
  }

  lemma {:induction false} TransactionStepFails(c: Client, todo: seq<Transaction>, env: Env, wait: int)
    ensures var c' := TransactionStep(c, todo, env, wait).0;
            && c'.state == c.state
            && |c'.servers| == |c.servers| && |c'.bootstrap| == |c.bootstrap|
            && (forall k :: 0 <= k < |c.servers| ==> OnlyFailed(c.servers[k], c'.servers[k]))
            && (forall k :: 0 <= k < |c.bootstrap| ==> OnlyFailed(c.bootstrap[k], c'.bootstrap[k]))
    decreases |todo|
  {
    if todo != [] {
      var t := todo[0];
      if t.time > env.clock {
        TransactionStepFails(c, todo[1..], env, Min(wait, Interval(t.time, env.clock)));
      } else {
        var (c1, sent) := Send(c, t, env);
        SendFails(c, t, env);
        hide Send;
        TransactionStepFails(c1, todo[1..], env,
          if sent then Min(wait, Interval(Resent(t, env.clock).time, env.clock)) else 1);
      }
    }
  }

  lemma SendFails(c: Client, t: Transaction, env: Env)
    ensures var c' := Send(c, t, env).0;
            && c'.state == c.state
            && |c'.servers| == |c.servers| && |c'.bootstrap| == |c.bootstrap|
            && (forall k :: 0 <= k < |c.servers| ==> OnlyFailed(c.servers[k], c'.servers[k]))
            && (forall k :: 0 <= k < |c.bootstrap| ==> OnlyFailed(c.bootstrap[k], c'.bootstrap[k]))
  {}

  predicate BootstrapInTime(s: Server, clock: int, wait: int)
  {
    (s.status.BsHoldOff? || s.status.BsPending?) && s.registration > clock ==> wait <= s.registration - clock
  }

  lemma RequestIsLocal(c: Client, i: nat, env: Env)
    requires i < |c.bootstrap| && env.clock >= 0
    ensures var c' := RequestBootstrap(c, i, env);
            && c'.servers == c.servers && c'.state == c.state && |c'.bootstrap| == |c.bootstrap|
            && (forall k :: 0 <= k < |c.bootstrap| && k != i ==> c'.bootstrap[k] == c.bootstrap[k])
            && var s, s' := c.bootstrap[i], c'.bootstrap[i];
               s'.id == s.id && s'.registration == s.registration
               && (s'.status == s.status || s'.status in {BsFailing, BsFailed, BsInitiated})
  {
    var s := c.bootstrap[i];
    var s1 := if s.session == 0 then s.(session := env.connect(s.id)) else s;
    CreateKeepsServers(SetBootstrap(c, i, s1), s1.session, BootstrapReply, s.id, env);
    hide Create;
  }

  /** A server that has accepted Bootstrap-Finish. */
  predicate Done(s: Server)
  {
    s.status.BsFinishing? || s.status.BsFinished?
  }

  predicate SameOrNotDone(s: Server, s': Server)
  {
    s'.id == s.id && (Done(s') ==> Done(s))
  }

  lemma {:induction false} BootstrapStepWaits(c: Client, i: nat, env: Env, wait: int)
    requires i <= |c.bootstrap| && env.clock >= 0
    ensures var (c', w) := BootstrapStep(c, i, env, wait);
            && w <= (if wait < 0 then 0 else wait) && c'.servers == c.servers && c'.state == c.state
            && |c'.bootstrap| == |c.bootstrap|
            && (forall k :: 0 <= k < i ==> c'.bootstrap[k] == c.bootstrap[k])
            && (forall k :: i <= k < |c.bootstrap| ==> BootstrapInTime(c'.bootstrap[k], env.clock, w))
            && (forall k :: i <= k < |c.bootstrap| ==> SameOrNotDone(c.bootstrap[k], c'.bootstrap[k]))
    decreases |c.bootstrap| - i
  {
    if i < |c.bootstrap| {
      var c1, wait1 := BootstrapOne(c, i, env, wait);
      BootstrapStepWaits(c1, i + 1, env, wait1);
      hide BootstrapStep;
      var (c', w) := BootstrapStep(c, i, env, wait);
      forall k | i <= k < |c.bootstrap|
        ensures BootstrapInTime(c'.bootstrap[k], env.clock, w) && SameOrNotDone(c.bootstrap[k], c'.bootstrap[k])
      {
        if k == i {
          assert c'.bootstrap[k] == c1.bootstrap[k];
        } else {
          assert c.bootstrap[k] == c1.bootstrap[k];
        }
      }
    }
  }

  /** One turn of the loop of xiny_bootstrap_step. */
  lemma BootstrapOne(c: Client, i: nat, env: Env, wait: int) returns (c1: Client, wait1: int)
    requires i < |c.bootstrap| && env.clock >= 0
    ensures |c1.bootstrap| == |c.bootstrap| && c1.servers == c.servers && c1.state == c.state
    ensures BootstrapStep(c, i, env, wait) == BootstrapStep(c1, i + 1, env, wait1)
    ensures wait1 <= (if wait < 0 then 0 else wait)
    ensures forall k :: 0 <= k < |c.bootstrap| && k != i ==> c1.bootstrap[k] == c.bootstrap[k]
    ensures SameOrNotDone(c.bootstrap[i], c1.bootstrap[i])
    ensures BootstrapInTime(c1.bootstrap[i], env.clock, if wait1 < 0 then 0 else wait1)
  {
    var s := c.bootstrap[i];
    RequestIsLocal(c, i, env);
    hide RequestBootstrap;
    c1, wait1 := c, wait;
    var due := s.registration <= env.clock;
    if s.status.BsHoldOff? && due {
      c1 := RequestBootstrap(c, i, env);
    } else if s.status.Deregistered? {
      c1 := SetBootstrap(c, i, s.(registration := env.clock + s.lifetime, status := BsHoldOff));
      wait1 := Min(s.lifetime, wait);
    } else if s.status.BsPending? && due {
      c1, wait1 := SetBootstrap(c, i, s.(status := BsFailing)), 0;
    } else if s.status.BsFinishing? {
      c1, wait1 := SetBootstrap(c, i, s.(session := 0, status := BsFinished)), 0;
    } else if s.status.BsFailing? {
      c1, wait1 := SetBootstrap(c, i, s.(session := 0, status := BsFailed)), 0;
    } else if s.status.BsHoldOff? || s.status.BsPending? {
      wait1 := Min(s.registration - env.clock, wait);
    }
  }

  lemma {:induction false} SettleWaits(c: Client, env: Env, wait: int)
    requires env.clock >= 0
    ensures var r := Settle(c, env, wait);
            r.code == 0 && r.client.state.Bootstrapping? ==>
              forall k :: 0 <= k < |r.client.bootstrap| ==> BootstrapInTime(r.client.bootstrap[k], env.clock, r.wait)
    decreases JumpsLeft(c.state)
  {
    hide BootstrapStep, RefreshServerList, BootstrapStart, RegistrationStart, RegistrationStatus, BootstrapStatus;
    match c.state {
      case Initial =>
        var c1 := RefreshServerList(c, env);
        SettleWaits(c1.(state := if c1.servers != [] then RegisterRequired else BootstrapRequired), env, wait);
      case BootstrapRequired => BootstrapStepWaits(BootstrapStart(c, env).(state := Bootstrapping), 0, env, wait);
      case Bootstrapping =>
        SettleWaits(c.(state := Initial), env, wait);
        BootstrapStepWaits(c, 0, env, wait);
      case RegisterRequired =>
      case _ =>
        var again := c.(state := BootstrapRequired);
        SettleWaits(again, env, wait);
        assert Settle(c, env, wait).client.state.Bootstrapping? ==> Settle(c, env, wait) == Jump(Settle(again, env, wait));
    }
  }

  /** When a client step succeeds, the wait it asks for reaches past no retransmission, no registration update that is
      still ahead and, while bootstrapping, no hold-off or bootstrap deadline that is still ahead. */
  lemma WakeUpIsSound(c: Client, env: Env, wait: int)
    requires Inv(c) && Step(c, env, wait).1 == 0
    ensures var (c', _, w) := Step(c, env, wait);
            && (forall t :: t in c'.transactions ==> w <= Interval(t.time, env.clock))
            && (forall k :: 0 <= k < |c'.servers| ==> UpdateInTime(c'.servers[k], env.clock, w))
            && (c'.state.Bootstrapping? ==>
                  forall k :: 0 <= k < |c'.bootstrap| ==> BootstrapInTime(c'.bootstrap[k], env.clock, w))
  {
    var r := Settle(c, env, wait);
    SettleKeeps(c, env, wait);
    SettleWaits(c, env, wait);
    var c1 := Observe(r.client, env);
    SameParts(r.client, c1);
    RegistrationStepKeeps(c1, 0, env, Min(r.wait, env.observeWait));
    RegistrationStepWaits(c1, 0, env, Min(r.wait, env.observeWait));
    var (c2, wait2) := RegistrationStep(c1, 0, env, Min(r.wait, env.observeWait));
    assert Distinct(c2.transactions);
    WaitBound(c2, c2.transactions, env, wait2);
    TransactionStepFails(c2, c2.transactions, env, wait2);
    var (c3, w) := TransactionStep(c2, c2.transactions, env, wait2);
    hide Inv, Settle, RegistrationStep, TransactionStep, Observe, NextUpdate;
    forall t | t in c3.transactions
      ensures w <= Interval(t.time, env.clock)
    {
      ServedFromBefore(c2, env, wait2, t);
    }
  }

  // ----- the end of bootstrapping

  /** The bootstrap servers are put back to DEREGISTERED by this step. */
  predicate Resets(c: Client, env: Env)
  {
    env.clock >= 0 &&
    match c.state
    case Initial => true
    case BootstrapRequired => true
    case Bootstrapping => BootstrapStatus(c.bootstrap).BsFinished?
    case RegisterRequired => false
    case _ => RegistrationStatus(c.servers).RegFailed?
  }

  predicate NoneDone(ss: seq<Server>)
  {
    forall k :: 0 <= k < |ss| ==> !Done(ss[k])
  }

  predicate HasDone(ss: seq<Server>, id: nat)
  {
    exists k :: 0 <= k < |ss| && Done(ss[k]) && ss[k].id == id
  }

  /** Whoever is done after was done before. */
  predicate DoneFrom(ss: seq<Server>, ss': seq<Server>)
  {
    forall k :: 0 <= k < |ss'| && Done(ss'[k]) ==> HasDone(ss, ss'[k].id)
  }

  predicate AllReset(ss: seq<Server>)
  {
    forall k :: 0 <= k < |ss| ==> ss[k].status.Deregistered?
  }

  lemma {:induction false} InsertServerReset(ss: seq<Server>, s: Server)
    requires AllReset(ss) && s.status.Deregistered?
    ensures AllReset(InsertServer(ss, s))
  {
    if ss != [] && ss[0].id <= s.id {
      InsertServerReset(ss[1..], s);
    }
  }

  lemma {:induction false} CleanResets(ss: seq<Server>)
    ensures AllReset(Clean(ss, true))
  {
    if ss != [] {
      var before, s := ss[..|ss| - 1], ss[|ss| - 1];
      CleanResets(before);
      if !s.dirty {
        InsertServerReset(Clean(before, true), s.(status := Deregistered));
      }
    }
  }

  lemma {:induction false} DiscoverResets(c: Client, found: seq<(bool, Server)>)
    requires AllReset(c.bootstrap)
    ensures AllReset(Discover(c, found).bootstrap)
    decreases |found|
  {
    if found != [] {
      var (isBootstrap, s0) := found[0];
      var s := s0.(status := Deregistered, session := 0, located := false, dirty := false);
      InsertServerReset(c.bootstrap, s);
      DiscoverResets(c, found[1..]);
      DiscoverResets(c.(bootstrap := InsertServer(c.bootstrap, s)), found[1..]);
      DiscoverResets(c.(servers := InsertServer(c.servers, s)), found[1..]);
    }
  }

  lemma {:induction false} InsertServerDone(ss: seq<Server>, s: Server)
    requires !Done(s)
    ensures DoneFrom(ss, InsertServer(ss, s))
  {
    if ss != [] && ss[0].id <= s.id {
      InsertServerDone(ss[1..], s);
      var r := InsertServer(ss[1..], s);
      forall k | 0 <= k < |[ss[0]] + r| && Done(([ss[0]] + r)[k])
        ensures HasDone(ss, ([ss[0]] + r)[k].id)
      {
        if k > 0 {
          var j :| 0 <= j < |ss[1..]| && Done(ss[1..][j]) && ss[1..][j].id == r[k - 1].id;
          assert ss[j + 1] == ss[1..][j];
        }
      }
    }
  }

  lemma {:induction false} DiscoverDone(c: Client, found: seq<(bool, Server)>)
    ensures DoneFrom(c.bootstrap, Discover(c, found).bootstrap)
    decreases |found|
  {
    if found != [] {
      var (isBootstrap, s0) := found[0];
      var s := s0.(status := Deregistered, session := 0, located := false, dirty := false);
      InsertServerDone(c.bootstrap, s);
      DiscoverDone(c, found[1..]);
      DiscoverDone(c.(bootstrap := InsertServer(c.bootstrap, s)), found[1..]);
      DiscoverDone(c.(servers := InsertServer(c.servers, s)), found[1..]);
    }
  }

  lemma BootstrapStepDone(c: Client, env: Env, wait: int)
    requires env.clock >= 0
    ensures DoneFrom(c.bootstrap, BootstrapStep(c, 0, env, wait).0.bootstrap)
    ensures NoneDone(c.bootstrap) ==> NoneDone(BootstrapStep(c, 0, env, wait).0.bootstrap)
  {
    BootstrapStepWaits(c, 0, env, wait);
    hide BootstrapStep;
    var c' := BootstrapStep(c, 0, env, wait).0;
    forall k | 0 <= k < |c'.bootstrap|
      ensures SameOrNotDone(c.bootstrap[k], c'.bootstrap[k])
    {}
  }

  lemma {:induction false} RegistrationStartDone(c: Client, i: nat, env: Env)
    requires i <= |c.servers| && env.clock >= 0
    ensures RegistrationStart(c, i, env).0.bootstrap == c.bootstrap
    decreases |c.servers| - i
  {
    if i < |c.servers| {
      if c.servers[i].status in {Deregistered, RegFailed} {
        RegisterIsLocal(c, i, env);
        hide Register;
        RegistrationStartDone(Register(c, i, env).0, i + 1, env);
      } else {
        RegistrationStartDone(c, i + 1, env);
      }
    }
  }

  lemma RegisterIsLocal(c: Client, i: nat, env: Env)
    requires i < |c.servers| && env.clock >= 0
    ensures Register(c, i, env).0.bootstrap == c.bootstrap
  {
    var s := c.servers[i];
    var s1 := if s.session == 0 then s.(session := env.connect(s.id)) else s;
    CreateKeepsServers(SetServer(c, i, s1), s1.session, RegisterReply, s.id, env);
    hide Create;
  }

  /** A resetting step leaves no server done; any other step leaves done only those that were. */
  lemma {:induction false} SettleDone(c: Client, env: Env, wait: int)
    requires env.clock >= 0
    ensures var ss := Settle(c, env, wait).client.bootstrap;
            if Resets(c, env) then NoneDone(ss) else DoneFrom(c.bootstrap, ss)
    decreases JumpsLeft(c.state)
  {
    hide BootstrapStep, Discover, Clean, RegistrationStart, RegistrationStatus, BootstrapStatus;
    match c.state {
      case Initial =>
        var c0 := c.(bootstrap := Clean(c.bootstrap, true), servers := Clean(c.servers, false));
        CleanResets(c.bootstrap);
        DiscoverResets(c0, env.discovered);
        var c1 := RefreshServerList(c, env);
        var c2 := c1.(state := if c1.servers != [] then RegisterRequired else BootstrapRequired);
        SettleDone(c2, env, wait);
        assert NoneDone(c1.bootstrap);
      case BootstrapRequired => BootstrapStepDone(BootstrapStart(c, env).(state := Bootstrapping), env, wait);
      case Bootstrapping =>
        SettleDone(c.(state := Initial), env, wait);
        BootstrapStepDone(c, env, wait);
      case RegisterRequired => RegistrationStartDone(c, 0, env);
      case Registering => SettleDone(c.(state := BootstrapRequired), env, wait);
      case Ready => SettleDone(c.(state := BootstrapRequired), env, wait);
    }
  }

  lemma StepDone(c: Client, env: Env, wait: int)
    ensures var ss := Step(c, env, wait).0.bootstrap;
            if Resets(c, env) then NoneDone(ss) else DoneFrom(c.bootstrap, ss)
  {
    if env.clock >= 0 {
      SettleDone(c, env, wait);
      var r := Settle(c, env, wait);
      if r.code == 0 {
        var c1 := Observe(r.client, env);
        RegistrationStepWaits(c1, 0, env, Min(r.wait, env.observeWait));
        var (c2, wait2) := RegistrationStep(c1, 0, env, Min(r.wait, env.observeWait));
        TransactionStepFails(c2, c2.transactions, env, wait2);
        hide Settle, RegistrationStep, TransactionStep, Resets;
        var ss := TransactionStep(c2, c2.transactions, env, wait2).0.bootstrap;
        assert forall k :: 0 <= k < |ss| && Done(ss[k]) ==> ss[k] == c2.bootstrap[k];
      }
    }
  }

  /** Since its last reset, this server accepted Bootstrap-Finish while it was BS_PENDING. */
  predicate FinishAccepted(c: Client, es: seq<Event>, id: nat)
  {
    if es == [] then false
    else
      var before, e := es[..|es| - 1], es[|es| - 1];
      var c1 := Run(c, before);
      if Accepts(c1, e, id) then true
      else if e.Tick? && Resets(c1, e.env) then false
      else FinishAccepted(c, before, id)
  }

  predicate Accepts(c: Client, e: Event, id: nat)
  {
    e.FinishCommand? && e.acceptable && e.i < |c.bootstrap|
    && c.bootstrap[e.i].id == id && c.bootstrap[e.i].status.BsPending?
  }

  lemma {:induction false} DoneWasAccepted(mid: u16, es: seq<Event>, id: nat)
    requires HasDone(Run(Fresh(mid), es).bootstrap, id)
    ensures FinishAccepted(Fresh(mid), es, id)
    decreases |es|
  {
    if es != [] {
      var before, e := es[..|es| - 1], es[|es| - 1];
      var c := Run(Fresh(mid), before);
      EventDone(c, e, id);
      hide Next;
      if HasDone(c.bootstrap, id) && !(e.Tick? && Resets(c, e.env)) {
        DoneWasAccepted(mid, before, id);
      }
    }
  }

  /** One event of that history. */
  lemma EventDone(c: Client, e: Event, id: nat)
    requires HasDone(Next(c, e).bootstrap, id)
    ensures Accepts(c, e, id) || (HasDone(c.bootstrap, id) && !(e.Tick? && Resets(c, e.env)))
  {
    match e {
      case Tick(env, wait) => StepDone(c, env, wait);
      case Receive(packet, from, at) => ReplyDone(c, packet, from, at);
      case AskUpdate(_, _, env) => DiscoverDone(c, env.discovered);
      case AskDeregister(i, env) => if i < |c.servers| { DeregisterDone(c, i, env); }
      case Command(i, result, tagged, at) =>
      case DeleteAll(i, tagged, at) =>
      case FinishCommand(i, acceptable) =>
    }
  }

  lemma ReplyDone(c: Client, p: Packet, from: nat, clock: int)
    ensures DoneFrom(c.bootstrap, HandleResponse(c, p, from, clock).bootstrap)
  {
    var i := FirstConcerned(c.transactions, p, from);
    if i < |c.transactions| {
      NotifyDone(c.bootstrap, c.transactions[i], Some(p), clock);
    }
  }

  lemma NotifyDone(ss: seq<Server>, t: Transaction, p: Option<Packet>, clock: int)
    ensures DoneFrom(ss, Notify(ss, t, p, clock))
  {
    var ss' := Notify(ss, t, p, clock);
    assert forall k :: 0 <= k < |ss'| && Done(ss'[k]) ==> ss[k] == ss'[k];
  }

  lemma DeregisterDone(c: Client, i: nat, env: Env)
    requires i < |c.servers|
    ensures DoneFrom(c.bootstrap, Deregister(c, i, env).bootstrap)
  {
    var c' := Deregister(c, i, env);
    assert forall k :: 0 <= k < |c'.bootstrap| && Done(c'.bootstrap[k]) ==> c.bootstrap[k] == c'.bootstrap[k];
  }

  /** Over every run, the client goes from BOOTSTRAPPING back to INITIAL only when some bootstrap server has accepted
      Bootstrap-Finish in BS_PENDING since its last reset and none is still in progress; a step leaves BOOTSTRAPPING
      in no other way, and it jumps at most twice. */
  lemma BootstrapCompletes(mid: u16, es: seq<Event>, env: Env, wait: int)
    requires Run(Fresh(mid), es).state.Bootstrapping? && env.clock >= 0
    ensures var c := Run(Fresh(mid), es);
            var r := Settle(c, env, wait);
            && r.jumps <= 2
            && (!r.client.state.Bootstrapping? ==> r.jumps > 0)
            && (r.jumps > 0 <==> BootstrapStatus(c.bootstrap).BsFinished?)
            && (r.jumps > 0 ==>
                  && (forall k :: 0 <= k < |c.bootstrap| ==> !InProgress(c.bootstrap[k].status))
                  && exists k :: 0 <= k < |c.bootstrap| && FinishAccepted(Fresh(mid), es, c.bootstrap[k].id))
  {
    var c := Run(Fresh(mid), es);
    BootstrapStepWaits(c, 0, env, wait);
    if BootstrapStatus(c.bootstrap).BsFinished? {
      var k :| 0 <= k < |c.bootstrap| && c.bootstrap[k].status.BsFinished?;
      assert HasDone(c.bootstrap, c.bootstrap[k].id);
      DoneWasAccepted(mid, es, c.bootstrap[k].id);
    }
  }
}
