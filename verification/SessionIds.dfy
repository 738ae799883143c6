/** Server ids are distinct over both lists in every reachable state, so that finding the server of a callback by id is
    following the pointer that the transaction holds. */
module SessionIds {
  import opened Bytes
  import opened Session
  import opened SessionInvariant
  import opened SessionList

  predicate HasId(ss: seq<Server>, id: nat)
  {
    exists i :: 0 <= i < |ss| && ss[i].id == id
  }

  predicate DistinctIds(ss: seq<Server>)
  {
    forall i, j :: 0 <= i < j < |ss| ==> ss[i].id != ss[j].id
  }

  predicate Apart(ss: seq<Server>, rs: seq<Server>)
  {
    forall i, j :: 0 <= i < |ss| && 0 <= j < |rs| ==> ss[i].id != rs[j].id
  }

  predicate UniqueIds(c: Client)
  {
    DistinctIds(c.servers) && DistinctIds(c.bootstrap) && Apart(c.servers, c.bootstrap)
  }

  // ----- what keeps all ids where they are

  predicate SameServers(c: Client, c': Client)
  {
    SameIds(c.servers, c'.servers) && SameIds(c.bootstrap, c'.bootstrap)
  }

  lemma SameKeeps(c: Client, c': Client)
    requires UniqueIds(c) && SameServers(c, c')
    ensures UniqueIds(c')
  {}

  lemma SameChain(a: Client, b: Client, c: Client)
    ensures SameServers(a, b) && SameServers(b, c) ==> SameServers(a, c)
  {}

  lemma CreateSame(c: Client, peer: nat, reply: Reply, target: nat, env: Env)
    ensures SameServers(c, Create(c, peer, reply, target, env).0)
  {
    hide Send, Insert;
    var t := Transaction(c.born, c.nextMid, peer, Token(c.nextMid, env.clock), false, 0, 0, false, reply, target);
    SendKeepsIds(c.(nextMid := (c.nextMid + 1) % 0x1_0000, transactions := Insert(c.transactions, t), born := c.born + 1),
                 t, env);
  }

  lemma RegisterSame(c: Client, i: nat, env: Env)
    requires i < |c.servers|
    ensures SameServers(c, Register(c, i, env).0)
  {
    hide Create;
    var s := c.servers[i];
    var s1 := if s.session == 0 then s.(session := env.connect(s.id)) else s;
    CreateSame(SetServer(c, i, s1), s1.session, RegisterReply, s.id, env);
  }

  lemma UpdateSame(c: Client, i: nat, withObjects: bool, env: Env)
    requires i < |c.servers|
    ensures SameServers(c, Update(c, i, withObjects, env))
  {
    hide Create;
    CreateSame(c, c.servers[i].session, UpdateReply, c.servers[i].id, env);
  }

  lemma DeregisterSame(c: Client, i: nat, env: Env)
    requires i < |c.servers|
    ensures SameServers(c, Deregister(c, i, env))
  {
    hide Create;
    CreateSame(c, c.servers[i].session, DeregisterReply, c.servers[i].id, env);
  }

  lemma RequestSame(c: Client, i: nat, env: Env)
    requires i < |c.bootstrap|
    ensures SameServers(c, RequestBootstrap(c, i, env))
  {
    hide Create;
    var s := c.bootstrap[i];
    var s1 := if s.session == 0 then s.(session := env.connect(s.id)) else s;
    CreateSame(SetBootstrap(c, i, s1), s1.session, BootstrapReply, s.id, env);
  }

  lemma {:induction false} RegistrationStartSame(c: Client, i: nat, env: Env)
    requires i <= |c.servers|
    ensures SameServers(c, RegistrationStart(c, i, env).0)
    decreases |c.servers| - i
  {
    hide Register;
    if i < |c.servers| {
      RegisterSame(c, i, env);
      var c1 := Register(c, i, env).0;
      RegistrationStartSame(c1, i + 1, env);
      RegistrationStartSame(c, i + 1, env);
      SameChain(c, c1, RegistrationStart(c1, i + 1, env).0);
    }
  }

  lemma {:induction false} RegistrationStepSame(c: Client, i: nat, env: Env, wait: int)
    requires i <= |c.servers|
    ensures SameServers(c, RegistrationStep(c, i, env, wait).0)
    decreases |c.servers| - i
  {
    hide Update;
    if i < |c.servers| {
      var s := c.servers[i];
      var interval := NextUpdate(s) - env.clock;
      var c1, w := c, wait;
      if s.status.RegFullUpdateNeeded? {
        UpdateSame(c, i, true, env);
        c1 := Update(c, i, true, env);
      } else if s.status.RegUpdateNeeded? || (s.status.Registered? && interval <= 0) {
        UpdateSame(c, i, false, env);
        c1 := Update(c, i, false, env);
      } else if s.status.RegFailed? {
        c1 := SetServer(c, i, s.(session := 0));
      } else if s.status.Registered? {
        w := Min(interval, wait);
      }
      RegistrationStepSame(c1, i + 1, env, w);
      assert RegistrationStep(c, i, env, wait) == RegistrationStep(c1, i + 1, env, w);
      SameChain(c, c1, RegistrationStep(c1, i + 1, env, w).0);
    }
  }

  lemma {:induction false} BootstrapStepSame(c: Client, i: nat, env: Env, wait: int)
    requires i <= |c.bootstrap|
    ensures SameServers(c, BootstrapStep(c, i, env, wait).0)
    decreases |c.bootstrap| - i
  {
    hide RequestBootstrap;
    if i < |c.bootstrap| {
      var s := c.bootstrap[i];
      var due := s.registration <= env.clock;
      var c1, w := c, wait;
      if s.status.BsHoldOff? && due {
        RequestSame(c, i, env);
        c1 := RequestBootstrap(c, i, env);
      } else if s.status.Deregistered? {
        c1 := SetBootstrap(c, i, s.(registration := env.clock + s.lifetime, status := BsHoldOff));
        w := Min(s.lifetime, wait);
      } else if s.status.BsPending? && due {
        c1, w := SetBootstrap(c, i, s.(status := BsFailing)), 0;
      } else if s.status.BsFinishing? {
        c1, w := SetBootstrap(c, i, s.(session := 0, status := BsFinished)), 0;
      } else if s.status.BsFailing? {
        c1, w := SetBootstrap(c, i, s.(session := 0, status := BsFailed)), 0;
      } else if s.status.BsHoldOff? || s.status.BsPending? {
        w := Min(s.registration - env.clock, wait);
      }
      BootstrapStepSame(c1, i + 1, env, w);
      assert BootstrapStep(c, i, env, wait) == BootstrapStep(c1, i + 1, env, w);
      SameChain(c, c1, BootstrapStep(c1, i + 1, env, w).0);
    }
  }

  lemma {:induction false} TransactionStepSame(c: Client, todo: seq<Transaction>, env: Env, wait: int)
    ensures SameServers(c, TransactionStep(c, todo, env, wait).0)
    decreases |todo|
  {
    hide Send;
    if todo != [] {
      var t := todo[0];
      var (c1, sent) := Send(c, t, env);
      SendKeepsIds(c, t, env);
      TransactionStepSame(c, todo[1..], env, Min(wait, Interval(t.time, env.clock)));
      var w := if sent then Min(wait, Interval(Resent(t, env.clock).time, env.clock)) else 1;
      TransactionStepSame(c1, todo[1..], env, w);
      SameChain(c, c1, TransactionStep(c1, todo[1..], env, w).0);
    }
  }

  lemma ResponseSame(c: Client, p: Packet, from: nat, clock: int)
    ensures SameServers(c, HandleResponse(c, p, from, clock))
  {}

  lemma {:induction false} UpdateRegistrationSame(ss: seq<Server>, shortId: nat, withObjects: bool)
    ensures SameIds(ss, UpdateRegistration(ss, shortId, withObjects).0)
    decreases |ss|
  {
    if ss != [] {
      var rest := UpdateRegistration(ss[1..], shortId, withObjects).0;
      UpdateRegistrationSame(ss[1..], shortId, withObjects);
      assert forall i :: 0 < i < |ss| ==> ss[i].id == ss[1..][i - 1].id == rest[i - 1].id;
    }
  }

  // ----- what rebuilds the lists

  lemma {:induction false} InsertServerIds(ss: seq<Server>, s: Server)
    requires DistinctIds(ss) && !HasId(ss, s.id)
    ensures DistinctIds(InsertServer(ss, s))
    ensures forall id :: HasId(InsertServer(ss, s), id) <==> id == s.id || HasId(ss, id)
    decreases |ss|
  {
    InsertServerMembers(ss, s);
    var r := InsertServer(ss, s);
    IdsByMembers(ss, r, s);
    if ss != [] && ss[0].id <= s.id {
      var rest := ss[1..];
      assert forall i :: 0 <= i < |rest| ==> rest[i] == ss[i + 1];
      InsertServerIds(rest, s);
      var r' := InsertServer(rest, s);
      assert !HasId(rest, ss[0].id) && ss[0].id != s.id;
      forall i, j | 0 <= i < j < |r|
        ensures r[i].id != r[j].id
      {
        assert r[j] == r'[j - 1];
        if i == 0 {
          assert !HasId(r', ss[0].id);
        } else {
          assert r[i] == r'[i - 1];
        }
      }
    } else {
      assert forall j :: 0 < j < |r| ==> r[j] == ss[j - 1];
    }
  }

  lemma IdsByMembers(ss: seq<Server>, r: seq<Server>, s: Server)
    requires forall x :: x in r <==> x == s || x in ss
    ensures forall id :: HasId(r, id) <==> id == s.id || HasId(ss, id)
  {
    forall id
      ensures HasId(r, id) <==> id == s.id || HasId(ss, id)
    {
      if HasId(r, id) {
        var i :| 0 <= i < |r| && r[i].id == id;
        assert r[i] in r;
      }
      if HasId(ss, id) {
        var i :| 0 <= i < |ss| && ss[i].id == id;
        assert ss[i] in r;
      }
      assert s in r;
    }
  }

  lemma {:induction false} CleanIds(ss: seq<Server>, reset: bool)
    requires DistinctIds(ss)
    ensures DistinctIds(Clean(ss, reset)) && forall id :: HasId(Clean(ss, reset), id) ==> HasId(ss, id)
    decreases |ss|
  {
    if ss != [] {
      var before, s := ss[..|ss| - 1], ss[|ss| - 1];
      CleanIds(before, reset);
      assert !HasId(before, s.id) && forall id :: HasId(before, id) ==> HasId(ss, id);
      var kept := if reset then s.(status := Deregistered) else s;
      if !s.dirty {
        InsertServerIds(Clean(before, reset), kept);
      }
      assert HasId(ss, s.id);
      hide HasId, DistinctIds, InsertServer;
    }
  }

  lemma ApartIff(ss: seq<Server>, rs: seq<Server>)
    ensures Apart(ss, rs) <==> forall id :: !(HasId(ss, id) && HasId(rs, id))
  {
    if forall id :: !(HasId(ss, id) && HasId(rs, id)) {
      forall i, j | 0 <= i < |ss| && 0 <= j < |rs|
        ensures ss[i].id != rs[j].id
      {
        assert HasId(ss, ss[i].id) && HasId(rs, rs[j].id);
      }
    }
  }

  lemma RebuiltIds(c: Client)
    requires UniqueIds(c)
    ensures UniqueIds(c.(bootstrap := Clean(c.bootstrap, true), servers := Clean(c.servers, false)))
  {
    CleanIds(c.bootstrap, true);
    CleanIds(c.servers, false);
    ApartIff(c.servers, c.bootstrap);
    ApartIff(Clean(c.servers, false), Clean(c.bootstrap, true));
    hide HasId, DistinctIds, Clean, Apart;
  }

  lemma {:induction false} DiscoverIds(c: Client, found: seq<(bool, Server)>)
    requires UniqueIds(c)
    ensures UniqueIds(Discover(c, found))
    decreases |found|
  {
    if found != [] {
      var (isBootstrap, s0) := found[0];
      var s := s0.(status := Deregistered, session := 0, located := false, dirty := false);
      var known := HasId(c.bootstrap, s.id) || HasId(c.servers, s.id);
      var c1 := if known then c
                else if isBootstrap then c.(bootstrap := InsertServer(c.bootstrap, s))
                else c.(servers := InsertServer(c.servers, s));
      if !known {
        AddedIds(c, s, isBootstrap);
      }
      DiscoverIds(c1, found[1..]);
      assert Discover(c, found) == Discover(c1, found[1..]);
    }
  }

  lemma AddedIds(c: Client, s: Server, isBootstrap: bool)
    requires UniqueIds(c) && !HasId(c.bootstrap, s.id) && !HasId(c.servers, s.id)
    ensures UniqueIds(if isBootstrap then c.(bootstrap := InsertServer(c.bootstrap, s))
                      else c.(servers := InsertServer(c.servers, s)))
  {
    ApartIff(c.servers, c.bootstrap);
    InsertServerIds(c.bootstrap, s);
    InsertServerIds(c.servers, s);
    ApartIff(c.servers, InsertServer(c.bootstrap, s));
    ApartIff(InsertServer(c.servers, s), c.bootstrap);
    hide HasId, DistinctIds, InsertServer, Apart;
  }

  // ----- steps and runs

  lemma {:induction false} SettleIds(c: Client, env: Env, wait: int)
    requires UniqueIds(c)
    ensures UniqueIds(Settle(c, env, wait).client)
    decreases JumpsLeft(c.state)
  {
    hide UniqueIds, BootstrapStep, Discover, Clean, RegistrationStart, RegistrationStatus, BootstrapStatus, BootstrapStart,
         SameServers;
    match c.state {
      case Initial =>
        RebuiltIds(c);
        DiscoverIds(c.(bootstrap := Clean(c.bootstrap, true), servers := Clean(c.servers, false)), env.discovered);
        var c1 := RefreshServerList(c, env);
        var c2 := c1.(state := if c1.servers != [] then RegisterRequired else BootstrapRequired);
        StateIds(c1, c2);
        SettleIds(c2, env, wait);
      case BootstrapRequired =>
        var c1 := BootstrapStart(c, env).(state := Bootstrapping);
        StartSame(c, env);
        BootstrapStepSame(c1, 0, env, wait);
        SameKeeps(c, c1);
        SameKeeps(c1, BootstrapStep(c1, 0, env, wait).0);
      case Bootstrapping =>
        StateIds(c, c.(state := Initial));
        SettleIds(c.(state := Initial), env, wait);
        BootstrapStepSame(c, 0, env, wait);
        SameKeeps(c, BootstrapStep(c, 0, env, wait).0);
      case RegisterRequired =>
        RegistrationStartSame(c, 0, env);
        var c1 := RegistrationStart(c, 0, env).0;
        SameKeeps(c, c1);
        StateIds(c1, c1.(state := Registering));
      case _ =>
        StateIds(c, c.(state := Ready));
        StateIds(c, c.(state := BootstrapRequired));
        SettleIds(c.(state := BootstrapRequired), env, wait);
    }
  }

  lemma StateIds(c: Client, c': Client)
    requires UniqueIds(c) && c'.servers == c.servers && c'.bootstrap == c.bootstrap
    ensures UniqueIds(c')
  {}

  lemma StartSame(c: Client, env: Env)
    ensures SameServers(c, BootstrapStart(c, env).(state := Bootstrapping))
  {}

  lemma StepIds(c: Client, env: Env, wait: int)
    requires UniqueIds(c)
    ensures UniqueIds(Step(c, env, wait).0)
  {
    var r := Settle(c, env, wait);
    SettleIds(c, env, wait);
    var c1 := Observe(r.client, env);
    StateIds(r.client, c1);
    var w := Min(r.wait, env.observeWait);
    RegistrationStepSame(c1, 0, env, w);
    var (c2, w2) := RegistrationStep(c1, 0, env, w);
    TransactionStepSame(c2, c2.transactions, env, w2);
    hide UniqueIds, SameServers, Settle, RegistrationStep, TransactionStep;
    SameKeeps(c1, c2);
    SameKeeps(c2, TransactionStep(c2, c2.transactions, env, w2).0);
  }

  lemma NextIds(c: Client, e: Event)
    requires UniqueIds(c)
    ensures UniqueIds(Next(c, e))
  {
    hide UniqueIds, Step, HandleResponse, Discover, UpdateRegistration, Deregister;
    match e
    case Tick(env, wait) => StepIds(c, env, wait);
    case Receive(packet, from, at) =>
      ResponseSame(c, packet, from, at);
      SameKeeps(c, HandleResponse(c, packet, from, at));
    case AskUpdate(shortId, withObjects, env) =>
      DiscoverIds(c, env.discovered);
      UpdateRegistrationSame(c.servers, shortId, withObjects);
      SameKeeps(c, c.(servers := UpdateRegistration(c.servers, shortId, withObjects).0));
    case AskDeregister(i, env) =>
      if i < |c.servers| {
        DeregisterSame(c, i, env);
        SameKeeps(c, Deregister(c, i, env));
      }
    case Command(i, result, tagged, at) => SameKeeps(c, Next(c, e));
    case DeleteAll(i, tagged, at) => SameKeeps(c, Next(c, e));
    case FinishCommand(i, acceptable) => SameKeeps(c, Next(c, e));
  }

  /** In every reachable state server ids are distinct within and between the two lists. */
  lemma {:induction false} IdsAreUnique(mid: u16, es: seq<Event>)
    ensures UniqueIds(Run(Fresh(mid), es))
  {
    if es != [] {
      hide UniqueIds, Next;
      IdsAreUnique(mid, es[..|es| - 1]);
      NextIds(Run(Fresh(mid), es[..|es| - 1]), es[|es| - 1]);
    }
  }

  /** So the callback of a transaction concerns one server at most, as the pointer in the source does. */
  lemma CallbackHasOneTarget(mid: u16, es: seq<Event>, t: Transaction, packet: Option<Packet>, clock: int)
    ensures var c := Run(Fresh(mid), es);
            var all, all' := c.servers + c.bootstrap,
                             Notify(c.servers, t, packet, clock) + Notify(c.bootstrap, t, packet, clock);
            && |all'| == |all|
            && forall i, j :: 0 <= i < |all| && 0 <= j < |all| && all[i].id == t.target && i != j ==> all'[j] == all[j]
  {
    IdsAreUnique(mid, es);
    hide Answered, Run;
  }
}
