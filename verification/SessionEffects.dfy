/** What each operation on the servers does, stated by status and numbers: registering, deregistering, asking for updates,
    bootstrapping, and the states of the client. */
module SessionEffects {
  import opened Bytes
  import opened Session
  import opened SessionInvariant
  import opened SessionRuns
  import opened SessionGoals
  import opened SessionRefresh

  function Peer(s: Server, env: Env): (peer: nat)
  {
    if s.session != 0 then s.session else env.connect(s.id)
  }

  // ----- registering

  /** Registering one server: 5.00 if the texts cannot be made, 5.03 if there is no connection or no message, and otherwise one
      request and a server that waits for its answer. */
  lemma RegisterEffect(c: Client, i: nat, env: Env)
    requires Numbered(c) && env.clock >= 0 && i < |c.servers|
    ensures var s, (c', code) := c.servers[i], Register(c, i, env);
            var peer := Peer(s, env);
            var sent := env.printable && peer != 0 && env.encodable(c.nextMid);
            && code == (if sent then 0 else if env.printable then 163 else 160)
            && c'.bootstrap == c.bootstrap && c'.state == c.state && Numbered(c')
            && c'.nextMid == (if env.printable && peer != 0 then (c.nextMid + 1) % 65536 else c.nextMid)
            && c'.servers == (if env.printable then c.servers[i := s.(session := peer, status := if sent then RegPending else s.status)]
                              else c.servers)
            && (sent ==> Requested(c, c', FirstSent(c.born, c.nextMid, peer, RegisterReply, s.id, env.clock)))
            && (!sent ==> NotRequested(c, c'))
  {
    var s := c.servers[i];
    var c1 := SetServer(c, i, s.(session := Peer(s, env)));
    CreateEffect(c1, Peer(s, env), RegisterReply, s.id, env);
    hide Create, FirstSent;
    assert c.servers[i := s] == c.servers;
  }

  predicate WantsRegistration(s: Server)
  {
    s.status == Deregistered || s.status == RegFailed
  }

  function RegistrationsBefore(ss: seq<Server>, i: nat): (n: nat)
    requires i <= |ss|
  {
    if i == 0 then 0 else RegistrationsBefore(ss, i - 1) + if WantsRegistration(ss[i - 1]) then 1 else 0
  }

  /** A server that wants to be registered can be: texts, connection and message. */
  predicate CanRegister(c: Client, j: nat, env: Env)
    requires j < |c.servers|
  {
    env.printable && Peer(c.servers[j], env) != 0 && env.encodable((c.nextMid + RegistrationsBefore(c.servers, j)) % 65536)
  }

  /** All servers from i on that want to be registered can be. */
  predicate AllRegister(c: Client, i: nat, env: Env)
  {
    forall j :: i <= j < |c.servers| && WantsRegistration(c.servers[j]) ==> CanRegister(c, j, env)
  }

  predicate StartedTo(c: Client, d: Client, i: nat)
  {
    && i <= |c.servers| == |d.servers| && (forall j :: i <= j < |c.servers| ==> d.servers[j] == c.servers[j])
    && d.nextMid == (c.nextMid + RegistrationsBefore(c.servers, i)) % 65536 && Numbered(d)
  }

  /** The start loop succeeds exactly if every server that is deregistered or failed can be registered. Then each of them waits
      for the answer to its request, and the others are as they were. */
  lemma {:induction false} StartFrom(c: Client, d: Client, i: nat, env: Env)
    requires StartedTo(c, d, i) && env.clock >= 0
    ensures var (e, code) := RegistrationStart(d, i, env);
            && (code == 0 <==> AllRegister(c, i, env)) && |e.servers| == |c.servers|
            && e.bootstrap == d.bootstrap && e.state == d.state
            && (forall j :: 0 <= j < i ==> e.servers[j] == d.servers[j])
            && (code == 0 ==> forall j :: i <= j < |c.servers| ==>
                  e.servers[j] == if WantsRegistration(c.servers[j])
                                  then c.servers[j].(session := Peer(c.servers[j], env), status := RegPending)
                                  else c.servers[j])
    decreases |c.servers| - i
  {
    if i < |c.servers| {
      var s := c.servers[i];
      hide Register, Requested, NotRequested, FirstSent, Peer;
      NextIs(c.nextMid, RegistrationsBefore(c.servers, i));
      assert RegistrationsBefore(c.servers, i + 1) ==
             RegistrationsBefore(c.servers, i) + if WantsRegistration(s) then 1 else 0;
      hide RegistrationsBefore;
      if WantsRegistration(s) {
        RegisterEffect(d, i, env);
        var (d1, code) := Register(d, i, env);
        if code == 0 {
          StartFrom(c, d1, i + 1, env);
        }
      } else {
        StartFrom(c, d, i + 1, env);
      }
    }
  }

  lemma RegistrationsAreSent(c: Client, env: Env)
    requires Numbered(c) && env.clock >= 0
    ensures var (c', code) := RegistrationStart(c, 0, env);
            && (code == 0 <==> AllRegister(c, 0, env)) && |c'.servers| == |c.servers|
            && (code == 0 ==> forall j :: 0 <= j < |c.servers| ==>
                  c'.servers[j] == if WantsRegistration(c.servers[j])
                                   then c.servers[j].(session := Peer(c.servers[j], env), status := RegPending)
                                   else c.servers[j])
  {
    StartFrom(c, c, 0, env);
  }

  // ----- deregistering and asking for updates

  /** A server is asked to deregister exactly if it is neither gone nor about to be answered about its registration or its end,
      knows its location and has a connection, and the message can be made. */
  lemma DeregisterEffect(c: Client, i: nat, env: Env)
    requires Numbered(c) && env.clock >= 0 && i < |c.servers|
    ensures var s, c' := c.servers[i], Deregister(c, i, env);
            var sent := s.status != Deregistered && s.status != RegPending && s.status != DeregPending && s.status != RegFailed
                        && s.located && s.session != 0 && env.encodable(c.nextMid);
            && c'.servers == (if sent then c.servers[i := s.(status := DeregPending)] else c.servers)
            && c'.bootstrap == c.bootstrap && c'.state == c.state
            && (sent ==> Requested(c, c', FirstSent(c.born, c.nextMid, s.session, DeregisterReply, s.id, env.clock)))
            && (!sent ==> NotRequested(c, c'))
  {
    var s := c.servers[i];
    CreateEffect(c, s.session, DeregisterReply, s.id, env);
    hide Create, FirstSent;
  }

  /** A server that is registered, also while an update is under way, is marked; any other keeps its status. */
  predicate MarkedForUpdate(s: Server, withObjects: bool, s': Server)
  {
    s' == if s.status == Registered || s.status == RegUpdatePending
          then s.(status := if withObjects then RegFullUpdateNeeded else RegUpdateNeeded) else s
  }

  /** Without a short id every server is marked. */
  lemma {:induction false} UpdateAllEffect(ss: seq<Server>, withObjects: bool)
    ensures var (r, code) := UpdateRegistration(ss, 0, withObjects);
            code == 0 && forall i :: 0 <= i < |ss| ==> MarkedForUpdate(ss[i], withObjects, r[i])
    decreases |ss|
  {
    if ss != [] {
      UpdateAllEffect(ss[1..], withObjects);
      var rest := UpdateRegistration(ss[1..], 0, withObjects).0;
      forall i | 0 <= i < |ss|
        ensures MarkedForUpdate(ss[i], withObjects, UpdateRegistration(ss, 0, withObjects).0[i])
      {
        assert i > 0 ==> MarkedForUpdate(ss[1..][i - 1], withObjects, rest[i - 1]);
      }
    }
  }

  /** With one, only the first server that has it: 4.04 if there is none, 4.00 if it is not registered, and a server that already
      wants an update gets at most a fuller one. */
  lemma {:induction false} UpdateOneEffect(ss: seq<Server>, shortId: nat, withObjects: bool, k: nat)
    requires shortId != 0 && k <= |ss| && (k < |ss| ==> ss[k].shortId == shortId)
    requires forall i :: 0 <= i < k ==> ss[i].shortId != shortId
    ensures var (r, code) := UpdateRegistration(ss, shortId, withObjects);
            if k == |ss| then r == ss && code == 132
            else
              var s := ss[k];
              if s.status == RegUpdateNeeded || s.status == RegFullUpdateNeeded then
                code == 0 && r == ss[k := s.(status := if withObjects then RegFullUpdateNeeded else s.status)]
              else if s.status == Registered || s.status == RegUpdatePending then
                code == 0 && r == ss[k := s.(status := if withObjects then RegFullUpdateNeeded else RegUpdateNeeded)]
              else r == ss && code == 128
    decreases |ss|
  {
    if ss != [] {
      assert ss == [ss[0]] + ss[1..];
      if k > 0 {
        UpdateOneEffect(ss[1..], shortId, withObjects, k - 1);
      }
    }
  }

  // ----- bootstrapping

  /** One request for bootstrapping. */
  lemma RequestEffect(c: Client, i: nat, env: Env)
    requires Numbered(c) && env.clock >= 0 && i < |c.bootstrap|
    ensures var s, c' := c.bootstrap[i], RequestBootstrap(c, i, env);
            var peer := Peer(s, env);
            var sent := env.printable && peer != 0 && env.encodable(c.nextMid);
            && c'.servers == c.servers && c'.state == c.state && Numbered(c')
            && c'.nextMid == (if env.printable && peer != 0 then (c.nextMid + 1) % 65536 else c.nextMid)
            && c'.bootstrap == c.bootstrap[i := Asked(s, env, env.encodable(c.nextMid))]
            && (sent ==> Requested(c, c', FirstSent(c.born, c.nextMid, peer, BootstrapReply, s.id, env.clock)))
            && (!sent ==> NotRequested(c, c'))
  {
    var s := c.bootstrap[i];
    var c1 := SetBootstrap(c, i, s.(session := Peer(s, env)));
    CreateEffect(c1, Peer(s, env), BootstrapReply, s.id, env);
    hide Create, FirstSent;
  }

  /** A bootstrap server after it was asked: failing without a text, failed without a connection, else waiting for the answer,
      or as before if the message could not be made. */
  function Asked(s: Server, env: Env, encodable: bool): (s': Server)
  {
    if !env.printable then s.(status := BsFailing)
    else if Peer(s, env) == 0 then s.(session := 0, status := BsFailed)
    else s.(session := Peer(s, env), status := if encodable then BsInitiated else s.status)
  }

  predicate AsksNow(s: Server, env: Env)
  {
    s.status == BsHoldOff && env.clock >= s.registration
  }

  function AsksBefore(ss: seq<Server>, i: nat, env: Env): (n: nat)
    requires i <= |ss|
  {
    if i == 0 then 0
    else AsksBefore(ss, i - 1, env) +
         if AsksNow(ss[i - 1], env) && env.printable && Peer(ss[i - 1], env) != 0 then 1 else 0
  }

  /** A bootstrap server after the step. */
  predicate BootstrapMoved(c: Client, j: nat, env: Env, s': Server)
    requires j < |c.bootstrap|
  {
    var s := c.bootstrap[j];
    if s.status == Deregistered then s' == s.(status := BsHoldOff, registration := env.clock + s.lifetime)
    else if AsksNow(s, env) then s' == Asked(s, env, env.encodable((c.nextMid + AsksBefore(c.bootstrap, j, env)) % 65536))
    else if s.status == BsPending && env.clock >= s.registration then s' == s.(status := BsFailing)
    else if s.status == BsFinishing then s' == s.(status := BsFinished, session := 0)
    else if s.status == BsFailing then s' == s.(status := BsFailed, session := 0)
    else s' == s
  }

  predicate MovedTo(c: Client, d: Client, i: nat, env: Env)
  {
    && i <= |c.bootstrap| == |d.bootstrap| && (forall j :: i <= j < |c.bootstrap| ==> d.bootstrap[j] == c.bootstrap[j])
    && d.nextMid == (c.nextMid + AsksBefore(c.bootstrap, i, env)) % 65536 && Numbered(d)
  }

  lemma MoveOne(c: Client, d: Client, i: nat, env: Env, wait: int) returns (d': Client, wait': int)
    requires MovedTo(c, d, i, env) && i < |c.bootstrap| == |d.bootstrap| && env.clock >= 0
    ensures |d'.bootstrap| == |d.bootstrap| && MovedTo(c, d', i + 1, env)
    ensures BootstrapStep(d, i, env, wait) == BootstrapStep(d', i + 1, env, wait')
    ensures d'.servers == d.servers && d'.state == d.state
    ensures BootstrapMoved(c, i, env, d'.bootstrap[i]) && forall j :: 0 <= j < i ==> d'.bootstrap[j] == d.bootstrap[j]
  {
    var s := d.bootstrap[i];
    NextIs(c.nextMid, AsksBefore(c.bootstrap, i, env));
    assert AsksBefore(c.bootstrap, i + 1, env) ==
           AsksBefore(c.bootstrap, i, env) + if AsksNow(s, env) && env.printable && Peer(s, env) != 0 then 1 else 0;
    hide RequestBootstrap, AsksBefore, Requested, NotRequested, FirstSent, Peer, Asked;
    RequestEffect(d, i, env);
    d', wait' := d, wait;
    var due := s.registration <= env.clock;
    if s.status.BsHoldOff? && due {
      d' := RequestBootstrap(d, i, env);
    } else if s.status.Deregistered? {
      d' := SetBootstrap(d, i, s.(registration := env.clock + s.lifetime, status := BsHoldOff));
      wait' := Min(s.lifetime, wait);
    } else if s.status.BsPending? && due {
      d', wait' := SetBootstrap(d, i, s.(status := BsFailing)), 0;
    } else if s.status.BsFinishing? {
      d', wait' := SetBootstrap(d, i, s.(session := 0, status := BsFinished)), 0;
    } else if s.status.BsFailing? {
      d', wait' := SetBootstrap(d, i, s.(session := 0, status := BsFailed)), 0;
    } else if s.status.BsHoldOff? || s.status.BsPending? {
      wait' := Min(s.registration - env.clock, wait);
    }
  }

  lemma {:induction false} MoveFrom(c: Client, d: Client, i: nat, env: Env, wait: int)
    requires MovedTo(c, d, i, env) && i <= |c.bootstrap| == |d.bootstrap| && env.clock >= 0
    ensures var e := BootstrapStep(d, i, env, wait).0;
            && |e.bootstrap| == |c.bootstrap| && e.servers == d.servers && e.state == d.state
            && (forall j :: 0 <= j < i ==> e.bootstrap[j] == d.bootstrap[j])
            && (forall j :: i <= j < |c.bootstrap| ==> BootstrapMoved(c, j, env, e.bootstrap[j]))
    decreases |c.bootstrap| - i
  {
    hide MovedTo, BootstrapMoved;
    if i < |c.bootstrap| {
      var d', wait' := MoveOne(c, d, i, env, wait);
      MoveFrom(c, d', i + 1, env, wait');
      hide BootstrapStep;
    }
  }

  /** The bootstrap step moves every server as its status and its time say. */
  lemma BootstrapServersMove(c: Client, env: Env, wait: int)
    requires Numbered(c) && env.clock >= 0
    ensures var c' := BootstrapStep(c, 0, env, wait).0;
            && |c'.bootstrap| == |c.bootstrap| && c'.servers == c.servers && c'.state == c.state
            && (forall j :: 0 <= j < |c.bootstrap| ==> BootstrapMoved(c, j, env, c'.bootstrap[j]))
  {
    MoveFrom(c, c, 0, env, wait);
  }

  /** Starting to bootstrap. */
  lemma BootstrapStartEffect(c: Client, env: Env)
    ensures var c' := BootstrapStart(c, env);
            && c' == c.(bootstrap := c'.bootstrap) && |c'.bootstrap| == |c.bootstrap|
            && (forall j :: 0 <= j < |c.bootstrap| ==>
                  c'.bootstrap[j] == c.bootstrap[j].(status := Deregistered, session := Peer(c.bootstrap[j], env)))
  {}

  /** The servers whose Security instance a command changed are dirty. */
  predicate TaggedAs(s: Server, tagged: set<nat>, s': Server)
  {
    s' == if s.id in tagged then s.(dirty := true) else s
  }

  predicate TakesCommands(s: Server)
  {
    s.status == Deregistered || s.status == BsHoldOff || s.status == BsInitiated || s.status == BsPending
  }

  /** A server that sends a command: a lost answer is made up for, otherwise its deadline starts again. */
  function Heard(s: Server, clock: int): (s': Server)
  {
    if s.status == BsHoldOff || s.status == BsInitiated then s.(status := BsPending)
    else s.(registration := clock + 247)
  }

  /** A bootstrap command is taken from a server that is in or before BS_PENDING and ignored from any other. If it succeeds (2.02 or
      2.04) the server is in BS_PENDING, and if it had not been asked, bootstrapping starts. */
  lemma CommandEffect(c: Client, i: nat, result: int, tagged: set<nat>, clock: int)
    requires i < |c.bootstrap|
    ensures var s, c' := c.bootstrap[i], BootstrapCommand(c, i, result, tagged, clock);
            var done := result == 66 || result == 68;
            if !TakesCommands(s) then c' == c
            else
              var s1 := if done then Heard(s, clock).(status := BsPending) else Heard(s, clock);
              && |c'.bootstrap| == |c.bootstrap| && |c'.servers| == |c.servers|
              && c'.state == (if done && s.status == Deregistered then Bootstrapping else c.state)
              && c'.transactions == c.transactions && c'.log == c.log
              && (forall j :: 0 <= j < |c.servers| ==> TaggedAs(c.servers[j], tagged, c'.servers[j]))
              && (forall j :: 0 <= j < |c.bootstrap| ==>
                    TaggedAs(if j == i then s1 else c.bootstrap[j], tagged, c'.bootstrap[j]))
  {}

  lemma DeleteAllEffect(c: Client, i: nat, tagged: set<nat>, clock: int)
    requires i < |c.bootstrap|
    ensures var s, c' := c.bootstrap[i], BootstrapDeleteAll(c, i, tagged, clock);
            if !TakesCommands(s) then c' == c
            else
              && |c'.bootstrap| == |c.bootstrap| && |c'.servers| == |c.servers| && c'.state == c.state
              && c'.transactions == c.transactions && c'.log == c.log
              && (forall j :: 0 <= j < |c.servers| ==> TaggedAs(c.servers[j], tagged, c'.servers[j]))
              && (forall j :: 0 <= j < |c.bootstrap| ==>
                    TaggedAs(if j == i then Heard(s, clock) else c.bootstrap[j], tagged, c'.bootstrap[j]))
  {}

  /** Bootstrap-Finish is accepted in BS_PENDING if the objects are acceptable (2.04), refused if not (4.06), and ignored from any
      other server. */
  lemma FinishEffect(c: Client, i: nat, acceptable: bool)
    requires i < |c.bootstrap|
    ensures var s, (c', code) := c.bootstrap[i], BootstrapFinish(c, i, acceptable);
            var taken := s.status == BsPending && acceptable;
            && c' == (if taken then c.(bootstrap := c.bootstrap[i := s.(status := BsFinishing)]) else c)
            && code == if taken then 68 else if s.status == BsPending then 134 else 1
  {}

  // ----- the states of the client

  ghost predicate AnyIn(ss: seq<Server>, which: set<Status>)
  {
    exists i :: 0 <= i < |ss| && ss[i].status in which
  }

  const HELD := {Registered, RegUpdateNeeded, RegFullUpdateNeeded, RegUpdatePending}
  const UNDER_WAY := {BsHoldOff, BsInitiated, BsPending, BsFinishing, BsFailing}

  /** Where a client without a registration goes. */
  predicate SeeksBootstrap(c: Client, r: Settled)
  {
    if c.bootstrap == [] then r.client == c.(state := BootstrapRequired) && r.code == 163
    else r.client.state == Bootstrapping && r.code == 0 && r.client.servers == c.servers
  }

  /** The state after the switch, by the servers: pending or held registrations keep a client registering or ready, and finished
      bootstrapping sends it back to the start. */
  lemma StateSettles(c: Client, env: Env, wait: int)
    requires env.clock >= 0
    ensures var r := Settle(c, env, wait);
            match c.state
            case Ready =>
              if AnyIn(c.servers, {RegPending}) || AnyIn(c.servers, HELD) then r.client == c && r.code == 0 && r.wait == wait
              else SeeksBootstrap(c, r)
            case Registering =>
              if AnyIn(c.servers, {RegPending}) then r.client == c && r.code == 0 && r.wait == wait
              else if AnyIn(c.servers, HELD) then r.client == c.(state := Ready) && r.code == 0 && r.wait == wait
              else SeeksBootstrap(c, r)
            case BootstrapRequired => SeeksBootstrap(c, r)
            case Bootstrapping =>
              if AnyIn(c.bootstrap, UNDER_WAY) then
                (r.client, r.wait) == BootstrapStep(c, 0, env, wait) && r.code == 0
              else if AnyIn(c.bootstrap, {BsFinished}) then
                r.(jumps := 0) == Settle(c.(state := Initial), env, wait).(jumps := 0)
              else r.client == c && r.code == 163
            case RegisterRequired =>
              var (c1, code) := RegistrationStart(c, 0, env);
              r.code == code && r.client == (if code == 0 then c1.(state := Registering) else c1)
            case Initial =>
              var c1 := RefreshServerList(c, env);
              if !env.discoverOk then r.client == c1 && r.code == 163
              else if c1.servers == [] then SeeksBootstrap(c1, r)
              else r.(jumps := 0) == Settle(c1.(state := RegisterRequired), env, wait).(jumps := 0)
  {
    StatusMeans(c);
    hide RegistrationStart, RefreshServerList, RegistrationStatus, BootstrapStatus, AnyIn;
    RequiredSettles(c.(state := BootstrapRequired), env, wait);
    if c.state.Initial? {
      RequiredSettles(RefreshServerList(c, env).(state := BootstrapRequired), env, wait);
    }
    hide BootstrapStep, BootstrapStart;
  }

  lemma StatusMeans(c: Client)
    ensures RegistrationStatus(c.servers) ==
            if AnyIn(c.servers, {RegPending}) then RegPending else if AnyIn(c.servers, HELD) then Registered else RegFailed
    ensures BootstrapStatus(c.bootstrap) ==
            if AnyIn(c.bootstrap, UNDER_WAY) then BsPending else if AnyIn(c.bootstrap, {BsFinished}) then BsFinished else BsFailed
  {}

  lemma RequiredSettles(c: Client, env: Env, wait: int)
    requires c.state.BootstrapRequired? && env.clock >= 0
    ensures SeeksBootstrap(c, Settle(c, env, wait))
  {
    var c1 := BootstrapStart(c, env).(state := Bootstrapping);
    BootstrapStepWaits(c1, 0, env, wait);
    hide BootstrapStep;
  }

  // ----- the wait

  /** A registered server wants its next update after w. */
  predicate EndsWithUpdate(s: Server, clock: int, w: int)
  {
    s.status == Registered && w > 0 && w == s.registration + (if s.lifetime > 93 then s.lifetime - 93 else s.lifetime / 2) - clock
  }

  /** The wait after the registration step is the one it was given, or ends with the next update of a registered server. */
  lemma {:induction false} RegistrationWaitHasReason(c: Client, i: nat, env: Env, wait: int)
    requires i <= |c.servers| && env.clock >= 0
    ensures var w := RegistrationStep(c, i, env, wait).1;
            w == wait || exists s :: s in c.servers && EndsWithUpdate(s, env.clock, w)
    decreases |c.servers| - i
  {
    hide Update;
    if i < |c.servers| {
      var s := c.servers[i];
      var interval := NextUpdate(s) - env.clock;
      var c1, w := c, wait;
      if s.status.RegFullUpdateNeeded? || s.status.RegUpdateNeeded? || (s.status.Registered? && interval <= 0) {
        c1 := Update(c, i, s.status.RegFullUpdateNeeded?, env);
        OnlyOneUpdated(c, i, s.status.RegFullUpdateNeeded?, env);
      } else if s.status.RegFailed? {
        c1 := SetServer(c, i, s.(session := 0));
      } else if s.status.Registered? {
        w := Min(interval, wait);
      }
      RegistrationWaitHasReason(c1, i + 1, env, w);
      assert RegistrationStep(c, i, env, wait) == RegistrationStep(c1, i + 1, env, w);
      hide RegistrationStep;
      assert s in c.servers;
      forall x | x in c1.servers && x.status == Registered
        ensures x in c.servers
      {
        var k :| 0 <= k < |c1.servers| && c1.servers[k] == x;
        assert x == c.servers[k];
      }
    }
  }

  lemma OnlyOneUpdated(c: Client, i: nat, withObjects: bool, env: Env)
    requires i < |c.servers| && env.clock >= 0
    ensures var c' := Update(c, i, withObjects, env);
            && |c'.servers| == |c.servers| && (forall k :: 0 <= k < |c.servers| && k != i ==> c'.servers[k] == c.servers[k])
            && (c'.servers[i] == c.servers[i] || c'.servers[i].status == RegUpdatePending)
  {
    CreateKeepsServers(c, c.servers[i].session, UpdateReply, c.servers[i].id, env);
    hide Create;
  }

  /** The wait after serving transactions is the one it was given, one second after a transaction ended, or ends with the
      deadline of an outstanding transaction as it was or was set anew. */
  lemma {:induction false} TransactionWaitHasReason(c: Client, todo: seq<Transaction>, env: Env, wait: int)
    ensures var w := TransactionStep(c, todo, env, wait).1;
            w == wait || w == 1 || exists t :: t in todo && (w == t.time - env.clock || w == Resent(t, env.clock).time - env.clock)
    decreases |todo|
  {
    hide Send, Resent;
    if todo != [] {
      var t := todo[0];
      assert t in todo && forall x :: x in todo[1..] ==> x in todo;
      if t.time > env.clock {
        TransactionWaitHasReason(c, todo[1..], env, Min(wait, Interval(t.time, env.clock)));
      } else {
        var (c1, sent) := Send(c, t, env);
        TransactionWaitHasReason(c1, todo[1..], env,
                                 if sent then Min(wait, Interval(Resent(t, env.clock).time, env.clock)) else 1);
      }
    }
  }
}
