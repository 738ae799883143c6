/** The client context as the library keeps it: fields updated in place by transaction.c, registration.c,
    bootstrap.c and liblwm2m.c, each operation proved equal to its specification in module Session. */
module SessionCode {
  import opened Bytes
  import opened Session

  class Context {
    var state: ClientState
    var bootstrap: seq<Server>
    var servers: seq<Server>
    var transactions: seq<Transaction>
    var nextMid: u16
    var born: nat
    ghost var log: seq<Output>

    ghost function View(): (c: Client)
      reads this
    {
      Client(state, bootstrap, servers, transactions, nextMid, born, log)
    }

    /** xiny_lwm2m_init. */
    constructor (mid: u16)
      ensures View() == Fresh(mid)
    {
      state, bootstrap, servers, transactions, nextMid, born := Initial, [], [], [], mid, 0;
      log := [];
    }

    // ----- transaction.c

    /** Call back and remove. */
    method End(t: Transaction, packet: Option<Packet>, clock: int)
      modifies this
      ensures View() == Finish(old(View()), t, packet, clock)
    {
      servers := Notify(servers, t, packet, clock);
      bootstrap := Notify(bootstrap, t, packet, clock);
      log := log + [CalledBack(t.uid)];
      transactions := Drop(transactions, t.uid);
    }

    method TransactionSend(t0: Transaction, env: Env) returns (sent: bool)
      modifies this
      ensures (View(), sent) == Send(old(View()), t0, env)
    {
      var t := t0;
      if !t.buffered {
        if !env.encodable(t.mid) {
          transactions := Drop(transactions, t.uid);
          return false;
        }
        t := t.(buffered := true);
      }
      var maxRetriesReached := false;
      if !t.ack {
        var timeout := 0;
        if t.counter == 0 {
          if env.clock >= 0 {
            t := t.(time := env.clock + RESPONSE_TIMEOUT, counter := 1);
          } else {
            maxRetriesReached := true;
          }
        } else {
          timeout := RESPONSE_TIMEOUT * Pow2(t.counter - 1);
        }
        if MAX_RETRANSMIT + 1 >= t.counter {
          log := log + [Transmitted(t.uid)];
          t := t.(time := t.time + timeout, counter := t.counter + 1);
        } else {
          maxRetriesReached := true;
        }
      }
      if t.ack || maxRetriesReached {
        End(t0, None, env.clock);
        return false;
      }
      transactions := Replace(transactions, t);
      return true;
    }

    method HandleResponse(p: Packet, from: nat, clock: int) returns (handled: bool)
      modifies this
      ensures View() == Session.HandleResponse(old(View()), p, from, clock)
      ensures handled <==> exists i :: 0 <= i < |old(transactions)| && Concerns(p, from, old(transactions)[i])
    {
      var i := 0;
      while i < |transactions|
        invariant 0 <= i <= |transactions| && View() == old(View())
        invariant forall k :: 0 <= k < i ==> !Concerns(p, from, transactions[k])
      {
        var t := transactions[i];
        var found, reset := false, false;
        if t.peer == from {
          if !t.ack && (p.kind.Ack? || p.kind.Rst?) && t.mid == p.mid {
            found, reset := true, p.kind.Rst?;
          }
          var finished := if t.token == [] then t.ack || found else p.token == t.token;
          if reset || finished || found {
            FirstIs(transactions, p, from, i);
            if reset || finished {
              if !reset && p.code == COAP_401_UNAUTHORIZED && MAX_RETRANSMIT > t.counter {
                transactions := Replace(transactions, t.(ack := false, time := t.time + RESPONSE_TIMEOUT));
              } else {
                End(t, Some(p), clock);
              }
            } else {
              var time := if clock >= 0 then clock else t.time;
              transactions := Replace(transactions, t.(ack := true, time := time + RESPONSE_TIMEOUT * t.counter));
            }
            return true;
          }
        }
        i := i + 1;
      }
      FirstIs(transactions, p, from, i);
      return false;
    }

    method TransactionStep(env: Env, wait0: int) returns (wait: int)
      modifies this
      ensures (View(), wait) == Session.TransactionStep(old(View()), old(transactions), env, wait0)
    {
      wait := wait0;
      var nodes := transactions;
      var i := 0;
      assert nodes[0..] == nodes;
      while i < |nodes|
        invariant 0 <= i <= |nodes|
        invariant Session.TransactionStep(View(), nodes[i..], env, wait)
               == Session.TransactionStep(old(View()), nodes, env, wait0)
      {
        assert nodes[i..][1..] == nodes[i + 1..];
        var t := nodes[i];
        if t.time <= env.clock {
          var sent := TransactionSend(t, env);
          if sent {
            var time := Resent(t, env.clock).time;
            var interval := if time > env.clock then time - env.clock else 1;
            if wait > interval { wait := interval; }
          } else {
            wait := 1;
          }
        } else {
          var interval := t.time - env.clock;
          if wait > interval { wait := interval; }
        }
        i := i + 1;
      }
    }

    // ----- requests

    method NewRequest(peer: nat, reply: Reply, target: nat, env: Env) returns (created: Creation)
      modifies this
      ensures (View(), created) == Create(old(View()), peer, reply, target, env)
    {
      var mid := nextMid;
      nextMid := (nextMid + 1) % 0x1_0000;
      if peer == 0 {
        return NotCreated;
      }
      var t := Transaction(born, mid, peer, Token(mid, env.clock), false, 0, 0, false, reply, target);
      transactions := Insert(transactions, t);
      born := born + 1;
      var sent := TransactionSend(t, env);
      created := if sent then Sent else NotSent;
    }

    method Register(i: nat, env: Env) returns (result: int)
      requires i < |servers|
      modifies this
      ensures (View(), result) == Session.Register(old(View()), i, env)
    {
      if !env.printable {
        return COAP_500_INTERNAL_SERVER_ERROR;
      }
      var s := servers[i];
      if s.session == 0 {
        s := s.(session := env.connect(s.id));
      }
      servers := servers[i := s];
      if s.session == 0 {
        return COAP_503_SERVICE_UNAVAILABLE;
      }
      var created := NewRequest(s.session, RegisterReply, s.id, env);
      if !created.Sent? {
        return COAP_503_SERVICE_UNAVAILABLE;
      }
      servers := servers[i := servers[i].(status := RegPending)];
      return COAP_NO_ERROR;
    }

    method UpdateRegistration(i: nat, withObjects: bool, env: Env)
      requires i < |servers|
      modifies this
      ensures View() == Update(old(View()), i, withObjects, env)
    {
      var s := servers[i];
      if s.session == 0 || (withObjects && !env.printable) {
        nextMid := (nextMid + 1) % 0x1_0000;
        return;
      }
      var created := NewRequest(s.session, UpdateReply, s.id, env);
      if created.Sent? {
        servers := servers[i := servers[i].(status := RegUpdatePending)];
      }
    }

    method Deregister(i: nat, env: Env)
      requires i < |servers|
      modifies this
      ensures View() == Session.Deregister(old(View()), i, env)
    {
      var s := servers[i];
      if s.status in {Deregistered, RegPending, DeregPending, RegFailed} || !s.located {
        return;
      }
      var created := NewRequest(s.session, DeregisterReply, s.id, env);
      if created.Sent? {
        servers := servers[i := servers[i].(status := DeregPending)];
      }
    }

    method RequestBootstrap(i: nat, env: Env)
      requires i < |bootstrap|
      modifies this
      ensures View() == Session.RequestBootstrap(old(View()), i, env)
    {
      var s := bootstrap[i];
      if !env.printable {
        bootstrap := bootstrap[i := s.(status := BsFailing)];
        return;
      }
      if s.session == 0 {
        s := s.(session := env.connect(s.id));
      }
      if s.session == 0 {
        bootstrap := bootstrap[i := s.(status := BsFailed)];
        return;
      }
      bootstrap := bootstrap[i := s];
      var created := NewRequest(s.session, BootstrapReply, s.id, env);
      if created.Sent? {
        bootstrap := bootstrap[i := bootstrap[i].(status := BsInitiated)];
      }
    }

    // ----- registration.c

    method RegistrationStart(env: Env) returns (result: int)
      modifies this
      ensures (View(), result) == Session.RegistrationStart(old(View()), 0, env)
    {
      result := COAP_NO_ERROR;
      var i := 0;
      while i < |servers|
        invariant 0 <= i <= |servers| && result == COAP_NO_ERROR
        invariant Session.RegistrationStart(View(), i, env) == Session.RegistrationStart(old(View()), 0, env)
        decreases |servers| - i
      {
        if servers[i].status in {Deregistered, RegFailed} {
          result := Register(i, env);
          if result != COAP_NO_ERROR {
            return;
          }
        }
        i := i + 1;
      }
    }

    method RegistrationGetStatus() returns (status: Status)
      ensures status == RegistrationStatus(servers)
    {
      status := RegFailed;
      var i := 0;
      while i < |servers|
        invariant 0 <= i <= |servers| && status == RegistrationStatus(servers[..i])
      {
        assert servers[..i + 1] == servers[..i] + [servers[i]];
        RegistrationStatusSnoc(servers[..i], servers[i]);
        match servers[i].status {
          case Registered => if status.RegFailed? { status := Registered; }
          case RegUpdateNeeded => if status.RegFailed? { status := Registered; }
          case RegFullUpdateNeeded => if status.RegFailed? { status := Registered; }
          case RegUpdatePending => if status.RegFailed? { status := Registered; }
          case RegPending => status := RegPending;
          case _ =>
        }
        i := i + 1;
      }
      assert servers[..i] == servers;
    }

    method RegistrationStep(env: Env, wait0: int) returns (wait: int)
      modifies this
      ensures (View(), wait) == Session.RegistrationStep(old(View()), 0, env, wait0)
    {
      wait := wait0;
      var i := 0;
      while i < |servers|
        invariant 0 <= i <= |servers|
        invariant Session.RegistrationStep(View(), i, env, wait) == Session.RegistrationStep(old(View()), 0, env, wait0)
        decreases |servers| - i
      {
        var s := servers[i];
        match s.status {
          case Registered =>
            var nextUpdate := s.lifetime;
            if MAX_TRANSMIT_WAIT < nextUpdate {
              nextUpdate := nextUpdate - MAX_TRANSMIT_WAIT;
            } else {
              nextUpdate := nextUpdate / 2;
            }
            var interval := s.registration + nextUpdate - env.clock;
            if 0 >= interval {
              UpdateRegistration(i, false, env);
            } else if interval < wait {
              wait := interval;
            }
          case RegUpdateNeeded => UpdateRegistration(i, false, env);
          case RegFullUpdateNeeded => UpdateRegistration(i, true, env);
          case RegFailed => servers := servers[i := s.(session := 0)];
          case _ =>
        }
        i := i + 1;
      }
    }

    // ----- bootstrap.c

    method BootstrapStep(env: Env, wait0: int) returns (wait: int)
      modifies this
      ensures (View(), wait) == Session.BootstrapStep(old(View()), 0, env, wait0)
    {
      wait := wait0;
      var i := 0;
      while i < |bootstrap|
        invariant 0 <= i <= |bootstrap|
        invariant Session.BootstrapStep(View(), i, env, wait) == Session.BootstrapStep(old(View()), 0, env, wait0)
        decreases |bootstrap| - i
      {
        var s := bootstrap[i];
        match s.status {
          case Deregistered =>
            bootstrap := bootstrap[i := s.(registration := env.clock + s.lifetime, status := BsHoldOff)];
            if wait > s.lifetime { wait := s.lifetime; }
          case BsHoldOff =>
            if s.registration <= env.clock {
              RequestBootstrap(i, env);
            } else if wait > s.registration - env.clock {
              wait := s.registration - env.clock;
            }
          case BsPending =>
            if s.registration <= env.clock {
              bootstrap := bootstrap[i := s.(status := BsFailing)];
              wait := 0;
            } else if wait > s.registration - env.clock {
              wait := s.registration - env.clock;
            }
          case BsFinishing =>
            bootstrap := bootstrap[i := s.(session := 0, status := BsFinished)];
            wait := 0;
          case BsFailing =>
            bootstrap := bootstrap[i := s.(session := 0, status := BsFailed)];
            wait := 0;
          case _ =>
        }
        i := i + 1;
      }
    }

    method BootstrapGetStatus() returns (status: Status)
      ensures status == BootstrapStatus(bootstrap)
    {
      status := BsFailed;
      var i := 0;
      while i < |bootstrap|
        invariant 0 <= i <= |bootstrap| && status == BootstrapStatus(bootstrap[..i])
      {
        assert bootstrap[..i + 1] == bootstrap[..i] + [bootstrap[i]];
        BootstrapStatusSnoc(bootstrap[..i], bootstrap[i]);
        if bootstrap[i].status.BsFinished? {
          if status.BsFailed? { status := BsFinished; }
        } else if InProgress(bootstrap[i].status) {
          status := BsPending;
        }
        i := i + 1;
      }
      assert bootstrap[..i] == bootstrap;
    }

    // ----- liblwm2m.c

    /** The first loop of prv_refreshServerList. */
    method RebuildBootstrapServers()
      modifies this`bootstrap
      ensures bootstrap == Clean(old(bootstrap), true)
    {
      var list := bootstrap;
      bootstrap := [];
      var i := 0;
      assert list[..0] == [];
      while i < |list|
        invariant 0 <= i <= |list| && bootstrap == Clean(list[..i], true)
      {
        assert list[..i + 1][..i] == list[..i];
        if !list[i].dirty {
          bootstrap := InsertServer(bootstrap, list[i].(status := Deregistered));
        }
        i := i + 1;
      }
      assert list[..i] == list;
    }

    /** Its second loop, which leaves the status alone. */
    method RebuildServers()
      modifies this`servers
      ensures servers == Clean(old(servers), false)
    {
      var list := servers;
      servers := [];
      var i := 0;
      assert list[..0] == [];
      while i < |list|
        invariant 0 <= i <= |list| && servers == Clean(list[..i], false)
      {
        assert list[..i + 1][..i] == list[..i];
        if !list[i].dirty {
          servers := InsertServer(servers, list[i]);
        }
        i := i + 1;
      }
      assert list[..i] == list;
    }

    /** prv_refreshServerList, given what the Security object describes. */
    method RefreshServers(env: Env)
      modifies this
      ensures View() == RefreshServerList(old(View()), env)
    {
      RebuildBootstrapServers();
      RebuildServers();
      var i := 0;
      assert env.discovered[0..] == env.discovered;
      while i < |env.discovered|
        invariant 0 <= i <= |env.discovered|
        invariant Discover(View(), env.discovered[i..]) == RefreshServerList(old(View()), env)
      {
        assert env.discovered[i..][1..] == env.discovered[i + 1..];
        var (isBootstrap, s0) := env.discovered[i];
        var s := s0.(status := Deregistered, session := 0, located := false, dirty := false);
        var known := (exists k :: 0 <= k < |bootstrap| && bootstrap[k].id == s.id)
                     || (exists k :: 0 <= k < |servers| && servers[k].id == s.id);
        if !known {
          if isBootstrap {
            bootstrap := InsertServer(bootstrap, s);
          } else {
            servers := InsertServer(servers, s);
          }
        }
        i := i + 1;
      }
    }

    method BootstrapStart(env: Env)
      modifies this
      ensures View() == Session.BootstrapStart(old(View()), env)
    {
      var i := 0;
      while i < |bootstrap|
        invariant 0 <= i <= |bootstrap| == |old(bootstrap)|
        invariant View() == old(View()).(bootstrap := bootstrap)
        invariant bootstrap[..i] == Session.BootstrapStart(old(View()), env).bootstrap[..i]
        invariant bootstrap[i..] == old(bootstrap)[i..]
      {
        var s := bootstrap[i];
        bootstrap := bootstrap[i := s.(status := Deregistered, session := if s.session == 0 then env.connect(s.id) else s.session)];
        i := i + 1;
      }
    }

    /** The switch of xiny_lwm2m_step; the loop is its `goto next_step`. */
    method Settle(env: Env, wait0: int) returns (code: int, wait: int, jumps: nat)
      modifies this
      ensures Settled(View(), code, wait, jumps) == Session.Settle(old(View()), env, wait0)
    {
      code, wait, jumps := 0, wait0, 0;
      var again := true;
      while again
        invariant again ==> code == 0 && wait == wait0
        invariant Session.Settle(old(View()), env, wait0)
               == if again then var r := Session.Settle(View(), env, wait); r.(jumps := r.jumps + jumps)
                  else Settled(View(), code, wait, jumps)
        decreases again, JumpsLeft(state)
      {
        again := false;
        match state {
          case Initial =>
            RefreshServers(env);
            if !env.discoverOk {
              code := COAP_503_SERVICE_UNAVAILABLE;
            } else {
              state := if servers != [] then RegisterRequired else BootstrapRequired;
              again, jumps := true, jumps + 1;
            }
          case BootstrapRequired =>
            if bootstrap == [] {
              code := COAP_503_SERVICE_UNAVAILABLE;
            } else {
              BootstrapStart(env);
              state := Bootstrapping;
              wait := BootstrapStep(env, wait);
            }
          case Bootstrapping =>
            var status := BootstrapGetStatus();
            if status.BsFinished? {
              state := Initial;
              again, jumps := true, jumps + 1;
            } else if status.BsFailed? {
              code := COAP_503_SERVICE_UNAVAILABLE;
            } else {
              wait := BootstrapStep(env, wait);
            }
          case RegisterRequired =>
            code := RegistrationStart(env);
            if code == COAP_NO_ERROR {
              state := Registering;
            }
          case Registering =>
            var status := RegistrationGetStatus();
            if status.Registered? {
              state := Ready;
            } else if status.RegFailed? {
              state := BootstrapRequired;
              again, jumps := true, jumps + 1;
            }
          case Ready =>
            var status := RegistrationGetStatus();
            if status.RegFailed? {
              state := BootstrapRequired;
              again, jumps := true, jumps + 1;
            }
        }
      }
    }

    /** xiny_lwm2m_step. */
    method Step(env: Env, wait0: int) returns (code: int, wait: int)
      modifies this
      ensures (View(), code, wait) == Session.Step(old(View()), env, wait0)
    {
      if env.clock < 0 {
        return COAP_500_INTERNAL_SERVER_ERROR, wait0;
      }
      var jumps;
      code, wait, jumps := Settle(env, wait0);
      if code != 0 {
        return;
      }
      nextMid := (nextMid + env.notified) % 0x1_0000;
      wait := Min(wait, env.observeWait);
      wait := RegistrationStep(env, wait);
      wait := TransactionStep(env, wait);
    }
  }

  lemma FirstIs(ts: seq<Transaction>, p: Packet, from: nat, i: nat)
    requires i <= |ts| && (i < |ts| ==> Concerns(p, from, ts[i]))
    requires forall k :: 0 <= k < i ==> !Concerns(p, from, ts[k])
    ensures FirstConcerned(ts, p, from) == i
  {}

  lemma RegistrationStatusSnoc(ss: seq<Server>, s: Server)
    ensures RegistrationStatus(ss + [s]) ==
            if s.status.RegPending? then RegPending
            else if IsRegistered(s.status) && RegistrationStatus(ss).RegFailed? then Registered
            else RegistrationStatus(ss)
  {
    var all := ss + [s];
    assert forall i :: 0 <= i < |ss| ==> all[i] == ss[i];
    assert all[|ss|] == s;
  }

  lemma BootstrapStatusSnoc(ss: seq<Server>, s: Server)
    ensures BootstrapStatus(ss + [s]) ==
            if InProgress(s.status) then BsPending
            else if s.status.BsFinished? && BootstrapStatus(ss).BsFailed? then BsFinished
            else BootstrapStatus(ss)
  {
    var all := ss + [s];
    assert forall i :: 0 <= i < |ss| ==> all[i] == ss[i];
    assert all[|ss|] == s;
  }
}
