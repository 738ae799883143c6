/** Timing and completion over whole runs: the back-off schedule, the bound on overdue steps,
    the wake-up time, and when bootstrapping ends. */
module SessionRuns {
  import opened Bytes
  import opened Session
  import opened SessionInvariant

  // ----- one message, one transaction

  /** An incoming message leaves every transaction but the first it concerns as it was, and calls back at most that one. */
  lemma OneMessageOneTransaction(c: Client, p: Packet, from: nat, clock: int)
    ensures var i := FirstConcerned(c.transactions, p, from);
            var c' := HandleResponse(c, p, from, clock);
            if i == |c.transactions| then c' == c
            else
              var u := c.transactions[i].uid;
              && (forall t: Transaction :: t.uid != u ==> (t in c'.transactions <==> t in c.transactions))
              && (c'.log == c.log || c'.log == c.log + [CalledBack(u)])
              && (c'.log == c.log ==> c'.servers == c.servers && c'.bootstrap == c.bootstrap)
  {
    var i := FirstConcerned(c.transactions, p, from);
    if i < |c.transactions| {
      var t := c.transactions[i];
      DropMembers(c.transactions, t.uid);
      var kept := Kept(t, p, from, clock);
      if kept.Some? {
        ReplaceMembers(c.transactions, kept.value);
      }
    }
  }

  // ----- what a step does before it serves the transactions

  /** Until xiny_transaction_step, a client step only changes servers and ids, and creates requests. */
  datatype Action =
    | Touch(state: ClientState, bootstrap: seq<Server>, servers: seq<Server>, nextMid: u16)
    | Make(peer: nat, reply: Reply, target: nat)

  function Act(c: Client, a: Action, env: Env): (c': Client)
  {
    match a
    case Touch(state, bootstrap, servers, nextMid) =>
      c.(state := state, bootstrap := bootstrap, servers := servers, nextMid := nextMid)
    case Make(peer, reply, target) => Create(c, peer, reply, target, env).0
  }

  function Perform(c: Client, acts: seq<Action>, env: Env): (c': Client)
    decreases |acts|
  {
    if acts == [] then c else Perform(Act(c, acts[0], env), acts[1..], env)
  }

  lemma {:induction false} PerformAppend(c: Client, a: seq<Action>, b: seq<Action>, env: Env)
    ensures Perform(c, a + b, env) == Perform(Perform(c, a, env), b, env)
    decreases |a|
  {
    hide Act;
    if a == [] {
      assert a + b == b;
    } else {
      assert (a + b)[1..] == a[1..] + b;
      PerformAppend(Act(c, a[0], env), a[1..], b, env);
    }
  }

  function TouchTo(c: Client): (a: Action)
  {
    Touch(c.state, c.bootstrap, c.servers, c.nextMid)
  }

  predicate SameTransactions(c: Client, c': Client)
  {
    c'.transactions == c.transactions && c'.born == c.born && c'.log == c.log
  }

  lemma TouchReaches(c: Client, c': Client, env: Env)
    requires SameTransactions(c, c')
    ensures Perform(c, [TouchTo(c')], env) == c'
  {
    assert Perform(c', [TouchTo(c')][1..], env) == c';
  }

  lemma MakeThenTouch(c: Client, peer: nat, reply: Reply, target: nat, c': Client, env: Env)
    requires SameTransactions(Create(c, peer, reply, target, env).0, c')
    ensures Perform(c, [Make(peer, reply, target), TouchTo(c')], env) == c'
  {
    var acts := [Make(peer, reply, target), TouchTo(c')];
    assert acts[1..] == [TouchTo(c')];
    TouchReaches(Create(c, peer, reply, target, env).0, c', env);
  }

  lemma TouchMakeTouch(c: Client, c1: Client, peer: nat, reply: Reply, target: nat, c': Client, env: Env)
    requires SameTransactions(c, c1) && SameTransactions(Create(c1, peer, reply, target, env).0, c')
    ensures Perform(c, [TouchTo(c1), Make(peer, reply, target), TouchTo(c')], env) == c'
  {
    hide Create;
    var acts := [TouchTo(c1), Make(peer, reply, target), TouchTo(c')];
    assert acts == [TouchTo(c1)] + [Make(peer, reply, target), TouchTo(c')];
    PerformAppend(c, [TouchTo(c1)], [Make(peer, reply, target), TouchTo(c')], env);
    TouchReaches(c, c1, env);
    MakeThenTouch(c1, peer, reply, target, c', env);
  }

  lemma RegisterActs(c: Client, i: nat, env: Env) returns (acts: seq<Action>)
    requires i < |c.servers|
    ensures Perform(c, acts, env) == Register(c, i, env).0
  {
    var c' := Register(c, i, env).0;
    var s := c.servers[i];
    var s1 := if s.session == 0 then s.(session := env.connect(s.id)) else s;
    if !env.printable || s1.session == 0 {
      acts := [TouchTo(c')];
      TouchReaches(c, c', env);
    } else {
      hide Create;
      acts := [TouchTo(SetServer(c, i, s1)), Make(s1.session, RegisterReply, s.id), TouchTo(c')];
      TouchMakeTouch(c, SetServer(c, i, s1), s1.session, RegisterReply, s.id, c', env);
    }
  }

  lemma UpdateActs(c: Client, i: nat, withObjects: bool, env: Env) returns (acts: seq<Action>)
    requires i < |c.servers|
    ensures Perform(c, acts, env) == Update(c, i, withObjects, env)
  {
    var c' := Update(c, i, withObjects, env);
    var s := c.servers[i];
    if s.session == 0 || (withObjects && !env.printable) {
      acts := [TouchTo(c')];
      TouchReaches(c, c', env);
    } else {
      hide Create;
      acts := [Make(s.session, UpdateReply, s.id), TouchTo(c')];
      MakeThenTouch(c, s.session, UpdateReply, s.id, c', env);
    }
  }

  lemma RequestBootstrapActs(c: Client, i: nat, env: Env) returns (acts: seq<Action>)
    requires i < |c.bootstrap|
    ensures Perform(c, acts, env) == RequestBootstrap(c, i, env)
  {
    var c' := RequestBootstrap(c, i, env);
    var s := c.bootstrap[i];
    var s1 := if s.session == 0 then s.(session := env.connect(s.id)) else s;
    if !env.printable || s1.session == 0 {
      acts := [TouchTo(c')];
      TouchReaches(c, c', env);
    } else {
      hide Create;
      acts := [TouchTo(SetBootstrap(c, i, s1)), Make(s1.session, BootstrapReply, s.id), TouchTo(c')];
      TouchMakeTouch(c, SetBootstrap(c, i, s1), s1.session, BootstrapReply, s.id, c', env);
    }
  }

  lemma {:induction false} RegistrationStartActs(c: Client, i: nat, env: Env) returns (acts: seq<Action>)
    requires i <= |c.servers|
    ensures Perform(c, acts, env) == RegistrationStart(c, i, env).0
    decreases |c.servers| - i
  {
    hide Register, Perform;
    if i == |c.servers| {
      PerformNone(c, env);
      acts := [];
    } else if c.servers[i].status in {Deregistered, RegFailed} {
      var first := RegisterActs(c, i, env);
      var (c1, result) := Register(c, i, env);
      if result != COAP_NO_ERROR {
        acts := first;
      } else {
        var rest := RegistrationStartActs(c1, i + 1, env);
        PerformAppend(c, first, rest, env);
        acts := first + rest;
      }
    } else {
      acts := RegistrationStartActs(c, i + 1, env);
    }
  }

  lemma {:induction false} RegistrationStepActs(c: Client, i: nat, env: Env, wait: int) returns (acts: seq<Action>)
    requires i <= |c.servers|
    ensures Perform(c, acts, env) == RegistrationStep(c, i, env, wait).0
    decreases |c.servers| - i
  {
    hide Update, Perform, TouchTo;
    if i == |c.servers| {
      PerformNone(c, env);
      acts := [];
    } else {
      var s := c.servers[i];
      var interval := NextUpdate(s) - env.clock;
      var c1, wait1 := c, wait;
      PerformNone(c, env);
      var first := [];
      if s.status.RegUpdateNeeded? || (s.status.Registered? && interval <= 0) {
        c1 := Update(c, i, false, env);
        first := UpdateActs(c, i, false, env);
      } else if s.status.RegFullUpdateNeeded? {
        c1 := Update(c, i, true, env);
        first := UpdateActs(c, i, true, env);
      } else if s.status.RegFailed? {
        c1 := SetServer(c, i, s.(session := 0));
        first := [TouchTo(c1)];
        TouchReaches(c, c1, env);
      } else if s.status.Registered? {
        wait1 := Min(interval, wait);
      }
      var rest := RegistrationStepActs(c1, i + 1, env, wait1);
      PerformAppend(c, first, rest, env);
      acts := first + rest;
    }
  }

  lemma {:induction false} BootstrapStepActs(c: Client, i: nat, env: Env, wait: int) returns (acts: seq<Action>)
    requires i <= |c.bootstrap|
    ensures Perform(c, acts, env) == BootstrapStep(c, i, env, wait).0
    decreases |c.bootstrap| - i
  {
    hide RequestBootstrap, Perform, TouchTo;
    if i == |c.bootstrap| {
      PerformNone(c, env);
      acts := [];
    } else {
      var s := c.bootstrap[i];
      var c1, wait1 := c, wait;
      var due := s.registration <= env.clock;
      if s.status.BsHoldOff? && due {
        c1 := RequestBootstrap(c, i, env);
        var first := RequestBootstrapActs(c, i, env);
        var rest := BootstrapStepActs(c1, i + 1, env, wait1);
        PerformAppend(c, first, rest, env);
        acts := first + rest;
      } else {
        if s.status.Deregistered? {
          c1 := SetBootstrap(c, i, s.(registration := env.clock + s.lifetime, status := BsHoldOff));
          wait1 := Min(s.lifetime, wait);
        } else if s.status.BsPending? && due {
          c1, wait1 := SetBootstrap(c, i, s.(status := BsFailing)), 0;
        } else if s.status.BsFinishing? {
          c1, wait1 := SetBootstrap(c, i, s.(session := 0, status := BsFinished)), 0;
        } else if s.status.BsFailing? {
          c1, wait1 := SetBootstrap(c, i, s.(session := 0, status := BsFailed)), 0;
        } else if s.status.BsHoldOff? || s.status.BsPending? {
          wait1 := Min(s.registration - env.clock, wait);
        }
        TouchReaches(c, c1, env);
        var rest := BootstrapStepActs(c1, i + 1, env, wait1);
        PerformAppend(c, [TouchTo(c1)], rest, env);
        acts := [TouchTo(c1)] + rest;
      }
    }
  }

  lemma {:induction false} DiscoverTouches(c: Client, found: seq<(bool, Server)>)
    ensures SameTransactions(c, Discover(c, found))
    decreases |found|
  {
    if found != [] {
      var (isBootstrap, s0) := found[0];
      var s := s0.(status := Deregistered, session := 0, located := false, dirty := false);
      DiscoverTouches(c, found[1..]);
      DiscoverTouches(c.(bootstrap := InsertServer(c.bootstrap, s)), found[1..]);
      DiscoverTouches(c.(servers := InsertServer(c.servers, s)), found[1..]);
    }
  }

  /** A touch, then some actions. */
  lemma After(c: Client, c1: Client, rest: seq<Action>, env: Env) returns (acts: seq<Action>)
    requires SameTransactions(c, c1)
    ensures Perform(c, acts, env) == Perform(c1, rest, env)
  {
    TouchReaches(c, c1, env);
    PerformAppend(c, [TouchTo(c1)], rest, env);
    acts := [TouchTo(c1)] + rest;
  }

  lemma {:induction false} SettleActs(c: Client, env: Env, wait: int) returns (acts: seq<Action>)
    ensures Perform(c, acts, env) == Settle(c, env, wait).client
    decreases JumpsLeft(c.state)
  {
    hide Perform, Discover, Clean, BootstrapStep, RegistrationStart, RegistrationStatus, BootstrapStatus;
    PerformNone(c, env);
    match c.state {
      case Initial =>
        var c1 := RefreshServerList(c, env);
        DiscoverTouches(c.(bootstrap := Clean(c.bootstrap, true), servers := Clean(c.servers, false)), env.discovered);
        var c2 := c1.(state := if c1.servers != [] then RegisterRequired else BootstrapRequired);
        var rest := SettleActs(c2, env, wait);
        if env.discoverOk {
          acts := After(c, c2, rest, env);
        } else {
          PerformNone(c1, env);
          acts := After(c, c1, [], env);
        }
      case BootstrapRequired =>
        var c1 := BootstrapStart(c, env).(state := Bootstrapping);
        var rest := BootstrapStepActs(c1, 0, env, wait);
        if c.bootstrap == [] {
          acts := [];
        } else {
          acts := After(c, c1, rest, env);
        }
      case Bootstrapping =>
        if BootstrapStatus(c.bootstrap).BsFinished? {
          var rest := SettleActs(c.(state := Initial), env, wait);
          acts := After(c, c.(state := Initial), rest, env);
        } else if BootstrapStatus(c.bootstrap).BsFailed? {
          acts := [];
        } else {
          acts := BootstrapStepActs(c, 0, env, wait);
        }
      case RegisterRequired =>
        var first := RegistrationStartActs(c, 0, env);
        var (c1, result) := RegistrationStart(c, 0, env);
        if result != COAP_NO_ERROR {
          acts := first;
        } else {
          PerformNone(c1.(state := Registering), env);
          var last := After(c1, c1.(state := Registering), [], env);
          PerformAppend(c, first, last, env);
          acts := first + last;
        }
      case Registering =>
        if RegistrationStatus(c.servers).Registered? {
          PerformNone(c.(state := Ready), env);
          acts := After(c, c.(state := Ready), [], env);
        } else if RegistrationStatus(c.servers).RegFailed? {
          var rest := SettleActs(c.(state := BootstrapRequired), env, wait);
          acts := After(c, c.(state := BootstrapRequired), rest, env);
        } else {
          acts := [];
        }
      case Ready =>
        if RegistrationStatus(c.servers).RegFailed? {
          var rest := SettleActs(c.(state := BootstrapRequired), env, wait);
          acts := After(c, c.(state := BootstrapRequired), rest, env);
        } else {
          acts := [];
        }
    }
  }

  lemma PerformNone(c: Client, env: Env)
    ensures Perform(c, [], env) == c
  {}

  // ----- how transactions evolve

  predicate Numbered(c: Client)
  {
    forall t :: t in c.transactions ==> t.uid < c.born
  }

  /** Nothing was lost or changed, and what is new has just been sent for the first time. */
  ghost predicate Grown(c: Client, c': Client, clock: int)
  {
    && c.born <= c'.born && Numbered(c')
    && (forall t :: t in c.transactions ==> t in c'.transactions)
    && (forall t :: t in c'.transactions && t !in c.transactions ==>
          t.uid >= c.born && t.counter == 2 && t.time == clock + RESPONSE_TIMEOUT)
  }

  lemma CreateGrows(c: Client, peer: nat, reply: Reply, target: nat, env: Env)
    requires Numbered(c)
    ensures Grown(c, Create(c, peer, reply, target, env).0, env.clock)
  {
    if peer != 0 {
      var t := Transaction(c.born, c.nextMid, peer, Token(c.nextMid, env.clock), false, 0, 0, false, reply, target);
      var c1 := c.(nextMid := (c.nextMid + 1) % 0x1_0000, transactions := Insert(c.transactions, t), born := c.born + 1);
      InsertMembers(c.transactions, t);
      FirstSendMembers(c1, t, env);
      hide Insert, Send;
    }
  }

  lemma FirstSendMembers(c: Client, t: Transaction, env: Env)
    requires t in c.transactions && t.counter == 0
    ensures Send(c, t, env).0.born == c.born
    ensures forall x :: x in Send(c, t, env).0.transactions ==>
              (x in c.transactions && x.uid != t.uid)
              || (x.uid == t.uid && x.counter == 2 && x.time == env.clock + RESPONSE_TIMEOUT)
    ensures forall x :: x in c.transactions && x.uid != t.uid ==> x in Send(c, t, env).0.transactions
  {
    DropMembers(c.transactions, t.uid);
    ReplaceMembers(c.transactions, Resent(t, env.clock));
    hide Drop, Replace, Notify;
  }

  lemma {:induction false} PerformGrows(c: Client, acts: seq<Action>, env: Env)
    requires Numbered(c)
    ensures Grown(c, Perform(c, acts, env), env.clock)
    decreases |acts|
  {
    if acts != [] {
      var c1 := Act(c, acts[0], env);
      match acts[0] {
        case Touch(_, _, _, _) =>
        case Make(peer, reply, target) => CreateGrows(c, peer, reply, target, env);
      }
      hide Act, Perform, Create;
      PerformGrows(c1, acts[1..], env);
      assert Perform(c, acts, env) == Perform(c1, acts[1..], env) by { PerformFirst(c, acts, env); }
    }
  }

  lemma PerformFirst(c: Client, acts: seq<Action>, env: Env)
    requires acts != []
    ensures Perform(c, acts, env) == Perform(Act(c, acts[0], env), acts[1..], env)
  {}

  /** The transaction after the step served it. */
  function Served(t: Transaction, clock: int): (t': Transaction)
  {
    if t.time <= clock then Resent(t, clock) else t
  }

  lemma SendServes(c: Client, t: Transaction, env: Env, x: Transaction)
    requires x in Send(c, t, env).0.transactions && t in c.transactions
    ensures (x in c.transactions && x.uid != t.uid) || x == Resent(t, env.clock)
  {
    DropMembers(c.transactions, t.uid);
    ReplaceMembers(c.transactions, Resent(t, env.clock));
  }

  /** xiny_transaction_step leaves only served transactions, and none of them is due before the wait it asks for. */
  lemma {:induction false} TransactionStepServes(c: Client, todo: seq<Transaction>, env: Env, wait: int, x: Transaction)
    requires Distinct(todo) && Distinct(c.transactions) && forall t :: t in todo ==> t in c.transactions
    requires x in TransactionStep(c, todo, env, wait).0.transactions
    ensures var wait' := TransactionStep(c, todo, env, wait).1;
            if x in c.transactions && !HasUid(todo, x.uid) then true
            else exists t :: t in todo && t.uid == x.uid && x == Served(t, env.clock) && wait' <= Interval(x.time, env.clock)
    decreases |todo|
  {
    if todo != [] {
      var t := todo[0];
      assert todo == [t] + todo[1..];
      DistinctCons(t, todo[1..]);
      if t.time > env.clock {
        var w := Min(wait, Interval(t.time, env.clock));
        TransactionStepServes(c, todo[1..], env, w, x);
        WaitBound(c, todo[1..], env, w);
        if x in c.transactions && x.uid == t.uid {
          SameUid(c.transactions, x, t);
        }
      } else {
        var (c1, sent) := Send(c, t, env);
        var w := if sent then Min(wait, Interval(Resent(t, env.clock).time, env.clock)) else 1;
        SendDistinct(c, t, env);
        forall y | y in todo[1..]
          ensures y in c1.transactions
        {
          SendKeepsOthers(c, t, env, y);
        }
        TransactionStepServes(c1, todo[1..], env, w, x);
        WaitBound(c1, todo[1..], env, w);
        if x in c1.transactions && !HasUid(todo[1..], x.uid) {
          SendServes(c, t, env, x);
          if x.uid == t.uid {
            SentOnlyIfKept(c, t, env, x);
          }
        }
      }
    }
  }

  lemma SameUid(ts: seq<Transaction>, x: Transaction, y: Transaction)
    requires Distinct(ts) && x in ts && y in ts && x.uid == y.uid
    ensures x == y
  {
    var i :| 0 <= i < |ts| && ts[i] == x;
    var j :| 0 <= j < |ts| && ts[j] == y;
  }

  lemma SendDistinct(c: Client, t: Transaction, env: Env)
    requires Distinct(c.transactions)
    ensures Distinct(Send(c, t, env).0.transactions)
  {
    DropMembers(c.transactions, t.uid);
    ReplaceMembers(c.transactions, Resent(t, env.clock));
  }

  lemma SentOnlyIfKept(c: Client, t: Transaction, env: Env, x: Transaction)
    requires x in Send(c, t, env).0.transactions && x.uid == t.uid
    ensures Send(c, t, env).1
  {
    DropMembers(c.transactions, t.uid);
  }

  lemma {:induction false} WaitBound(c: Client, todo: seq<Transaction>, env: Env, wait: int)
    ensures TransactionStep(c, todo, env, wait).1 <= if wait < 1 then 1 else wait
    decreases |todo|
  {
    hide Send;
    if todo != [] {
      var t := todo[0];
      if t.time > env.clock {
        WaitBound(c, todo[1..], env, Min(wait, Interval(t.time, env.clock)));
      } else {
        var (c1, sent) := Send(c, t, env);
        WaitBound(c1, todo[1..], env, if sent then Min(wait, Interval(Resent(t, env.clock).time, env.clock)) else 1);
      }
    }
  }

  // ----- the client step

  /** The client when xiny_transaction_step is reached, and the wait asked for so far. */
  function BeforeTransactions(c: Client, env: Env, wait: int): (r: (Client, int))
  {
    var r := Settle(c, env, wait);
    RegistrationStep(Observe(r.client, env), 0, env, Min(r.wait, env.observeWait))
  }

  lemma BeforeTransactionsGrows(c: Client, env: Env, wait: int)
    requires Numbered(c)
    ensures Grown(c, Settle(c, env, wait).client, env.clock)
    ensures Grown(c, BeforeTransactions(c, env, wait).0, env.clock)
  {
    hide Perform, Settle, RegistrationStep;
    var r := Settle(c, env, wait);
    var a := SettleActs(c, env, wait);
    PerformGrows(c, a, env);
    var c1 := Observe(r.client, env);
    var b := RegistrationStepActs(c1, 0, env, Min(r.wait, env.observeWait));
    PerformGrows(c1, b, env);
  }

  /** What a step may leave of the transactions there were, and of new ones. */
  ghost predicate Aged(c: Client, c': Client, clock: int, served: bool)
  {
    && c.born <= c'.born
    && (forall x :: x in c'.transactions && x.uid >= c.born ==> x.counter == 2 && x.time == clock + RESPONSE_TIMEOUT)
    && (forall x :: x in c'.transactions && x.uid < c.born ==>
          exists t :: t in c.transactions && t.uid == x.uid && x == if served then Served(t, clock) else t)
  }

  lemma StepAges(c: Client, env: Env, wait: int)
    requires Inv(c)
    ensures Aged(c, Step(c, env, wait).0, env.clock, Step(c, env, wait).1 == 0)
  {
    var c' := Step(c, env, wait).0;
    if env.clock >= 0 {
      BeforeTransactionsGrows(c, env, wait);
      var r := Settle(c, env, wait);
      if r.code == 0 {
        SettleKeeps(c, env, wait);
        var c1 := Observe(r.client, env);
        SameParts(r.client, c1);
        RegistrationStepKeeps(c1, 0, env, Min(r.wait, env.observeWait));
        var (c2, wait2) := BeforeTransactions(c, env, wait);
        assert Distinct(c2.transactions);
        hide Inv, Settle, RegistrationStep, TransactionStep, Observe;
        forall x | x in c'.transactions
          ensures if x.uid >= c.born then x.counter == 2 && x.time == env.clock + RESPONSE_TIMEOUT
                  else exists t :: t in c.transactions && t.uid == x.uid && x == Served(t, env.clock)
        {
          ServedFromBefore(c2, env, wait2, x);
        }
        assert c'.born == c2.born by { TransactionStepBorn(c2, c2.transactions, env, wait2); }
      }
    }
  }

  lemma ServedFromBefore(c: Client, env: Env, wait: int, x: Transaction)
    requires Distinct(c.transactions) && x in TransactionStep(c, c.transactions, env, wait).0.transactions
    ensures exists t :: t in c.transactions && t.uid == x.uid && x == Served(t, env.clock)
                        && TransactionStep(c, c.transactions, env, wait).1 <= Interval(x.time, env.clock)
  {
    TransactionStepServes(c, c.transactions, env, wait, x);
  }

  lemma {:induction false} TransactionStepBorn(c: Client, todo: seq<Transaction>, env: Env, wait: int)
    ensures TransactionStep(c, todo, env, wait).0.born == c.born
    decreases |todo|
  {
    if todo != [] {
      var t := todo[0];
      var (c1, sent) := Send(c, t, env);
      assert c1.born == c.born;
      hide Send;
      TransactionStepBorn(c, todo[1..], env, Min(wait, Interval(t.time, env.clock)));
      TransactionStepBorn(c1, todo[1..], env, if sent then Min(wait, Interval(Resent(t, env.clock).time, env.clock)) else 1);
    }
  }

  // ----- the back-off schedule

  /** Constant as long as a transaction is only retransmitted. */
  function Phase(t: Transaction): (p: int)
    requires t.counter >= 1
  {
    t.time - RESPONSE_TIMEOUT * Pow2(t.counter - 1)
  }

  lemma ResentKeepsPhase(t: Transaction, clock: int)
    requires t.counter >= 1
    ensures Phase(Resent(t, clock)) == Phase(t)
  {
    assert Pow2(t.counter) == 2 * Pow2(t.counter - 1);
  }

  /** The clock of the event that created a transaction. */
  function CreatedAt(c: Client, es: seq<Event>, uid: nat): (clock: int)
  {
    if es == [] then 0
    else
      var before, last := es[..|es| - 1], es[|es| - 1];
      if uid < Run(c, before).born then CreatedAt(c, before, uid)
      else if last.Tick? || last.AskDeregister? then last.env.clock
      else 0
  }

  predicate NoReplies(es: seq<Event>)
  {
    forall i :: 0 <= i < |es| ==> !es[i].Receive?
  }

  lemma DeregisterAges(c: Client, i: nat, env: Env)
    requires Inv(c) && i < |c.servers|
    ensures Aged(c, Deregister(c, i, env), env.clock, false)
  {
    CreateGrows(c, c.servers[i].session, DeregisterReply, c.servers[i].id, env);
  }

  /** Without replies, after k transmissions the next one is due RESPONSE_TIMEOUT * (2^k - 1) after the creation:
      the binary exponential back-off of section 4.2 of RFC 7252. */
  lemma {:induction false} BackOff(mid: u16, es: seq<Event>, t: Transaction)
    requires NoReplies(es) && t in Run(Fresh(mid), es).transactions
    ensures var k := SentCount(Run(Fresh(mid), es).log, t.uid);
            k >= 1 && t.time == CreatedAt(Fresh(mid), es, t.uid) + RESPONSE_TIMEOUT * (Pow2(k) - 1)
  {
    BackOffPhase(mid, es, t);
    RunKeeps(Fresh(mid), es);
    assert Alive(Run(Fresh(mid), es).log, t);
  }

  lemma {:induction false} BackOffPhase(mid: u16, es: seq<Event>, t: Transaction)
    requires NoReplies(es) && t in Run(Fresh(mid), es).transactions
    ensures t.counter >= 1 && Phase(t) == CreatedAt(Fresh(mid), es, t.uid) - RESPONSE_TIMEOUT
    decreases |es|
  {
    if es != [] {
      var before, e := es[..|es| - 1], es[|es| - 1];
      var c := Run(Fresh(mid), before);
      hide Inv, Next, Resent;
      RunKeeps(Fresh(mid), before);
      NextKeeps(c, e);
      InvNumbers(Next(c, e));
      var clock, served := EventAges(c, e);
      if t.uid >= c.born {
        assert e.Tick? || e.AskDeregister?;
        assert Pow2(1) == 2;
      } else {
        var t0 :| t0 in c.transactions && t0.uid == t.uid && t == if served then Served(t0, clock) else t0;
        BackOffPhase(mid, before, t0);
        ResentKeepsPhase(t0, clock);
      }
    }
  }

  lemma InvNumbers(c: Client)
    requires Inv(c)
    ensures Numbered(c)
    ensures forall t :: t in c.transactions ==> Alive(c.log, t)
    ensures forall t, t' :: t in c.transactions && t' in c.transactions && t.uid == t'.uid ==> t == t'
  {}

  /** Every event but a reply only ages transactions. */
  lemma EventAges(c: Client, e: Event) returns (clock: int, served: bool)
    requires Inv(c) && !e.Receive?
    ensures Aged(c, Next(c, e), clock, served)
    ensures (e.Tick? || e.AskDeregister?) ==> clock == e.env.clock
    ensures !(e.Tick? || e.AskDeregister?) ==> Next(c, e).born == c.born
    ensures e.Tick? ==> served == (Step(c, e.env, e.wait).1 == 0)
  {
    clock, served := 0, false;
    match e {
      case Tick(env, wait) =>
        clock, served := env.clock, Step(c, env, wait).1 == 0;
        StepAges(c, env, wait);
      case AskDeregister(i, env) =>
        clock := env.clock;
        if i < |c.servers| {
          DeregisterAges(c, i, env);
        }
      case AskUpdate(_, _, env) => DiscoverTouches(c, env.discovered);
      case Command(_, _, _, _) =>
      case DeleteAll(_, _, _) =>
      case FinishCommand(_, _) =>
    }
  }

  // ----- overdue steps

  predicate DueAt(c: Client, uid: nat, clock: int)
  {
    exists t :: t in c.transactions && t.uid == uid && t.time <= clock
  }

  /** How many client steps of a run found a transaction past its deadline and did not return early. */
  function OverdueSteps(c: Client, es: seq<Event>, uid: nat): (n: nat)
  {
    if es == [] then 0
    else
      var before, e := es[..|es| - 1], es[|es| - 1];
      var c1 := Run(c, before);
      var overdue := e.Tick? && Step(c1, e.env, e.wait).1 == 0 && DueAt(c1, uid, e.env.clock);
      OverdueSteps(c, before, uid) + if overdue then 1 else 0
  }

  /** Under any interleaving of steps, replies, commands and calls, a transaction survives at most MAX_RETRANSMIT
      steps past its deadline that return 0; the next one ends it. Steps that return early serve no transaction, and
      SessionIdle says which these are. */
  lemma {:induction false} OverdueIsBounded(mid: u16, es: seq<Event>, uid: nat)
    ensures OverdueSteps(Fresh(mid), es, uid) <= MAX_RETRANSMIT + 1
    ensures HasUid(Run(Fresh(mid), es).transactions, uid) ==> OverdueSteps(Fresh(mid), es, uid) <= MAX_RETRANSMIT
  {
    OverdueCounted(mid, es, uid);
    var c := Run(Fresh(mid), es);
    RunKeeps(Fresh(mid), es);
    if HasUid(c.transactions, uid) {
      var t :| t in c.transactions && t.uid == uid;
      assert Alive(c.log, t);
    }
  }

  lemma {:induction false} OverdueCounted(mid: u16, es: seq<Event>, uid: nat)
    ensures var c := Run(Fresh(mid), es);
            var n := OverdueSteps(Fresh(mid), es, uid);
            && n <= MAX_RETRANSMIT + 1
            && (uid >= c.born ==> n == 0)
            && (forall t :: t in c.transactions && t.uid == uid ==> n <= t.counter - 2)
    decreases |es|
  {
    if es != [] {
      var before, e := es[..|es| - 1], es[|es| - 1];
      OverdueCounted(mid, before, uid);
      var c := Run(Fresh(mid), before);
      hide Inv, Next, Resent, Step;
      RunKeeps(Fresh(mid), before);
      OverdueStep(c, e, uid, OverdueSteps(Fresh(mid), before, uid));
    }
  }

  /** One event of that count. */
  lemma OverdueStep(c: Client, e: Event, uid: nat, n: nat)
    requires Inv(c) && n <= MAX_RETRANSMIT + 1 && (uid >= c.born ==> n == 0)
    requires forall t :: t in c.transactions && t.uid == uid ==> n <= t.counter - 2
    ensures var c' := Next(c, e);
            var overdue := e.Tick? && Step(c, e.env, e.wait).1 == 0 && DueAt(c, uid, e.env.clock);
            var n' := n + if overdue then 1 else 0;
            && n' <= MAX_RETRANSMIT + 1
            && (uid >= c'.born ==> n' == 0)
            && (forall t :: t in c'.transactions && t.uid == uid ==> n' <= t.counter - 2)
  {
    InvNumbers(c);
    if e.Receive? {
      ReplyKeepsCounters(c, e.packet, e.from, e.at);
    } else {
      var clock, served := EventAges(c, e);
      hide Inv, Next, Step;
      var overdue := e.Tick? && Step(c, e.env, e.wait).1 == 0 && DueAt(c, uid, e.env.clock);
      forall t | t in Next(c, e).transactions && t.uid == uid
        ensures n + (if overdue then 1 else 0) <= t.counter - 2
      {
        if uid < c.born {
          var t0 :| t0 in c.transactions && t0.uid == uid && t == if served then Served(t0, clock) else t0;
        }
      }
    }
  }

  lemma ReplyKeepsCounters(c: Client, p: Packet, from: nat, clock: int)
    ensures var c' := HandleResponse(c, p, from, clock);
            && c'.born == c.born
            && forall x :: x in c'.transactions ==>
                 exists t :: t in c.transactions && t.uid == x.uid && t.counter == x.counter
  {
    var i := FirstConcerned(c.transactions, p, from);
    if i < |c.transactions| {
      var t := c.transactions[i];
      DropMembers(c.transactions, t.uid);
      var kept := Kept(t, p, from, clock);
      if kept.Some? {
        ReplaceMembers(c.transactions, kept.value);
      }
    }
  }
}
