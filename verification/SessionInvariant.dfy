/** What every event keeps: a pending server has a transaction that will answer it,
    and every transaction is transmitted a bounded number of times and called back once. */
module SessionInvariant {
  import opened Bytes
  import opened Session

  // ----- the invariant

  /** No two nodes of a list are the same transaction. */
  predicate Distinct(ts: seq<Transaction>)
  {
    forall i, j :: 0 <= i < j < |ts| ==> ts[i].uid != ts[j].uid
  }

  /** Transactions are told apart by their uid. */
  predicate Identified(c: Client)
  {
    && (forall t :: t in c.transactions ==> t.uid < c.born)
    && (forall t, t' :: t in c.transactions && t' in c.transactions && t.uid == t'.uid ==> t == t')
    && Distinct(c.transactions)
  }

  predicate Answers(t: Transaction, reply: Reply, target: nat)
  {
    t.reply == reply && t.target == target
  }

  /** Some outstanding transaction will call this reply handler for this server. */
  predicate Outstanding(ts: seq<Transaction>, reply: Reply, target: nat)
  {
    exists t :: t in ts && Answers(t, reply, target)
  }

  /** A server in a pending status has an outstanding transaction with the matching reply handler. */
  predicate Awaited(ts: seq<Transaction>, s: Server)
  {
    AwaitedReply(s.status).Some? ==> Outstanding(ts, AwaitedReply(s.status).value, s.id)
  }

  predicate AllAwaited(ts: seq<Transaction>, ss: seq<Server>)
  {
    forall i :: 0 <= i < |ss| ==> Awaited(ts, ss[i])
  }

  function SentCount(log: seq<Output>, uid: nat): (n: nat)
  {
    multiset(log)[Transmitted(uid)]
  }

  function CallCount(log: seq<Output>, uid: nat): (n: nat)
  {
    multiset(log)[CalledBack(uid)]
  }

  /** An outstanding transaction: its counter is one ahead of its transmissions, and it was not called back. */
  predicate Alive(log: seq<Output>, t: Transaction)
  {
    t.buffered && 2 <= t.counter <= MAX_RETRANSMIT + 2
    && SentCount(log, t.uid) == t.counter - 1 && CallCount(log, t.uid) == 0
  }

  /** A transaction that left the list: called back exactly once, unless it never could be sent. */
  predicate Over(log: seq<Output>, uid: nat)
  {
    SentCount(log, uid) <= MAX_RETRANSMIT + 1
    && CallCount(log, uid) == if SentCount(log, uid) == 0 then 0 else 1
  }

  predicate Silent(log: seq<Output>, uid: nat)
  {
    SentCount(log, uid) == 0 && CallCount(log, uid) == 0
  }

  predicate HasUid(ts: seq<Transaction>, uid: nat)
  {
    exists t :: t in ts && t.uid == uid
  }

  /** The life of every transaction but possibly `u`. */
  ghost predicate LivesExcept(c: Client, u: int)
  {
    && (forall t :: t in c.transactions && t.uid != u ==> Alive(c.log, t))
    && (forall uid: nat :: uid < c.born && uid != u && !HasUid(c.transactions, uid) ==> Over(c.log, uid))
    && (forall uid: nat :: uid >= c.born ==> Silent(c.log, uid))
  }

  ghost predicate Inv(c: Client)
  {
    Identified(c) && LivesExcept(c, -1)
    && AllAwaited(c.transactions, c.servers) && AllAwaited(c.transactions, c.bootstrap)
  }

  // ----- the transaction list

  lemma {:induction false} InsertMembers(ts: seq<Transaction>, t: Transaction)
    ensures forall x :: x in Insert(ts, t) <==> x == t || x in ts
    ensures Distinct(ts) && !HasUid(ts, t.uid) ==> Distinct(Insert(ts, t))
  {
    if ts != [] && ts[0].mid <= t.mid {
      InsertMembers(ts[1..], t);
      assert ts == [ts[0]] + ts[1..];
      DistinctCons(ts[0], ts[1..]);
      DistinctCons(ts[0], Insert(ts[1..], t));
    } else {
      DistinctCons(t, ts);
    }
  }

  lemma DistinctCons(t: Transaction, ts: seq<Transaction>)
    ensures Distinct([t] + ts) <==> Distinct(ts) && !HasUid(ts, t.uid)
  {
    var all := [t] + ts;
    if Distinct(all) {
      assert forall i :: 0 <= i < |ts| ==> ts[i] == all[i + 1];
      forall x | x in ts
        ensures x.uid != t.uid
      {
        var i :| 0 <= i < |ts| && ts[i] == x;
        assert all[0].uid != all[i + 1].uid;
      }
    }
    if Distinct(ts) && !HasUid(ts, t.uid) {
      assert forall i :: 0 < i < |all| ==> all[i] == ts[i - 1];
    }
  }

  lemma {:induction false} DropMembers(ts: seq<Transaction>, uid: nat)
    ensures forall x :: x in Drop(ts, uid) <==> x in ts && x.uid != uid
    ensures Distinct(ts) ==> Distinct(Drop(ts, uid))
  {
    if ts != [] {
      DropMembers(ts[1..], uid);
      assert ts == [ts[0]] + ts[1..];
    }
  }

  lemma ReplaceMembers(ts: seq<Transaction>, t: Transaction)
    ensures forall x :: x in Replace(ts, t) <==> (x == t && HasUid(ts, t.uid)) || (x in ts && x.uid != t.uid)
    ensures Distinct(ts) ==> Distinct(Replace(ts, t))
  {
    var r := Replace(ts, t);
    forall x | x in r
      ensures (x == t && HasUid(ts, t.uid)) || (x in ts && x.uid != t.uid)
    {
      var i :| 0 <= i < |r| && r[i] == x;
      assert ts[i] in ts;
    }
    forall x | (x == t && HasUid(ts, t.uid)) || (x in ts && x.uid != t.uid)
      ensures x in r
    {
      var y :| y in ts && y.uid == x.uid && (y.uid == t.uid || y == x);
      var i :| 0 <= i < |ts| && ts[i] == y;
      assert r[i] == x;
    }
  }

  // ----- servers and callbacks

  /** The matching reply handler moves a server out of its pending status, and touches no other server. */
  lemma HandlerReleases(s: Server, reply: Reply, packet: Option<Packet>, clock: int)
    ensures AwaitedReply(s.status) == Some(reply) ==> AwaitedReply(Answered(s, reply, packet, clock).status).None?
    ensures AwaitedReply(s.status) != Some(reply) ==> Answered(s, reply, packet, clock) == s
    ensures Answered(s, reply, packet, clock).id == s.id
  {}

  /** Ending a transaction keeps every server that still waits supplied with another transaction. */
  lemma NotifyKeepsAwaited(ts: seq<Transaction>, ss: seq<Server>, t: Transaction, packet: Option<Packet>, clock: int)
    requires AllAwaited(ts, ss) && t in ts
    requires forall t' :: t' in ts && t'.uid == t.uid ==> t' == t
    ensures AllAwaited(Drop(ts, t.uid), Notify(ss, t, packet, clock))
  {
    var ss' := Notify(ss, t, packet, clock);
    DropMembers(ts, t.uid);
    forall i | 0 <= i < |ss'|
      ensures Awaited(Drop(ts, t.uid), ss'[i])
    {
      HandlerReleases(ss[i], t.reply, packet, clock);
      assert Awaited(ts, ss[i]);
      if AwaitedReply(ss'[i].status).Some? {
        assert ss'[i] == ss[i];
        var w :| w in ts && Answers(w, AwaitedReply(ss[i].status).value, ss[i].id);
        assert w != t;
        assert w in Drop(ts, t.uid);
      }
    }
  }

  /** More transactions, or other versions of the same ones, keep servers supplied. */
  lemma AwaitedMonotone(ts: seq<Transaction>, ts': seq<Transaction>, ss: seq<Server>)
    requires AllAwaited(ts, ss)
    requires forall t :: t in ts ==> Outstanding(ts', t.reply, t.target)
    ensures AllAwaited(ts', ss)
  {
    forall i | 0 <= i < |ss|
      ensures Awaited(ts', ss[i])
    {
      assert Awaited(ts, ss[i]);
      if AwaitedReply(ss[i].status).Some? {
        var w :| w in ts && Answers(w, AwaitedReply(ss[i].status).value, ss[i].id);
      }
    }
  }

  // ----- ending and transmitting

  lemma CountAppend(log: seq<Output>, o: Output)
    ensures forall uid :: SentCount(log + [o], uid) == SentCount(log, uid) + if o == Transmitted(uid) then 1 else 0
    ensures forall uid :: CallCount(log + [o], uid) == CallCount(log, uid) + if o == CalledBack(uid) then 1 else 0
  {}

  ghost predicate SameElsewhere(log: seq<Output>, log': seq<Output>, u: nat)
  {
    forall uid: nat :: uid != u ==>
      SentCount(log', uid) == SentCount(log, uid) && CallCount(log', uid) == CallCount(log, uid)
  }

  /** Removing a transaction keeps the lives of the others. */
  lemma RemovalKeepsLives(c: Client, c': Client, u: nat)
    requires Identified(c) && LivesExcept(c, u)
    requires c'.transactions == Drop(c.transactions, u) && c'.born == c.born && u < c.born
    requires SameElsewhere(c.log, c'.log, u)
    requires Over(c'.log, u)
    ensures Identified(c') && LivesExcept(c', -1)
  {
    DropMembers(c.transactions, u);
    forall uid: nat | uid >= c'.born
      ensures Silent(c'.log, uid)
    {
      assert Silent(c.log, uid);
    }
    forall uid: nat | uid < c'.born && !HasUid(c'.transactions, uid)
      ensures Over(c'.log, uid)
    {
      assert uid == u || !HasUid(c.transactions, uid);
    }
  }

  lemma FinishKeeps(c: Client, t: Transaction, packet: Option<Packet>, clock: int)
    requires Identified(c) && LivesExcept(c, t.uid) && t in c.transactions
    requires AllAwaited(c.transactions, c.servers) && AllAwaited(c.transactions, c.bootstrap)
    requires 1 <= SentCount(c.log, t.uid) <= MAX_RETRANSMIT + 1 && CallCount(c.log, t.uid) == 0
    ensures Inv(Finish(c, t, packet, clock))
  {
    NotifyKeepsAwaited(c.transactions, c.servers, t, packet, clock);
    NotifyKeepsAwaited(c.transactions, c.bootstrap, t, packet, clock);
    CountAppend(c.log, CalledBack(t.uid));
    RemovalKeepsLives(c, Finish(c, t, packet, clock), t.uid);
  }

  /** Replacing a transaction by a newer version of itself. */
  lemma ReplaceKeeps(c: Client, t: Transaction, t': Transaction, log': seq<Output>)
    requires Identified(c) && LivesExcept(c, t.uid) && t in c.transactions
    requires AllAwaited(c.transactions, c.servers) && AllAwaited(c.transactions, c.bootstrap)
    requires t'.uid == t.uid && t'.reply == t.reply && t'.target == t.target
    requires SameElsewhere(c.log, log', t.uid)
    requires Alive(log', t')
    ensures Inv(c.(transactions := Replace(c.transactions, t'), log := log'))
    ensures t' in Replace(c.transactions, t')
  {
    var c' := c.(transactions := Replace(c.transactions, t'), log := log');
    ReplaceMembers(c.transactions, t');
    assert HasUid(c.transactions, t'.uid);
    forall x | x in c.transactions
      ensures Outstanding(c'.transactions, x.reply, x.target)
    {
      var y := if x.uid == t.uid then t' else x;
      assert y in c'.transactions && Answers(y, x.reply, x.target);
    }
    AwaitedMonotone(c.transactions, c'.transactions, c.servers);
    AwaitedMonotone(c.transactions, c'.transactions, c.bootstrap);
    forall uid: nat | uid >= c'.born
      ensures Silent(c'.log, uid)
    {
      assert Silent(c.log, uid);
    }
    forall uid: nat | uid < c'.born && !HasUid(c'.transactions, uid)
      ensures Over(c'.log, uid)
    {
      assert t' in c'.transactions;
      assert uid == t.uid || !HasUid(c.transactions, uid);
    }
  }

  lemma ResendKeeps(c: Client, t: Transaction, env: Env)
    requires Inv(c) && t in c.transactions
    ensures Inv(Send(c, t, env).0)
  {
    assert Alive(c.log, t);
    if t.ack || Exhausted(t) {
      FinishKeeps(c, t, None, env.clock);
    } else {
      CountAppend(c.log, Transmitted(t.uid));
      ReplaceKeeps(c, t, Resent(t, env.clock), c.log + [Transmitted(t.uid)]);
    }
  }

  lemma HandleResponseKeeps(c: Client, p: Packet, from: nat, clock: int)
    requires Inv(c)
    ensures Inv(HandleResponse(c, p, from, clock))
  {
    var i := FirstConcerned(c.transactions, p, from);
    if i < |c.transactions| {
      HandleKeeps(c, c.transactions[i], p, from, clock);
    }
  }

  lemma HandleKeeps(c: Client, t: Transaction, p: Packet, from: nat, clock: int)
    requires Inv(c) && t in c.transactions && Concerns(p, from, t)
    ensures Inv(Handle(c, t, p, from, clock))
  {
    InvParts(c, t);
    match Kept(t, p, from, clock) {
      case Some(t') => ReplaceKeeps(c, t, t', c.log);
      case None => FinishKeeps(c, t, Some(p), clock);
    }
  }

  lemma InvParts(c: Client, t: Transaction)
    requires Inv(c) && t in c.transactions
    ensures Identified(c) && LivesExcept(c, t.uid)
    ensures AllAwaited(c.transactions, c.servers) && AllAwaited(c.transactions, c.bootstrap)
    ensures 1 <= SentCount(c.log, t.uid) <= MAX_RETRANSMIT + 1 && CallCount(c.log, t.uid) == 0
    ensures forall ack, time :: Alive(c.log, t.(ack := ack, time := time))
  {
    assert Alive(c.log, t);
  }

  // ----- new transactions

  /** Only bookkeeping of ids changed. */
  lemma SameParts(c: Client, c': Client)
    requires Inv(c)
    requires c'.transactions == c.transactions && c'.servers == c.servers && c'.bootstrap == c.bootstrap
    requires c'.born == c.born && c'.log == c.log
    ensures Inv(c')
  {}

  /** A new transaction joins the list; its own life starts with its first send. */
  lemma InsertKeeps(c: Client, c': Client, t: Transaction)
    requires Inv(c) && t.uid == c.born
    requires c'.transactions == Insert(c.transactions, t) && c'.born == c.born + 1 && c'.log == c.log
    requires c'.servers == c.servers && c'.bootstrap == c.bootstrap
    ensures t in c'.transactions && Identified(c') && LivesExcept(c', t.uid)
    ensures AllAwaited(c'.transactions, c'.servers) && AllAwaited(c'.transactions, c'.bootstrap)
    ensures Silent(c'.log, t.uid)
  {
    InsertMembers(c.transactions, t);
    forall x | x in c.transactions
      ensures Outstanding(c'.transactions, x.reply, x.target)
    {
      assert x in c'.transactions && Answers(x, x.reply, x.target);
    }
    AwaitedMonotone(c.transactions, c'.transactions, c.servers);
    AwaitedMonotone(c.transactions, c'.transactions, c.bootstrap);
    forall uid: nat | uid < c'.born && uid != t.uid && !HasUid(c'.transactions, uid)
      ensures Over(c'.log, uid)
    {
      assert !HasUid(c.transactions, uid);
    }
  }

  /** Taking a transaction out again that could never be sent. */
  lemma UnsendableKeeps(c: Client, c1: Client, t: Transaction)
    requires Inv(c) && t.uid == c.born
    requires c1.transactions == Insert(c.transactions, t) && c1.born == c.born + 1 && c1.log == c.log
    requires c1.servers == c.servers && c1.bootstrap == c.bootstrap
    ensures Inv(c1.(transactions := Drop(c1.transactions, t.uid)))
  {
    var c' := c1.(transactions := Drop(c1.transactions, t.uid));
    InsertKeeps(c, c1, t);
    RemovalKeepsLives(c1, c', t.uid);
    InsertMembers(c.transactions, t);
    DropMembers(c1.transactions, t.uid);
    forall x | x in c.transactions
      ensures Outstanding(c'.transactions, x.reply, x.target)
    {
      assert x in c'.transactions && Answers(x, x.reply, x.target);
    }
    AwaitedMonotone(c.transactions, c'.transactions, c.servers);
    AwaitedMonotone(c.transactions, c'.transactions, c.bootstrap);
  }

  predicate SameIds(ss: seq<Server>, ss': seq<Server>)
  {
    |ss'| == |ss| && forall i :: 0 <= i < |ss| ==> ss'[i].id == ss[i].id
  }

  /** Creating a request keeps the invariant; a sent one is outstanding, with the handler and the server it was made for. */
  lemma CreateKeeps(c: Client, peer: nat, reply: Reply, target: nat, env: Env)
    requires Inv(c)
    ensures var (c', created) := Create(c, peer, reply, target, env);
            && Inv(c') && SameIds(c.servers, c'.servers) && SameIds(c.bootstrap, c'.bootstrap)
            && (created.Sent? ==> Outstanding(c'.transactions, reply, target))
  {
    hide Inv, Send, Insert, Outstanding;
    var c1 := c.(nextMid := (c.nextMid + 1) % 0x1_0000);
    if peer == 0 {
      SameParts(c, c1);
    } else {
      var t := Transaction(c.born, c.nextMid, peer, Token(c.nextMid, env.clock), false, 0, 0, false, reply, target);
      var c2 := c1.(transactions := Insert(c.transactions, t), born := c.born + 1);
      FirstSendKeeps(c, c2, t, env);
      SendKeepsIds(c2, t, env);
    }
  }

  lemma SendKeepsIds(c: Client, t: Transaction, env: Env)
    ensures var c' := Send(c, t, env).0;
            c'.state == c.state && SameIds(c.servers, c'.servers) && SameIds(c.bootstrap, c'.bootstrap)
  {}

  lemma FirstSendKeeps(c: Client, c1: Client, t: Transaction, env: Env)
    requires Inv(c) && t.uid == c.born && t.counter == 0 && !t.buffered && !t.ack
    requires c1.transactions == Insert(c.transactions, t) && c1.born == c.born + 1 && c1.log == c.log
    requires c1.servers == c.servers && c1.bootstrap == c.bootstrap
    ensures var (c', sent) := Send(c1, t, env);
            && Inv(c')
            && (sent ==> Outstanding(c'.transactions, t.reply, t.target))
  {
    InsertKeeps(c, c1, t);
    CountAppend(c1.log, Transmitted(t.uid));
    hide Inv, Identified, LivesExcept, AllAwaited, Insert, Drop, Replace, Notify;
    if !env.encodable(t.mid) {
      UnsendableKeeps(c, c1, t);
    } else if env.clock < 0 {
      var c2 := Transmit(c1, t);
      assert LivesExcept(c2, t.uid) by { TransmitKeepsOthers(c1, t); }
      FinishKeeps(c2, t, None, env.clock);
    } else {
      var t' := Resent(t, env.clock);
      ReplaceKeeps(c1, t, t', c1.log + [Transmitted(t.uid)]);
      assert Answers(t', t.reply, t.target);
    }
  }

  lemma TransmitKeepsOthers(c: Client, t: Transaction)
    requires LivesExcept(c, t.uid) && t.uid < c.born
    ensures LivesExcept(Transmit(c, t), t.uid)
  {
    CountAppend(c.log, Transmitted(t.uid));
    forall uid: nat | uid >= c.born
      ensures Silent(Transmit(c, t).log, uid)
    {
      assert Silent(c.log, uid);
    }
  }

  // ----- changes of one server

  lemma SetServerKeeps(c: Client, i: nat, s: Server)
    requires Inv(c) && i < |c.servers| && Awaited(c.transactions, s)
    ensures Inv(SetServer(c, i, s))
  {}

  lemma SetBootstrapKeeps(c: Client, i: nat, s: Server)
    requires Inv(c) && i < |c.bootstrap| && Awaited(c.transactions, s)
    ensures Inv(SetBootstrap(c, i, s))
  {}

  lemma ServersAwaited(c: Client, i: nat)
    requires Inv(c)
    ensures i < |c.servers| ==> Awaited(c.transactions, c.servers[i])
    ensures i < |c.bootstrap| ==> Awaited(c.transactions, c.bootstrap[i])
  {}

  lemma RegisterKeeps(c: Client, i: nat, env: Env)
    requires Inv(c) && i < |c.servers|
    ensures Inv(Register(c, i, env).0)
  {
    hide Inv, Create, Outstanding;
    var s := c.servers[i];
    var s1 := if s.session == 0 then s.(session := env.connect(s.id)) else s;
    var c1 := SetServer(c, i, s1);
    ServersAwaited(c, i);
    SetServerKeeps(c, i, s1);
    CreateKeeps(c1, s1.session, RegisterReply, s.id, env);
    var (c2, created) := Create(c1, s1.session, RegisterReply, s.id, env);
    if created.Sent? {
      SetServerKeeps(c2, i, c2.servers[i].(status := RegPending));
    }
  }

  lemma UpdateKeeps(c: Client, i: nat, withObjects: bool, env: Env)
    requires Inv(c) && i < |c.servers|
    ensures Inv(Update(c, i, withObjects, env))
  {
    hide Inv, Create, Outstanding;
    var s := c.servers[i];
    CreateKeeps(c, s.session, UpdateReply, s.id, env);
    var (c1, created) := Create(c, s.session, UpdateReply, s.id, env);
    if created.Sent? {
      SetServerKeeps(c1, i, c1.servers[i].(status := RegUpdatePending));
    }
    SameParts(c, c.(nextMid := (c.nextMid + 1) % 0x1_0000));
  }

  lemma DeregisterKeeps(c: Client, i: nat, env: Env)
    requires Inv(c) && i < |c.servers|
    ensures Inv(Deregister(c, i, env))
  {
    hide Inv, Create, Outstanding;
    var s := c.servers[i];
    CreateKeeps(c, s.session, DeregisterReply, s.id, env);
    var (c1, created) := Create(c, s.session, DeregisterReply, s.id, env);
    if created.Sent? {
      SetServerKeeps(c1, i, c1.servers[i].(status := DeregPending));
    }
  }

  lemma RequestBootstrapKeeps(c: Client, i: nat, env: Env)
    requires Inv(c) && i < |c.bootstrap|
    ensures Inv(RequestBootstrap(c, i, env))
  {
    hide Inv, Create, Outstanding;
    var s := c.bootstrap[i];
    var s1 := if s.session == 0 then s.(session := env.connect(s.id)) else s;
    ServersAwaited(c, i);
    SetBootstrapKeeps(c, i, s1);
    SetBootstrapKeeps(c, i, s.(status := BsFailing));
    SetBootstrapKeeps(c, i, s1.(status := BsFailed));
    var c1 := SetBootstrap(c, i, s1);
    CreateKeeps(c1, s1.session, BootstrapReply, s.id, env);
    var (c2, created) := Create(c1, s1.session, BootstrapReply, s.id, env);
    if created.Sent? {
      SetBootstrapKeeps(c2, i, c2.bootstrap[i].(status := BsInitiated));
    }
  }

  // ----- the loops

  lemma {:induction false} TransactionStepKeeps(c: Client, todo: seq<Transaction>, env: Env, wait: int)
    requires Inv(c) && Distinct(todo)
    requires forall t :: t in todo ==> t in c.transactions
    ensures Inv(TransactionStep(c, todo, env, wait).0)
    decreases |todo|
  {
    if todo != [] {
      var t := todo[0];
      if t.time > env.clock {
        TransactionStepKeeps(c, todo[1..], env, Min(wait, Interval(t.time, env.clock)));
      } else {
        ResendKeeps(c, t, env);
        var (c1, sent) := Send(c, t, env);
        var wait1 := if sent then Min(wait, Interval(Resent(t, env.clock).time, env.clock)) else 1;
        forall x | x in todo[1..]
          ensures x in c1.transactions
        {
          SendKeepsOthers(c, t, env, x);
        }
        TransactionStepKeeps(c1, todo[1..], env, wait1);
      }
    }
  }

  lemma SendKeepsOthers(c: Client, t: Transaction, env: Env, x: Transaction)
    requires x in c.transactions && x.uid != t.uid
    ensures x in Send(c, t, env).0.transactions
  {
    DropMembers(c.transactions, t.uid);
    ReplaceMembers(c.transactions, Resent(t, env.clock));
  }

  /** Servers may change as long as each one that waits is still awaited. */
  lemma ServersChange(c: Client, c': Client)
    requires Inv(c)
    requires c'.transactions == c.transactions && c'.born == c.born && c'.log == c.log
    requires AllAwaited(c.transactions, c'.servers) && AllAwaited(c.transactions, c'.bootstrap)
    ensures Inv(c')
  {}

  lemma {:induction false} RegistrationStartKeeps(c: Client, i: nat, env: Env)
    requires Inv(c) && i <= |c.servers|
    ensures Inv(RegistrationStart(c, i, env).0)
    decreases |c.servers| - i
  {
    hide Inv, Register;
    if i < |c.servers| {
      if c.servers[i].status in {Deregistered, RegFailed} {
        RegisterKeeps(c, i, env);
        var (c1, result) := Register(c, i, env);
        RegistrationStartKeeps(c1, i + 1, env);
      } else {
        RegistrationStartKeeps(c, i + 1, env);
      }
    }
  }

  lemma {:induction false} RegistrationStepKeeps(c: Client, i: nat, env: Env, wait: int)
    requires Inv(c) && i <= |c.servers|
    ensures Inv(RegistrationStep(c, i, env, wait).0)
    decreases |c.servers| - i
  {
    hide Inv, Update;
    if i < |c.servers| {
      var s := c.servers[i];
      var w := Min(NextUpdate(s) - env.clock, wait);
      UpdateKeeps(c, i, false, env);
      UpdateKeeps(c, i, true, env);
      RegistrationStepKeeps(Update(c, i, false, env), i + 1, env, wait);
      RegistrationStepKeeps(Update(c, i, true, env), i + 1, env, wait);
      ServersAwaited(c, i);
      SetServerKeeps(c, i, s.(session := 0));
      RegistrationStepKeeps(SetServer(c, i, s.(session := 0)), i + 1, env, wait);
      RegistrationStepKeeps(c, i + 1, env, wait);
      RegistrationStepKeeps(c, i + 1, env, w);
    }
  }

  lemma {:induction false} BootstrapStepKeeps(c: Client, i: nat, env: Env, wait: int)
    requires Inv(c) && i <= |c.bootstrap|
    ensures Inv(BootstrapStep(c, i, env, wait).0)
    decreases |c.bootstrap| - i
  {
    hide Inv, RequestBootstrap, Awaited;
    if i < |c.bootstrap| {
      var s := c.bootstrap[i];
      match s.status {
        case Deregistered =>
          SetBootstrapStepKeeps(c, i, s.(registration := env.clock + s.lifetime, status := BsHoldOff), env, Min(s.lifetime, wait));
        case BsHoldOff =>
          RequestBootstrapKeeps(c, i, env);
          BootstrapStepKeeps(RequestBootstrap(c, i, env), i + 1, env, wait);
          BootstrapStepKeeps(c, i + 1, env, Min(s.registration - env.clock, wait));
        case BsPending =>
          SetBootstrapStepKeeps(c, i, s.(status := BsFailing), env, 0);
          BootstrapStepKeeps(c, i + 1, env, Min(s.registration - env.clock, wait));
        case BsFinishing => SetBootstrapStepKeeps(c, i, s.(session := 0, status := BsFinished), env, 0);
        case BsFailing => SetBootstrapStepKeeps(c, i, s.(session := 0, status := BsFailed), env, 0);
        case _ => BootstrapStepKeeps(c, i + 1, env, wait);
      }
    }
  }

  lemma SetBootstrapStepKeeps(c: Client, i: nat, s: Server, env: Env, wait: int)
    requires Inv(c) && i < |c.bootstrap| && AwaitedReply(s.status).None?
    ensures Inv(BootstrapStep(SetBootstrap(c, i, s), i + 1, env, wait).0)
    decreases |c.bootstrap| - i, 0
  {
    SetBootstrapKeeps(c, i, s);
    BootstrapStepKeeps(SetBootstrap(c, i, s), i + 1, env, wait);
  }

  lemma {:induction false} InsertServerAwaited(ts: seq<Transaction>, ss: seq<Server>, s: Server)
    requires AllAwaited(ts, ss) && Awaited(ts, s)
    ensures AllAwaited(ts, InsertServer(ss, s))
  {
    if ss != [] && ss[0].id <= s.id {
      assert AllAwaited(ts, ss[1..]) && Awaited(ts, ss[0]);
      InsertServerAwaited(ts, ss[1..], s);
    }
  }

  lemma {:induction false} CleanAwaited(ts: seq<Transaction>, ss: seq<Server>, reset: bool)
    requires AllAwaited(ts, ss)
    ensures AllAwaited(ts, Clean(ss, reset))
  {
    if ss != [] {
      var before, s := ss[..|ss| - 1], ss[|ss| - 1];
      assert AllAwaited(ts, before) && Awaited(ts, s);
      CleanAwaited(ts, before, reset);
      if !s.dirty {
        InsertServerAwaited(ts, Clean(before, reset), if reset then s.(status := Deregistered) else s);
      }
    }
  }

  lemma {:induction false} DiscoverKeeps(c: Client, found: seq<(bool, Server)>)
    requires Inv(c)
    ensures Inv(Discover(c, found))
    decreases |found|
  {
    if found != [] {
      var (isBootstrap, s0) := found[0];
      var s := s0.(status := Deregistered, session := 0, located := false, dirty := false);
      InsertServerAwaited(c.transactions, c.bootstrap, s);
      InsertServerAwaited(c.transactions, c.servers, s);
      ServersChange(c, c.(bootstrap := InsertServer(c.bootstrap, s)));
      ServersChange(c, c.(servers := InsertServer(c.servers, s)));
      hide Inv;
      DiscoverKeeps(c, found[1..]);
      DiscoverKeeps(c.(bootstrap := InsertServer(c.bootstrap, s)), found[1..]);
      DiscoverKeeps(c.(servers := InsertServer(c.servers, s)), found[1..]);
    }
  }

  lemma RefreshKeeps(c: Client, env: Env)
    requires Inv(c)
    ensures Inv(RefreshServerList(c, env))
  {
    CleanAwaited(c.transactions, c.bootstrap, true);
    CleanAwaited(c.transactions, c.servers, false);
    var c1 := c.(bootstrap := Clean(c.bootstrap, true), servers := Clean(c.servers, false));
    ServersChange(c, c1);
    DiscoverKeeps(c1, env.discovered);
  }

  lemma StateKeeps(c: Client, state: ClientState)
    requires Inv(c)
    ensures Inv(c.(state := state))
  {}

  lemma BootstrapStartKeeps(c: Client, env: Env)
    requires Inv(c)
    ensures Inv(BootstrapStart(c, env).(state := Bootstrapping))
  {
    ServersChange(c, BootstrapStart(c, env).(state := Bootstrapping));
  }

  lemma {:induction false} SettleKeeps(c: Client, env: Env, wait: int)
    requires Inv(c)
    ensures Inv(Settle(c, env, wait).client)
    decreases JumpsLeft(c.state)
  {
    hide Inv, RefreshServerList, BootstrapStart, BootstrapStep, RegistrationStart, RegistrationStatus, BootstrapStatus;
    match c.state {
      case Initial =>
        RefreshKeeps(c, env);
        var c1 := RefreshServerList(c, env);
        var next := if c1.servers != [] then RegisterRequired else BootstrapRequired;
        StateKeeps(c1, next);
        SettleKeeps(c1.(state := next), env, wait);
      case BootstrapRequired =>
        BootstrapStartKeeps(c, env);
        BootstrapStepKeeps(BootstrapStart(c, env).(state := Bootstrapping), 0, env, wait);
      case Bootstrapping =>
        StateKeeps(c, Initial);
        SettleKeeps(c.(state := Initial), env, wait);
        BootstrapStepKeeps(c, 0, env, wait);
      case RegisterRequired =>
        RegistrationStartKeeps(c, 0, env);
        StateKeeps(RegistrationStart(c, 0, env).0, Registering);
      case Registering =>
        StateKeeps(c, Ready);
        StateKeeps(c, BootstrapRequired);
        SettleKeeps(c.(state := BootstrapRequired), env, wait);
      case Ready =>
        StateKeeps(c, BootstrapRequired);
        SettleKeeps(c.(state := BootstrapRequired), env, wait);
    }
  }

  lemma StepKeeps(c: Client, env: Env, wait: int)
    requires Inv(c)
    ensures Inv(Step(c, env, wait).0)
  {
    SettleKeeps(c, env, wait);
    var r := Settle(c, env, wait);
    var c1 := Observe(r.client, env);
    SameParts(r.client, c1);
    RegistrationStepKeeps(c1, 0, env, Min(r.wait, env.observeWait));
    var (c2, wait2) := RegistrationStep(c1, 0, env, Min(r.wait, env.observeWait));
    assert Distinct(c2.transactions);
    TransactionStepKeeps(c2, c2.transactions, env, wait2);
  }

  lemma {:induction false} UpdateRegistrationAwaited(ts: seq<Transaction>, ss: seq<Server>, shortId: nat, withObjects: bool)
    requires AllAwaited(ts, ss)
    ensures AllAwaited(ts, UpdateRegistration(ss, shortId, withObjects).0)
  {
    if ss != [] {
      assert AllAwaited(ts, ss[1..]) && Awaited(ts, ss[0]);
      UpdateRegistrationAwaited(ts, ss[1..], shortId, withObjects);
    }
  }

  lemma TagAwaited(ts: seq<Transaction>, ss: seq<Server>, ids: set<nat>)
    requires AllAwaited(ts, ss)
    ensures AllAwaited(ts, Tag(ss, ids))
  {
    forall i | 0 <= i < |ss|
      ensures Awaited(ts, Tag(ss, ids)[i])
    {
      assert Awaited(ts, ss[i]);
    }
  }

  lemma CommandKeeps(c: Client, i: nat, s: Server, tagged: set<nat>)
    requires Inv(c) && i < |c.bootstrap| && AwaitedReply(s.status).None?
    ensures Inv(c.(bootstrap := Tag(c.bootstrap[i := s], tagged), servers := Tag(c.servers, tagged)))
  {
    TagAwaited(c.transactions, c.bootstrap[i := s], tagged);
    TagAwaited(c.transactions, c.servers, tagged);
    ServersChange(c, c.(bootstrap := Tag(c.bootstrap[i := s], tagged), servers := Tag(c.servers, tagged)));
  }

  /** Every event keeps the invariant. */
  lemma NextKeeps(c: Client, e: Event)
    requires Inv(c)
    ensures Inv(Next(c, e))
  {
    hide Inv, Step, HandleResponse, Deregister, Discover, UpdateRegistration, Tag;
    match e {
      case Tick(env, wait) => StepKeeps(c, env, wait);
      case Receive(packet, from, at) => HandleResponseKeeps(c, packet, from, at);
      case AskUpdate(shortId, withObjects, env) =>
        DiscoverKeeps(c, env.discovered);
        AskUpdateKeeps(c, shortId, withObjects);
      case AskDeregister(i, env) => if i < |c.servers| { DeregisterKeeps(c, i, env); }
      case Command(i, result, tagged, at) =>
        if i < |c.bootstrap| {
          var s := CheckServerStatus(c.bootstrap[i], at).0;
          if AwaitedReply(s.status).None? {
            CommandKeeps(c, i, s, tagged);
            CommandKeeps(c, i, s.(status := BsPending), tagged);
            StateKeeps(c.(bootstrap := Tag(c.bootstrap[i := s.(status := BsPending)], tagged),
                          servers := Tag(c.servers, tagged)), Bootstrapping);
          }
        }
      case DeleteAll(i, tagged, at) =>
        if i < |c.bootstrap| {
          var s := CheckServerStatus(c.bootstrap[i], at).0;
          if AwaitedReply(s.status).None? {
            CommandKeeps(c, i, s, tagged);
          }
        }
      case FinishCommand(i, acceptable) =>
        if i < |c.bootstrap| {
          SetBootstrapKeeps(c, i, c.bootstrap[i].(status := BsFinishing));
        }
    }
  }

  lemma AskUpdateKeeps(c: Client, shortId: nat, withObjects: bool)
    requires Inv(c)
    ensures Inv(c.(servers := UpdateRegistration(c.servers, shortId, withObjects).0))
  {
    UpdateRegistrationAwaited(c.transactions, c.servers, shortId, withObjects);
    ServersChange(c, c.(servers := UpdateRegistration(c.servers, shortId, withObjects).0));
  }

  lemma {:induction false} RunKeeps(c: Client, es: seq<Event>)
    requires Inv(c)
    ensures Inv(Run(c, es))
  {
    if es != [] {
      RunKeeps(c, es[..|es| - 1]);
      NextKeeps(Run(c, es[..|es| - 1]), es[|es| - 1]);
    }
  }

  // ----- what it means for every run

  /** No stuck pending state: in every reachable state, whatever the schedule of steps, replies, commands and calls,
      a server in REG_PENDING, REG_UPDATE_PENDING, DEREG_PENDING or BS_INITIATED has an outstanding transaction
      that carries the matching reply handler. */
  lemma PendingIsAwaited(mid: u16, es: seq<Event>, s: Server)
    requires s in Run(Fresh(mid), es).servers || s in Run(Fresh(mid), es).bootstrap
    requires AwaitedReply(s.status).Some?
    ensures exists t :: t in Run(Fresh(mid), es).transactions
                        && t.reply == AwaitedReply(s.status).value && t.target == s.id
  {
    RunKeeps(Fresh(mid), es);
    var c := Run(Fresh(mid), es);
    assert Awaited(c.transactions, s);
    var t :| t in c.transactions && Answers(t, AwaitedReply(s.status).value, s.id);
  }

  /** Over a whole run, no transaction is transmitted more than MAX_RETRANSMIT + 1 times, 4.01 retries included.
      One that was transmitted is called back exactly once, namely when it leaves the list. */
  lemma LifeIsBounded(mid: u16, es: seq<Event>, uid: nat)
    ensures var c := Run(Fresh(mid), es);
            && SentCount(c.log, uid) <= MAX_RETRANSMIT + 1
            && (SentCount(c.log, uid) > 0 ==> CallCount(c.log, uid) == if HasUid(c.transactions, uid) then 0 else 1)
            && (SentCount(c.log, uid) == 0 ==> CallCount(c.log, uid) == 0 && !HasUid(c.transactions, uid))
  {
    RunKeeps(Fresh(mid), es);
    var c := Run(Fresh(mid), es);
    if HasUid(c.transactions, uid) {
      var t :| t in c.transactions && t.uid == uid;
      assert Alive(c.log, t);
    } else if uid >= c.born {
      assert Silent(c.log, uid);
    }
  }
}
