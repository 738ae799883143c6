/** When a transaction ends, however it ends, its handler has moved the server out of the pending status. */
module SessionRelease {
  import opened Bytes
  import opened Session
  import opened SessionInvariant
  import opened SessionRuns

  /** No server with this id waits for this reply handler. */
  predicate NoneWaits(ss: seq<Server>, reply: Reply, target: nat)
  {
    forall i :: 0 <= i < |ss| && ss[i].id == target ==> AwaitedReply(ss[i].status) != Some(reply)
  }

  predicate Released(c: Client, reply: Reply, target: nat)
  {
    NoneWaits(c.servers, reply, target) && NoneWaits(c.bootstrap, reply, target)
  }

  /** A callback releases the server it answers, and makes no other server wait. */
  lemma NotifyReleases(ss: seq<Server>, t: Transaction, packet: Option<Packet>, clock: int, reply: Reply, target: nat)
    ensures Answers(t, reply, target) || NoneWaits(ss, reply, target) ==>
              NoneWaits(Notify(ss, t, packet, clock), reply, target)
  {
    var ss' := Notify(ss, t, packet, clock);
    forall i | 0 <= i < |ss'| && (Answers(t, reply, target) || NoneWaits(ss, reply, target)) && ss'[i].id == target
      ensures AwaitedReply(ss'[i].status) != Some(reply)
    {
      HandlerReleases(ss[i], t.reply, packet, clock);
      hide Answered;
    }
  }

  lemma FinishReleases(c: Client, t: Transaction, packet: Option<Packet>, clock: int, reply: Reply, target: nat)
    requires Answers(t, reply, target) || Released(c, reply, target)
    ensures Released(Finish(c, t, packet, clock), reply, target)
  {
    NotifyReleases(c.servers, t, packet, clock, reply, target);
    NotifyReleases(c.bootstrap, t, packet, clock, reply, target);
    hide Notify;
  }

  /** Transmitting keeps servers released. */
  lemma SendReleases(c: Client, t: Transaction, env: Env, reply: Reply, target: nat)
    requires Released(c, reply, target)
    ensures Released(Send(c, t, env).0, reply, target)
  {
    FinishReleases(c, t, None, env.clock, reply, target);
    FinishReleases(Transmit(c, t), t, None, env.clock, reply, target);
    hide Notify, Finish;
  }

  /** A transaction that was transmitted before is transmitted again and stays, or ends and releases its server. */
  lemma ResendReleases(c: Client, t: Transaction, env: Env)
    requires t in c.transactions && t.buffered
    ensures Resent(t, env.clock) in Send(c, t, env).0.transactions || Released(Send(c, t, env).0, t.reply, t.target)
  {
    FinishReleases(c, t, None, env.clock, t.reply, t.target);
    FinishReleases(Transmit(c, t), t, None, env.clock, t.reply, t.target);
    ReplaceMembers(c.transactions, Resent(t, env.clock));
    assert HasUid(c.transactions, Resent(t, env.clock).uid);
    hide Notify, Finish, Replace;
  }

  lemma {:induction false} StepStaysReleased(c: Client, todo: seq<Transaction>, env: Env, wait: int, reply: Reply, target: nat)
    requires Released(c, reply, target)
    ensures Released(TransactionStep(c, todo, env, wait).0, reply, target)
    decreases |todo|
  {
    hide Send, Released;
    if todo != [] {
      var t := todo[0];
      if t.time > env.clock {
        StepStaysReleased(c, todo[1..], env, Min(wait, Interval(t.time, env.clock)), reply, target);
      } else {
        var (c1, sent) := Send(c, t, env);
        SendReleases(c, t, env, reply, target);
        StepStaysReleased(c1, todo[1..], env,
                          if sent then Min(wait, Interval(Resent(t, env.clock).time, env.clock)) else 1, reply, target);
      }
    }
  }

  predicate EndsReleased(c: Client, t: Transaction)
  {
    HasUid(c.transactions, t.uid) || Released(c, t.reply, t.target)
  }

  /** Whatever callbacks the other transactions of a step make. */
  lemma {:induction false} TransactionStepReleases(c: Client, todo: seq<Transaction>, env: Env, wait: int, t: Transaction)
    requires Inv(c) && Distinct(todo) && (forall x :: x in todo ==> x in c.transactions) && t in c.transactions
    ensures EndsReleased(TransactionStep(c, todo, env, wait).0, t)
    decreases |todo|
  {
    if todo != [] {
      var x := todo[0];
      assert todo == [x] + todo[1..];
      DistinctCons(x, todo[1..]);
      hide Inv, Send, Released;
      if x.time > env.clock {
        TransactionStepReleases(c, todo[1..], env, Min(wait, Interval(x.time, env.clock)), t);
      } else {
        var (c1, sent) := Send(c, x, env);
        var w := if sent then Min(wait, Interval(Resent(x, env.clock).time, env.clock)) else 1;
        ResendKeeps(c, x, env);
        forall y | y in todo[1..]
          ensures y in c1.transactions
        {
          SendKeepsOthers(c, x, env, y);
        }
        OneSend(c, x, env, t);
        if Released(c1, t.reply, t.target) {
          StepStaysReleased(c1, todo[1..], env, w, t.reply, t.target);
        } else {
          var t' :| t' in c1.transactions && t'.uid == t.uid && t'.reply == t.reply && t'.target == t.target;
          TransactionStepReleases(c1, todo[1..], env, w, t');
        }
      }
    }
  }

  lemma OneSend(c: Client, x: Transaction, env: Env, t: Transaction)
    requires Inv(c) && x in c.transactions && t in c.transactions
    ensures var c1 := Send(c, x, env).0;
            Released(c1, t.reply, t.target)
            || exists t' :: t' in c1.transactions && t'.uid == t.uid && t'.reply == t.reply && t'.target == t.target
  {
    var c1 := Send(c, x, env).0;
    if t.uid == x.uid {
      assert t == x && Alive(c.log, t);
      ResendReleases(c, t, env);
      assert Resent(t, env.clock).uid == t.uid;
    } else {
      SendKeepsOthers(c, x, env, t);
    }
  }

  lemma StepReleases(c: Client, env: Env, wait: int, t: Transaction)
    requires Inv(c) && t in c.transactions
    ensures EndsReleased(Step(c, env, wait).0, t)
  {
    if env.clock >= 0 {
      BeforeTransactionsGrows(c, env, wait);
      var r := Settle(c, env, wait);
      if r.code == 0 {
        SettleKeeps(c, env, wait);
        var c1 := Observe(r.client, env);
        SameParts(r.client, c1);
        RegistrationStepKeeps(c1, 0, env, Min(r.wait, env.observeWait));
        var (c2, wait2) := BeforeTransactions(c, env, wait);
        assert Distinct(c2.transactions);
        hide Inv, Settle, RegistrationStep, TransactionStep, Observe;
        TransactionStepReleases(c2, c2.transactions, env, wait2, t);
      }
    }
  }

  lemma ReplyReleases(c: Client, p: Packet, from: nat, clock: int, t: Transaction)
    requires Inv(c) && t in c.transactions
    ensures EndsReleased(HandleResponse(c, p, from, clock), t)
  {
    var i := FirstConcerned(c.transactions, p, from);
    if i < |c.transactions| {
      var x := c.transactions[i];
      assert x in c.transactions;
      var c' := Handle(c, x, p, from, clock);
      DropMembers(c.transactions, x.uid);
      if Kept(x, p, from, clock).Some? {
        var x' := Kept(x, p, from, clock).value;
        ReplaceMembers(c.transactions, x');
        assert (if t.uid == x.uid then x' else t) in c'.transactions;
      } else if t.uid == x.uid {
        FinishReleases(c, t, Some(p), clock, t.reply, t.target);
      } else {
        assert t in c'.transactions;
      }
    }
  }

  lemma {:induction false} DiscoverLeaves(c: Client, found: seq<(bool, Server)>)
    ensures Discover(c, found).transactions == c.transactions
    decreases |found|
  {
    if found != [] {
      var (isBootstrap, s0) := found[0];
      var s := s0.(status := Deregistered, session := 0, located := false, dirty := false);
      DiscoverLeaves(c, found[1..]);
      DiscoverLeaves(c.(bootstrap := InsertServer(c.bootstrap, s)), found[1..]);
      DiscoverLeaves(c.(servers := InsertServer(c.servers, s)), found[1..]);
    }
  }

  /** In every state that a run can reach and for every event: once the event has ended a transaction, no server that the
      transaction was made for still waits for its handler, whatever else the event did. */
  lemma EndingReleases(c: Client, e: Event, t: Transaction)
    requires Inv(c) && t in c.transactions
    ensures !HasUid(Next(c, e).transactions, t.uid) ==> Released(Next(c, e), t.reply, t.target)
  {
    hide Inv, Step, HandleResponse, Deregister, Discover, UpdateRegistration, Released;
    match e
    case Tick(env, wait) => StepReleases(c, env, wait, t);
    case Receive(packet, from, at) => ReplyReleases(c, packet, from, at, t);
    case AskUpdate(shortId, withObjects, env) => DiscoverLeaves(c, env.discovered);
    case AskDeregister(i, env) =>
      if i < |c.servers| {
        DeregisterLeaves(c, i, env, t);
      }
    case Command(i, result, tagged, at) =>
    case DeleteAll(i, tagged, at) =>
    case FinishCommand(i, acceptable) =>
  }

  lemma DeregisterLeaves(c: Client, i: nat, env: Env, t: Transaction)
    requires Inv(c) && i < |c.servers| && t in c.transactions
    ensures t in Deregister(c, i, env).transactions
  {
    CreateGrows(c, c.servers[i].session, DeregisterReply, c.servers[i].id, env);
    hide Create;
  }

  /** The same for every run of the client. */
  lemma EndingReleasesInRuns(mid: u16, es: seq<Event>, e: Event, t: Transaction)
    requires t in Run(Fresh(mid), es).transactions
    ensures var c := Next(Run(Fresh(mid), es), e);
            !HasUid(c.transactions, t.uid) ==> Released(c, t.reply, t.target)
  {
    RunKeeps(Fresh(mid), es);
    EndingReleases(Run(Fresh(mid), es), e, t);
  }
}
