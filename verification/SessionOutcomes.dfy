/** What becomes of a server when the transaction it waits for ends, by a message or by running out of time. */
module SessionOutcomes {
  import opened Bytes
  import opened Session
  import opened SessionInvariant
  import opened SessionRuns
  import opened SessionRelease
  import SessionList

  /** The numbers of the answers: 2.01 and 2.04 as CoAP encodes them. */
  const CREATED := 65
  const CHANGED := 68

  predicate Waits(s: Server, reply: Reply)
  {
    match reply
    case RegisterReply => s.status == RegPending
    case UpdateReply => s.status == RegUpdatePending
    case DeregisterReply => s.status == DeregPending
    case BootstrapReply => s.status == BsInitiated
  }

  /** The server after its wait was ended by `packet`, or by a timeout if there is none. A clock that cannot be read leaves the
      time of a registration as it was. */
  predicate Becomes(s: Server, reply: Reply, packet: Option<Packet>, clock: int, s': Server)
  {
    var code := if packet.Some? then packet.value.code else 0;
    && s'.id == s.id && s'.shortId == s.shortId && s'.lifetime == s.lifetime && s'.session == s.session && s'.dirty == s.dirty
    && match reply
       case RegisterReply =>
         && s'.registration == (if clock < 0 then s.registration else clock)
         && (code == CREATED ==> s'.status == Registered && s'.located)
         && (code != CREATED ==> s'.status == RegFailed && s'.located == s.located)
       case UpdateReply =>
         && s'.registration == (if clock < 0 then s.registration else clock)
         && (code == CHANGED ==> s'.status == Registered) && (code != CHANGED ==> s'.status == RegFailed)
         && s'.located == s.located
       case DeregisterReply =>
         s'.status == Deregistered && s'.registration == s.registration && s'.located == s.located
       case BootstrapReply =>
         var accepted := code == CHANGED && !packet.value.kind.Rst?;
         && (accepted ==> s'.status == BsPending && s'.registration == clock + 247)
         && (!accepted ==> s'.status == BsFailing && s'.registration == s.registration)
         && s'.located == s.located
  }

  /** A server after a callback: as it was unless the callback is the one it waits for. */
  predicate AfterCallback(s: Server, t: Transaction, packet: Option<Packet>, clock: int, s': Server)
  {
    if s.id == t.target && Waits(s, t.reply) then Becomes(s, t.reply, packet, clock, s') else s' == s
  }

  lemma CallbackOutcome(c: Client, t: Transaction, packet: Option<Packet>, clock: int)
    ensures var c' := Finish(c, t, packet, clock);
            && |c'.servers| == |c.servers| && |c'.bootstrap| == |c.bootstrap|
            && (forall i :: 0 <= i < |c.servers| ==> AfterCallback(c.servers[i], t, packet, clock, c'.servers[i]))
            && (forall i :: 0 <= i < |c.bootstrap| ==> AfterCallback(c.bootstrap[i], t, packet, clock, c'.bootstrap[i]))
  {
    hide Drop;
  }

  // ----- messages

  /** A message that ends an outstanding transaction does to every server what the answer says; any other message changes
      no server. */
  lemma MessageOutcome(c: Client, p: Packet, from: nat, clock: int, t: Transaction)
    requires Inv(c) && t in c.transactions
    ensures var c' := HandleResponse(c, p, from, clock);
            && |c'.servers| == |c.servers| && |c'.bootstrap| == |c.bootstrap|
            && (!HasUid(c'.transactions, t.uid) ==>
                  && (forall i :: 0 <= i < |c.servers| ==> AfterCallback(c.servers[i], t, Some(p), clock, c'.servers[i]))
                  && (forall i :: 0 <= i < |c.bootstrap| ==>
                        AfterCallback(c.bootstrap[i], t, Some(p), clock, c'.bootstrap[i])))
            && ((forall x :: x in c.transactions ==> HasUid(c'.transactions, x.uid)) ==>
                  c'.servers == c.servers && c'.bootstrap == c.bootstrap)
  {
    var i := FirstConcerned(c.transactions, p, from);
    if i < |c.transactions| {
      var x := c.transactions[i];
      assert x in c.transactions;
      DropMembers(c.transactions, x.uid);
      if Kept(x, p, from, clock).Some? {
        var x' := Kept(x, p, from, clock).value;
        ReplaceMembers(c.transactions, x');
        assert (if t.uid == x.uid then x' else t) in Replace(c.transactions, x');
      } else {
        CallbackOutcome(c, x, Some(p), clock);
        hide Finish, AfterCallback;
        assert t.uid != x.uid ==> t in Drop(c.transactions, x.uid);
        assert Finish(c, x, Some(p), clock).transactions == Drop(c.transactions, x.uid) by { FinishDrops(c, x, p, clock); }
        assert !HasUid(Drop(c.transactions, x.uid), x.uid);
      }
    }
  }

  lemma FinishDrops(c: Client, x: Transaction, p: Packet, clock: int)
    ensures Finish(c, x, Some(p), clock).transactions == Drop(c.transactions, x.uid)
  {}

  /** The same after every run. */
  lemma MessageOutcomeInRuns(mid: u16, es: seq<Event>, p: Packet, from: nat, clock: int, t: Transaction)
    requires t in Run(Fresh(mid), es).transactions
    ensures var c := Run(Fresh(mid), es);
            var c' := HandleResponse(c, p, from, clock);
            && |c'.servers| == |c.servers| && |c'.bootstrap| == |c.bootstrap|
            && (!HasUid(c'.transactions, t.uid) ==>
                  && (forall i :: 0 <= i < |c.servers| ==> AfterCallback(c.servers[i], t, Some(p), clock, c'.servers[i]))
                  && (forall i :: 0 <= i < |c.bootstrap| ==>
                        AfterCallback(c.bootstrap[i], t, Some(p), clock, c'.bootstrap[i])))
  {
    RunKeeps(Fresh(mid), es);
    MessageOutcome(Run(Fresh(mid), es), p, from, clock, t);
  }

  // ----- timeouts

  /** A server after the transactions of a step were served: as it was, or timed out in its wait. */
  predicate AfterTimeouts(s: Server, clock: int, s': Server)
  {
    s' == s || exists reply :: Waits(s, reply) && Becomes(s, reply, None, clock, s')
  }

  predicate ServersAfterTimeouts(c: Client, clock: int, c': Client)
  {
    && |c'.servers| == |c.servers| && |c'.bootstrap| == |c.bootstrap|
    && (forall i :: 0 <= i < |c.servers| ==> AfterTimeouts(c.servers[i], clock, c'.servers[i]))
    && (forall i :: 0 <= i < |c.bootstrap| ==> AfterTimeouts(c.bootstrap[i], clock, c'.bootstrap[i]))
  }

  lemma TimeoutsChain(s: Server, clock: int, s1: Server, s2: Server)
    requires AfterTimeouts(s, clock, s1) && AfterTimeouts(s1, clock, s2)
    ensures AfterTimeouts(s, clock, s2)
  {}

  lemma SendTimesOut(c: Client, t: Transaction, env: Env)
    ensures ServersAfterTimeouts(c, env.clock, Send(c, t, env).0)
  {
    CallbackOutcome(c, t, None, env.clock);
    CallbackOutcome(Transmit(c, t), t, None, env.clock);
    hide Finish, Becomes;
  }

  /** The step over the transactions changes a server only by timing out its wait. */
  lemma {:induction false} StepTimesOut(c: Client, todo: seq<Transaction>, env: Env, wait: int)
    ensures ServersAfterTimeouts(c, env.clock, TransactionStep(c, todo, env, wait).0)
    decreases |todo|
  {
    hide Send, AfterTimeouts;
    if todo == [] {
      AllAsBefore(c, env.clock);
    } else {
      var t := todo[0];
      if t.time > env.clock {
        StepTimesOut(c, todo[1..], env, Min(wait, Interval(t.time, env.clock)));
      } else {
        var (c1, sent) := Send(c, t, env);
        SendTimesOut(c, t, env);
        var w := if sent then Min(wait, Interval(Resent(t, env.clock).time, env.clock)) else 1;
        StepTimesOut(c1, todo[1..], env, w);
        AllChain(c, env.clock, c1, TransactionStep(c1, todo[1..], env, w).0);
      }
    }
  }

  lemma AllAsBefore(c: Client, clock: int)
    ensures ServersAfterTimeouts(c, clock, c)
  {}

  lemma AllChain(c: Client, clock: int, c1: Client, c2: Client)
    requires ServersAfterTimeouts(c, clock, c1) && ServersAfterTimeouts(c1, clock, c2)
    ensures ServersAfterTimeouts(c, clock, c2)
  {
    hide AfterTimeouts;
    forall i | 0 <= i < |c.servers|
      ensures AfterTimeouts(c.servers[i], clock, c2.servers[i])
    {
      TimeoutsChain(c.servers[i], clock, c1.servers[i], c2.servers[i]);
    }
    forall i | 0 <= i < |c.bootstrap|
      ensures AfterTimeouts(c.bootstrap[i], clock, c2.bootstrap[i])
    {
      TimeoutsChain(c.bootstrap[i], clock, c1.bootstrap[i], c2.bootstrap[i]);
    }
  }

  /** When the step ends a transaction, the servers that wait for it time out in exactly that wait. */
  lemma TimeoutOutcome(c: Client, env: Env, wait: int, t: Transaction)
    requires Inv(c) && t in c.transactions
    requires !HasUid(TransactionStep(c, c.transactions, env, wait).0.transactions, t.uid)
    ensures var c' := TransactionStep(c, c.transactions, env, wait).0;
            && |c'.servers| == |c.servers| && |c'.bootstrap| == |c.bootstrap|
            && (forall i :: 0 <= i < |c.servers| && c.servers[i].id == t.target && Waits(c.servers[i], t.reply) ==>
                  Becomes(c.servers[i], t.reply, None, env.clock, c'.servers[i]))
            && (forall i :: 0 <= i < |c.bootstrap| && c.bootstrap[i].id == t.target && Waits(c.bootstrap[i], t.reply) ==>
                  Becomes(c.bootstrap[i], t.reply, None, env.clock, c'.bootstrap[i]))
  {
    StepTimesOut(c, c.transactions, env, wait);
    TransactionStepReleases(c, c.transactions, env, wait, t);
    var c' := TransactionStep(c, c.transactions, env, wait).0;
    hide TransactionStep, Inv, Becomes;
    assert Released(c', t.reply, t.target);
    forall i | 0 <= i < |c.servers| && c.servers[i].id == t.target && Waits(c.servers[i], t.reply)
      ensures Becomes(c.servers[i], t.reply, None, env.clock, c'.servers[i])
    {
      OneWait(c.servers[i], t.reply, env.clock, c'.servers[i]);
    }
    forall i | 0 <= i < |c.bootstrap| && c.bootstrap[i].id == t.target && Waits(c.bootstrap[i], t.reply)
      ensures Becomes(c.bootstrap[i], t.reply, None, env.clock, c'.bootstrap[i])
    {
      OneWait(c.bootstrap[i], t.reply, env.clock, c'.bootstrap[i]);
    }
  }

  /** A status waits for one reply only. */
  lemma OneWait(s: Server, reply: Reply, clock: int, s': Server)
    requires AfterTimeouts(s, clock, s') && Waits(s, reply)
    requires s'.id == s.id ==> AwaitedReply(s'.status) != Some(reply)
    ensures Becomes(s, reply, None, clock, s')
  {}

  // ----- which message ends which transaction

  /** An acknowledgement or reset of the message itself, or an answer with its token. Without a token the acknowledgement is the
      answer. */
  predicate Acks(p: Packet, from: nat, t: Transaction)
  {
    p.kind in {Ack, Rst} && from == t.peer && !t.ack && p.mid == t.mid
  }

  predicate Responds(p: Packet, from: nat, t: Transaction)
  {
    from == t.peer && if t.token != [] then p.token == t.token else t.ack || (p.kind in {Ack, Rst} && p.mid == t.mid)
  }

  /** What is left of the first transaction that a message acknowledges or answers: nothing after a reset or an answer, except
      that 4.01 leads to another transmission two seconds later while fewer than four were made, and a bare acknowledgement
      leaves it waiting for an answer, twice its counter in seconds. */
  lemma MessageMeaning(c: Client, p: Packet, from: nat, clock: int, i: nat)
    requires i <= |c.transactions| && Distinct(c.transactions)
    requires i < |c.transactions| ==> Acks(p, from, c.transactions[i]) || Responds(p, from, c.transactions[i])
    requires forall k :: 0 <= k < i ==> !Acks(p, from, c.transactions[k]) && !Responds(p, from, c.transactions[k])
    ensures var c' := HandleResponse(c, p, from, clock);
            if i == |c.transactions| then c' == c
            else
              var t := c.transactions[i];
              var reset := Acks(p, from, t) && p.kind == Rst;
              if !reset && Responds(p, from, t) && p.code == 129 && t.counter < 4 then
                c' == c.(transactions := c.transactions[i := t.(ack := false, time := t.time + 2)])
              else if reset || Responds(p, from, t) then
                c'.transactions == c.transactions[..i] + c.transactions[i + 1..] && c'.log == c.log + [CalledBack(t.uid)]
              else
                c' == c.(transactions := c.transactions[i := t.(ack := true,
                                                                time := (if clock < 0 then t.time else clock) + 2 * t.counter)])
  {
    FirstIs(c.transactions, p, from, i);
    if i < |c.transactions| {
      var t := c.transactions[i];
      hide FirstConcerned;
      SessionList.DropAt(c.transactions, i);
      ReplaceAt(c.transactions, i, t.(ack := false, time := t.time + 2));
      ReplaceAt(c.transactions, i, t.(ack := true, time := (if clock < 0 then t.time else clock) + 2 * t.counter));
      hide Drop, Replace, Notify, Distinct;
    }
  }

  lemma FirstIs(ts: seq<Transaction>, p: Packet, from: nat, i: nat)
    requires i <= |ts| && (i < |ts| ==> Acks(p, from, ts[i]) || Responds(p, from, ts[i]))
    requires forall k :: 0 <= k < i ==> !Acks(p, from, ts[k]) && !Responds(p, from, ts[k])
    ensures FirstConcerned(ts, p, from) == i
  {
    var j := FirstConcerned(ts, p, from);
    assert !(i < j) && !(j < i);
  }

  lemma ReplaceAt(ts: seq<Transaction>, k: nat, t: Transaction)
    requires k < |ts| && Distinct(ts) && t.uid == ts[k].uid
    ensures Replace(ts, t) == ts[k := t]
  {
    assert forall j :: 0 <= j < |ts| && j != k ==> ts[j].uid != ts[k].uid;
  }

  // ----- what serving a transaction does

  /** A transaction whose deadline has come is transmitted again with the next deadline twice as far, or ends: when it was
      acknowledged or was transmitted five times. */
  lemma ServeMeaning(c: Client, t: Transaction, env: Env)
    requires Inv(c) && t in c.transactions
    ensures var (c', sent) := Send(c, t, env);
            && (sent <==> !t.ack && t.counter < 6)
            && (sent ==> c'.log == c.log + [Transmitted(t.uid)] && c'.servers == c.servers && c'.bootstrap == c.bootstrap
                         && t.(counter := t.counter + 1, time := t.time + 2 * Pow2(t.counter - 1)) in c'.transactions)
            && (!sent ==> c'.log == c.log + [CalledBack(t.uid)] && !HasUid(c'.transactions, t.uid))
  {
    assert Alive(c.log, t);
    ReplaceMembers(c.transactions, Resent(t, env.clock));
    DropMembers(c.transactions, t.uid);
    assert HasUid(c.transactions, Resent(t, env.clock).uid);
    hide Inv, Drop, Replace, Notify, Pow2;
  }
}
