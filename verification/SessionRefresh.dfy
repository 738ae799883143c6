/** What the loops over the servers send: which server gets a request, and what becomes of each. */
module SessionRefresh {
  import opened Bytes
  import opened Session
  import opened SessionInvariant
  import opened SessionRuns
  import SessionList

  // ----- one request

  /** A request that has just been sent for the first time. */
  function FirstSent(uid: nat, mid: u16, peer: nat, reply: Reply, target: nat, clock: int): (t: Transaction)
  {
    Transaction(uid, mid, peer, [mid % 256, mid / 256, clock % 256, clock / 256 % 256], false, 2, clock + 2, true, reply, target)
  }

  /** The same client with one more request, or without. */
  ghost predicate Requested(c: Client, c': Client, t: Transaction)
  {
    && c'.born == c.born + 1 && c'.log == c.log + [Transmitted(t.uid)] && t.uid == c.born
    && |c'.transactions| == |c.transactions| + 1 && (forall x :: x in c'.transactions <==> x == t || x in c.transactions)
  }

  predicate NotRequested(c: Client, c': Client)
  {
    c'.born >= c.born && c'.log == c.log && c'.transactions == c.transactions
  }

  lemma {:induction false} InsertLength(ts: seq<Transaction>, t: Transaction)
    ensures |Insert(ts, t)| == |ts| + 1
    decreases |ts|
  {
    if ts != [] && ts[0].mid <= t.mid {
      InsertLength(ts[1..], t);
    }
  }

  lemma {:induction false} DropInserted(ts: seq<Transaction>, t: Transaction)
    requires !HasUid(ts, t.uid)
    ensures Drop(Insert(ts, t), t.uid) == ts
    decreases |ts|
  {
    if ts == [] {
      assert Drop([t], t.uid) == Drop([], t.uid);
    } else {
      assert ts[0] in ts && forall x :: x in ts[1..] ==> x in ts;
      if ts[0].mid <= t.mid {
        DropInserted(ts[1..], t);
        assert ([ts[0]] + Insert(ts[1..], t))[1..] == Insert(ts[1..], t);
      } else {
        assert ([t] + ts)[1..] == ts;
        SessionList.DropAbsent(ts, t.uid);
      }
    }
  }

  /** Creating a request uses up a message id. It is sent exactly if there is a peer and the message can be serialized; then it
      is the only new transaction and has been transmitted once. No server changes. */
  lemma CreateEffect(c: Client, peer: nat, reply: Reply, target: nat, env: Env)
    requires Numbered(c) && env.clock >= 0
    ensures var (c', created) := Create(c, peer, reply, target, env);
            && c'.servers == c.servers && c'.bootstrap == c.bootstrap && c'.state == c.state
            && c'.nextMid == (c.nextMid + 1) % 65536 && Numbered(c')
            && (created.Sent? <==> peer != 0 && env.encodable(c.nextMid))
            && (created.Sent? ==> Requested(c, c', FirstSent(c.born, c.nextMid, peer, reply, target, env.clock)))
            && (!created.Sent? ==> NotRequested(c, c'))
  {
    if peer != 0 {
      var t := Transaction(c.born, c.nextMid, peer, Token(c.nextMid, env.clock), false, 0, 0, false, reply, target);
      var t' := Resent(t, env.clock);
      assert !HasUid(c.transactions, t.uid);
      InsertMembers(c.transactions, t);
      InsertLength(c.transactions, t);
      assert t in Insert(c.transactions, t);
      if env.encodable(c.nextMid) {
        ReplaceMembers(Insert(c.transactions, t), t');
        assert t' == FirstSent(c.born, c.nextMid, peer, reply, target, env.clock);
        assert HasUid(Insert(c.transactions, t), t'.uid);
        hide Insert, Replace;
      } else {
        DropInserted(c.transactions, t);
      }
    }
  }

  // ----- refreshing registrations

  /** When an update is wanted: it was asked for, or the registration is within 93 seconds of its end, or past half of it if it
      is shorter. */
  predicate WantsUpdate(s: Server, clock: int)
  {
    || s.status == RegUpdateNeeded || s.status == RegFullUpdateNeeded
    || (s.status == Registered && clock >= s.registration + if s.lifetime > 93 then s.lifetime - 93 else s.lifetime / 2)
  }

  /** How many of the first i servers want one; each uses up a message id. */
  function WantsBefore(ss: seq<Server>, i: nat, clock: int): (n: nat)
    requires i <= |ss|
  {
    if i == 0 then 0 else WantsBefore(ss, i - 1, clock) + if WantsUpdate(ss[i - 1], clock) then 1 else 0
  }

  function UpdateMid(c: Client, i: nat, clock: int): (mid: u16)
    requires i <= |c.servers|
  {
    (c.nextMid + WantsBefore(c.servers, i, clock)) % 65536
  }

  /** And when it can be sent. */
  predicate SendsUpdate(c: Client, i: nat, env: Env)
    requires i < |c.servers|
  {
    var s := c.servers[i];
    && WantsUpdate(s, env.clock) && s.session != 0 && (s.status == RegFullUpdateNeeded ==> env.printable)
    && env.encodable(UpdateMid(c, i, env.clock))
  }

  function SendsFrom(c: Client, i: nat, env: Env): (n: nat)
    requires i <= |c.servers|
    decreases |c.servers| - i
  {
    if i == |c.servers| then 0 else SendsFrom(c, i + 1, env) + if SendsUpdate(c, i, env) then 1 else 0
  }

  /** The transaction of an update. */
  predicate IsUpdateFor(t: Transaction, c: Client, i: nat, env: Env)
    requires i < |c.servers|
  {
    var s := c.servers[i];
    t.uid >= c.born && t == FirstSent(t.uid, UpdateMid(c, i, env.clock), s.session, UpdateReply, s.id, env.clock)
  }

  /** A client of which the servers from i on are still as they were in c. */
  predicate RefreshedTo(c: Client, d: Client, i: nat, clock: int)
  {
    && i <= |c.servers| == |d.servers| && (forall j :: i <= j < |c.servers| ==> d.servers[j] == c.servers[j])
    && d.nextMid == UpdateMid(c, i, clock) && d.born >= c.born && Numbered(d)
  }

  function Refreshed(c: Client, i: nat, env: Env): (s: Server)
    requires i < |c.servers|
  {
    var s := c.servers[i];
    if SendsUpdate(c, i, env) then s.(status := RegUpdatePending)
    else if s.status == RegFailed then s.(session := 0)
    else s
  }

  /** One update uses up a message id, and is sent exactly if there is a connection and the message can be made. */
  lemma UpdateEffect(c: Client, i: nat, withObjects: bool, env: Env)
    requires Numbered(c) && env.clock >= 0 && i < |c.servers|
    ensures var s, c' := c.servers[i], Update(c, i, withObjects, env);
            var sent := s.session != 0 && (withObjects ==> env.printable) && env.encodable(c.nextMid);
            && c'.bootstrap == c.bootstrap && c'.state == c.state && c'.nextMid == (c.nextMid + 1) % 65536 && Numbered(c')
            && c'.servers == (if sent then c.servers[i := s.(status := RegUpdatePending)] else c.servers)
            && (sent ==> Requested(c, c', FirstSent(c.born, c.nextMid, s.session, UpdateReply, s.id, env.clock)))
            && (!sent ==> NotRequested(c, c'))
  {
    var s := c.servers[i];
    CreateEffect(c, s.session, UpdateReply, s.id, env);
    hide Create, FirstSent;
  }

  lemma WantsNext(c: Client, i: nat, clock: int)
    requires i < |c.servers|
    ensures UpdateMid(c, i + 1, clock) ==
            if WantsUpdate(c.servers[i], clock) then (UpdateMid(c, i, clock) + 1) % 65536 else UpdateMid(c, i, clock)
  {
    NextIs(c.nextMid, WantsBefore(c.servers, i, clock));
  }

  /** One turn of the loop. */
  lemma RefreshOne(c: Client, d: Client, i: nat, env: Env, wait: int) returns (d': Client, wait': int)
    requires RefreshedTo(c, d, i, env.clock) && i < |c.servers| == |d.servers| && env.clock >= 0
    ensures |d'.servers| == |c.servers| && Numbered(d) && d.born >= c.born
    ensures RegistrationStep(d, i, env, wait) == RegistrationStep(d', i + 1, env, wait')
    ensures RefreshedTo(c, d', i + 1, env.clock) && d'.bootstrap == d.bootstrap && d'.state == d.state
    ensures d'.servers == d.servers[i := Refreshed(c, i, env)]
    ensures SendsUpdate(c, i, env) ==>
              Requested(d, d', FirstSent(d.born, UpdateMid(c, i, env.clock), c.servers[i].session, UpdateReply, c.servers[i].id,
                                         env.clock))
    ensures !SendsUpdate(c, i, env) ==> NotRequested(d, d')
  {
    var s := d.servers[i];
    var interval := NextUpdate(s) - env.clock;
    WantsNext(c, i, env.clock);
    hide Update, UpdateMid, Requested, NotRequested, FirstSent;
    d', wait' := d, wait;
    if s.status.RegFullUpdateNeeded? {
      d' := Update(d, i, true, env);
      UpdateEffect(d, i, true, env);
    } else if s.status.RegUpdateNeeded? || (s.status.Registered? && interval <= 0) {
      d' := Update(d, i, false, env);
      UpdateEffect(d, i, false, env);
    } else {
      if s.status.RegFailed? {
        d' := SetServer(d, i, s.(session := 0));
      } else if s.status.Registered? {
        wait' := Min(interval, wait);
      }
      assert NotRequested(d, d') by { OnlyServers(d, d'); }
    }
  }

  lemma OnlyServers(d: Client, d': Client)
    requires d'.transactions == d.transactions && d'.log == d.log && d'.born == d.born
    ensures NotRequested(d, d')
  {}

  lemma NextIs(mid: u16, n: nat)
    ensures ((mid + n) % 65536 + 1) % 65536 == (mid + (n + 1)) % 65536
  {}

  /** What becomes of the servers from i on. */
  predicate ServersRefreshed(c: Client, d: Client, i: nat, env: Env, e: Client)
    requires i <= |c.servers| == |d.servers|
  {
    && |e.servers| == |c.servers| && e.bootstrap == d.bootstrap && e.state == d.state
    && (forall j :: 0 <= j < i ==> e.servers[j] == d.servers[j])
    && (forall j :: i <= j < |c.servers| ==> e.servers[j] == Refreshed(c, j, env))
  }

  /** How many requests are made, and that nothing else is sent or called. */
  predicate RequestsCounted(c: Client, d: Client, i: nat, env: Env, e: Client)
    requires i <= |c.servers|
  {
    && |e.transactions| == |d.transactions| + SendsFrom(c, i, env) && |e.log| == |d.log| + SendsFrom(c, i, env)
    && d.log <= e.log && (forall k :: |d.log| <= k < |e.log| ==> e.log[k].Transmitted?)
  }

  ghost predicate MadeFor(t: Transaction, c: Client, i: nat, env: Env)
    requires i <= |c.servers|
  {
    exists j :: i <= j < |c.servers| && SendsUpdate(c, j, env) && IsUpdateFor(t, c, j, env)
  }

  ghost predicate HasUpdate(c: Client, d: Client, j: nat, env: Env, e: Client)
    requires j < |c.servers|
  {
    exists t :: t in e.transactions && t !in d.transactions && IsUpdateFor(t, c, j, env)
  }

  /** Which requests: one for every server that gets one, each transmitted. */
  ghost predicate RequestsMade(c: Client, d: Client, i: nat, env: Env, e: Client)
    requires i <= |c.servers|
  {
    && (forall t :: t in d.transactions ==> t in e.transactions)
    && (forall t :: t in e.transactions && t !in d.transactions ==> Transmitted(t.uid) in e.log && MadeFor(t, c, i, env))
    && (forall j :: i <= j < |c.servers| && SendsUpdate(c, j, env) ==> HasUpdate(c, d, j, env, e))
  }

  lemma {:induction false} RefreshFrom(c: Client, d: Client, i: nat, env: Env, wait: int)
    requires RefreshedTo(c, d, i, env.clock) && i <= |c.servers| == |d.servers| && env.clock >= 0
    ensures var e := RegistrationStep(d, i, env, wait).0;
            ServersRefreshed(c, d, i, env, e) && RequestsCounted(c, d, i, env, e) && RequestsMade(c, d, i, env, e)
    decreases |c.servers| - i
  {
    hide RefreshedTo, SendsUpdate, Refreshed, Requested, NotRequested, MadeFor, HasUpdate;
    if i < |c.servers| {
      var d', wait' := RefreshOne(c, d, i, env, wait);
      RefreshFrom(c, d', i + 1, env, wait');
      var e := RegistrationStep(d', i + 1, env, wait').0;
      hide RegistrationStep, RequestsMade, RequestsCounted;
      CountJoins(c, d, d', i, env, e);
      MadeJoins(c, d, d', i, env, e);
    }
  }

  lemma CountJoins(c: Client, d: Client, d': Client, i: nat, env: Env, e: Client)
    requires i < |c.servers| && RequestsCounted(c, d', i + 1, env, e)
    requires SendsUpdate(c, i, env) ==>
               Requested(d, d', FirstSent(d.born, UpdateMid(c, i, env.clock), c.servers[i].session, UpdateReply, c.servers[i].id,
                                          env.clock))
    requires !SendsUpdate(c, i, env) ==> NotRequested(d, d')
    ensures RequestsCounted(c, d, i, env, e)
  {
    hide SendsUpdate, FirstSent;
  }

  lemma MadeJoins(c: Client, d: Client, d': Client, i: nat, env: Env, e: Client)
    requires i < |c.servers| && Numbered(d) && d.born >= c.born
    requires d'.log <= e.log && RequestsMade(c, d', i + 1, env, e)
    requires SendsUpdate(c, i, env) ==>
               Requested(d, d', FirstSent(d.born, UpdateMid(c, i, env.clock), c.servers[i].session, UpdateReply, c.servers[i].id,
                                          env.clock))
    requires !SendsUpdate(c, i, env) ==> NotRequested(d, d')
    ensures RequestsMade(c, d, i, env, e)
  {
    if SendsUpdate(c, i, env) {
      OwnRequest(c, d, i, env);
      var t1 := FirstSent(d.born, UpdateMid(c, i, env.clock), c.servers[i].session, UpdateReply, c.servers[i].id, env.clock);
      assert d'.log[|d.log|] == Transmitted(t1.uid) == e.log[|d.log|];
      hide SendsUpdate, UpdateMid, FirstSent, MadeFor, IsUpdateFor;
      MadeOneMore(c, d, d', i, env, e, t1);
    } else {
      hide UpdateMid, FirstSent, IsUpdateFor, HasUpdate;
      forall t | MadeFor(t, c, i + 1, env)
        ensures MadeFor(t, c, i, env)
      {
        MadeEarlier(t, c, i, env);
      }
    }
  }

  lemma MadeOneMore(c: Client, d: Client, d': Client, i: nat, env: Env, e: Client, t1: Transaction)
    requires i < |c.servers| && RequestsMade(c, d', i + 1, env, e)
    requires (forall x :: x in d'.transactions <==> x == t1 || x in d.transactions) && t1 !in d.transactions
    requires MadeFor(t1, c, i, env) && IsUpdateFor(t1, c, i, env) && Transmitted(t1.uid) in e.log
    ensures RequestsMade(c, d, i, env, e)
  {
    hide SendsUpdate, IsUpdateFor, MadeFor, HasUpdate;
    assert HasUpdate(c, d, i, env, e) by { HasOwn(c, d, i, env, e, t1); }
    forall t | t in e.transactions && t !in d.transactions
      ensures Transmitted(t.uid) in e.log && MadeFor(t, c, i, env)
    {
      if t != t1 {
        MadeEarlier(t, c, i, env);
      }
    }
    forall j | i < j < |c.servers| && SendsUpdate(c, j, env)
      ensures HasUpdate(c, d, j, env, e)
    {
      StillHas(c, d, d', j, env, e);
    }
  }

  lemma HasOwn(c: Client, d: Client, i: nat, env: Env, e: Client, t: Transaction)
    requires i < |c.servers| && t in e.transactions && t !in d.transactions && IsUpdateFor(t, c, i, env)
    ensures HasUpdate(c, d, i, env, e)
  {
    hide IsUpdateFor;
  }

  lemma MadeEarlier(t: Transaction, c: Client, i: nat, env: Env)
    requires i < |c.servers| && MadeFor(t, c, i + 1, env)
    ensures MadeFor(t, c, i, env)
  {
    hide SendsUpdate, IsUpdateFor;
  }

  lemma OwnRequest(c: Client, d: Client, i: nat, env: Env)
    requires i < |c.servers| && Numbered(d) && d.born >= c.born && SendsUpdate(c, i, env)
    ensures var t := FirstSent(d.born, UpdateMid(c, i, env.clock), c.servers[i].session, UpdateReply, c.servers[i].id, env.clock);
            IsUpdateFor(t, c, i, env) && MadeFor(t, c, i, env) && t !in d.transactions && t.uid == d.born
  {
    hide SendsUpdate, UpdateMid;
  }

  lemma StillHas(c: Client, d: Client, d': Client, j: nat, env: Env, e: Client)
    requires j < |c.servers| && HasUpdate(c, d', j, env, e) && forall t :: t in d.transactions ==> t in d'.transactions
    ensures HasUpdate(c, d, j, env, e)
  {
    hide IsUpdateFor;
  }

  /** The registration step, for any client and with the deadlines as numbers: exactly the servers with a connection, an update that
      is wanted and a message that can be sent get one update request each, transmitted once, and are left waiting for its
      answer. No other server is sent anything or changes, but a failed one loses its connection. */
  lemma UpdatesAreSent(c: Client, env: Env, wait: int)
    requires Numbered(c) && env.clock >= 0
    ensures var c' := RegistrationStep(c, 0, env, wait).0;
            ServersRefreshed(c, c, 0, env, c') && RequestsCounted(c, c, 0, env, c') && RequestsMade(c, c, 0, env, c')
  {
    RefreshFrom(c, c, 0, env, wait);
  }
}
