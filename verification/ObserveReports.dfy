/** Over whole runs of the observation store: nothing is reported twice without a change, and message ids count up. */
module ObserveReports {
  import opened Bytes
  import opened Observe
  import opened ObserveLaws
  import opened ObserveStep
  import opened ObserveRuns
  import opened ObserveMeaning

  // ----- no report without a change

  /** The event changes a value that the URI covers. */
  ghost predicate Changes(e: Event, u: Uri)
  {
    e.action.Touch? && exists p :: Names(u, p) && Names(e.action.uri, p)
  }

  lemma TouchedByEntry(s: seq<Observed>, v: Uri, u: Uri, server: int)
    requires Lookup(s, u, server).Some? && Touches(v, s[EntryOf(s, u)].uri)
    ensures exists p :: Names(u, p) && Names(v, p)
  {
    var entry := s[EntryOf(s, u)].uri;
    TouchesIff(v, entry);
    SameUriIff(entry, u);
    var p :| Names(v, p) && Names(entry, p);
    hide Names, SameUri, Touches;
    assert Names(u, p);
  }

  /** Only such a change marks a watcher for a report. */
  lemma MarkLaw(s: Store, e: Event, session: int -> int, u: Uri, server: int)
    requires Inv(s.observed)
    requires !Changes(e, u)
    ensures var w, w' := Lookup(s.observed, u, server), Lookup(Next(s, e, session).observed, u, server);
            w.Some? && w'.Some? && w'.value.update ==> w.value.update
  {
    hide Inv, StartObserving, StopObserving, Cancel, Clear, SetParameters, ValueChanged, PassOver, IsNotified,
         Decide, Readable, Complete, Combined, SameUri, Touches, Names;
    var o := s.observed;
    match e.action
    case Start(v, other, r) =>
      StartLaw(o, v, other, r.(now := e.now), u, server);
      LookupSame(o, v, u, other);
    case Stop(v, other) => StopLeaves(o, v, other, session, u, server);
    case Reset(mid, from) => CancelLaw(o, mid, from, session, u, server);
    case ClearAll(v) => ClearLaw(o, v, u, server);
    case Write(v, other, readable, attr, toClear) =>
      SetParametersLaw(o, v, other, readable, attr, toClear, u, server);
      LookupSame(o, v, u, other);
    case Touch(v) =>
      ValueChangedLaw(o, v, u, server);
      if Lookup(o, u, server).Some? && Touches(v, o[EntryOf(o, u)].uri) {
        TouchedByEntry(o, v, u, server);
      }
    case Tick(timeout, env) => StepLaw(o, e.now, s.mid, timeout, env, u, server);
  }

  ghost predicate NoChange(es: seq<Event>, u: Uri, i: nat, j: nat)
    requires j <= |es|
  {
    forall k :: i < k < j ==> !Changes(es[k], u)
  }

  lemma {:induction false} UnmarkedSince(s: Store, es: seq<Event>, session: int -> int, u: Uri, server: int, i: nat, j: nat)
    requires Inv(s.observed) && i < j <= |es| && Lives(s, es, session, u, server, i, j)
    requires Notifies(State(s, es, i, session), es[i], u, server) && NoChange(es, u, i, j)
    ensures var w := Lookup(State(s, es, j, session).observed, u, server); w.Some? && !w.value.update
    decreases j
  {
    hide *;
    var t := State(s, es, j - 1, session);
    RunKeeps(s, es, j - 1, session);
    LivesAt(s, es, session, u, server, i, j);
    if j == i + 1 {
      NotifiedUnmarked(t, es[i], session, u, server);
    } else {
      NoChangeAt(es, u, i, j);
      UnmarkedSince(s, es, session, u, server, i, j - 1);
      MarkLaw(t, es[j - 1], session, u, server);
    }
  }

  lemma NoChangeAt(es: seq<Event>, u: Uri, i: nat, j: nat)
    requires i + 1 < j <= |es| && NoChange(es, u, i, j)
    ensures NoChange(es, u, i, j - 1) && !Changes(es[j - 1], u)
  {
    hide Changes;
  }

  lemma NotifiedUnmarked(s: Store, e: Event, session: int -> int, u: Uri, server: int)
    requires Inv(s.observed) && Notifies(s, e, u, server)
    ensures var w := Lookup(Next(s, e, session).observed, u, server); w.Some? && !w.value.update
  {
    StepLaw(s.observed, e.now, s.mid, e.action.timeout, e.action.env, u, server);
    hide Inv, PassOver, Decide, Complete;
  }

  /** Over every run: when a watcher that lived in between is notified twice and no value that its URI covers changed in between,
      the second time is owed to its maximum period, which has passed since the last notification. */
  lemma NoReportWithoutChange(s: Store, es: seq<Event>, session: int -> int, u: Uri, server: int, i: nat, j: nat)
    requires Inv(s.observed) && i < j < |es| && Lives(s, es, session, u, server, i, j)
    requires Notifies(State(s, es, i, session), es[i], u, server)
    requires Notifies(State(s, es, j, session), es[j], u, server)
    requires NoChange(es, u, i, j)
    ensures var w := Lookup(State(s, es, j, session).observed, u, server);
            w.Some? && w.value.active && w.value.parameters.Some? && MaxPeriod in w.value.parameters.value.toSet
            && es[j].now >= w.value.lastTime + w.value.parameters.value.maxPeriod
  {
    var t := State(s, es, j, session);
    RunKeeps(s, es, j, session);
    UnmarkedSince(s, es, session, u, server, i, j);
    hide NoChange, State, Lives, Inv;
    StepLaw(t.observed, es[j].now, t.mid, es[j].action.timeout, es[j].action.env, u, server);
    hide PassOver, Complete, Crossed;
  }

  // ----- message ids

  function IdAfter(mid: u16, n: nat): (r: u16)
  {
    (mid + n) % 0x1_0000
  }

  /** How many notifications the walk over one entry makes. */
  function Sent(u: Uri, ws: seq<Watcher>, now: int, mid: u16, timeout: int, value: Option<real>, env: Env): (n: nat)
  {
    |WalkOver(u, ws, now, mid, timeout, value, env).sent|
  }

  /** In one entry every notification has the message id behind that of the one in front of it. */
  lemma {:induction false} WalkCounts(u: Uri, ws: seq<Watcher>, now: int, mid: u16, timeout: int, value: Option<real>, env: Env)
    requires DistinctServers(ws)
    ensures var k := WalkOver(u, ws, now, mid, timeout, value, env);
            && k.mid == IdAfter(mid, |k.sent|)
            && forall j :: 0 <= j < |ws| && (u, ws[j].server) in k.sent ==>
                 k.done[j].lastMid == IdAfter(mid, Sent(u, ws[..j], now, mid, timeout, value, env))
  {
    if ws != [] {
      var before, w := ws[..|ws| - 1], ws[|ws| - 1];
      WalkCounts(u, before, now, mid, timeout, value, env);
      WalkLaw(u, before, now, mid, timeout, value, env);
      var k := WalkOver(u, before, now, mid, timeout, value, env);
      var k' := WalkOver(u, ws, now, mid, timeout, value, env);
      assert (u, w.server) !in k.sent;
      CountsOne(k, u, w, now, value, env.prints(u, w.format), mid);
      assert k' == WalkOne(k, u, w, now, value, env.prints(u, w.format));
      assert Sent(u, before, now, mid, timeout, value, env) == |k.sent|;
      hide WalkOne, WalkOver, Decide, Handled, Sent, Complete, IdAfter;
      forall j | 0 <= j < |ws| && (u, ws[j].server) in k'.sent
        ensures k'.done[j].lastMid == IdAfter(mid, Sent(u, ws[..j], now, mid, timeout, value, env))
      {
        if j < |before| {
          assert before[j] == ws[j] && ws[..j] == before[..j] && k'.done[j] == k.done[j];
          assert ws[j].server != ws[|before|].server;
        } else {
          assert ws[..j] == before;
        }
      }
    }
  }

  lemma CountsOne(k: Walk, u: Uri, w: Watcher, now: int, value: Option<real>, prints: bool, mid: u16)
    requires (u, w.server) !in k.sent && k.mid == IdAfter(mid, |k.sent|)
    ensures var k' := WalkOne(k, u, w, now, value, prints);
            && k'.mid == IdAfter(mid, |k'.sent|) && |k'.done| == |k.done| + 1
            && (forall j :: 0 <= j < |k.done| ==> k'.done[j] == k.done[j])
            && (k'.sent == k.sent || k'.sent == k.sent + {(u, w.server)})
            && ((u, w.server) in k'.sent ==> k'.done[|k.done|].lastMid == k.mid)
  {
    hide Decide;
    NextMid(mid, |k.sent|);
  }

  lemma NextMid(mid: u16, n: nat)
    ensures (IdAfter(mid, n) + 1) % 0x1_0000 == IdAfter(mid, n + 1)
  {}

  /** The id of a notification: the first one, further by the notifications made in front of it. */
  predicate NumberedInOrder(s: seq<Observed>, i: nat, now: int, mid: u16, timeout: int, env: Env, done: Observed, sent: set<(Uri, int)>)
    requires i < |s| && |done.watchers| == |s[i].watchers|
  {
    var q, o := PassOver(s[..i], now, mid, timeout, env), s[i];
    forall j :: 0 <= j < |o.watchers| && (o.uri, o.watchers[j].server) in sent ==>
      done.watchers[j].lastMid ==
      IdAfter(mid, |q.sent| + Sent(o.uri, o.watchers[..j], now, q.mid, q.timeout, ValueOf(o.uri, env), env))
  }

  /** The notifications of a step have message ids that count up from the next one, in the order of entries and watchers, and the
      next message has the id behind them. */
  lemma {:induction false} IdsCountUp(s: seq<Observed>, now: int, mid: u16, timeout: int, env: Env)
    requires Inv(s)
    ensures var p := PassOver(s, now, mid, timeout, env);
            && p.mid == IdAfter(mid, |p.sent|)
            && forall i :: 0 <= i < |s| ==>
                 |p.done[i].watchers| == |s[i].watchers| && NumberedInOrder(s, i, now, mid, timeout, env, p.done[i], p.sent)
  {
    if s != [] {
      var before, o := s[..|s| - 1], s[|s| - 1];
      assert Inv(before) && GoodEntry(o);
      IdsCountUp(before, now, mid, timeout, env);
      var q := PassOver(before, now, mid, timeout, env);
      var k := StepEntry(o, now, q.mid, q.timeout, env);
      var p := PassOver(s, now, mid, timeout, env);
      EntryCounts(o, now, q.mid, q.timeout, env);
      OtherUris(s, now, mid, timeout, env);
      assert p == Pass(q.done + [o.(watchers := k.done)], q.sent + k.sent, k.mid, k.timeout);
      hide PassOver, StepEntry, Sent, Inv, IdAfter, NumberedInOrder;
      Disjoint(q.sent, k.sent, o.uri);
      SumMids(mid, |q.sent|, |k.sent|);
      LastEntry(s, now, mid, timeout, env, o.(watchers := k.done), q.sent, k.sent);
      forall i | 0 <= i < |before|
        ensures |p.done[i].watchers| == |s[i].watchers| && NumberedInOrder(s, i, now, mid, timeout, env, p.done[i], p.sent)
      {
        assert s[i] == before[i] && p.done[i] == q.done[i];
        EarlierEntry(s, i, now, mid, timeout, env, p.done[i], q.sent, k.sent);
      }
    }
  }

  lemma EarlierEntry(s: seq<Observed>, i: nat, now: int, mid: u16, timeout: int, env: Env, done: Observed,
                     sent: set<(Uri, int)>, more: set<(Uri, int)>)
    requires i < |s| - 1 && |done.watchers| == |s[i].watchers|
    requires NumberedInOrder(s[..|s| - 1], i, now, mid, timeout, env, done, sent) && forall x :: x in more ==> x.0 != s[i].uri
    ensures NumberedInOrder(s, i, now, mid, timeout, env, done, sent + more)
  {
    hide PassOver, Sent, IdAfter;
    assert s[..|s| - 1][..i] == s[..i];
  }

  lemma LastEntry(s: seq<Observed>, now: int, mid: u16, timeout: int, env: Env, done: Observed,
                  sent: set<(Uri, int)>, more: set<(Uri, int)>)
    requires s != [] && |done.watchers| == |s[|s| - 1].watchers| && forall x :: x in sent ==> x.0 != s[|s| - 1].uri
    requires var q, o := PassOver(s[..|s| - 1], now, mid, timeout, env), s[|s| - 1];
             && q.sent == sent && q.mid == IdAfter(mid, |sent|)
             && forall j :: 0 <= j < |o.watchers| && (o.uri, o.watchers[j].server) in more ==>
                  done.watchers[j].lastMid ==
                  IdAfter(q.mid, Sent(o.uri, o.watchers[..j], now, q.mid, q.timeout, ValueOf(o.uri, env), env))
    ensures NumberedInOrder(s, |s| - 1, now, mid, timeout, env, done, sent + more)
  {
    hide PassOver, Sent, IdAfter;
    var q, o := PassOver(s[..|s| - 1], now, mid, timeout, env), s[|s| - 1];
    forall j | 0 <= j < |o.watchers|
      ensures var n := Sent(o.uri, o.watchers[..j], now, q.mid, q.timeout, ValueOf(o.uri, env), env);
              IdAfter(q.mid, n) == IdAfter(mid, |sent| + n)
    {
      SumMids(mid, |sent|, Sent(o.uri, o.watchers[..j], now, q.mid, q.timeout, ValueOf(o.uri, env), env));
    }
  }

  lemma OtherUris(s: seq<Observed>, now: int, mid: u16, timeout: int, env: Env)
    requires Inv(s) && s != []
    ensures var o, q := s[|s| - 1], PassOver(s[..|s| - 1], now, mid, timeout, env);
            && (forall x :: x in q.sent ==> x.0 != o.uri)
            && (forall x :: x in StepEntry(o, now, q.mid, q.timeout, env).sent ==> x.0 == o.uri)
            && forall i :: 0 <= i < |s| - 1 ==> s[i].uri != o.uri
  {
    var before, o := s[..|s| - 1], s[|s| - 1];
    var q := PassOver(before, now, mid, timeout, env);
    assert Inv(before) && GoodEntry(o);
    PassLaw(before, now, mid, timeout, env);
    StepEntryLaw(o, now, q.mid, q.timeout, env);
    SameUriIsEquivalence(o.uri, o.uri, o.uri);
    hide PassOver, StepEntry, EntryDone, SameUri, GoodEntry;
    forall i | 0 <= i < |before|
      ensures s[i].uri != o.uri
    {
      assert !SameUri(s[i].uri, s[|before|].uri);
    }
    forall x | x in q.sent
      ensures x.0 != o.uri
    {
      var i :| 0 <= i < |before| && before[i].uri == x.0;
      assert s[i].uri == x.0;
    }
  }

  lemma EntryCounts(o: Observed, now: int, mid: u16, timeout: int, env: Env)
    requires GoodEntry(o)
    ensures var k := StepEntry(o, now, mid, timeout, env);
            && k.mid == IdAfter(mid, |k.sent|)
            && forall j :: 0 <= j < |o.watchers| && (o.uri, o.watchers[j].server) in k.sent ==>
                 k.done[j].lastMid ==
                 IdAfter(mid, Sent(o.uri, o.watchers[..j], now, mid, timeout, ValueOf(o.uri, env), env))
  {
    WalkCounts(o.uri, o.watchers, now, mid, timeout, ValueOf(o.uri, env), env);
    hide WalkOver, Sent, ValueOf, Readable;
  }

  lemma Disjoint(a: set<(Uri, int)>, b: set<(Uri, int)>, u: Uri)
    requires (forall x :: x in a ==> x.0 != u) && (forall x :: x in b ==> x.0 == u)
    ensures |a + b| == |a| + |b|
  {
    assert a * b == {};
  }

  lemma SumMids(mid: u16, m: nat, n: nat)
    ensures IdAfter(IdAfter(mid, m), n) == IdAfter(mid, m + n)
  {}
}
