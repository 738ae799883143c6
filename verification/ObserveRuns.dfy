/** Whole runs of the observation store: the invariant, and the spacing of notifications. */
module ObserveRuns {
  import opened Bytes
  import opened Observe
  import opened ObserveLaws
  import opened ObserveStep

  // ----- one pass over the store

  /** The notifications of an entry are exactly those decided if it can be read and printed for the first watcher that is due,
      and none otherwise; the watchers reached bound the wait. */
  ghost predicate EntryDone(o: Observed, o': Observed, sent: set<(Uri, int)>, now: int, timeout: int, env: Env)
  {
    && o'.uri == o.uri && |o'.watchers| == |o.watchers|
    && forall j :: 0 <= j < |o.watchers| ==>
         WatcherDone(o, j, o'.watchers[j], (o.uri, o.watchers[j].server) in sent, now, timeout, env)
  }

  predicate WatcherDone(o: Observed, j: nat, w': Watcher, sent: bool, now: int, timeout: int, env: Env)
    requires j < |o.watchers|
  {
    var w, v := o.watchers[j], ValueOf(o.uri, env);
    && Handled(w, w', sent, now, v)
    && (sent <==> Readable(o.uri, env) && Due(w, now, v) && FirstPrints(o.uri, o.watchers, now, v, env))
    && (Readable(o.uri, env) && Reached(o.uri, o.watchers, now, v, env, j) ==> Timely(w', now, timeout))
  }

  lemma StepEntryLaw(o: Observed, now: int, mid: u16, timeout: int, env: Env)
    requires GoodEntry(o)
    ensures var k := StepEntry(o, now, mid, timeout, env);
            && k.timeout <= timeout && (forall x :: x in k.sent ==> x.0 == o.uri)
            && EntryDone(o, o.(watchers := k.done), k.sent, now, k.timeout, env)
  {
    if Readable(o.uri, env) {
      var v := ValueOf(o.uri, env);
      WalkLaw(o.uri, o.watchers, now, mid, timeout, v, env);
      WalkStopsIff(o.uri, o.watchers, now, mid, timeout, v, env);
      var k := StepEntry(o, now, mid, timeout, env);
      hide WalkOver, Decide, FirstDue, Timely;
      forall j | 0 <= j < |o.watchers|
        ensures WatcherDone(o, j, k.done[j], (o.uri, o.watchers[j].server) in k.sent, now, k.timeout, env)
      {
        if !k.stopped {
          assert Complete(o.watchers[j], k.done[j], (o.uri, o.watchers[j].server) in k.sent, now, v, k.timeout);
        } else {
          assert k.done[j] == o.watchers[j];
        }
      }
    }
  }

  /** Later entries add notifications for other URIs only, and can only shorten the wait. */
  lemma EntryStaysDone(o: Observed, o': Observed, sent: set<(Uri, int)>, more: set<(Uri, int)>, now: int, t: int, t': int,
                       env: Env)
    requires EntryDone(o, o', sent, now, t, env) && t' <= t && forall x :: x in more ==> x.0 != o.uri
    ensures EntryDone(o, o', sent + more, now, t', env)
  {
    hide Handled, Due, Timely, FirstPrints, Reached;
    forall j | 0 <= j < |o.watchers|
      ensures WatcherDone(o, j, o'.watchers[j], (o.uri, o.watchers[j].server) in sent + more, now, t', env)
    {
      assert WatcherDone(o, j, o'.watchers[j], (o.uri, o.watchers[j].server) in sent, now, t, env);
      if Timely(o'.watchers[j], now, t) {
        TimelyEarlier(o'.watchers[j], now, t, t');
      }
    }
  }

  lemma {:induction false} PassLaw(s: seq<Observed>, now: int, mid: u16, timeout: int, env: Env)
    requires Inv(s)
    ensures var p := PassOver(s, now, mid, timeout, env);
            && p.timeout <= timeout
            && (forall x :: x in p.sent ==> exists i :: 0 <= i < |s| && s[i].uri == x.0)
            && (forall i :: 0 <= i < |s| ==> EntryDone(s[i], p.done[i], p.sent, now, p.timeout, env))
  {
    if s != [] {
      var before, o := s[..|s| - 1], s[|s| - 1];
      assert Inv(before) && GoodEntry(o);
      PassLaw(before, now, mid, timeout, env);
      var q := PassOver(before, now, mid, timeout, env);
      var p := PassOver(s, now, mid, timeout, env);
      var k := StepEntry(o, now, q.mid, q.timeout, env);
      StepEntryLaw(o, now, q.mid, q.timeout, env);
      assert p.done == q.done + [o.(watchers := k.done)] && p.sent == q.sent + k.sent && p.timeout == k.timeout;
      hide PassOver, StepEntry, EntryDone;
      forall i | 0 <= i < |before|
        ensures EntryDone(s[i], p.done[i], p.sent, now, p.timeout, env) && s[i].uri != o.uri
      {
        assert s[i] == before[i] && p.done[i] == q.done[i];
        assert s[i].uri != o.uri by { SameUriIsEquivalence(o.uri, o.uri, o.uri); }
        EntryStaysDone(s[i], p.done[i], q.sent, k.sent, now, q.timeout, p.timeout, env);
      }
      assert EntryDone(o, p.done[|before|], p.sent, now, p.timeout, env) by {
        assert k.sent + q.sent == p.sent;
        forall x | x in q.sent
          ensures x.0 != o.uri
        {
          var i :| 0 <= i < |before| && before[i].uri == x.0;
          assert s[i].uri == x.0;
        }
        EntryStaysDone(o, p.done[|before|], k.sent, q.sent, now, k.timeout, p.timeout, env);
      }
      forall x | x in p.sent
        ensures exists i :: 0 <= i < |s| && s[i].uri == x.0
      {
        if x in q.sent {
          var i :| 0 <= i < |before| && before[i].uri == x.0;
          assert s[i].uri == x.0;
        } else {
          assert s[|s| - 1].uri == x.0;
        }
      }
    }
  }

  /** Whether the watcher of a server on a URI is notified in a step. */
  predicate IsNotified(s: seq<Observed>, now: int, mid: u16, timeout: int, env: Env, u: Uri, server: int)
  {
    var i := EntryOf(s, u);
    i < |s| && (s[i].uri, server) in PassOver(s, now, mid, timeout, env).sent && Lookup(s, u, server).Some?
  }

  /** A step keeps the invariant and the set of watchers. Each is notified at most once or left as it is: it is notified
      exactly if it is active and due, its entry can be read, and the value can be printed in the format of the first
      watcher of the entry that is due. */
  lemma StepLaw(s: seq<Observed>, now: int, mid: u16, timeout: int, env: Env, u: Uri, server: int)
    requires Inv(s)
    ensures var p := PassOver(s, now, mid, timeout, env);
            var w, w' := Lookup(s, u, server), Lookup(p.done, u, server);
            && Inv(p.done) && EntryOf(p.done, u) == EntryOf(s, u) && (w.Some? <==> w'.Some?)
            && (w.Some? ==>
                  var o := s[EntryOf(s, u)];
                  WatcherDone(o, WatcherOf(o.watchers, server), w'.value,
                              IsNotified(s, now, mid, timeout, env, u, server), now, p.timeout, env))
  {
    var p := PassOver(s, now, mid, timeout, env);
    PassKeeps(s, now, mid, timeout, env, u);
    PassLaw(s, now, mid, timeout, env);
    var i := EntryOf(s, u);
    hide Inv, PassOver, WatcherDone, EntryOf;
    if i < |s| {
      EntryLookup(s[i], p.done[i], p.sent, now, p.timeout, env, server);
    }
    hide EntryDone;
  }

  lemma PassKeeps(s: seq<Observed>, now: int, mid: u16, timeout: int, env: Env, u: Uri)
    requires Inv(s)
    ensures var p := PassOver(s, now, mid, timeout, env); Inv(p.done) && EntryOf(p.done, u) == EntryOf(s, u)
  {
    var p := PassOver(s, now, mid, timeout, env);
    PassLaw(s, now, mid, timeout, env);
    hide PassOver, WatcherDone;
    forall i | 0 <= i < |s|
      ensures p.done[i].uri == s[i].uri && GoodEntry(p.done[i])
    {
      assert GoodEntry(s[i]) && EntryDone(s[i], p.done[i], p.sent, now, p.timeout, env);
      EntryKeeps(s[i], p.done[i], p.sent, now, p.timeout, env);
    }
    SameEntries(s, p.done, u);
  }

  lemma EntryKeeps(o: Observed, o': Observed, sent: set<(Uri, int)>, now: int, timeout: int, env: Env)
    requires GoodEntry(o) && EntryDone(o, o', sent, now, timeout, env)
    ensures GoodEntry(o') && forall j :: 0 <= j < |o.watchers| ==> o'.watchers[j].server == o.watchers[j].server
  {
    hide Due, FirstPrints, Reached, Timely, Readable, Decide;
    forall j | 0 <= j < |o.watchers|
      ensures o'.watchers[j].server == o.watchers[j].server
    {
      assert WatcherDone(o, j, o'.watchers[j], (o.uri, o.watchers[j].server) in sent, now, timeout, env);
    }
  }

  lemma EntryLookup(o: Observed, o': Observed, sent: set<(Uri, int)>, now: int, timeout: int, env: Env, server: int)
    requires GoodEntry(o) && EntryDone(o, o', sent, now, timeout, env)
    ensures var j := WatcherOf(o.watchers, server);
            && |o'.watchers| == |o.watchers| && WatcherOf(o'.watchers, server) == j
            && (j < |o.watchers| ==> WatcherDone(o, j, o'.watchers[j], (o.uri, server) in sent, now, timeout, env))
  {
    EntryKeeps(o, o', sent, now, timeout, env);
    hide WatcherDone;
    SameServers(o.watchers, o'.watchers, server);
  }

  /** The watchers of the entry of a URI. */
  function WatchersOf(s: seq<Observed>, u: Uri): (ws: seq<Watcher>)
    requires EntryOf(s, u) < |s|
  {
    s[EntryOf(s, u)].watchers
  }

  /** At or past its maximum period an active watcher is notified exactly if its entry can be read and the value can be printed
      in the format of the first watcher of the entry that is due; its own format does not matter. */
  lemma MaxPeriodForces(s: seq<Observed>, now: int, mid: u16, timeout: int, env: Env, u: Uri, server: int)
    requires Inv(s) && Lookup(s, u, server).Some?
    requires var w := Lookup(s, u, server).value; w.active && MaxReached(w, now)
    ensures var e, ws := s[EntryOf(s, u)].uri, WatchersOf(s, u);
            var d := FirstDue(ws, now, ValueOf(e, env));
            && d < |ws|
            && (IsNotified(s, now, mid, timeout, env, u, server) <==> Readable(e, env) && env.prints(e, ws[d].format))
    ensures var w' := Lookup(PassOver(s, now, mid, timeout, env).done, u, server);
            w'.Some? && (IsNotified(s, now, mid, timeout, env, u, server) ==> w'.value.lastTime == now)
  {
    StepLaw(s, now, mid, timeout, env, u, server);
    var e, ws := s[EntryOf(s, u)].uri, WatchersOf(s, u);
    assert Due(ws[WatcherOf(ws, server)], now, ValueOf(e, env));
    hide PassOver, IsNotified, Timely;
  }

  /** The wait a step asks for ends no later than the periods of any watcher that is reached. */
  lemma WakesForPeriods(s: seq<Observed>, now: int, mid: u16, timeout: int, env: Env, u: Uri, server: int)
    requires Inv(s) && Lookup(s, u, server).Some?
    ensures var p, o := PassOver(s, now, mid, timeout, env), s[EntryOf(s, u)]; var w' := Lookup(p.done, u, server);
            && w'.Some? && p.timeout <= timeout
            && (Readable(o.uri, env)
                && Reached(o.uri, o.watchers, now, ValueOf(o.uri, env), env, WatcherOf(o.watchers, server)) ==>
                  Timely(w'.value, now, p.timeout))
  {
    PassLaw(s, now, mid, timeout, env);
    StepLaw(s, now, mid, timeout, env, u, server);
    hide PassOver, IsNotified;
  }

  /** A watcher past its maximum period is starved by one in front of it whose format cannot be printed: it is not notified,
      and the wait does not count it. */
  lemma Starved(e: Uri, mid: u16, timeout: int, env: Env)
    requires Readable(e, env) && !env.prints(e, 42) && env.prints(e, 11542) && timeout > 0
    ensures var asks := Attributes({MaxPeriod}, 0, 10, 0.0, 0.0, 0.0);
            var a := NewWatcher(1).(active := true, update := true, format := 42);
            var b := NewWatcher(2).(active := true, format := 11542, parameters := Some(asks));
            var s := [Observed(e, [a, b])];
            var p := PassOver(s, 20, mid, timeout, env);
            && Inv(s) && Lookup(s, e, 2) == Some(b) && MaxReached(b, 20) && env.prints(e, b.format)
            && !IsNotified(s, 20, mid, timeout, env, e, 2) && Lookup(p.done, e, 2) == Some(b) && p.timeout == timeout
  {
    var asks := Attributes({MaxPeriod}, 0, 10, 0.0, 0.0, 0.0);
    var a := NewWatcher(1).(active := true, update := true, format := 42);
    var b := NewWatcher(2).(active := true, format := 11542, parameters := Some(asks));
    var o := Observed(e, [a, b]);
    var s := [o];
    assert GoodEntry(o);
    TheEntry(s, e, 0);
    WatcherIs([a, b], 2, 1);
    assert Due(a, 20, ValueOf(e, env));
    FirstDueIs([a, b], 20, ValueOf(e, env), 0);
    MaxPeriodForces(s, 20, mid, timeout, env, e, 2);
    StepLaw(s, 20, mid, timeout, env, e, 2);
    StarvedWait(e, a, b, 20, mid, timeout, env);
    hide PassOver, Decide, Timely, Reached, FirstDue, EntryOf, WatcherOf;
  }

  lemma StarvedWait(e: Uri, a: Watcher, b: Watcher, now: int, mid: u16, timeout: int, env: Env)
    requires Readable(e, env) && Due(a, now, ValueOf(e, env)) && !env.prints(e, a.format) && a.parameters.None?
    ensures PassOver([Observed(e, [a, b])], now, mid, timeout, env).timeout == timeout
  {
    var v, o := ValueOf(e, env), Observed(e, [a, b]);
    assert [a, b][..1] == [a] && [a][..0] == [];
    hide Decide;
    assert WalkOver(e, [a], now, mid, timeout, v, env).stopped && WalkOver(e, [a], now, mid, timeout, v, env).timeout == timeout;
    assert WalkOver(e, [a, b], now, mid, timeout, v, env).timeout == timeout;
    hide WalkOver;
    assert [o][..0] == [];
    assert PassOver([], now, mid, timeout, env) == Pass([], {}, mid, timeout);
  }

  // ----- runs

  datatype Action =
    | Start(uri: Uri, server: int, request: Request)
    | Stop(uri: Uri, server: int)
    | Reset(mid: u16, from: int)
    | ClearAll(uri: Uri)
    | Write(uri: Uri, server: int, readable: Code, attr: Attributes, toClear: set<Flag>)
    | Touch(uri: Uri)
    | Tick(timeout: int, env: Env)

  /** Something that happens at a time. */
  datatype Event = At(now: int, action: Action)

  datatype Store = Store(observed: seq<Observed>, mid: u16)

  function Next(s: Store, e: Event, session: int -> int): (s': Store)
  {
    match e.action
    case Start(u, server, r) => s.(observed := StartObserving(s.observed, u, server, r.(now := e.now)).0)
    case Stop(u, server) => s.(observed := StopObserving(s.observed, u, server, session))
    case Reset(mid, from) => s.(observed := Cancel(s.observed, mid, from, session))
    case ClearAll(u) => s.(observed := Clear(s.observed, u))
    case Write(u, server, readable, attr, toClear) =>
      s.(observed := SetParameters(s.observed, u, server, readable, attr, toClear).0)
    case Touch(u) => s.(observed := ValueChanged(s.observed, u))
    case Tick(timeout, env) =>
      var p := PassOver(s.observed, e.now, s.mid, timeout, env);
      Store(p.done, p.mid)
  }

  /** The state after the first n events. */
  function State(s: Store, es: seq<Event>, n: nat, session: int -> int): (s': Store)
    requires n <= |es|
  {
    if n == 0 then s else Next(State(s, es, n - 1, session), es[n - 1], session)
  }

  lemma NextKeeps(s: Store, e: Event, session: int -> int)
    requires Inv(s.observed)
    ensures Inv(Next(s, e, session).observed)
  {
    hide Inv, StartObserving, StopObserving, Cancel, Clear, SetParameters, ValueChanged, PassOver, Lookup;
    match e.action
    case Start(u, server, r) => StartLaw(s.observed, u, server, r.(now := e.now), u, server);
    case Stop(u, server) => StopKeeps(s.observed, u, server, session);
    case Reset(mid, from) => CancelLaw(s.observed, mid, from, session, ANY, 0);
    case ClearAll(u) => ClearLaw(s.observed, u, u, 0);
    case Write(u, server, readable, attr, toClear) =>
      SetParametersLaw(s.observed, u, server, readable, attr, toClear, u, server);
    case Touch(u) => ValueChangedLaw(s.observed, u, u, 0);
    case Tick(timeout, env) => StepLaw(s.observed, e.now, s.mid, timeout, env, ANY, 0);
  }

  const ANY := Uri(0, 0, false, 0, false, 0)

  lemma StopKeeps(s: seq<Observed>, u: Uri, server: int, session: int -> int)
    requires Inv(s)
    ensures Inv(StopObserving(s, u, server, session))
  {
    if Lookup(s, u, server).Some? {
      StopLaw(s, u, server, session);
    }
  }

  /** The invariant holds after every run from a store that has it, in particular from the empty store. */
  lemma {:induction false} RunKeeps(s: Store, es: seq<Event>, n: nat, session: int -> int)
    requires Inv(s.observed) && n <= |es|
    ensures Inv(State(s, es, n, session).observed)
  {
    hide Inv;
    if n > 0 {
      RunKeeps(s, es, n - 1, session);
      NextKeeps(State(s, es, n - 1, session), es[n - 1], session);
    }
  }

  // ----- spacing

  /** An event leaves the last notification time of a watcher, sets it to the time of the event, or removes the watcher. */
  lemma LastTimeLaw(s: Store, e: Event, session: int -> int, u: Uri, server: int)
    requires Inv(s.observed)
    ensures var w, w' := Lookup(s.observed, u, server), Lookup(Next(s, e, session).observed, u, server);
            w.Some? && w'.Some? ==> w'.value.lastTime == w.value.lastTime || w'.value.lastTime == e.now
  {
    hide Inv, StartObserving, StopObserving, Cancel, Clear, SetParameters, ValueChanged, PassOver, IsNotified,
         Decide, Readable, Complete, Combined, SameUri;
    var o := s.observed;
    match e.action
    case Start(v, other, r) =>
      StartLaw(o, v, other, r.(now := e.now), u, server);
    case Stop(v, other) => StopLeaves(o, v, other, session, u, server);
    case Reset(mid, from) => CancelLaw(o, mid, from, session, u, server);
    case ClearAll(v) => ClearLaw(o, v, u, server);
    case Write(v, other, readable, attr, toClear) =>
      SetParametersLaw(o, v, other, readable, attr, toClear, u, server);
      LookupSame(o, v, u, other);
    case Touch(v) => ValueChangedLaw(o, v, u, server);
    case Tick(timeout, env) => StepLaw(o, e.now, s.mid, timeout, env, u, server);
  }

  lemma LookupSame(s: seq<Observed>, u: Uri, v: Uri, server: int)
    ensures SameUri(u, v) ==> Lookup(s, u, server) == Lookup(s, v, server)
  {
    if SameUri(u, v) {
      SameUriSameEntry(s, u, v);
    }
  }

  lemma StopLeaves(s: seq<Observed>, v: Uri, other: int, session: int -> int, u: Uri, server: int)
    requires Inv(s)
    ensures var w' := Lookup(StopObserving(s, v, other, session), u, server); w'.Some? ==> w' == Lookup(s, u, server)
  {
    var w := Lookup(s, v, other);
    if w.Some? {
      hide Inv, Lookup, Cancel;
      CancelLaw(s, w.value.lastMid, session(other), session, u, server);
    }
  }

  /** The event is a step that notifies the watcher. */
  predicate Notifies(s: Store, e: Event, u: Uri, server: int)
  {
    e.action.Tick? && IsNotified(s.observed, e.now, s.mid, e.action.timeout, e.action.env, u, server)
  }

  /** The watcher exists after each of the events from i on, before event j. */
  predicate Lives(s: Store, es: seq<Event>, session: int -> int, u: Uri, server: int, i: nat, j: nat)
    requires j <= |es|
  {
    forall k {:trigger State(s, es, k, session)} :: i < k <= j ==> Lookup(State(s, es, k, session).observed, u, server).Some?
  }

  predicate ClockRuns(es: seq<Event>)
  {
    forall a, b :: 0 <= a < b < |es| ==> es[a].now <= es[b].now
  }

  /** After a notification the last notification time never falls below it, as long as the watcher lives. */
  lemma {:induction false} LastTimeFrom(s: Store, es: seq<Event>, session: int -> int, u: Uri, server: int, i: nat, j: nat)
    requires Inv(s.observed) && i < j <= |es| && ClockRuns(es) && Lives(s, es, session, u, server, i, j)
    requires Notifies(State(s, es, i, session), es[i], u, server)
    ensures var w := Lookup(State(s, es, j, session).observed, u, server); w.Some? && w.value.lastTime >= es[i].now
    decreases j
  {
    hide *;
    var t := State(s, es, j - 1, session);
    RunKeeps(s, es, j - 1, session);
    LivesAt(s, es, session, u, server, i, j);
    if j == i + 1 {
      NotifiedNow(t, es[i], session, u, server);
    } else {
      LastTimeFrom(s, es, session, u, server, i, j - 1);
      LastTimeLaw(t, es[j - 1], session, u, server);
      Earlier(es, i, j - 1);
    }
  }

  lemma LivesAt(s: Store, es: seq<Event>, session: int -> int, u: Uri, server: int, i: nat, j: nat)
    requires i < j <= |es| && Lives(s, es, session, u, server, i, j)
    ensures State(s, es, j, session) == Next(State(s, es, j - 1, session), es[j - 1], session)
    ensures Lookup(State(s, es, j, session).observed, u, server).Some? && Lives(s, es, session, u, server, i, j - 1)
  {
    hide Next, Lookup;
  }

  lemma Earlier(es: seq<Event>, a: nat, b: nat)
    requires ClockRuns(es) && a < b < |es|
    ensures es[a].now <= es[b].now
  {}

  lemma NotifiedNow(s: Store, e: Event, session: int -> int, u: Uri, server: int)
    requires Inv(s.observed) && Notifies(s, e, u, server)
    ensures var w := Lookup(Next(s, e, session).observed, u, server); w.Some? && w.value.lastTime == e.now
  {
    StepLaw(s.observed, e.now, s.mid, e.action.timeout, e.action.env, u, server);
    hide Inv, PassOver, Decide, Complete;
  }

  /** Over every run, two notifications of a watcher that lived in between are at least the minimum period in force at the
      second one apart, if the maximum period is absent or not shorter. */
  lemma NotificationsAreSpaced(s: Store, es: seq<Event>, session: int -> int, u: Uri, server: int, i: nat, j: nat,
                               p: Attributes)
    requires Inv(s.observed) && i < j < |es| && ClockRuns(es) && Lives(s, es, session, u, server, i, j)
    requires Notifies(State(s, es, i, session), es[i], u, server)
    requires Notifies(State(s, es, j, session), es[j], u, server)
    requires Lookup(State(s, es, j, session).observed, u, server).value.parameters == Some(p)
    requires MinPeriod in p.toSet && PeriodsAgree(p)
    ensures es[j].now - es[i].now >= p.minPeriod
  {
    var t := State(s, es, j, session);
    RunKeeps(s, es, j, session);
    LastTimeFrom(s, es, session, u, server, i, j);
    StepLaw(t.observed, es[j].now, t.mid, es[j].action.timeout, es[j].action.env, u, server);
    SpacedIff(p);
    hide Inv, State, PassOver, Complete, Decide, Lives;
  }

  // ----- attributes in force

  /** Attributes once written stay, and no flag is ever added to them. */
  predicate OnlyShrunk(w: Watcher, w': Watcher)
  {
    w.parameters.Some? ==> w'.parameters.Some? && w'.parameters.value.toSet <= w.parameters.value.toSet
  }

  lemma FlagsLaw(s: Store, e: Event, session: int -> int, u: Uri, server: int)
    requires Inv(s.observed)
    ensures var w, w' := Lookup(s.observed, u, server), Lookup(Next(s, e, session).observed, u, server);
            w.Some? && w'.Some? ==> OnlyShrunk(w.value, w'.value)
  {
    hide Inv, StartObserving, StopObserving, Cancel, Clear, SetParameters, ValueChanged, PassOver, IsNotified,
         Decide, Readable, Complete, SameUri, ThresholdsClash;
    var o := s.observed;
    match e.action
    case Start(v, other, r) =>
      StartLaw(o, v, other, r.(now := e.now), u, server);
      LookupSame(o, v, u, other);
    case Stop(v, other) => StopLeaves(o, v, other, session, u, server);
    case Reset(mid, from) => CancelLaw(o, mid, from, session, u, server);
    case ClearAll(v) => ClearLaw(o, v, u, server);
    case Write(v, other, readable, attr, toClear) =>
      SetParametersLaw(o, v, other, readable, attr, toClear, u, server);
      LookupSame(o, v, u, other);
    case Touch(v) => ValueChangedLaw(o, v, u, server);
    case Tick(timeout, env) => StepLaw(o, e.now, s.mid, timeout, env, u, server);
  }

  /** Over every run: the flags in force of a watcher that lives and has attributes only shrink. So a flag that is not among
      the first attributes written to it, like a maximum period added later, is never in force, whatever is written. */
  lemma {:induction false} FlagsOnlyShrink(s: Store, es: seq<Event>, session: int -> int, u: Uri, server: int, i: nat, j: nat)
    requires Inv(s.observed) && i <= j <= |es| && Lives(s, es, session, u, server, i, j)
    requires Lookup(State(s, es, i, session).observed, u, server).Some?
    ensures var w, w' := Lookup(State(s, es, i, session).observed, u, server),
                         Lookup(State(s, es, j, session).observed, u, server);
            w'.Some? && OnlyShrunk(w.value, w'.value)
    decreases j
  {
    hide *;
    var w := Lookup(State(s, es, i, session).observed, u, server).value;
    if i < j {
      RunKeeps(s, es, j - 1, session);
      LivesAt(s, es, session, u, server, i, j);
      FlagsOnlyShrink(s, es, session, u, server, i, j - 1);
      FlagsLaw(State(s, es, j - 1, session), es[j - 1], session, u, server);
      ShrunkAgain(w, Lookup(State(s, es, j - 1, session).observed, u, server).value,
                  Lookup(State(s, es, j, session).observed, u, server).value);
    } else {
      ShrunkAgain(w, w, w);
    }
  }

  lemma ShrunkAgain(a: Watcher, b: Watcher, c: Watcher)
    ensures OnlyShrunk(a, a) && (OnlyShrunk(a, b) && OnlyShrunk(b, c) ==> OnlyShrunk(a, c))
  {}
}
