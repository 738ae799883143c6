/** What each operation does to the store seen as a map from URI and server to watcher, and that it keeps the invariant. */
module ObserveLaws {
  import opened Bytes
  import opened Observe

  // ----- prv_getWatcher

  lemma AddedEntry(s: seq<Observed>, u: Uri, server: int, v: Uri)
    requires Inv(s) && EntryOf(s, u) == |s|
    ensures var s' := GetWatcher(s, u, server);
            Inv(s') && EntryOf(s', v) == if SameUri(u, v) then 0 else EntryOf(s, v) + 1
  {
    var e := Observed(u, [NewWatcher(server)]);
    var s' := [e] + s;
    assert s'[1..] == s;
    forall i | 0 <= i < |s|
      ensures !SameUri(u, s[i].uri)
    {
      SameUriIsEquivalence(u, s[i].uri, u);
    }
    assert forall i :: 0 < i < |s'| ==> s'[i] == s[i - 1];
    assert DistinctUris(s');
    assert GoodEntry(e);
  }

  /** Replacing the watchers of one entry. */
  lemma ReplacedEntry(s: seq<Observed>, i: nat, ws: seq<Watcher>, v: Uri)
    requires Inv(s) && i < |s| && ws != [] && DistinctServers(ws)
    ensures var s' := s[i := s[i].(watchers := ws)]; Inv(s') && EntryOf(s', v) == EntryOf(s, v)
  {
    var s' := s[i := s[i].(watchers := ws)];
    SameEntries(s, s', v);
  }

  lemma AddedWatcher(ws: seq<Watcher>, w: Watcher, server: int)
    requires DistinctServers(ws) && WatcherOf(ws, w.server) == |ws|
    ensures var ws' := [w] + ws;
            DistinctServers(ws') && WatcherOf(ws', server) == if w.server == server then 0 else WatcherOf(ws, server) + 1
  {
    var ws' := [w] + ws;
    assert ws'[1..] == ws;
    assert forall j :: 0 < j < |ws'| ==> ws'[j] == ws[j - 1];
  }

  /** A new watcher appears where there was none, and nothing else changes. */
  lemma GetWatcherLaw(s: seq<Observed>, u: Uri, server: int, v: Uri, other: int)
    requires Inv(s)
    ensures var s' := GetWatcher(s, u, server);
            && Inv(s')
            && Lookup(s', v, other) == if SameUri(u, v) && server == other && Lookup(s, u, server).None?
                                       then Some(NewWatcher(server)) else Lookup(s, v, other)
  {
    var s', i := GetWatcher(s, u, server), EntryOf(s, u);
    if i == |s| {
      AddedEntry(s, u, server, v);
      hide Inv, EntryOf;
      assert s' == [Observed(u, [NewWatcher(server)])] + s;
      assert WatcherOf([NewWatcher(server)], other) == if server == other then 0 else 1;
      if SameUri(u, v) {
        assert EntryOf(s, v) == |s| by { SameUriSameEntry(s, u, v); }
      }
    } else {
      assert GoodEntry(s[i]);
      var ws := s[i].watchers;
      if WatcherOf(ws, server) == |ws| {
        var w := NewWatcher(server);
        AddedWatcher(ws, w, other);
        ReplacedEntry(s, i, [w] + ws, v);
        EntryIff(s, u, v);
        hide Inv, EntryOf, WatcherOf, SameUri;
      }
    }
  }

  /** Two URIs of which one is observed have the same entry exactly when they are the same. */
  lemma EntryIff(s: seq<Observed>, u: Uri, v: Uri)
    requires EntryOf(s, u) < |s|
    ensures EntryOf(s, u) == EntryOf(s, v) <==> SameUri(u, v)
  {
    if SameUri(u, v) {
      SameUriSameEntry(s, u, v);
    } else if EntryOf(s, u) == EntryOf(s, v) {
      var e := s[EntryOf(s, u)].uri;
      SameUriIsEquivalence(e, u, e);
      SameUriIsEquivalence(u, e, v);
    }
  }

  lemma SameUriSameEntry(s: seq<Observed>, u: Uri, v: Uri)
    requires SameUri(u, v)
    ensures EntryOf(s, u) == EntryOf(s, v)
  {
    var k, l := EntryOf(s, u), EntryOf(s, v);
    if k < l {
      SameUriIsEquivalence(s[k].uri, u, v);
      assert false;
    } else if l < k {
      SameUriIsEquivalence(u, v, s[l].uri);
      SameUriIsEquivalence(s[l].uri, v, u);
      assert false;
    }
  }

  // ----- updating a watcher

  lemma ReplacedWatcher(ws: seq<Watcher>, j: nat, w: Watcher, server: int)
    requires DistinctServers(ws) && j < |ws| && ws[j].server == w.server
    ensures DistinctServers(ws[j := w]) && WatcherOf(ws[j := w], server) == WatcherOf(ws, server)
  {
    SameServers(ws, ws[j := w], server);
  }

  lemma SetWatcherLaw(s: seq<Observed>, u: Uri, w: Watcher, v: Uri, other: int)
    requires Inv(s) && Lookup(s, u, w.server).Some?
    ensures var s' := SetWatcher(s, u, w);
            && Inv(s')
            && Lookup(s', v, other) == if SameUri(u, v) && w.server == other then Some(w) else Lookup(s, v, other)
  {
    var i := EntryOf(s, u);
    assert GoodEntry(s[i]);
    var ws := s[i].watchers;
    var j := WatcherOf(ws, w.server);
    ReplacedWatcher(ws, j, w, other);
    ReplacedEntry(s, i, ws[j := w], v);
    EntryIff(s, u, v);
    hide Inv, EntryOf, SameUri;
  }

  /** A request to observe that is accepted makes this watcher active and changes no other; a refused one changes none. */
  lemma StartLaw(s: seq<Observed>, u: Uri, server: int, r: Request, v: Uri, other: int)
    requires Inv(s)
    ensures var (s', code) := StartObserving(s, u, server, r);
            && Inv(s')
            && (code == BadRequest ==> s' == s)
            && (code != BadRequest ==>
                  var was := Lookup(s, u, server);
                  var w := if was.Some? then was.value else NewWatcher(server);
                  Lookup(s', v, other) == if SameUri(u, v) && server == other then Some(Activated(w, r, u.hasResource))
                                          else Lookup(s, v, other))
  {
    if u.hasInstance || !u.hasResource {
      var s1 := GetWatcher(s, u, server);
      GetWatcherFinds(s, u, server);
      GetWatcherLaw(s, u, server, v, other);
      GetWatcherLaw(s, u, server, u, server);
      SameUriIsEquivalence(u, u, u);
      hide Inv, Lookup, GetWatcher, SetWatcher, SameUri;
      SetWatcherLaw(s1, u, Activated(Lookup(s1, u, server).value, r, u.hasResource), v, other);
    }
  }

  /** Writing attributes changes only this watcher, and of it only the attributes; a watcher that did not exist is created,
      not active, even when the attributes are then refused. */
  lemma SetParametersLaw(s: seq<Observed>, u: Uri, server: int, readable: Code, attr: Attributes, toClear: set<Flag>,
                         v: Uri, other: int)
    requires Inv(s)
    ensures var (s', code) := SetParameters(s, u, server, readable, attr, toClear);
            var was := Lookup(s, u, server);
            var w := if was.Some? then was.value else NewWatcher(server);
            var reached := (u.hasInstance || !u.hasResource) && readable == Content;
            && Inv(s')
            && (!reached ==> s' == s)
            && (reached ==> code == if ThresholdsClash(w.parameters, attr, toClear) then BadRequest else Changed)
            && var w' := if code == BadRequest then w else w.(parameters := Combined(w.parameters, attr, toClear));
               var expected := if SameUri(u, v) && server == other then Some(w') else Lookup(s, v, other);
               reached ==> Lookup(s', v, other) == expected
  {
    if (u.hasInstance || !u.hasResource) && readable == Content {
      var s1 := GetWatcher(s, u, server);
      GetWatcherFinds(s, u, server);
      GetWatcherLaw(s, u, server, v, other);
      GetWatcherLaw(s, u, server, u, server);
      SameUriIsEquivalence(u, u, u);
      if SameUri(u, v) {
        SameUriSameEntry(s, u, v);
        assert Lookup(s, u, server) == Lookup(s, v, server);
      }
      hide Inv, Lookup, GetWatcher, SetWatcher, SameUri, ThresholdsClash, Combined;
      var w := Lookup(s1, u, server).value;
      SetWatcherLaw(s1, u, w.(parameters := Combined(w.parameters, attr, toClear)), v, other);
    }
  }

  /** Which flags are in force after attributes were written: all the new ones exactly if there were none before or they
      were all in force already and are not cleared by the same request. */
  lemma NewFlagsInForceIff(was: Option<Attributes>, attr: Attributes, toClear: set<Flag>)
    requires attr.toSet != {}
    ensures var now := Combined(was, attr, toClear);
            && now.Some?
            && (attr.toSet <= now.value.toSet <==> was.None? || attr.toSet <= was.value.toSet - toClear)
  {}

  /** One write of a maximum period to attributes without one: the value is stored, and the flag is not set. */
  lemma AddedMaxPeriodIsIgnored(was: Attributes, attr: Attributes)
    requires MaxPeriod !in was.toSet && attr.toSet == {MaxPeriod}
    ensures var now := Combined(Some(was), attr, {});
            now.Some? && now.value.maxPeriod == attr.maxPeriod && MaxPeriod !in now.value.toSet
  {
    assert was.toSet - {} == was.toSet;
  }

  // ----- removing a watcher

  lemma RemovedWatcher(ws: seq<Watcher>, j: nat, server: int)
    requires DistinctServers(ws) && j < |ws|
    ensures var ws' := ws[..j] + ws[j + 1..]; var k := WatcherOf(ws', server);
            && DistinctServers(ws')
            && (ws[j].server == server ==> k == |ws'|)
            && (ws[j].server != server ==>
                  if WatcherOf(ws, server) == |ws| then k == |ws'| else k < |ws'| && ws'[k] == ws[WatcherOf(ws, server)])
  {
    var ws' := ws[..j] + ws[j + 1..];
    assert forall k :: 0 <= k < |ws'| ==> ws'[k] == ws[if k < j then k else k + 1];
    assert DistinctServers(ws');
    var l := WatcherOf(ws, server);
    if ws[j].server == server {
      assert forall k :: 0 <= k < |ws'| ==> ws'[k].server != server;
    } else if l < |ws| {
      var k := if l < j then l else l - 1;
      assert ws'[k] == ws[l];
      WatcherIs(ws', server, k);
    } else {
      assert forall k :: 0 <= k < |ws'| ==> ws'[k].server != server;
    }
  }

  lemma OnlyEntry(s: seq<Observed>, i: nat, k: nat, v: Uri)
    requires DistinctUris(s) && i < |s| && k < |s| && i != k && SameUri(s[i].uri, v)
    ensures !SameUri(s[k].uri, v)
  {
    SameUriIsEquivalence(s[k].uri, v, s[i].uri);
    SameUriIsEquivalence(s[i].uri, v, s[k].uri);
  }

  lemma RemovedKeeps(s: seq<Observed>, i: nat)
    requires Inv(s) && i < |s|
    ensures var s' := s[..i] + s[i + 1..];
            Inv(s') && forall k :: 0 <= k < |s'| ==> s'[k] == s[if k < i then k else k + 1]
  {
    var s' := s[..i] + s[i + 1..];
    assert forall k :: 0 <= k < |s'| ==> s'[k] == s[if k < i then k else k + 1];
    hide SameUri;
    assert DistinctUris(s');
  }

  lemma RemovedEntry(s: seq<Observed>, i: nat, v: Uri)
    requires Inv(s) && i < |s|
    ensures var s' := s[..i] + s[i + 1..]; var k := EntryOf(s', v);
            && Inv(s')
            && (SameUri(s[i].uri, v) ==> k == |s'|)
            && (!SameUri(s[i].uri, v) ==>
                  if EntryOf(s, v) == |s| then k == |s'| else k < |s'| && s'[k] == s[EntryOf(s, v)])
  {
    var s' := s[..i] + s[i + 1..];
    RemovedKeeps(s, i);
    var l := EntryOf(s, v);
    hide Inv, DistinctUris, SameUri;
    if SameUri(s[i].uri, v) {
      forall k | 0 <= k < |s'|
        ensures !SameUri(s'[k].uri, v)
      {
        OnlyEntry(s, i, if k < i then k else k + 1, v);
      }
    } else if l < |s| {
      var k := if l < i then l else l - 1;
      assert s'[k] == s[l];
      TheEntry(s', v, k);
    } else {
      assert forall k :: 0 <= k < |s'| ==> !SameUri(s'[k].uri, v);
    }
  }

  /** Removing a watcher removes exactly that one from the map. */
  lemma RemoveLaw(s: seq<Observed>, i: nat, j: nat, v: Uri, other: int)
    requires Inv(s) && i < |s| && j < |s[i].watchers|
    ensures var s' := RemoveAt(s, i, j);
            && Inv(s')
            && Lookup(s', v, other) == if SameUri(s[i].uri, v) && s[i].watchers[j].server == other then None
                                       else Lookup(s, v, other)
  {
    var ws := s[i].watchers;
    var ws' := ws[..j] + ws[j + 1..];
    if ws' == [] {
      RemoveLast(s, i, v, other);
    } else {
      RemoveOne(s, i, j, v, other);
    }
  }

  lemma RemoveLast(s: seq<Observed>, i: nat, v: Uri, other: int)
    requires Inv(s) && i < |s| && |s[i].watchers| == 1
    ensures var s' := s[..i] + s[i + 1..];
            && Inv(s')
            && Lookup(s', v, other) == if SameUri(s[i].uri, v) && s[i].watchers[0].server == other then None
                                       else Lookup(s, v, other)
  {
    var ws := s[i].watchers;
    RemovedEntry(s, i, v);
    assert WatcherOf(ws, other) == if ws[0].server == other then 0 else 1;
    if SameUri(s[i].uri, v) {
      TheEntry(s, v, i);
    }
    hide Inv, EntryOf, WatcherOf;
  }

  lemma RemoveOne(s: seq<Observed>, i: nat, j: nat, v: Uri, other: int)
    requires Inv(s) && i < |s| && j < |s[i].watchers| && |s[i].watchers| > 1
    ensures var ws := s[i].watchers; var s' := s[i := s[i].(watchers := ws[..j] + ws[j + 1..])];
            && Inv(s')
            && Lookup(s', v, other) == if SameUri(s[i].uri, v) && s[i].watchers[j].server == other then None
                                       else Lookup(s, v, other)
  {
    assert GoodEntry(s[i]);
    var ws := s[i].watchers;
    var ws' := ws[..j] + ws[j + 1..];
    RemovedWatcher(ws, j, other);
    ReplacedEntry(s, i, ws', v);
    var s' := s[i := s[i].(watchers := ws')];
    if SameUri(s[i].uri, v) {
      TheEntry(s, v, i);
      hide Inv, EntryOf, WatcherOf, SameUri;
    } else {
      hide Inv, WatcherOf, SameUri;
      assert EntryOf(s, v) != i;
      hide EntryOf;
    }
  }

  /** Cancelling removes the first watcher with the message id and the session, and no other. */
  lemma CancelLaw(s: seq<Observed>, mid: u16, from: int, session: int -> int, v: Uri, other: int)
    requires Inv(s)
    ensures var s' := Cancel(s, mid, from, session);
            var i := FirstHit(s, mid, from, session);
            && Inv(s')
            && (i == |s| ==> s' == s)
            && (i < |s| ==>
                  var w := s[i].watchers[MatchIn(s[i].watchers, mid, from, session)];
                  Lookup(s', v, other) == if SameUri(s[i].uri, v) && w.server == other then None else Lookup(s, v, other))
  {
    var i := FirstHit(s, mid, from, session);
    if i < |s| {
      RemoveLaw(s, i, MatchIn(s[i].watchers, mid, from, session), v, other);
    }
  }

  /** No watcher earlier in the lists has the same last message id and session. */
  predicate NoEarlierTwin(s: seq<Observed>, u: Uri, server: int, session: int -> int)
    requires Lookup(s, u, server).Some?
  {
    var mid, from := Lookup(s, u, server).value.lastMid, session(server);
    var i := EntryOf(s, u);
    && (forall k :: 0 <= k < i ==> !HasMatch(s[k], mid, from, session))
    && (forall l :: 0 <= l < WatcherOf(s[i].watchers, server) ==> !Matches(s[i].watchers[l], mid, from, session))
  }

  /** A server that stops observing loses exactly that observation if and only if no watcher earlier in the lists has the
      same last message id and session. Otherwise it keeps it. */
  lemma StopLaw(s: seq<Observed>, u: Uri, server: int, session: int -> int)
    requires Inv(s) && Lookup(s, u, server).Some?
    ensures var s' := StopObserving(s, u, server, session);
            && Inv(s')
            && (Lookup(s', u, server).None? <==> NoEarlierTwin(s, u, server, session))
            && (NoEarlierTwin(s, u, server, session) ==>
                  forall v, other :: Lookup(s', v, other) ==
                    if SameUri(u, v) && server == other then None else Lookup(s, v, other))
  {
    var w, from := Lookup(s, u, server).value, session(server);
    var i, e := FirstHit(s, w.lastMid, from, session), EntryOf(s, u);
    var ws := s[e].watchers;
    assert Matches(w, w.lastMid, from, session);
    EntryHasMatch(s[e], WatcherOf(ws, server), w.lastMid, from, session);
    assert i <= e;
    var j := MatchIn(s[i].watchers, w.lastMid, from, session);
    HitIff(s, u, server, session);
    forall v, other
      ensures Lookup(StopObserving(s, u, server, session), v, other) ==
              if SameUri(s[i].uri, v) && s[i].watchers[j].server == other then None else Lookup(s, v, other)
    {
      CancelLaw(s, w.lastMid, from, session, v, other);
    }
    CancelLaw(s, w.lastMid, from, session, u, server);
    hide Inv, FirstHit, MatchIn, Lookup, Cancel, HasMatch, NoEarlierTwin;
    if i == e {
      forall v
        ensures SameUri(s[i].uri, v) <==> SameUri(u, v)
      {
        SameUriIsEquivalence(s[i].uri, u, v);
        SameUriIsEquivalence(u, s[i].uri, v);
      }
    }
  }

  lemma EntryHasMatch(o: Observed, j: nat, mid: u16, from: int, session: int -> int)
    requires j < |o.watchers| && Matches(o.watchers[j], mid, from, session)
    ensures HasMatch(o, mid, from, session) && MatchIn(o.watchers, mid, from, session) <= j
  {}

  lemma HitIff(s: seq<Observed>, u: Uri, server: int, session: int -> int)
    requires Inv(s) && Lookup(s, u, server).Some?
    ensures var mid, from := Lookup(s, u, server).value.lastMid, session(server);
            var i, e := FirstHit(s, mid, from, session), EntryOf(s, u);
            && i <= e
            && (NoEarlierTwin(s, u, server, session) <==>
                  SameUri(s[i].uri, u) && s[i].watchers[MatchIn(s[i].watchers, mid, from, session)].server == server)
            && (SameUri(s[i].uri, u) ==> i == e)
  {
    var w, from := Lookup(s, u, server).value, session(server);
    var i, e := FirstHit(s, w.lastMid, from, session), EntryOf(s, u);
    var ws := s[e].watchers;
    EntryHasMatch(s[e], WatcherOf(ws, server), w.lastMid, from, session);
    var j := MatchIn(s[i].watchers, w.lastMid, from, session);
    if SameUri(s[i].uri, u) {
      assert i == e;
      if ws[j].server == server {
        assert GoodEntry(s[e]);
        WatcherIs(ws, server, j);
      }
    }
  }

  /** Two URIs whose attributes were written but that are not observed share the message id 0: stopping the older one
      removes the newer one. */
  lemma WrongWatcherIsRemoved(a: Uri, b: Uri, session: int -> int)
    requires !SameUri(a, b) && !SameUri(b, a)
    ensures var s := [Observed(b, [NewWatcher(1)]), Observed(a, [NewWatcher(1)])];
            var s' := StopObserving(s, a, 1, session);
            && Inv(s) && Lookup(s', a, 1).Some? && Lookup(s, b, 1).Some? && Lookup(s', b, 1).None?
  {
    var s := [Observed(b, [NewWatcher(1)]), Observed(a, [NewWatcher(1)])];
    assert GoodEntry(s[0]) && GoodEntry(s[1]);
    TheEntry(s, a, 1);
    TheEntry(s, b, 0);
    var w := NewWatcher(1);
    assert WatcherOf([w], 1) == 0;
    assert Matches(w, 0, session(1), session);
    EntryHasMatch(s[0], 0, 0, session(1), session);
    hide Inv, EntryOf, WatcherOf, MatchIn;
    CancelLaw(s, 0, session(1), session, a, 1);
    CancelLaw(s, 0, session(1), session, b, 1);
  }

  // ----- clearing

  lemma {:induction false} ClearedEntries(s: seq<Observed>, u: Uri, o: Observed)
    ensures o in Clear(s, u) <==> o in s && !Cleared(u, o.uri)
  {
    if s != [] {
      ClearedEntries(s[..|s| - 1], u, o);
      assert s == s[..|s| - 1] + [s[|s| - 1]];
    }
  }

  lemma {:induction false} ClearKeeps(s: seq<Observed>, u: Uri)
    requires Inv(s)
    ensures Inv(Clear(s, u))
  {
    if s != [] {
      var before, o := s[..|s| - 1], s[|s| - 1];
      assert Inv(before);
      ClearKeeps(before, u);
      var t := Clear(before, u);
      if !Cleared(u, o.uri) {
        forall i | 0 <= i < |t|
          ensures !SameUri(t[i].uri, o.uri)
        {
          ClearedEntries(before, u, t[i]);
        }
        assert GoodEntry(o);
      }
    }
  }

  /** Clearing removes exactly the entries whose stored ids match. */
  lemma ClearLaw(s: seq<Observed>, u: Uri, v: Uri, server: int)
    requires Inv(s)
    ensures var s' := Clear(s, u); var i := EntryOf(s, v);
            && Inv(s')
            && Lookup(s', v, server) == if i < |s| && Cleared(u, s[i].uri) then None else Lookup(s, v, server)
  {
    var s', i := Clear(s, u), EntryOf(s, v);
    ClearKeeps(s, u);
    var k := EntryOf(s', v);
    if k < |s'| {
      ClearedEntries(s, u, s'[k]);
      var l :| 0 <= l < |s| && s[l] == s'[k];
      TheEntry(s, v, l);
    }
    if i < |s| && !Cleared(u, s[i].uri) {
      ClearedEntries(s, u, s[i]);
      var l :| 0 <= l < |s'| && s'[l] == s[i];
      TheEntry(s', v, l);
    }
  }

  /** Clearing one instance drops the observation of the whole object exactly when the instance id is the one stored for
      "no instance", which the decoder leaves at 0. */
  lemma WholeObjectIsClearedIff(s: seq<Observed>, i: nat, u: Uri)
    requires Inv(s) && i < |s| && !s[i].uri.hasInstance && s[i].uri.instanceId == 0
    requires u.hasInstance && u.objectId == s[i].uri.objectId
    ensures s[i] in Clear(s, u) <==> u.instanceId != 0
  {
    ClearedEntries(s, u, s[i]);
  }

  // ----- a changed value

  lemma ValueChangedLaw(s: seq<Observed>, u: Uri, v: Uri, server: int)
    requires Inv(s)
    ensures var s' := ValueChanged(s, u); var i := EntryOf(s, v); var w := Lookup(s, v, server);
            && Inv(s')
            && Lookup(s', v, server) ==
               if w.Some? && w.value.active && Touches(u, s[i].uri) then Some(w.value.(update := true)) else w
  {
    var s', i := ValueChanged(s, u), EntryOf(s, v);
    SameEntries(s, s', v);
    forall k | 0 <= k < |s|
      ensures GoodEntry(s'[k])
    {
      assert GoodEntry(s[k]);
    }
    if i < |s| {
      SameServers(s[i].watchers, s'[i].watchers, server);
    }
  }
}
