/** The client's observations: which server watches which URI, with which attributes. */
module Observe {
  import opened Bytes

  /** `kind` stands for the flag bits other than those of the instance and the resource. The ids of parts that are not set
      are stored too. */
  datatype Uri = Uri(kind: int, objectId: u16, hasInstance: bool, instanceId: u16, hasResource: bool, resourceId: u16)

  datatype Flag = MinPeriod | MaxPeriod | GreaterThan | LessThan | Step

  datatype Attributes = Attributes(toSet: set<Flag>, minPeriod: u32, maxPeriod: u32,
                                   greaterThan: real, lessThan: real, step: real)

  datatype Watcher = Watcher(server: int, active: bool, update: bool, parameters: Option<Attributes>, format: int,
                             token: seq<byte>, lastTime: int, counter: u32, lastMid: u16, lastValue: real)

  datatype Observed = Observed(uri: Uri, watchers: seq<Watcher>)

  datatype Code = Content | Changed | BadRequest | InternalError | Other(code: int)

  function NewWatcher(server: int): (w: Watcher)
  {
    Watcher(server, false, false, None, 0, [], 0, 0, 0, 0.0)
  }

  /** The comparison of prv_findObserved. */
  predicate SameUri(a: Uri, b: Uri)
  {
    && a.objectId == b.objectId && a.kind == b.kind && a.hasInstance == b.hasInstance && a.hasResource == b.hasResource
    && (b.hasInstance ==> a.instanceId == b.instanceId)
    && (b.hasResource ==> a.resourceId == b.resourceId)
  }

  // ----- the invariant

  predicate DistinctServers(ws: seq<Watcher>)
  {
    forall i, j :: 0 <= i < j < |ws| ==> ws[i].server != ws[j].server
  }

  predicate DistinctUris(s: seq<Observed>)
  {
    forall i, j :: 0 <= i < j < |s| ==> !SameUri(s[i].uri, s[j].uri)
  }

  predicate GoodEntry(o: Observed)
  {
    o.watchers != [] && DistinctServers(o.watchers)
  }

  /** Every entry has a watcher, no two entries are for one URI, and no entry has two watchers for one server. */
  predicate Inv(s: seq<Observed>)
  {
    DistinctUris(s) && forall i :: 0 <= i < |s| ==> GoodEntry(s[i])
  }

  // ----- finding

  /** prv_findObserved: the first entry for a URI, or the length. */
  function EntryOf(s: seq<Observed>, u: Uri): (i: nat)
    ensures i <= |s| && (i < |s| ==> SameUri(s[i].uri, u))
    ensures forall k :: 0 <= k < i ==> !SameUri(s[k].uri, u)
  {
    if s == [] || SameUri(s[0].uri, u) then 0 else 1 + EntryOf(s[1..], u)
  }

  /** prv_findWatcher: the first watcher of a server, or the length. */
  function WatcherOf(ws: seq<Watcher>, server: int): (j: nat)
    ensures j <= |ws| && (j < |ws| ==> ws[j].server == server)
    ensures forall k :: 0 <= k < j ==> ws[k].server != server
  {
    if ws == [] || ws[0].server == server then 0 else 1 + WatcherOf(ws[1..], server)
  }

  /** The store as a map from URI and server to watcher. */
  function Lookup(s: seq<Observed>, u: Uri, server: int): (w: Option<Watcher>)
    ensures w.Some? ==> w.value.server == server
  {
    var i := EntryOf(s, u);
    if i == |s| then None
    else
      var j := WatcherOf(s[i].watchers, server);
      if j == |s[i].watchers| then None else Some(s[i].watchers[j])
  }

  // ----- operations

  /** prv_getWatcher: the list with a watcher for the URI and the server. */
  function GetWatcher(s: seq<Observed>, u: Uri, server: int): (s': seq<Observed>)
  {
    var i := EntryOf(s, u);
    if i == |s| then [Observed(u, [NewWatcher(server)])] + s
    else
      var ws := s[i].watchers;
      if WatcherOf(ws, server) == |ws| then s[i := s[i].(watchers := [NewWatcher(server)] + ws)] else s
  }

  function SetWatcher(s: seq<Observed>, u: Uri, w: Watcher): (s': seq<Observed>)
    requires Lookup(s, u, w.server).Some?
  {
    var i := EntryOf(s, u);
    s[i := s[i].(watchers := s[i].watchers[WatcherOf(s[i].watchers, w.server) := w])]
  }

  datatype Value = Number(value: real) | NotNumeric | Undecodable

  /** What an observe request brings: its token and format, the time, the message id of the response and the value read. */
  datatype Request = Request(token: seq<byte>, format: int, now: int, mid: u16, value: Value)

  function Activated(w: Watcher, r: Request, hasResource: bool): (w': Watcher)
  {
    var a := w.(token := r.token, active := true, lastTime := r.now, lastMid := r.mid, format := r.format);
    if hasResource && r.value.Undecodable? then a
    else a.(lastValue := if hasResource && r.value.Number? then r.value.value else w.lastValue,
            counter := (w.counter + 1) % 0x1_0000_0000)
  }

  /** xiny_observe_handleRequest_lwm2m, observe option 0. */
  function StartObserving(s: seq<Observed>, u: Uri, server: int, r: Request): (out: (seq<Observed>, Code))
  {
    if (!u.hasInstance && u.hasResource) || r.token == [] then (s, BadRequest)
    else
      GetWatcherFinds(s, u, server);
      var s1 := GetWatcher(s, u, server);
      (SetWatcher(s1, u, Activated(Lookup(s1, u, server).value, r, u.hasResource)),
       if u.hasResource && r.value.Undecodable? then InternalError else Content)
  }

  lemma GetWatcherFinds(s: seq<Observed>, u: Uri, server: int)
    ensures Lookup(GetWatcher(s, u, server), u, server).Some?
  {
    var i := EntryOf(s, u);
    if i < |s| {
      var s' := GetWatcher(s, u, server);
      EntryIs(s', u, i);
      assert s'[i].watchers == s[i].watchers || s'[i].watchers[0] == NewWatcher(server);
    }
  }

  lemma {:induction false} EntryIs(s: seq<Observed>, u: Uri, i: nat)
    requires i < |s| && SameUri(s[i].uri, u) && forall k :: 0 <= k < i ==> !SameUri(s[k].uri, u)
    ensures EntryOf(s, u) == i
  {
    var e := EntryOf(s, u);
    assert !(e < i) && !(i < e);
  }

  predicate Matches(w: Watcher, mid: u16, from: int, session: int -> int)
  {
    w.lastMid == mid && session(w.server) == from
  }

  /** The first watcher that matches, or the length. */
  function MatchIn(ws: seq<Watcher>, mid: u16, from: int, session: int -> int): (j: nat)
    ensures j <= |ws| && (j < |ws| ==> Matches(ws[j], mid, from, session))
    ensures forall k :: 0 <= k < j ==> !Matches(ws[k], mid, from, session)
  {
    if ws == [] || Matches(ws[0], mid, from, session) then 0 else 1 + MatchIn(ws[1..], mid, from, session)
  }

  predicate HasMatch(o: Observed, mid: u16, from: int, session: int -> int)
  {
    MatchIn(o.watchers, mid, from, session) < |o.watchers|
  }

  /** The first entry with a watcher that matches, or the length. */
  function FirstHit(s: seq<Observed>, mid: u16, from: int, session: int -> int): (i: nat)
    ensures i <= |s| && (i < |s| ==> HasMatch(s[i], mid, from, session))
    ensures forall k :: 0 <= k < i ==> !HasMatch(s[k], mid, from, session)
  {
    if s == [] || HasMatch(s[0], mid, from, session) then 0 else 1 + FirstHit(s[1..], mid, from, session)
  }

  /** Without watcher j of entry i, and without that entry if it was its last watcher. */
  function RemoveAt(s: seq<Observed>, i: nat, j: nat): (s': seq<Observed>)
    requires i < |s| && j < |s[i].watchers|
  {
    var ws := s[i].watchers[..j] + s[i].watchers[j + 1..];
    if ws == [] then s[..i] + s[i + 1..] else s[i := s[i].(watchers := ws)]
  }

  /** xiny_observe_cancel_lwm2m. */
  function Cancel(s: seq<Observed>, mid: u16, from: int, session: int -> int): (s': seq<Observed>)
  {
    var i := FirstHit(s, mid, from, session);
    if i == |s| then s else RemoveAt(s, i, MatchIn(s[i].watchers, mid, from, session))
  }

  /** xiny_observe_handleRequest_lwm2m, observe option 1. */
  function StopObserving(s: seq<Observed>, u: Uri, server: int, session: int -> int): (s': seq<Observed>)
  {
    var w := Lookup(s, u, server);
    if w.None? then s else Cancel(s, w.value.lastMid, session(server), session)
  }

  /** The comparison of xiny_observe_clear. It looks at stored ids even where they are not set, and not at resources. */
  predicate Cleared(u: Uri, entry: Uri)
  {
    entry.objectId == u.objectId && (!u.hasInstance || entry.instanceId == u.instanceId)
  }

  /** xiny_observe_clear. */
  function Clear(s: seq<Observed>, u: Uri): (s': seq<Observed>)
    ensures |s'| <= |s|
  {
    if s == [] then []
    else
      var before := Clear(s[..|s| - 1], u);
      if Cleared(u, s[|s| - 1].uri) then before else before + [s[|s| - 1]]
  }

  const NUMERIC := {GreaterThan, LessThan, Step}

  /** The attributes in force if the request is accepted, as far as the rule on thresholds goes. */
  predicate ThresholdsClash(was: Option<Attributes>, attr: Attributes, toClear: set<Flag>)
  {
    var inForce := (attr.toSet + (if was.Some? then was.value.toSet else {})) - toClear;
    if NUMERIC <= inForce then
      var gt := if GreaterThan in attr.toSet || was.None? then attr.greaterThan else was.value.greaterThan;
      var lt := if LessThan in attr.toSet || was.None? then attr.lessThan else was.value.lessThan;
      var stp := if Step in attr.toSet || was.None? then attr.step else was.value.step;
      lt + 2.0 * stp >= gt
    else false
  }

  /** How xiny_observe_setParameters_lwm2m combines old and new attributes: the flags of the new ones are not added. */
  function Combined(was: Option<Attributes>, attr: Attributes, toClear: set<Flag>): (a: Option<Attributes>)
  {
    if was.None? then (if attr.toSet != {} then Some(attr) else None)
    else
      var o := was.value;
      Some(Attributes(o.toSet - toClear,
                      if MinPeriod in attr.toSet then attr.minPeriod else o.minPeriod,
                      if MaxPeriod in attr.toSet then attr.maxPeriod else o.maxPeriod,
                      if GreaterThan in attr.toSet then attr.greaterThan else o.greaterThan,
                      if LessThan in attr.toSet then attr.lessThan else o.lessThan,
                      if Step in attr.toSet then attr.step else o.step))
  }

  /** xiny_observe_setParameters_lwm2m; `readable` is the answer of the access check. */
  function SetParameters(s: seq<Observed>, u: Uri, server: int, readable: Code, attr: Attributes, toClear: set<Flag>)
    : (out: (seq<Observed>, Code))
  {
    if !u.hasInstance && u.hasResource then (s, BadRequest)
    else if readable != Content then (s, readable)
    else
      GetWatcherFinds(s, u, server);
      var s1 := GetWatcher(s, u, server);
      var w := Lookup(s1, u, server).value;
      if ThresholdsClash(w.parameters, attr, toClear) then (s1, BadRequest)
      else (SetWatcher(s1, u, w.(parameters := Combined(w.parameters, attr, toClear))), Changed)
  }

  /** The comparison of xiny_lwm2m_resource_value_changed. */
  predicate Touches(u: Uri, entry: Uri)
  {
    && entry.objectId == u.objectId
    && (!u.hasInstance || !entry.hasInstance || u.instanceId == entry.instanceId)
    && (!u.hasResource || !entry.hasResource || u.resourceId == entry.resourceId)
  }

  function Tagged(ws: seq<Watcher>): (ws': seq<Watcher>)
    ensures |ws'| == |ws|
  {
    seq(|ws|, j requires 0 <= j < |ws| => if ws[j].active then ws[j].(update := true) else ws[j])
  }

  /** xiny_lwm2m_resource_value_changed. */
  function ValueChanged(s: seq<Observed>, u: Uri): (s': seq<Observed>)
    ensures |s'| == |s|
  {
    seq(|s|, i requires 0 <= i < |s| => if Touches(u, s[i].uri) then s[i].(watchers := Tagged(s[i].watchers)) else s[i])
  }

  // ----- the store as a map

  lemma SameUriIsEquivalence(a: Uri, b: Uri, c: Uri)
    ensures SameUri(a, a) && (SameUri(a, b) ==> SameUri(b, a)) && (SameUri(a, b) && SameUri(b, c) ==> SameUri(a, c))
  {}

  /** Of two watchers for one server, or two entries for one URI, there is at most one. */
  lemma WatcherIs(ws: seq<Watcher>, server: int, j: nat)
    requires DistinctServers(ws) && j < |ws| && ws[j].server == server
    ensures WatcherOf(ws, server) == j
  {
    var k := WatcherOf(ws, server);
    assert !(j < k) && !(k < j);
  }

  lemma TheEntry(s: seq<Observed>, u: Uri, i: nat)
    requires DistinctUris(s) && i < |s| && SameUri(s[i].uri, u)
    ensures EntryOf(s, u) == i
  {
    var k := EntryOf(s, u);
    assert !(i < k);
    if k < i {
      SameUriIsEquivalence(s[i].uri, u, s[k].uri);
      SameUriIsEquivalence(s[k].uri, u, s[i].uri);
      assert false;
    }
  }

  /** Same list of URIs: entries are found at the same places. */
  lemma {:induction false} SameEntries(s: seq<Observed>, t: seq<Observed>, u: Uri)
    requires |s| == |t| && forall i :: 0 <= i < |s| ==> s[i].uri == t[i].uri
    ensures EntryOf(s, u) == EntryOf(t, u)
  {
    var k, l := EntryOf(s, u), EntryOf(t, u);
    assert !(k < l) && !(l < k);
  }

  lemma SameServers(ws: seq<Watcher>, vs: seq<Watcher>, server: int)
    requires |ws| == |vs| && forall j :: 0 <= j < |ws| ==> ws[j].server == vs[j].server
    ensures WatcherOf(ws, server) == WatcherOf(vs, server)
  {
    var k, l := WatcherOf(ws, server), WatcherOf(vs, server);
    assert !(k < l) && !(l < k);
  }
}
