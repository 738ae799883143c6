/** observe.c as it runs: the list of observed entries updated in place, proved against the functions of Observe and
    ObserveStep. */
module ObserveCode {
  import opened Bytes
  import opened Observe
  import opened ObserveStep
  import ObserveLaws

  /** The loop of prv_findWatcher. */
  method FindWatcher(ws: seq<Watcher>, server: int) returns (j: nat)
    ensures j == WatcherOf(ws, server)
  {
    j := 0;
    while j < |ws| && ws[j].server != server
      invariant 0 <= j <= |ws| && forall k :: 0 <= k < j ==> ws[k].server != server
    {
      j := j + 1;
    }
    var e := WatcherOf(ws, server);
    assert !(j < e) && !(e < j);
  }

  /** The watcher search of xiny_observe_cancel_lwm2m: the first watcher is looked at without a check. */
  method FindMatch(ws: seq<Watcher>, mid: u16, from: int, session: int -> int) returns (j: nat)
    requires ws != []
    ensures j == MatchIn(ws, mid, from, session)
  {
    ghost var e := MatchIn(ws, mid, from, session);
    if ws[0].lastMid == mid && session(ws[0].server) == from {
      return 0;
    }
    var parent := 0;
    while parent + 1 < |ws| && (ws[parent + 1].lastMid != mid || session(ws[parent + 1].server) != from)
      invariant 0 <= parent < |ws| && forall k :: 0 <= k <= parent ==> !Matches(ws[k], mid, from, session)
    {
      parent := parent + 1;
    }
    assert !(e <= parent && e < |ws|);
    return parent + 1;
  }

  /** The threshold checks, in the order of the source. */
  method CheckThresholds(p: Attributes, last: real, value: Option<real>) returns (notify: bool)
    ensures notify == Crossed(p, last, value)
  {
    notify := false;
    if LessThan in p.toSet {
      if value.Some? && ((value.value < p.lessThan && last > p.lessThan) || (value.value > p.lessThan && last < p.lessThan)) {
        notify := true;
      }
    }
    if GreaterThan in p.toSet {
      if value.Some?
        && ((value.value < p.greaterThan && last > p.greaterThan) || (value.value > p.greaterThan && last < p.greaterThan)) {
        notify := true;
      }
    }
    if Step in p.toSet {
      if value.Some? {
        var diff := value.value - last;
        if (diff < 0.0 && 0.0 - diff >= p.step) || (diff >= 0.0 && diff >= p.step) {
          notify := true;
        }
      }
    }
  }

  /** The decision of the step for one active watcher, and the wait for its minimum period. */
  method DecideNotify(w: Watcher, now: int, value: Option<real>, timeout: int) returns (notify: bool, t: int)
    ensures notify == Decide(w, now, value) && t == AfterMin(w, now, timeout)
  {
    hide Crossed;
    notify, t := false, timeout;
    if w.update {
      if w.parameters.None? || w.parameters.value.toSet == {} {
        notify := true;
      }
      if !notify && w.parameters.Some? && w.parameters.value.toSet * NUMERIC != {} {
        notify := CheckThresholds(w.parameters.value, w.lastValue, value);
      } else if !notify {
        NoNumericFlag(w.parameters.value, w.lastValue, value);
      }
      if w.parameters.Some? && MinPeriod in w.parameters.value.toSet {
        if w.lastTime + w.parameters.value.minPeriod > now {
          var interval := w.lastTime + w.parameters.value.minPeriod - now;
          if t > interval {
            t := interval;
          }
          notify := false;
        } else {
          notify := true;
        }
      }
    }
    if !notify && w.parameters.Some? && MaxPeriod in w.parameters.value.toSet {
      if w.lastTime + w.parameters.value.maxPeriod <= now {
        notify := true;
      }
    }
  }

  lemma NoNumericFlag(p: Attributes, last: real, value: Option<real>)
    requires p.toSet * NUMERIC == {}
    ensures !Crossed(p, last, value)
  {
    assert forall f :: f in p.toSet * NUMERIC <==> f in p.toSet && f in NUMERIC;
  }

  lemma CancelKeeps(s: seq<Observed>, mid: u16, from: int, session: int -> int)
    requires Inv(s)
    ensures Inv(Cancel(s, mid, from, session))
  {
    hide Inv, Cancel, Lookup;
    ObserveLaws.CancelLaw(s, mid, from, session, Uri(0, 0, false, 0, false, 0), 0);
  }

  /** Clearing from the front. */
  lemma {:induction false} ClearHead(s: seq<Observed>, u: Uri)
    requires s != []
    ensures Clear(s, u) == (if Cleared(u, s[0].uri) then [] else [s[0]]) + Clear(s[1..], u)
    decreases |s|
  {
    if |s| == 1 {
      assert s[..0] == [] && s[1..] == [];
    } else {
      var before := s[..|s| - 1];
      ClearHead(before, u);
      assert before[1..] == s[1..][..|s| - 2];
    }
  }

  lemma DropOrPass<T>(list: seq<T>, done: seq<T>, rest: seq<T>, more: seq<T>)
    requires list == done + rest && rest != []
    ensures var i := |done|;
            && list[i] == rest[0] && list[..i] + list[i + 1..] == done + rest[1..]
            && list == (done + [rest[0]]) + rest[1..]
            && done + ([rest[0]] + more) == (done + [rest[0]]) + more && [] + more == more
  {
    assert rest == [rest[0]] + rest[1..];
  }

  /** The next entry is dropped from the list, or passed. */
  lemma ClearNext(list: seq<Observed>, done: seq<Observed>, rest: seq<Observed>, u: Uri)
    requires list == done + rest && rest != []
    ensures var i := |done|; var e := list[i].uri;
            var gone := e.objectId == u.objectId && (!u.hasInstance || e.instanceId == u.instanceId);
            && list[i] == rest[0]
            && (gone ==> list[..i] + list[i + 1..] == done + rest[1..] && Clear(rest, u) == Clear(rest[1..], u))
            && (!gone ==> list == (done + [rest[0]]) + rest[1..]
                          && done + Clear(rest, u) == (done + [rest[0]]) + Clear(rest[1..], u))
  {
    ClearHead(rest, u);
    hide Clear;
    DropOrPass(list, done, rest, Clear(rest[1..], u));
    assert Clear(rest, u) == if Cleared(u, rest[0].uri) then [] + Clear(rest[1..], u) else [rest[0]] + Clear(rest[1..], u);
  }

  class Observer {
    var observed: seq<Observed>
    var nextMid: u16

    constructor ()
      ensures observed == [] && Inv(observed)
    {
      observed, nextMid := [], 0;
    }

    /** prv_findObserved. */
    method FindObserved(u: Uri) returns (i: nat)
      ensures i == EntryOf(observed, u)
    {
      i := 0;
      while i < |observed|
        && (observed[i].uri.objectId != u.objectId
            || observed[i].uri.kind != u.kind
            || observed[i].uri.hasInstance != u.hasInstance
            || observed[i].uri.hasResource != u.hasResource
            || (u.hasInstance && observed[i].uri.instanceId != u.instanceId)
            || (u.hasResource && observed[i].uri.resourceId != u.resourceId))
        invariant 0 <= i <= |observed| && forall k :: 0 <= k < i ==> !SameUri(observed[k].uri, u)
      {
        i := i + 1;
      }
      ghost var e := EntryOf(observed, u);
      assert !(i < e) && !(e < i);
    }

    /** prv_getWatcher: the places of the entry and of the watcher. */
    method GetWatcher(u: Uri, server: int) returns (i: nat, j: nat)
      modifies this`observed
      ensures observed == Observe.GetWatcher(old(observed), u, server)
      ensures i == EntryOf(observed, u) < |observed| && j == WatcherOf(observed[i].watchers, server) < |observed[i].watchers|
    {
      i := FindObserved(u);
      ghost var added := i == |observed|;
      if i == |observed| {
        observed := [Observed(u, [])] + observed;
        i := 0;
      }
      j := FindWatcher(observed[i].watchers, server);
      if j == |observed[i].watchers| {
        observed := observed[i := observed[i].(watchers := [NewWatcher(server)] + observed[i].watchers)];
        j := 0;
      }
      EntryIs(observed, u, i);
      assert WatcherOf(observed[i].watchers, server) == j;
      if added {
        assert [NewWatcher(server)] + [] == [NewWatcher(server)];
        assert observed == [Observed(u, [NewWatcher(server)])] + old(observed);
      }
    }

    method StoreWatcher(i: nat, j: nat, w: Watcher)
      requires i < |observed| && j < |observed[i].watchers|
      modifies this`observed
      ensures observed == old(observed)[i := old(observed)[i].(watchers := old(observed)[i].watchers[j := w])]
    {
      observed := observed[i := observed[i].(watchers := observed[i].watchers[j := w])];
    }

    /** xiny_observe_handleRequest_lwm2m with observe option 0. */
    method Start(u: Uri, server: int, r: Request) returns (code: Code)
      modifies this`observed
      ensures (observed, code) == StartObserving(old(observed), u, server, r)
    {
      if !u.hasInstance && u.hasResource {
        return BadRequest;
      }
      if r.token == [] {
        return BadRequest;
      }
      var i, j := GetWatcher(u, server);
      hide Observe.GetWatcher, EntryOf, WatcherOf;
      var w := observed[i].watchers[j];
      w := w.(token := r.token, active := true, lastTime := r.now, lastMid := r.mid, format := r.format);
      if u.hasResource {
        match r.value
        case Number(x) => w := w.(lastValue := x);
        case NotNumeric =>
        case Undecodable =>
          StoreWatcher(i, j, w);
          return InternalError;
      }
      w := w.(counter := (w.counter + 1) % 0x1_0000_0000);
      StoreWatcher(i, j, w);
      return Content;
    }

    /** xiny_observe_handleRequest_lwm2m with observe option 1. */
    method Stop(u: Uri, server: int, session: int -> int)
      requires Inv(observed)
      modifies this`observed
      ensures Inv(observed)
      ensures observed == StopObserving(old(observed), u, server, session)
    {
      var i := FindObserved(u);
      if i < |observed| {
        var j := FindWatcher(observed[i].watchers, server);
        if j < |observed[i].watchers| {
          CancelBy(observed[i].watchers[j].lastMid, session(server), session);
        }
      }
    }

    /** Unlinks a watcher, and its entry with the last one. */
    method Unlink(i: nat, j: nat)
      requires i < |observed| && j < |observed[i].watchers|
      modifies this`observed
      ensures observed == RemoveAt(old(observed), i, j)
    {
      var rest := observed[i].watchers[..j] + observed[i].watchers[j + 1..];
      if rest == [] {
        observed := observed[..i] + observed[i + 1..];
      } else {
        observed := observed[i := observed[i].(watchers := rest)];
      }
    }

    /** xiny_observe_cancel_lwm2m. */
    method CancelBy(mid: u16, from: int, session: int -> int)
      requires Inv(observed)
      modifies this`observed
      ensures Inv(observed)
      ensures observed == Cancel(old(observed), mid, from, session)
    {
      CancelKeeps(observed, mid, from, session);
      ghost var hit := FirstHit(observed, mid, from, session);
      var i := 0;
      while i < |observed|
        invariant 0 <= i <= hit <= |observed| && observed == old(observed)
      {
        assert GoodEntry(observed[i]);
        hide Inv, RemoveAt, FirstHit, MatchIn;
        var j := FindMatch(observed[i].watchers, mid, from, session);
        assert HasMatch(observed[i], mid, from, session) <==> j < |observed[i].watchers|;
        if j < |observed[i].watchers| {
          Unlink(i, j);
          return;
        }
        i := i + 1;
      }
    }

    /** xiny_observe_clear. */
    method ClearUri(u: Uri)
      requires Inv(observed)
      modifies this`observed
      ensures Inv(observed)
      ensures observed == Clear(old(observed), u)
    {
      ghost var s := observed;
      ObserveLaws.ClearKeeps(s, u);
      assert Clear([], u) == [];
      hide *;
      var i := 0;
      ghost var done, rest := [], observed;
      while i < |observed|
        invariant observed == done + rest && |done| == i && done + Clear(rest, u) == Clear(s, u)
        decreases |rest|
      {
        ClearNext(observed, done, rest, u);
        var e := observed[i].uri;
        if e.objectId == u.objectId && (!u.hasInstance || e.instanceId == u.instanceId) {
          observed := observed[..i] + observed[i + 1..];
        } else {
          i := i + 1;
          done := done + [rest[0]];
        }
        rest := rest[1..];
      }
      assert rest == [];
    }

    /** xiny_observe_setParameters_lwm2m. */
    method WriteAttributes(u: Uri, server: int, readable: Code, attr: Attributes, toClear: set<Flag>) returns (code: Code)
      modifies this`observed
      ensures (observed, code) == SetParameters(old(observed), u, server, readable, attr, toClear)
    {
      if !u.hasInstance && u.hasResource {
        return BadRequest;
      }
      if readable != Content {
        return readable;
      }
      var i, j := GetWatcher(u, server);
      hide Observe.GetWatcher, EntryOf, WatcherOf;
      var w := observed[i].watchers[j];
      var clash := Clash(w.parameters, attr, toClear);
      hide ThresholdsClash;
      if clash {
        return BadRequest;
      }
      var combined := Combine(w.parameters, attr, toClear);
      hide Combined;
      StoreWatcher(i, j, w.(parameters := combined));
      return Changed;
    }

    /** xiny_lwm2m_resource_value_changed. */
    method MarkChanged(u: Uri)
      modifies this`observed
      ensures observed == ValueChanged(old(observed), u)
    {
      ghost var s := observed;
      var i := 0;
      while i < |observed|
        invariant 0 <= i <= |observed| == |s|
        invariant forall k :: 0 <= k < i ==> observed[k] == ValueChanged(s, u)[k]
        invariant forall k :: i <= k < |s| ==> observed[k] == s[k]
      {
        var e := observed[i].uri;
        if e.objectId == u.objectId {
          if !u.hasInstance || !e.hasInstance || u.instanceId == e.instanceId {
            if !u.hasResource || !e.hasResource || u.resourceId == e.resourceId {
              var ws := TagAll(observed[i].watchers);
              observed := observed[i := observed[i].(watchers := ws)];
            }
          }
        }
        i := i + 1;
      }
    }

    /** xiny_observe_step. */
    method StepAll(now: int, env: Env, timeout: int) returns (t: int)
      modifies this
      ensures var p := PassOver(old(observed), now, old(nextMid), timeout, env);
              observed == p.done && nextMid == p.mid && t == p.timeout
    {
      ghost var s := observed;
      ghost var mid := nextMid;
      t := timeout;
      var i := 0;
      PassBounds(s, now, mid, timeout, env);
      hide PassOver, Inv;
      while i < |observed|
        invariant 0 <= i <= |observed| == |s|
        invariant var p := PassOver(s[..i], now, mid, timeout, env);
                  observed == p.done + s[i..] && nextMid == p.mid && t == p.timeout
      {
        PassNext(s, i, now, mid, timeout, env);
        Proceed(observed, PassOver(s[..i], now, mid, timeout, env).done, s, i);
        var u := observed[i].uri;
        if !(u.hasResource && !env.read(u).ok) {
          var value := None;
          if u.hasResource {
            value := env.read(u).value;
          }
          hide WalkOver;
          var ws;
          ws, nextMid, t := StepWatchers(u, observed[i].watchers, now, nextMid, value, env, t);
          observed := observed[i := observed[i].(watchers := ws)];
        }
        i := i + 1;
      }
    }
  }

  lemma PassBounds(s: seq<Observed>, now: int, mid: u16, timeout: int, env: Env)
    ensures var p := PassOver(s[..0], now, mid, timeout, env); p == Pass([], {}, mid, timeout) && p.done + s[0..] == s
    ensures var p := PassOver(s[..|s|], now, mid, timeout, env);
            p == PassOver(s, now, mid, timeout, env) && p.done + s[|s|..] == p.done
  {
    assert s[..0] == [] && s[..|s|] == s;
  }

  /** A list of which the first part is done: the next element, and the list when it is done too. */
  lemma Proceed<T>(list: seq<T>, done: seq<T>, all: seq<T>, i: nat)
    requires i < |all| && |done| == i && list == done + all[i..]
    ensures |list| == |all| && list[i] == all[i]
    ensures forall x :: list[i := x] == (done + [x]) + all[i + 1..]
    ensures list[..i] + list[i + 1..] == done + all[i + 1..]
    ensures list == (done + [all[i]]) + all[i + 1..]
  {
    assert all[i..] == [all[i]] + all[i + 1..];
  }

  lemma PassNext(s: seq<Observed>, i: nat, now: int, mid: u16, timeout: int, env: Env)
    requires i < |s|
    ensures var p := PassOver(s[..i], now, mid, timeout, env);
            var k := StepEntry(s[i], now, p.mid, p.timeout, env);
            PassOver(s[..i + 1], now, mid, timeout, env) ==
            Pass(p.done + [s[i].(watchers := k.done)], p.sent + k.sent, k.mid, k.timeout)
  {
    assert s[..i + 1][..i] == s[..i];
    hide StepEntry;
  }

  /** One turn of the watcher loop of xiny_observe_step; `stop` is its break. */
  method StepWatcher(u: Uri, watcher: Watcher, now: int, nextMid: u16, value: Option<real>, env: Env, timeout: int,
                     printed: bool, ghost k: Walk)
    returns (w: Watcher, mid: u16, t: int, buffered: bool, stop: bool)
    requires !k.stopped && k.mid == nextMid && k.timeout == timeout && k.buffered == printed
    ensures var k' := WalkOne(k, u, watcher, now, value, env.prints(u, watcher.format));
            k'.done == k.done + [w] && k'.mid == mid && k'.timeout == t && k'.buffered == buffered && k'.stopped == stop
  {
    hide Decide, AfterMin, AfterMax, Notified;
    w, mid, t, buffered, stop := watcher, nextMid, timeout, printed, false;
    if w.active {
      var notify;
      notify, t := DecideNotify(w, now, value, t);
      if notify {
        if !buffered {
          if !env.prints(u, w.format) {
            stop := true;
            return;
          }
          buffered := true;
        }
        w := Renewed(w, now, mid, value);
        mid := (mid + 1) % 0x1_0000;
      }
      t := WaitForMax(w, now, t);
    }
  }

  /** The watcher loop of xiny_observe_step. */
  method StepWatchers(u: Uri, watchers: seq<Watcher>, now: int, nextMid: u16, value: Option<real>, env: Env, timeout: int)
    returns (ws: seq<Watcher>, mid: u16, t: int)
    ensures var k := WalkOver(u, watchers, now, nextMid, timeout, value, env); ws == k.done && mid == k.mid && t == k.timeout
  {
    ws, mid, t := watchers, nextMid, timeout;
    var buffered, j := false, 0;
    WalkBounds(u, watchers, now, nextMid, timeout, value, env);
    hide *;
    while j < |ws|
      invariant 0 <= j <= |watchers| == |ws|
      invariant var k := WalkOver(u, watchers[..j], now, nextMid, timeout, value, env);
                ws == k.done + watchers[j..] && !k.stopped && k.buffered == buffered && k.mid == mid && k.timeout == t
    {
      ghost var k := WalkOver(u, watchers[..j], now, nextMid, timeout, value, env);
      Proceed(ws, k.done, watchers, j);
      WalkNext(u, watchers, j, now, nextMid, timeout, value, env);
      var w, stop;
      w, mid, t, buffered, stop := StepWatcher(u, ws[j], now, mid, value, env, t, buffered, k);
      ws := ws[j := w];
      if stop {
        WalkStops(u, watchers, j + 1, now, nextMid, timeout, value, env);
        return;
      }
      j := j + 1;
    }
  }

  lemma WalkBounds(u: Uri, ws: seq<Watcher>, now: int, mid: u16, timeout: int, value: Option<real>, env: Env)
    ensures var k := WalkOver(u, ws[..0], now, mid, timeout, value, env);
            k == Walk([], {}, mid, timeout, false, false) && k.done + ws[0..] == ws
    ensures var k := WalkOver(u, ws[..|ws|], now, mid, timeout, value, env);
            k == WalkOver(u, ws, now, mid, timeout, value, env) && k.done + ws[|ws|..] == k.done
  {
    assert ws[..0] == [] && ws[..|ws|] == ws;
  }

  lemma WalkNext(u: Uri, ws: seq<Watcher>, j: nat, now: int, mid: u16, timeout: int, value: Option<real>, env: Env)
    requires j < |ws|
    ensures WalkOver(u, ws[..j + 1], now, mid, timeout, value, env) ==
            WalkOne(WalkOver(u, ws[..j], now, mid, timeout, value, env), u, ws[j], now, value, env.prints(u, ws[j].format))
  {
    assert ws[..j + 1][..j] == ws[..j];
  }

  /** After a failure to print, the other watchers stay as they are. */
  lemma {:induction false} WalkStops(u: Uri, ws: seq<Watcher>, j: nat, now: int, mid: u16, timeout: int,
                                     value: Option<real>, env: Env)
    requires j <= |ws| && WalkOver(u, ws[..j], now, mid, timeout, value, env).stopped
    ensures var k := WalkOver(u, ws[..j], now, mid, timeout, value, env);
            WalkOver(u, ws, now, mid, timeout, value, env) == k.(done := k.done + ws[j..])
    decreases |ws| - j
  {
    if j == |ws| {
      assert ws[..j] == ws;
    } else {
      WalkNext(u, ws, j, now, mid, timeout, value, env);
      WalkStops(u, ws, j + 1, now, mid, timeout, value, env);
      assert ws[j..] == [ws[j]] + ws[j + 1..];
    }
  }

  /** What is written to a watcher when it is notified. */
  method Renewed(w: Watcher, now: int, mid: u16, value: Option<real>) returns (w': Watcher)
    ensures w' == Notified(w, now, mid, value)
  {
    w' := w.(lastTime := now);
    w' := w'.(lastMid := mid);
    w' := w'.(counter := (w'.counter + 1) % 0x1_0000_0000);
    w' := w'.(update := false);
    if value.Some? {
      w' := w'.(lastValue := value.value);
    }
  }

  method WaitForMax(w: Watcher, now: int, timeout: int) returns (t: int)
    ensures t == AfterMax(w, now, timeout)
  {
    t := timeout;
    if w.parameters.Some? && MaxPeriod in w.parameters.value.toSet {
      var interval := w.lastTime + w.parameters.value.maxPeriod - now;
      if t > interval {
        t := interval;
      }
    }
  }

  /** The check of the thresholds against the step. */
  method Clash(was: Option<Attributes>, attr: Attributes, toClear: set<Flag>) returns (clash: bool)
    ensures clash == ThresholdsClash(was, attr, toClear)
  {
    var flags := (attr.toSet + (if was.Some? then was.value.toSet else {})) - toClear;
    if flags * NUMERIC == NUMERIC {
      var gt, lt, stp := attr.greaterThan, attr.lessThan, attr.step;
      assert NUMERIC <= flags;
      if GreaterThan !in attr.toSet {
        gt := was.value.greaterThan;
      }
      if LessThan !in attr.toSet {
        lt := was.value.lessThan;
      }
      if Step !in attr.toSet {
        stp := was.value.step;
      }
      return lt + 2.0 * stp >= gt;
    }
    return false;
  }

  method Combine(was: Option<Attributes>, attr: Attributes, toClear: set<Flag>) returns (a: Option<Attributes>)
    ensures a == Combined(was, attr, toClear)
  {
    a := was;
    if was.None? {
      if attr.toSet != {} {
        a := Some(attr);
      }
    } else {
      var p := was.value.(toSet := was.value.toSet - toClear);
      if MinPeriod in attr.toSet {
        p := p.(minPeriod := attr.minPeriod);
      }
      if MaxPeriod in attr.toSet {
        p := p.(maxPeriod := attr.maxPeriod);
      }
      if GreaterThan in attr.toSet {
        p := p.(greaterThan := attr.greaterThan);
      }
      if LessThan in attr.toSet {
        p := p.(lessThan := attr.lessThan);
      }
      if Step in attr.toSet {
        p := p.(step := attr.step);
      }
      a := Some(p);
    }
  }

  /** The watcher loop of xiny_lwm2m_resource_value_changed. */
  method TagAll(ws: seq<Watcher>) returns (ws': seq<Watcher>)
    ensures ws' == Tagged(ws)
  {
    ws' := ws;
    var j := 0;
    while j < |ws'|
      invariant 0 <= j <= |ws'| == |ws|
      invariant forall k :: 0 <= k < j ==> ws'[k] == Tagged(ws)[k]
      invariant forall k :: j <= k < |ws| ==> ws'[k] == ws[k]
    {
      if ws'[j].active {
        ws' := ws'[j := ws'[j].(update := true)];
      }
      j := j + 1;
    }
  }
}
