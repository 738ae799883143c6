/** What the parts of the observation model mean, without their own names: which URIs coincide and overlap, what an observe request
    and a notification leave, when a threshold is crossed, and that observing leads to notifications. */
module ObserveMeaning {
  import opened Bytes
  import opened Observe
  import opened ObserveLaws
  import opened ObserveStep
  import opened ObserveRuns

  // ----- URIs

  /** A resource of an instance of an object. */
  datatype Path = Path(objectId: u16, instanceId: u16, resourceId: u16)

  /** The paths that a URI names: parts that are not set leave all choices. */
  predicate Names(u: Uri, p: Path)
  {
    && p.objectId == u.objectId
    && (u.hasInstance ==> p.instanceId == u.instanceId)
    && (u.hasResource ==> p.resourceId == u.resourceId)
  }

  /** A changed value touches an entry exactly when some path is named by both. */
  lemma TouchesIff(u: Uri, entry: Uri)
    ensures Touches(u, entry) <==> exists p :: Names(u, p) && Names(entry, p)
  {
    if Touches(u, entry) {
      var p := Path(u.objectId, if u.hasInstance then u.instanceId else entry.instanceId,
                    if u.hasResource then u.resourceId else entry.resourceId);
      assert Names(u, p) && Names(entry, p);
    }
  }

  /** Two URIs are the same exactly when they are of one kind and name the same paths. */
  lemma SameUriIff(a: Uri, b: Uri)
    ensures SameUri(a, b) <==> a.kind == b.kind && forall p :: Names(a, p) <==> Names(b, p)
  {
    if a.kind == b.kind && forall p :: Names(a, p) <==> Names(b, p) {
      var other := Path(a.objectId, if a.instanceId == 0 then 1 else 0, if a.resourceId == 0 then 1 else 0);
      var p := Path(a.objectId, a.instanceId, a.resourceId);
      var q := Path(b.objectId, b.instanceId, b.resourceId);
      assert Names(a, p) && Names(b, q);
      assert Names(a, p.(instanceId := if p.instanceId == 0 then 1 else 0)) <==> !a.hasInstance;
      assert Names(b, p.(instanceId := if p.instanceId == 0 then 1 else 0)) <==> !b.hasInstance;
      assert Names(a, p.(resourceId := if p.resourceId == 0 then 1 else 0)) <==> !a.hasResource;
      assert Names(b, p.(resourceId := if p.resourceId == 0 then 1 else 0)) <==> !b.hasResource;
    }
  }

  /** An entry on an instance or its resources is cleared exactly when the instance is named by the URI; the resource of the URI
      does not matter. */
  lemma ClearedIff(u: Uri, entry: Uri)
    requires entry.hasInstance
    ensures Cleared(u, entry) <==> Names(u.(hasResource := false), Path(entry.objectId, entry.instanceId, 0))
  {}

  // ----- observing

  /** What an accepted observe request leaves: an active watcher with the token, format, message id and time of the request. Its
      attributes and its update mark stay, the number read is kept, and the counter goes on unless nothing could be read. */
  lemma StartEffect(s: seq<Observed>, u: Uri, server: int, r: Request)
    requires Inv(s)
    ensures var (s', code) := StartObserving(s, u, server, r);
            var was, now := Lookup(s, u, server), Lookup(s', u, server);
            var failed := u.hasResource && r.value == Undecodable;
            && (code == BadRequest <==> r.token == [] || (u.hasResource && !u.hasInstance))
            && (code != BadRequest ==>
                  && now.Some? && (code == InternalError <==> failed) && (code == Content <==> !failed)
                  && var w := now.value;
                  && w.active && w.server == server && w.token == r.token && w.format == r.format && w.lastMid == r.mid
                  && w.lastTime == r.now
                  && w.parameters == (if was.Some? then was.value.parameters else None)
                  && w.update == (was.Some? && was.value.update)
                  && var count, last := if was.Some? then was.value.counter else 0, if was.Some? then was.value.lastValue else 0.0;
                  && w.counter == (if failed then count else (count + 1) % 0x1_0000_0000)
                  && w.lastValue == (if u.hasResource && r.value.Number? then r.value.value else last))
  {
    StartLaw(s, u, server, r, u, server);
    SameUriIsEquivalence(u, u, u);
    hide Inv, Lookup, StartObserving, SameUri;
    BadOnlyIf(s, u, server, r);
  }

  lemma BadOnlyIf(s: seq<Observed>, u: Uri, server: int, r: Request)
    ensures var code := StartObserving(s, u, server, r).1;
            && (code == BadRequest <==> r.token == [] || (u.hasResource && !u.hasInstance))
            && (code != BadRequest ==> code == if u.hasResource && r.value == Undecodable then InternalError else Content)
  {
    hide Lookup, GetWatcher, SetWatcher, Activated;
  }

  /** What a notification changes of a watcher: its time, message id and counter, the value it is compared with, and that there is
      nothing to report. Token, format, attributes and server stay. */
  lemma NotifiedEffect(s: seq<Observed>, now: int, mid: u16, timeout: int, env: Env, u: Uri, server: int)
    requires Inv(s) && Lookup(s, u, server).Some?
    ensures var e := s[EntryOf(s, u)].uri;
            var value: Option<real> := if e.hasResource then env.read(e).value else None;
            var w, now_ := Lookup(s, u, server).value, Lookup(PassOver(s, now, mid, timeout, env).done, u, server);
            && now_.Some?
            && var w' := now_.value;
            if IsNotified(s, now, mid, timeout, env, u, server) then
              && w'.active && !w'.update && w'.lastTime == now && w'.counter == (w.counter + 1) % 0x1_0000_0000
              && w'.lastValue == (if value.Some? then value.value else w.lastValue)
              && w'.server == w.server && w'.parameters == w.parameters && w'.format == w.format && w'.token == w.token
            else w' == w
  {
    StepLaw(s, now, mid, timeout, env, u, server);
    hide PassOver, IsNotified, Inv, Decide, Timely, Reached, FirstPrints, Readable;
  }

  // ----- thresholds

  /** The distance of two values. */
  function Distance(a: real, b: real): (d: real)
  {
    if a < b then b - a else a - b
  }

  /** A threshold lies strictly between the last value and the new one. */
  predicate Between(a: real, threshold: real, b: real)
  {
    a < threshold < b || b < threshold < a
  }

  /** A number is worth a notification exactly if the lower or the upper threshold in force lies strictly between it and the last one,
      or it is at least a step in force away from it; other values never are. */
  lemma CrossedIff(p: Attributes, last: real, value: Option<real>)
    ensures Crossed(p, last, value) <==>
            value.Some? && (|| (LessThan in p.toSet && Between(last, p.lessThan, value.value))
                            || (GreaterThan in p.toSet && Between(last, p.greaterThan, value.value))
                            || (Step in p.toSet && Distance(last, value.value) >= p.step))
  {}

  // ----- attributes

  function Attribute(a: Attributes, f: Flag): (x: real)
  {
    match f
    case MinPeriod => a.minPeriod as real
    case MaxPeriod => a.maxPeriod as real
    case GreaterThan => a.greaterThan
    case LessThan => a.lessThan
    case Step => a.step
  }

  /** After a write every attribute has the new value if it was written and the old one if not, and is in force if it was and was
      not cleared. */
  lemma CombinedValues(was: Attributes, attr: Attributes, toClear: set<Flag>)
    ensures var now := Combined(Some(was), attr, toClear);
            now.Some? && forall f: Flag ::
              && Attribute(now.value, f) == (if f in attr.toSet then Attribute(attr, f) else Attribute(was, f))
              && (f in now.value.toSet <==> f in was.toSet && f !in toClear)
  {}

  /** Attributes are refused exactly if, with the old and the new flags and without the cleared ones, both thresholds and the step
      would be in force and the upper threshold would not be more than two steps above the lower. */
  lemma ClashIff(was: Option<Attributes>, attr: Attributes, toClear: set<Flag>)
    ensures ThresholdsClash(was, attr, toClear) <==>
            && (forall f :: f in {GreaterThan, LessThan, Step} ==>
                  f !in toClear && (f in attr.toSet || (was.Some? && f in was.value.toSet)))
            && var now := Combined(was, attr, toClear);
               now.Some? && Attribute(now.value, LessThan) + 2.0 * Attribute(now.value, Step) >= Attribute(now.value, GreaterThan)
  {
    var inForce := (attr.toSet + (if was.Some? then was.value.toSet else {})) - toClear;
    assert (forall f :: f in {GreaterThan, LessThan, Step} ==>
              f !in toClear && (f in attr.toSet || (was.Some? && f in was.value.toSet))) <==> NUMERIC <= inForce by {
      assert forall f :: f in inForce <==> f !in toClear && (f in attr.toSet || (was.Some? && f in was.value.toSet));
    }
    if was.None? && NUMERIC <= inForce {
      assert GreaterThan in inForce;
    }
  }

  // ----- observing leads to notifications

  /** A watcher without attributes that has observed a URI is notified by the first step after its value changed, if the entry can
      be read and the value be printed for the first watcher of the entry that is due; and so it is if the URI only overlaps. */
  lemma ChangeIsReported(s: seq<Observed>, u: Uri, server: int, r: Request, changed: Uri, now: int, mid: u16, timeout: int, env: Env)
    requires Inv(s) && StartObserving(s, u, server, r).1 == Content
    requires Lookup(s, u, server).Some? ==> Lookup(s, u, server).value.parameters.None?
    requires exists p :: Names(u, p) && Names(changed, p)
    ensures var s1 := StartObserving(s, u, server, r).0;
            var s2 := ValueChanged(s1, changed);
            && Inv(s2) && EntryOf(s2, u) < |s2|
            && var o := s2[EntryOf(s2, u)];
               Readable(o.uri, env) && FirstPrints(o.uri, o.watchers, now, ValueOf(o.uri, env), env) ==>
                 IsNotified(s2, now, mid, timeout, env, u, server)
  {
    var s1 := StartObserving(s, u, server, r).0;
    hide StartObserving, ValueChanged, Inv, Lookup, PassOver, IsNotified, FirstPrints, Readable, ValueOf, EntryOf;
    StartEffect(s, u, server, r);
    StartLaw(s, u, server, r, u, server);
    TouchesIff(changed, u);
    ChangeIsTagged(s1, u, server, changed);
    DueIsNotified(ValueChanged(s1, changed), u, server, now, mid, timeout, env);
  }

  lemma ChangeIsTagged(s: seq<Observed>, u: Uri, server: int, changed: Uri)
    requires Inv(s) && Lookup(s, u, server).Some? && Lookup(s, u, server).value.active && Touches(changed, u)
    ensures var s' := ValueChanged(s, changed);
            Inv(s') && Lookup(s', u, server) == Some(Lookup(s, u, server).value.(update := true))
  {
    EntryTouched(s, u, changed, server);
    ValueChangedLaw(s, changed, u, server);
    hide ValueChanged, Inv, Lookup, Touches, EntryOf;
  }

  lemma DueIsNotified(s: seq<Observed>, u: Uri, server: int, now: int, mid: u16, timeout: int, env: Env)
    requires Inv(s) && Lookup(s, u, server).Some?
    requires var w := Lookup(s, u, server).value; w.active && w.update && w.parameters.None?
    ensures EntryOf(s, u) < |s|
    ensures var o := s[EntryOf(s, u)];
            Readable(o.uri, env) && FirstPrints(o.uri, o.watchers, now, ValueOf(o.uri, env), env) ==>
              IsNotified(s, now, mid, timeout, env, u, server)
  {
    StepLaw(s, now, mid, timeout, env, u, server);
    var o := s[EntryOf(s, u)];
    assert Due(o.watchers[WatcherOf(o.watchers, server)], now, ValueOf(o.uri, env));
    hide PassOver, IsNotified, FirstPrints, Readable, Inv, Handled, Timely, Reached;
  }

  lemma EntryTouched(s: seq<Observed>, u: Uri, changed: Uri, server: int)
    requires Lookup(s, u, server).Some? && Touches(changed, u)
    ensures EntryOf(s, u) < |s| && Touches(changed, s[EntryOf(s, u)].uri)
  {}

  // ----- the wait

  /** A watcher that is due to be looked at again after t. */
  predicate WakesAfter(w: Watcher, now: int, t: int)
  {
    && w.active && w.parameters.Some?
    && var p := w.parameters.value;
    || (MaxPeriod in p.toSet && t == w.lastTime + p.maxPeriod - now)
    || (MinPeriod in p.toSet && w.update && t == w.lastTime + p.minPeriod - now && t > 0)
  }

  predicate WakesOne(ws: seq<Watcher>, done: seq<Watcher>, now: int, t: int)
  {
    exists j :: 0 <= j < |ws| && j < |done| && (WakesAfter(ws[j], now, t) || WakesAfter(done[j], now, t))
  }

  lemma {:induction false} WalkWaitHasReason(u: Uri, ws: seq<Watcher>, now: int, mid: u16, timeout: int, value: Option<real>,
                                            env: Env)
    ensures var k := WalkOver(u, ws, now, mid, timeout, value, env);
            k.timeout == timeout || WakesOne(ws, k.done, now, k.timeout)
  {
    if ws != [] {
      var before, w := ws[..|ws| - 1], ws[|ws| - 1];
      WalkWaitHasReason(u, before, now, mid, timeout, value, env);
      var k := WalkOver(u, before, now, mid, timeout, value, env);
      var k' := WalkOver(u, ws, now, mid, timeout, value, env);
      WalkOneReason(k, u, w, now, value, env.prints(u, w.format));
      hide WalkOne, WalkOver, WakesAfter;
      if k'.timeout == k.timeout {
        if k.timeout != timeout {
          var j :| 0 <= j < |before| && j < |k.done| && (WakesAfter(before[j], now, k.timeout) || WakesAfter(k.done[j], now, k.timeout));
          assert ws[j] == before[j] && k'.done[j] == k.done[j];
        }
      } else {
        assert ws[|before|] == w;
      }
    }
  }

  lemma WalkOneReason(k: Walk, u: Uri, w: Watcher, now: int, value: Option<real>, prints: bool)
    ensures var k' := WalkOne(k, u, w, now, value, prints);
            && |k'.done| == |k.done| + 1 && (forall j :: 0 <= j < |k.done| ==> k'.done[j] == k.done[j])
            && (k'.timeout == k.timeout || WakesAfter(w, now, k'.timeout) || WakesAfter(k'.done[|k.done|], now, k'.timeout))
  {
    hide Decide;
  }

  /** The wait of a step is the one it was given, or ends with a period of a watcher. */
  lemma {:induction false} WaitHasReason(s: seq<Observed>, now: int, mid: u16, timeout: int, env: Env)
    ensures var p := PassOver(s, now, mid, timeout, env);
            p.timeout == timeout
            || exists i :: 0 <= i < |s| && WakesOne(s[i].watchers, p.done[i].watchers, now, p.timeout)
  {
    if s != [] {
      var before, o := s[..|s| - 1], s[|s| - 1];
      WaitHasReason(before, now, mid, timeout, env);
      var q := PassOver(before, now, mid, timeout, env);
      var p := PassOver(s, now, mid, timeout, env);
      var k := StepEntry(o, now, q.mid, q.timeout, env);
      WalkWaitHasReason(o.uri, o.watchers, now, q.mid, q.timeout, ValueOf(o.uri, env), env);
      assert p.done == q.done + [o.(watchers := k.done)] && p.timeout == k.timeout;
      assert k.timeout == q.timeout || WakesOne(o.watchers, k.done, now, k.timeout);
      hide PassOver, StepEntry, WakesOne, WalkOver;
      if p.timeout == q.timeout {
        if q.timeout != timeout {
          var i :| 0 <= i < |before| && WakesOne(before[i].watchers, q.done[i].watchers, now, q.timeout);
          assert s[i] == before[i] && p.done[i] == q.done[i];
        }
      } else {
        assert WakesOne(s[|before|].watchers, p.done[|before|].watchers, now, p.timeout);
      }
    }
  }
}
