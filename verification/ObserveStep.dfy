/** The notification scheduler, xiny_observe_step. */
module ObserveStep {
  import opened Bytes
  import opened Observe

  /** What reading the resource of an entry gives: whether it could be read and decoded, and its value if it is a number. */
  datatype Reading = Reading(ok: bool, value: Option<real>)

  /** The objects as the step sees them: reading, and printing in a format. */
  datatype Env = Env(read: Uri -> Reading, prints: (Uri, int) -> bool)

  // ----- the decision for one watcher

  predicate Has(w: Watcher, f: Flag)
  {
    w.parameters.Some? && f in w.parameters.value.toSet
  }

  /** One value below the threshold and one above. */
  predicate Passes(a: real, b: real, threshold: real)
  {
    (a < threshold && b > threshold) || (a > threshold && b < threshold)
  }

  /** A threshold was passed, or a step made, since the last notification. */
  predicate Crossed(p: Attributes, last: real, value: Option<real>)
  {
    value.Some? &&
    (|| (LessThan in p.toSet && Passes(value.value, last, p.lessThan))
     || (GreaterThan in p.toSet && Passes(value.value, last, p.greaterThan))
     || (Step in p.toSet && (if value.value < last then last - value.value else value.value - last) >= p.step))
  }

  predicate MinElapsed(w: Watcher, now: int)
  {
    w.parameters.Some? && w.lastTime + w.parameters.value.minPeriod <= now
  }

  predicate MaxReached(w: Watcher, now: int)
  {
    Has(w, MaxPeriod) && w.lastTime + w.parameters.value.maxPeriod <= now
  }

  /** Whether an active watcher is notified. */
  predicate Decide(w: Watcher, now: int, value: Option<real>)
  {
    || (w.update && (if Has(w, MinPeriod) then MinElapsed(w, now)
                     else w.parameters.None? || w.parameters.value.toSet == {}
                          || Crossed(w.parameters.value, w.lastValue, value)))
    || MaxReached(w, now)
  }

  /** A watcher after a notification with the message id `mid`. */
  function Notified(w: Watcher, now: int, mid: u16, value: Option<real>): (w': Watcher)
  {
    w.(lastTime := now, lastMid := mid, counter := (w.counter + 1) % 0x1_0000_0000, update := false,
       lastValue := if value.Some? then value.value else w.lastValue)
  }

  function Min(a: int, b: int): (c: int)
    ensures c <= a && c <= b
  {
    if b < a then b else a
  }

  /** The wait until the minimum period of a changed value ends. */
  function AfterMin(w: Watcher, now: int, timeout: int): (t: int)
    ensures t <= timeout
  {
    if w.update && Has(w, MinPeriod) && !MinElapsed(w, now)
    then Min(timeout, w.lastTime + w.parameters.value.minPeriod - now) else timeout
  }

  function AfterMax(w: Watcher, now: int, timeout: int): (t: int)
    ensures t <= timeout
  {
    if Has(w, MaxPeriod) then Min(timeout, w.lastTime + w.parameters.value.maxPeriod - now) else timeout
  }

  // ----- the watchers of one entry

  /** The watchers passed so far, the ones notified, the next message id, the wait, whether the value was printed, and whether
      printing failed. */
  datatype Walk = Walk(done: seq<Watcher>, sent: set<(Uri, int)>, mid: u16, timeout: int, buffered: bool, stopped: bool)

  function WalkOne(k: Walk, u: Uri, w: Watcher, now: int, value: Option<real>, prints: bool): (k': Walk)
  {
    if k.stopped || !w.active then k.(done := k.done + [w])
    else if !Decide(w, now, value) then
      k.(done := k.done + [w], timeout := AfterMax(w, now, AfterMin(w, now, k.timeout)))
    else if !k.buffered && !prints then
      k.(done := k.done + [w], timeout := AfterMin(w, now, k.timeout), stopped := true)
    else
      var w' := Notified(w, now, k.mid, value);
      Walk(k.done + [w'], k.sent + {(u, w.server)}, (k.mid + 1) % 0x1_0000,
           AfterMax(w', now, AfterMin(w, now, k.timeout)), true, false)
  }

  function WalkOver(u: Uri, ws: seq<Watcher>, now: int, mid: u16, timeout: int, value: Option<real>, env: Env): (k: Walk)
    ensures |k.done| == |ws|
  {
    if ws == [] then Walk([], {}, mid, timeout, false, false)
    else
      var w := ws[|ws| - 1];
      WalkOne(WalkOver(u, ws[..|ws| - 1], now, mid, timeout, value, env), u, w, now, value, env.prints(u, w.format))
  }

  function ValueOf(u: Uri, env: Env): (v: Option<real>)
  {
    if u.hasResource then env.read(u).value else None
  }

  predicate Readable(u: Uri, env: Env)
  {
    u.hasResource ==> env.read(u).ok
  }

  function StepEntry(o: Observed, now: int, mid: u16, timeout: int, env: Env): (k: Walk)
    ensures |k.done| == |o.watchers|
  {
    if !Readable(o.uri, env) then Walk(o.watchers, {}, mid, timeout, false, false)
    else WalkOver(o.uri, o.watchers, now, mid, timeout, ValueOf(o.uri, env), env)
  }

  // ----- all entries

  datatype Pass = Pass(done: seq<Observed>, sent: set<(Uri, int)>, mid: u16, timeout: int)

  function PassOver(s: seq<Observed>, now: int, mid: u16, timeout: int, env: Env): (p: Pass)
    ensures |p.done| == |s|
  {
    if s == [] then Pass([], {}, mid, timeout)
    else
      var p := PassOver(s[..|s| - 1], now, mid, timeout, env);
      var o := s[|s| - 1];
      var k := StepEntry(o, now, p.mid, p.timeout, env);
      Pass(p.done + [o.(watchers := k.done)], p.sent + k.sent, k.mid, k.timeout)
  }

  // ----- what the decision means

  /** With a minimum period set, thresholds and steps have no influence. */
  lemma MinPeriodOverridesThresholds(w: Watcher, now: int, a: Option<real>, b: Option<real>)
    requires Has(w, MinPeriod)
    ensures Decide(w, now, a) == Decide(w, now, b)
  {}

  /** Every decision is accounted for by the maximum period or by a threshold or step. */
  ghost predicate ThresholdsCount(p: Attributes)
  {
    forall w: Watcher, now, v :: w.parameters == Some(p) && Decide(w, now, v) ==> MaxReached(w, now) || Crossed(p, w.lastValue, v)
  }

  /** Thresholds and steps count exactly when there is no minimum period, or a maximum period that is not longer. */
  lemma ThresholdsCountIff(p: Attributes)
    requires p.toSet * NUMERIC != {}
    ensures ThresholdsCount(p) <==> MinPeriod !in p.toSet || (MaxPeriod in p.toSet && p.maxPeriod <= p.minPeriod)
  {
    if MinPeriod in p.toSet && !(MaxPeriod in p.toSet && p.maxPeriod <= p.minPeriod) {
      var w := NewWatcher(0).(parameters := Some(p), update := true);
      assert Decide(w, p.minPeriod, None) && !MaxReached(w, p.minPeriod) && !Crossed(p, w.lastValue, None);
    }
  }

  /** Every change is reported once the minimum period, if any, has passed. */
  ghost predicate ChangesCount(p: Attributes)
  {
    forall w: Watcher, now, v ::
      w.parameters == Some(p) && w.update && (MinPeriod in p.toSet ==> MinElapsed(w, now)) ==> Decide(w, now, v)
  }

  /** Without thresholds and steps, changes are reported unless a maximum period is the only attribute: then they wait for it. */
  lemma ChangesCountIff(p: Attributes)
    requires p.toSet * NUMERIC == {}
    ensures ChangesCount(p) <==> p.toSet != {MaxPeriod}
  {
    assert forall f :: f in p.toSet * NUMERIC <==> f in p.toSet && f in NUMERIC;
    if p.toSet == {MaxPeriod} {
      var w := NewWatcher(0).(parameters := Some(p), update := true);
      assert !Decide(w, p.maxPeriod - 1, None);
    } else {
      forall f | f in p.toSet
        ensures f == MinPeriod || f == MaxPeriod
      {
        assert f !in NUMERIC;
      }
      assert MinPeriod !in p.toSet ==> p.toSet == {};
    }
  }

  predicate PeriodsAgree(p: Attributes)
  {
    MaxPeriod !in p.toSet || p.maxPeriod >= p.minPeriod
  }

  /** Never earlier than the minimum period. */
  ghost predicate Spaced(p: Attributes)
  {
    forall w: Watcher, now, v :: w.parameters == Some(p) && Decide(w, now, v) ==> w.lastTime + p.minPeriod <= now
  }

  /** A minimum period is respected exactly when there is no maximum period, or one that is not shorter. */
  lemma SpacedIff(p: Attributes)
    requires MinPeriod in p.toSet
    ensures Spaced(p) <==> PeriodsAgree(p)
  {
    if !PeriodsAgree(p) {
      var w := NewWatcher(0).(parameters := Some(p));
      assert Decide(w, p.maxPeriod, None);
    }
  }

  // ----- what the pass over one entry does

  predicate Handled(w: Watcher, w': Watcher, sent: bool, now: int, value: Option<real>)
  {
    if sent then w.active && Decide(w, now, value) && w' == Notified(w, now, w'.lastMid, value) else w' == w
  }

  /** The wait ends no later than the periods of this watcher. */
  predicate Timely(w: Watcher, now: int, timeout: int)
  {
    w.active ==>
      && (Has(w, MaxPeriod) ==> timeout <= w.lastTime + w.parameters.value.maxPeriod - now)
      && (w.update && Has(w, MinPeriod) && !MinElapsed(w, now) ==>
            timeout <= w.lastTime + w.parameters.value.minPeriod - now)
  }

  predicate Complete(w: Watcher, w': Watcher, sent: bool, now: int, value: Option<real>, timeout: int)
  {
    (sent <==> w.active && Decide(w, now, value)) && Timely(w', now, timeout)
  }

  lemma WalkOneLaw(k: Walk, u: Uri, w: Watcher, now: int, value: Option<real>, prints: bool)
    requires (u, w.server) !in k.sent
    ensures var k' := WalkOne(k, u, w, now, value, prints);
            && |k'.done| == |k.done| + 1 && k'.done[..|k.done|] == k.done && k'.timeout <= k.timeout
            && var w', sent := k'.done[|k.done|], (u, w.server) in k'.sent;
            && k'.sent == (if sent then k.sent + {(u, w.server)} else k.sent)
            && Handled(w, w', sent, now, value)
            && (!k'.stopped ==> !k.stopped && Complete(w, w', sent, now, value, k'.timeout))
            && (k'.stopped <==> k.stopped || (w.active && Decide(w, now, value) && !k.buffered && !prints))
            && (!k'.stopped ==> (k'.buffered <==> k.buffered || (w.active && Decide(w, now, value))))
  {
    hide Decide;
  }

  lemma TimelyEarlier(w: Watcher, now: int, t: int, t': int)
    requires Timely(w, now, t) && t' <= t
    ensures Timely(w, now, t')
  {}

  predicate Due(w: Watcher, now: int, value: Option<real>)
  {
    w.active && Decide(w, now, value)
  }

  /** The first watcher that is due, or the length. */
  function FirstDue(ws: seq<Watcher>, now: int, value: Option<real>): (d: nat)
    ensures d <= |ws| && (d < |ws| ==> Due(ws[d], now, value))
    ensures forall j :: 0 <= j < d ==> !Due(ws[j], now, value)
  {
    if ws == [] || Due(ws[0], now, value) then 0 else 1 + FirstDue(ws[1..], now, value)
  }

  lemma FirstDueIs(ws: seq<Watcher>, now: int, value: Option<real>, d: nat)
    requires d <= |ws| && (d < |ws| ==> Due(ws[d], now, value)) && forall j :: 0 <= j < d ==> !Due(ws[j], now, value)
    ensures FirstDue(ws, now, value) == d
  {
    var e := FirstDue(ws, now, value);
    hide Due;
    assert !(d < e) && !(e < d);
  }

  /** Nobody is due, or the value can be printed in the format of the first one that is: it is the only one tried. */
  predicate FirstPrints(u: Uri, ws: seq<Watcher>, now: int, value: Option<real>, env: Env)
  {
    var d := FirstDue(ws, now, value);
    d < |ws| ==> env.prints(u, ws[d].format)
  }

  lemma FirstDueSnoc(before: seq<Watcher>, w: Watcher, now: int, value: Option<real>)
    ensures var d, ws := FirstDue(before, now, value), before + [w];
            FirstDue(ws, now, value) ==
            if d < |before| then d else if Due(w, now, value) then |before| else |ws|
  {
    var d, ws := FirstDue(before, now, value), before + [w];
    hide Due;
    FirstDueIs(ws, now, value, if d < |before| then d else if Due(w, now, value) then |before| else |ws|);
  }

  /** Whether watcher j is reached: printing does not fail, or only for a later watcher. */
  predicate Reached(u: Uri, ws: seq<Watcher>, now: int, value: Option<real>, env: Env, j: nat)
  {
    FirstPrints(u, ws, now, value, env) || j < FirstDue(ws, now, value)
  }

  /** The walk stops exactly when the value cannot be printed for the first watcher that is due; then nobody is notified,
      and only the watchers in front of it count for the wait. */
  lemma {:induction false} WalkStopsIff(u: Uri, ws: seq<Watcher>, now: int, mid: u16, timeout: int, value: Option<real>, env: Env)
    requires DistinctServers(ws)
    ensures var k, d := WalkOver(u, ws, now, mid, timeout, value, env), FirstDue(ws, now, value);
            && (k.stopped <==> !FirstPrints(u, ws, now, value, env))
            && (!k.stopped ==> (k.buffered <==> d < |ws|))
            && (k.stopped || d == |ws| ==> k.sent == {})
            && (forall j :: 0 <= j < |ws| && j < d && k.stopped ==> Timely(ws[j], now, k.timeout))
  {
    if ws != [] {
      var before, w := ws[..|ws| - 1], ws[|ws| - 1];
      assert ws == before + [w];
      WalkStopsIff(u, before, now, mid, timeout, value, env);
      WalkLaw(u, before, now, mid, timeout, value, env);
      FirstDueSnoc(before, w, now, value);
      var k := WalkOver(u, before, now, mid, timeout, value, env);
      var k' := WalkOver(u, ws, now, mid, timeout, value, env);
      assert (u, w.server) !in k.sent;
      WalkOneLaw(k, u, w, now, value, env.prints(u, w.format));
      assert k' == WalkOne(k, u, w, now, value, env.prints(u, w.format));
      assert FirstDue(before, now, value) < |before| ==> before[FirstDue(before, now, value)] == ws[FirstDue(before, now, value)];
      hide WalkOne, WalkOver, Decide, Timely, FirstDue;
      forall j | 0 <= j < |ws| && j < FirstDue(ws, now, value) && k'.stopped
        ensures Timely(ws[j], now, k'.timeout)
      {
        assert ws[j] == before[j];
        if !k.stopped {
          assert !Due(before[j], now, value);
        }
        TimelyEarlier(before[j], now, k.timeout, k'.timeout);
      }
    }
  }

  /** Every watcher is notified or left alone, and all are handled as decided unless printing failed. */
  lemma {:induction false} WalkLaw(u: Uri, ws: seq<Watcher>, now: int, mid: u16, timeout: int, value: Option<real>, env: Env)
    requires DistinctServers(ws)
    ensures var k := WalkOver(u, ws, now, mid, timeout, value, env);
            && k.timeout <= timeout
            && (forall x :: x in k.sent ==> x.0 == u && exists j :: 0 <= j < |ws| && ws[j].server == x.1)
            && (forall j :: 0 <= j < |ws| ==> Handled(ws[j], k.done[j], (u, ws[j].server) in k.sent, now, value))
            && (!k.stopped ==> forall j :: 0 <= j < |ws| ==>
                  Complete(ws[j], k.done[j], (u, ws[j].server) in k.sent, now, value, k.timeout))
  {
    if ws != [] {
      var before, w := ws[..|ws| - 1], ws[|ws| - 1];
      WalkLaw(u, before, now, mid, timeout, value, env);
      var k := WalkOver(u, before, now, mid, timeout, value, env);
      var k' := WalkOver(u, ws, now, mid, timeout, value, env);
      assert (u, w.server) !in k.sent;
      WalkOneLaw(k, u, w, now, value, env.prints(u, w.format));
      hide WalkOne, WalkOver, Decide, Timely, Handled;
      forall j | 0 <= j < |ws|
        ensures Handled(ws[j], k'.done[j], (u, ws[j].server) in k'.sent, now, value)
        ensures !k'.stopped ==> Complete(ws[j], k'.done[j], (u, ws[j].server) in k'.sent, now, value, k'.timeout)
      {
        if j < |before| {
          assert before[j] == ws[j] && k'.done[j] == k.done[j];
          assert (u, ws[j].server) in k'.sent <==> (u, ws[j].server) in k.sent;
          if !k'.stopped {
            TimelyEarlier(k.done[j], now, k.timeout, k'.timeout);
          }
        }
      }
      forall x | x in k'.sent
        ensures x.0 == u && exists j :: 0 <= j < |ws| && ws[j].server == x.1
      {
        if x in k.sent {
          var j :| 0 <= j < |before| && before[j].server == x.1;
          assert ws[j].server == x.1;
        } else {
          assert ws[|ws| - 1].server == x.1;
        }
      }
    }
  }
}
