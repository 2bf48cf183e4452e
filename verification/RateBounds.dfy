/** aegis/internal/service/service_rate_limit.go: an adaptive config is meant to keep Min < rate < Max and a
    positive rate. Neither is invariant; this module says exactly which updates and updater passes keep them. */
module RateBounds {
  import opened Text
  import opened RateLimitConfigs

  predicate Bounded(c: Config)
  {
    c.strategy == "adaptive" ==> c.min < c.rate < c.max
  }

  // ----- One updater pass -----

  /** What the load leaves of the range between Min and Max. */
  function Spread(c: Config): real
  {
    Share(1.0 - c.load, (c.max - c.min) as real)
  }

  /** The interpolated rate keeps a whole request's distance from the end that truncation rounds to, and
      any distance from the other. */
  predicate PassKeeps(c: Config)
  {
    var range := (c.max - c.min) as real;
    c.strategy == "adaptive" ==>
      if c.min as real + Spread(c) >= 0.0 then 1.0 <= Spread(c) < range else 0.0 < Spread(c) <= range - 1.0
  }

  lemma TruncInside(min: int, max: int, s: real)
    ensures min < Trunc(min as real + s) < max <==>
      if min as real + s >= 0.0 then 1.0 <= s < (max - min) as real else 0.0 < s <= (max - min) as real - 1.0
  {
    assert (max - min) as real == max as real - min as real;
    var x := min as real + s;
    if x >= 0.0 {
      assert x.Floor > min <==> x >= (min + 1) as real;
      assert x.Floor < max <==> x < max as real;
    } else {
      assert -((-x).Floor) > min <==> -x < -min as real;
      assert -((-x).Floor) < max <==> -x >= (1 - max) as real;
    }
  }

  /** An updater pass leaves an adaptive config strictly between its bounds exactly when PassKeeps. */
  lemma PassBoundsExactly(c: Config)
    ensures Bounded(Adapted(c)) <==> PassKeeps(c)
  {
    TruncInside(c.min, c.max, Spread(c));
  }

  /** For the usual configs, whose Min is not negative, that is: some load, but at least one request's worth of
      range left. */
  lemma PassBoundsPlain(c: Config)
    requires c.strategy == "adaptive" && 0 <= c.min < c.max && 0.0 <= c.load <= 1.0
    ensures Bounded(Adapted(c)) <==> c.load > 0.0 && (1.0 - c.load) * (c.max - c.min) as real >= 1.0
  {
    var range := (c.max - c.min) as real;
    PassBoundsExactly(c);
    ShareOf(1.0 - c.load, range);
    assert range > 0.0;
    assert c.load > 0.0 ==> Spread(c) < range by {
      if c.load > 0.0 { assert c.load * range > 0.0; assert Spread(c) == range - c.load * range; }
    }
    assert Spread(c) == (1.0 - c.load) * range;
  }

  /** A pass leaves a positive rate exactly when the interpolated rate is at least 1. */
  lemma PassPositiveExactly(c: Config)
    requires c.strategy == "adaptive"
    ensures Adapted(c).rate > 0 <==> c.min as real + Spread(c) >= 1.0
  {
    var x := c.min as real + Spread(c);
    if x >= 0.0 { assert x.Floor >= 1 <==> x >= 1.0; }
  }

  // ----- One update -----

  /** The values an update leaves behind, accepted or refused, are in order. */
  predicate UpdateKeeps(c: Config, p: UpdateParams)
  {
    var reached := Positive(p.rate) && Positive(p.burst) && Positive(p.min);
    var rate := if Positive(p.rate) then Or(p.rate, c.rate) else c.rate;
    var min := if reached then Or(p.min, c.min) else c.min;
    var max := if reached && Positive(p.max) then Or(p.max, c.max) else c.max;
    Or(p.strategy, c.strategy) == "adaptive" ==> min < rate < max
  }

  /** An update leaves a config within its bounds exactly when UpdateKeeps; an accepted one always does. A refused
      one does so only if it stopped at a field that is not positive, and what it wrote before is in order. */
  lemma UpdateBoundsExactly(c: Config, p: UpdateParams)
    ensures Bounded(Overlay(c, Reached(c, p))) <==> UpdateKeeps(c, p)
    ensures Accepted(c, p) ==> UpdateKeeps(c, p)
    ensures !Accepted(c, p) && UpdateKeeps(c, p) ==>
      !Positive(p.rate) || !Positive(p.burst) || !Positive(p.min) || !Positive(p.max)
  {
  }

  /** After a pass, an update that leaves strategy, rate and bounds alone is accepted exactly when its burst is
      valid and the pass kept the bounds. */
  lemma UpdateAfterPass(c: Config, p: UpdateParams)
    requires c.strategy == "adaptive"
    requires p.strategy.None? && p.rate.None? && p.min.None? && p.max.None?
    ensures Accepted(Adapted(c), p) <==> Positive(p.burst) && PassKeeps(c)
  {
    PassBoundsExactly(c);
  }

  // ----- Whole runs -----

  ghost predicate AllBounded(s: State)
  {
    forall id | id in s.byId :: Bounded(s.byId[id])
  }

  ghost predicate AllPositive(s: State)
  {
    forall id | id in s.byId :: s.byId[id].rate > 0
  }

  /** An update or a pass that takes a config out of its bounds. */
  ghost predicate Unbinds(s: State, e: Event)
  {
    match e
    case Update(id, p) => id in s.byId && !UpdateKeeps(s.byId[id], p)
    case Adapt => exists id :: id in s.byId && !PassKeeps(s.byId[id])
    case _ => false
  }

  /** A pass that interpolates some rate below 1. */
  ghost predicate Starves(s: State, e: Event)
  {
    e.Adapt? && exists id ::
      id in s.byId && s.byId[id].strategy == "adaptive" && s.byId[id].min as real + Spread(s.byId[id]) < 1.0
  }

  lemma AdaptBounded(s: State)
    ensures AllBounded(Step(s, Event.Adapt)) <==> !Unbinds(s, Event.Adapt)
  {
    var s' := Step(s, Event.Adapt);
    forall id | id in s.byId ensures Bounded(s'.byId[id]) <==> PassKeeps(s.byId[id]) {
      PassBoundsExactly(s.byId[id]);
    }
  }

  lemma UpdateBounded(s: State, id: Uuid, p: UpdateParams)
    requires AllBounded(s)
    ensures AllBounded(Step(s, Update(id, p))) <==> !Unbinds(s, Update(id, p))
  {
    if id in s.byId {
      var s' := Step(s, Update(id, p));
      UpdateBoundsExactly(s.byId[id], p);
      assert s'.byId == s.byId[id := Overlay(s.byId[id], Reached(s.byId[id], p))];
      assert Bounded(s'.byId[id]) <==> UpdateKeeps(s.byId[id], p);
      forall j | j in s'.byId && j != id ensures Bounded(s'.byId[j]) { assert Bounded(s.byId[j]); }
    }
  }

  lemma StepBounded(s: State, e: Event)
    requires AllBounded(s)
    ensures AllBounded(Step(s, e)) <==> !Unbinds(s, e)
  {
    match e
    case Create(id, p) =>
    case Update(id, p) => UpdateBounded(s, id, p);
    case Delete(id) =>
    case SystemLoad(load) =>
    case AddLoad(id, delta) =>
    case Adapt => AdaptBounded(s);
  }

  lemma StepPositive(s: State, e: Event)
    requires AllPositive(s)
    ensures AllPositive(Step(s, e)) <==> !Starves(s, e)
  {
    var s' := Step(s, e);
    if e.Adapt? {
      forall id | id in s.byId && s.byId[id].strategy == "adaptive"
        ensures s'.byId[id].rate > 0 <==> s.byId[id].min as real + Spread(s.byId[id]) >= 1.0
      {
        PassPositiveExactly(s.byId[id]);
      }
    } else {
      assert e.Update? && e.id in s.byId ==>
        s'.byId == s.byId[e.id := Overlay(s.byId[e.id], Reached(s.byId[e.id], e.update))];
    }
  }

  ghost predicate UnbindsAt(events: seq<Event>, states: seq<State>, i: nat)
    requires i < |events| && |states| == |events| + 1
  {
    Unbinds(states[i], events[i])
  }

  ghost predicate StarvesAt(events: seq<Event>, states: seq<State>, i: nat)
    requires i < |events| && |states| == |events| + 1
  {
    Starves(states[i], events[i])
  }

  lemma {:induction false} BoundedUpTo(events: seq<Event>, states: seq<State>, n: nat)
    requires Run(events, states) && n <= |events| && forall i | 0 <= i < n :: !UnbindsAt(events, states, i)
    ensures AllBounded(states[n])
  {
    if n > 0 {
      BoundedUpTo(events, states, n - 1);
      assert StepAt(events, states, n - 1) && !UnbindsAt(events, states, n - 1);
      StepBounded(states[n - 1], events[n - 1]);
    }
  }

  /** Min < rate < Max holds of every adaptive config throughout a run if and only if no update leaves values out
      of order and no pass truncates a rate onto or past a bound. */
  lemma BoundsExactly(events: seq<Event>, states: seq<State>)
    requires Run(events, states)
    ensures (forall n | 0 <= n <= |events| :: AllBounded(states[n])) <==>
            (forall i | 0 <= i < |events| :: !UnbindsAt(events, states, i))
  {
    if forall i | 0 <= i < |events| :: !UnbindsAt(events, states, i) {
      forall n | 0 <= n <= |events| ensures AllBounded(states[n]) { BoundedUpTo(events, states, n); }
    } else {
      var i :| 0 <= i < |events| && UnbindsAt(events, states, i);
      assert StepAt(events, states, i);
      if AllBounded(states[i]) { StepBounded(states[i], events[i]); }
    }
  }

  lemma {:induction false} PositiveUpTo(events: seq<Event>, states: seq<State>, n: nat)
    requires Run(events, states) && n <= |events| && forall i | 0 <= i < n :: !StarvesAt(events, states, i)
    ensures AllPositive(states[n])
  {
    if n > 0 {
      PositiveUpTo(events, states, n - 1);
      assert StepAt(events, states, n - 1) && !StarvesAt(events, states, n - 1);
      StepPositive(states[n - 1], events[n - 1]);
    }
  }

  /** Every rate is positive throughout a run if and only if no pass interpolates one below 1. */
  lemma PositiveExactly(events: seq<Event>, states: seq<State>)
    requires Run(events, states)
    ensures (forall n | 0 <= n <= |events| :: AllPositive(states[n])) <==>
            (forall i | 0 <= i < |events| :: !StarvesAt(events, states, i))
  {
    if forall i | 0 <= i < |events| :: !StarvesAt(events, states, i) {
      forall n | 0 <= n <= |events| ensures AllPositive(states[n]) { PositiveUpTo(events, states, n); }
    } else {
      var i :| 0 <= i < |events| && StarvesAt(events, states, i);
      assert StepAt(events, states, i);
      if AllPositive(states[i]) { StepPositive(states[i], events[i]); }
    }
  }
}
