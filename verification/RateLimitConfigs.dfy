/** aegis/internal/service/service_rate_limit.go: rate limit configurations, held as shared
    objects in two indexes, and the load-driven rate. Loads are reals. */
module RateLimitConfigs {
  import opened Text

  type Uuid = nat

  datatype Config = Config(name: string, kind: string, strategy: string, target: string, rate: int, burst: int,
                           active: bool, min: int, max: int, load: real)

  datatype CreateParams = CreateParams(name: string, kind: string, strategy: string, target: string, rate: int,
                                       burst: int, min: int, max: int)

  datatype UpdateParams = UpdateParams(name: Option<string>, strategy: Option<string>, rate: Option<int>,
                                       burst: Option<int>, active: Option<bool>, min: Option<int>, max: Option<int>)

  /** The objects behind the id index, and the ids the (type, target) index leads to. */
  datatype State = State(configs: map<string, Uuid>, byId: map<Uuid, Config>)

  /** makeCacheKey. */
  function Key(kind: string, target: string): string
  {
    kind + ":" + target
  }

  function KeyOf(c: Config): string
  {
    Key(c.kind, c.target)
  }

  // ----- What the operations mean -----

  function Or<T>(o: Option<T>, x: T): T
  {
    if o.Some? then o.value else x
  }

  predicate Positive(o: Option<int>)
  {
    o.Some? ==> o.value > 0
  }

  /** The configuration CreateRateLimit accepts, with its defaults filled in. */
  function NewConfig(p: CreateParams): Option<Config>
  {
    var strategy := if p.strategy == "" then "fixed" else p.strategy;
    var min := if strategy == "adaptive" && p.min <= 0 then p.rate / 2 else p.min;
    var max := if strategy == "adaptive" && p.max <= 0 then p.rate * 2 else p.max;
    if p.name == "" || p.kind == "" || (p.target == "" && p.kind != "global") || p.rate <= 0 || p.burst <= 0
       || (strategy == "adaptive" && !(min < p.rate < max))
    then None
    else Some(Active(p.(strategy := strategy, min := min, max := max)))
  }

  function Active(p: CreateParams): Config
  {
    Config(p.name, p.kind, p.strategy, p.target, p.rate, p.burst, true, p.min, p.max, 0.5)
  }

  /** The fields of an update that are written before the first one found invalid. */
  function Reached(c: Config, p: UpdateParams): UpdateParams
  {
    if !Positive(p.rate) || !Positive(p.burst) || Or(p.strategy, c.strategy) != "adaptive" || !Positive(p.min)
    then Limits(p)
    else if !Positive(p.max) then p.(max := None)
    else p
  }

  function Limits(p: UpdateParams): UpdateParams
  {
    if !Positive(p.rate) then p.(rate := None, burst := None, active := None, min := None, max := None)
    else if !Positive(p.burst) then p.(burst := None, active := None, min := None, max := None)
    else p.(min := None, max := None)
  }

  function Overlay(c: Config, p: UpdateParams): Config
  {
    c.(name := Or(p.name, c.name), strategy := Or(p.strategy, c.strategy), rate := Or(p.rate, c.rate),
       burst := Or(p.burst, c.burst), active := Or(p.active, c.active),
       min := Or(p.min, c.min), max := Or(p.max, c.max))
  }

  predicate Accepted(c: Config, p: UpdateParams)
  {
    && Positive(p.rate) && Positive(p.burst)
    && (Or(p.strategy, c.strategy) == "adaptive" ==>
          && Positive(p.min) && Positive(p.max)
          && Or(p.min, c.min) < Or(p.rate, c.rate) < Or(p.max, c.max))
  }

  function Clamp(x: real): real
  {
    if x < 0.0 then 0.0 else if x > 1.0 then 1.0 else x
  }

  /** Go's conversion of a float to an int. */
  function Trunc(x: real): int
  {
    if x >= 0.0 then x.Floor else -((-x).Floor)
  }

  function AdaptedRate(min: int, max: int, load: real): int
  {
    Trunc(min as real + Share(1.0 - load, (max - min) as real))
  }

  function Share(factor: real, range: real): real
  {
    factor * range
  }

  function Loaded(c: Config, load: real): Config
  {
    if c.strategy == "adaptive" then c.(load := load) else c
  }

  function Adapted(c: Config): Config
  {
    if c.strategy == "adaptive" then c.(rate := AdaptedRate(c.min, c.max, c.load)) else c
  }

  datatype Event =
    | Create(id: Uuid, create: CreateParams)
    | Update(id: Uuid, update: UpdateParams)
    | Delete(id: Uuid)
    | SystemLoad(load: real)
    | AddLoad(id: Uuid, delta: real)
    | Adapt

  /** Puts a configuration into both indexes. */
  function Stored(s: State, id: Uuid, c: Config): State
  {
    State(s.configs[KeyOf(c) := id], s.byId[id := c])
  }

  function Deleted(s: State, id: Uuid): State
  {
    if id !in s.byId then s else State(s.configs - {KeyOf(s.byId[id])}, s.byId - {id})
  }

  function Step(s: State, e: Event): State
  {
    match e
    case Create(id, p) =>
      if NewConfig(p).None? then s else Stored(s, id, NewConfig(p).value)
    case Update(id, p) =>
      if id !in s.byId then s
      else
        var c := Overlay(s.byId[id], Reached(s.byId[id], p));
        if Accepted(s.byId[id], p) then Stored(s, id, c) else s.(byId := s.byId[id := c])
    case Delete(id) => Deleted(s, id)
    case SystemLoad(load) =>
      if load < 0.0 || load > 1.0 then s else s.(byId := map id | id in s.byId :: Loaded(s.byId[id], load))
    case AddLoad(id, delta) =>
      if id !in s.byId then s else s.(byId := s.byId[id := Loaded(s.byId[id], Clamp(s.byId[id].load + delta))])
    case Adapt =>
      s.(byId := map id | id in s.byId :: Adapted(s.byId[id]))
  }

  // ----- The service, on shared objects -----

  class RateLimitConfig {
    const id: Uuid
    var name: string
    const kind: string
    var strategy: string
    const target: string
    var requestsPerMinute: int
    var burstSize: int
    var isActive: bool
    var minRequestsPerMinute: int
    var maxRequestsPerMinute: int
    var currentLoad: real

    constructor (id: Uuid, p: CreateParams)
      ensures this.id == id
      ensures View() == Active(p)
    {
      this.id, name, kind, strategy, target := id, p.name, p.kind, p.strategy, p.target;
      requestsPerMinute, burstSize, isActive := p.rate, p.burst, true;
      minRequestsPerMinute, maxRequestsPerMinute, currentLoad := p.min, p.max, 0.5;
    }

    ghost function View(): Config
      reads this
    {
      Config(name, kind, strategy, target, requestsPerMinute, burstSize, isActive,
             minRequestsPerMinute, maxRequestsPerMinute, currentLoad)
    }

    /** The first half of UpdateRateLimit's field writes, in the order of the program. */
    method ApplyLimits(p: UpdateParams) returns (ok: bool)
      modifies this
      ensures ok == (Positive(p.rate) && Positive(p.burst))
      ensures View() == Overlay(old(View()), Limits(p))
    {
      if p.name.Some? { name := p.name.value; }
      if p.strategy.Some? { strategy := p.strategy.value; }
      if p.rate.Some? {
        if p.rate.value <= 0 { return false; }
        requestsPerMinute := p.rate.value;
      }
      if p.burst.Some? {
        if p.burst.value <= 0 { return false; }
        burstSize := p.burst.value;
      }
      if p.active.Some? { isActive := p.active.value; }
      return true;
    }

    /** The second half: the bounds of an adaptive configuration. */
    method ApplyBounds(p: UpdateParams) returns (ok: bool)
      modifies this
      ensures View() == old(View()).(min := minRequestsPerMinute, max := maxRequestsPerMinute)
      ensures strategy == "adaptive" ==>
        && minRequestsPerMinute == Or(if Positive(p.min) then p.min else None, old(minRequestsPerMinute))
        && maxRequestsPerMinute ==
             Or(if Positive(p.min) && Positive(p.max) then p.max else None, old(maxRequestsPerMinute))
        && ok == (Positive(p.min) && Positive(p.max) && minRequestsPerMinute < requestsPerMinute < maxRequestsPerMinute)
      ensures strategy != "adaptive" ==> ok && View() == old(View())
    {
      if strategy == "adaptive" {
        if p.min.Some? {
          if p.min.value <= 0 { return false; }
          minRequestsPerMinute := p.min.value;
        }
        if p.max.Some? {
          if p.max.value <= 0 { return false; }
          maxRequestsPerMinute := p.max.value;
        }
        if minRequestsPerMinute >= requestsPerMinute { return false; }
        if maxRequestsPerMinute <= requestsPerMinute { return false; }
      }
      return true;
    }

    method Apply(p: UpdateParams) returns (ok: bool)
      modifies this
      ensures ok == Accepted(old(View()), p)
      ensures View() == Overlay(old(View()), Reached(old(View()), p))
    {
      ok := ApplyLimits(p);
      if ok { ok := ApplyBounds(p); }
    }

    /** Moves the load, keeping it between 0 and 1. */
    method AddLoad(delta: real)
      modifies this`currentLoad
      ensures currentLoad == Clamp(old(currentLoad) + delta)
    {
      currentLoad := currentLoad + delta;
      if currentLoad < 0.0 {
        currentLoad := 0.0;
      } else if currentLoad > 1.0 {
        currentLoad := 1.0;
      }
    }

    /** One configuration's turn in updateAdaptiveRateLimits. */
    method Adapt()
      modifies this
      ensures View() == Adapted(old(View()))
    {
      if strategy != "adaptive" { return; }
      var loadFactor := 1.0 - currentLoad;
      var range := (maxRequestsPerMinute - minRequestsPerMinute) as real;
      var newRate := Trunc(minRequestsPerMinute as real + Share(loadFactor, range));
      if newRate != requestsPerMinute { requestsPerMinute := newRate; }
    }
  }

  class RateLimitService {
    var configs: map<string, RateLimitConfig>
    var configsByID: map<Uuid, RateLimitConfig>

    /** Each config in the (type, target) index sits under its own key and is the very object the
        id index holds under its id. */
    ghost predicate Valid()
      reads this, configsByID.Values
    {
      && (forall id | id in configsByID :: configsByID[id].id == id)
      && (forall k | k in configs ::
            && configs[k].id in configsByID && configsByID[configs[k].id] == configs[k]
            && k == Key(configs[k].kind, configs[k].target))
    }

    ghost function Ids(): map<string, Uuid>
      reads this
    {
      map k | k in configs :: configs[k].id
    }

    ghost function Objects(): map<Uuid, Config>
      reads this, configsByID.Values
    {
      map id | id in configsByID :: configsByID[id].View()
    }

    ghost function View(): State
      reads this, configsByID.Values
    {
      State(Ids(), Objects())
    }

    constructor ()
      ensures Valid() && View() == State(map[], map[])
    {
      configs, configsByID := map[], map[];
    }

    /** The validation and the defaults of CreateRateLimit. */
    static method Prepare(params: CreateParams) returns (ok: bool, p: CreateParams)
      ensures ok == NewConfig(params).Some?
      ensures ok ==> NewConfig(params) == Some(Active(p))
    {
      p := params;
      if p.name == "" { return false, p; }
      if p.kind == "" { return false, p; }
      if p.target == "" && p.kind != "global" { return false, p; }
      if p.rate <= 0 { return false, p; }
      if p.burst <= 0 { return false, p; }
      if p.strategy == "" { p := p.(strategy := "fixed"); }
      if p.strategy == "adaptive" {
        if p.min <= 0 { p := p.(min := p.rate / 2); }
        if p.max <= 0 { p := p.(max := p.rate * 2); }
        if p.min >= p.rate { return false, p; }
        if p.max <= p.rate { return false, p; }
      }
      return true, p;
    }

    method StoreById(config: RateLimitConfig)
      requires Valid() && (config.id in configsByID ==> configsByID[config.id] == config)
      modifies this
      ensures Valid() && Objects() == old(Objects())[config.id := config.View()] && Ids() == old(Ids())
      ensures configs == old(configs) && configsByID == old(configsByID)[config.id := config]
    {
      configsByID := configsByID[config.id := config];
    }

    method StoreByKey(config: RateLimitConfig)
      requires Valid() && config.id in configsByID && configsByID[config.id] == config
      modifies this`configs
      ensures Valid() && Objects() == old(Objects())
      ensures Ids() == old(Ids())[Key(config.kind, config.target) := config.id]
    {
      configs := configs[Key(config.kind, config.target) := config];
    }

    /** Puts a configuration into both indexes. */
    method Store(config: RateLimitConfig)
      requires Valid() && (config.id in configsByID ==> configsByID[config.id] == config)
      modifies this
      ensures Valid() && View() == Stored(old(View()), config.id, config.View())
      ensures configsByID == old(configsByID)[config.id := config]
    {
      StoreById(config);
      StoreByKey(config);
    }

    method CreateRateLimit(id: Uuid, params: CreateParams) returns (config: RateLimitConfig?)
      requires Valid() && id !in configsByID
      modifies this
      ensures Valid() && View() == Step(old(View()), Create(id, params))
      ensures config == null <==> NewConfig(params).None?
      ensures config != null ==> fresh(config) && id in configsByID && configsByID[id] == config
    {
      var ok, p := Prepare(params);
      if !ok { return null; }
      config := new RateLimitConfig(id, p);
      assert View() == old(View());
      Store(config);
    }

    /** Writes an update's fields into one configuration. */
    method ApplyTo(id: Uuid, params: UpdateParams) returns (ok: bool)
      requires Valid() && id in configsByID
      modifies configsByID[id]
      ensures Valid() && Ids() == old(Ids())
      ensures ok == Accepted(old(configsByID[id].View()), params)
      ensures var c := old(configsByID[id].View()); Objects() == old(Objects())[id := Overlay(c, Reached(c, params))]
    {
      ok := configsByID[id].Apply(params);
      assert forall j | j in configsByID && j != id :: configsByID[j].View() == old(configsByID[j].View());
    }

    method UpdateRateLimit(id: Uuid, params: UpdateParams) returns (ok: bool)
      requires Valid()
      modifies this, configsByID.Values
      ensures Valid() && View() == Step(old(View()), Update(id, params))
      ensures ok == (id in old(configsByID) && Accepted(old(configsByID[id].View()), params))
    {
      if id !in configsByID { return false; }
      ok := ApplyTo(id, params);
      if ok { Store(configsByID[id]); }
    }

    method DropKey(key: string)
      requires Valid()
      modifies this`configs
      ensures Valid() && Ids() == old(Ids()) - {key} && Objects() == old(Objects())
      ensures configs == old(configs) - {key}
    {
      configs := configs - {key};
    }

    method DropId(id: Uuid)
      requires Valid() && forall k | k in configs :: configs[k].id != id
      modifies this`configsByID
      ensures Valid() && Objects() == old(Objects()) - {id} && Ids() == old(Ids())
    {
      configsByID := configsByID - {id};
    }

    method DeleteRateLimit(id: Uuid) returns (ok: bool)
      requires Valid()
      modifies this
      ensures Valid() && View() == Deleted(old(View()), id)
      ensures ok == (id in old(configsByID))
    {
      if id !in configsByID { return false; }
      var config := configsByID[id];
      assert forall k | k in configs && configs[k].id == id :: k == Key(config.kind, config.target);
      DropKey(Key(config.kind, config.target));
      DropId(id);
      return true;
    }

    method UpdateSystemLoad(load: real) returns (ok: bool)
      requires Valid()
      modifies configsByID.Values
      ensures Valid() && View() == Step(old(View()), SystemLoad(load))
      ensures ok == (0.0 <= load <= 1.0)
    {
      if load < 0.0 || load > 1.0 { return false; }
      var todo := configsByID.Keys;
      while todo != {}
        invariant Valid() && todo <= configsByID.Keys
        invariant forall id | id in configsByID ::
          configsByID[id].View() ==
            if id in todo then old(configsByID[id].View()) else Loaded(old(configsByID[id].View()), load)
        decreases todo
      {
        var id :| id in todo;
        var config := configsByID[id];
        if config.strategy == "adaptive" { config.currentLoad := load; }
        todo := todo - {id};
      }
      return true;
    }

    /** updateAdaptiveLoad. */
    method UpdateAdaptiveLoad(id: Uuid, delta: real)
      requires Valid()
      modifies configsByID.Values
      ensures Valid() && View() == Step(old(View()), AddLoad(id, delta))
    {
      if id !in configsByID || configsByID[id].strategy != "adaptive" { return; }
      configsByID[id].AddLoad(delta);
    }

    /** One pass of updateAdaptiveRateLimits, in any order. */
    method UpdateAdaptiveRateLimits()
      requires Valid()
      modifies configsByID.Values
      ensures Valid() && View() == Step(old(View()), Event.Adapt)
    {
      var todo := configsByID.Keys;
      while todo != {}
        invariant Valid() && todo <= configsByID.Keys
        invariant forall id | id in configsByID ::
          configsByID[id].View() ==
            if id in todo then old(configsByID[id].View()) else Adapted(old(configsByID[id].View()))
        decreases todo
      {
        var id :| id in todo;
        configsByID[id].Adapt();
        todo := todo - {id};
      }
    }
  }

  // ----- What the steps do, in the fields' own terms -----

  /** Which parameters are refused, and the configuration the others make. */
  lemma CreateMeans(p: CreateParams)
    ensures NewConfig(p).None? <==>
      || p.name == "" || p.kind == "" || (p.target == "" && p.kind != "global") || p.rate <= 0 || p.burst <= 0
      || (p.strategy == "adaptive" && ((p.min > 0 && p.min >= p.rate) || (p.max > 0 && p.max <= p.rate)))
    ensures NewConfig(p).Some? ==>
      var c := NewConfig(p).value;
      && c.name == p.name && c.kind == p.kind && c.target == p.target && c.rate == p.rate && c.burst == p.burst
      && c.active && c.load == 0.5 && c.strategy == (if p.strategy == "" then "fixed" else p.strategy)
      && c.min == (if p.strategy == "adaptive" && p.min <= 0 then p.rate / 2 else p.min)
      && c.max == (if p.strategy == "adaptive" && p.max <= 0 then p.rate * 2 else p.max)
  {
  }

  /** A created config is the one its key and its id lead to; nothing else changes. */
  lemma CreatedMeans(s: State, id: Uuid, p: CreateParams)
    requires NewConfig(p).Some?
    ensures var s' := Step(s, Create(id, p));
      && s'.configs == s.configs[p.kind + ":" + p.target := id] && s'.byId == s.byId[id := NewConfig(p).value]
  {
    CreateMeans(p);
  }

  /** Which updates are refused, and what each field is afterwards: written if given and reached, and only then. */
  lemma UpdateMeans(c: Config, p: UpdateParams)
    ensures var rateOk := p.rate.None? || p.rate.value > 0;
      var burstOk := rateOk && (p.burst.None? || p.burst.value > 0);
      var c' := Overlay(c, Reached(c, p));
      var minOk := burstOk && c'.strategy == "adaptive" && (p.min.None? || p.min.value > 0);
      var maxOk := minOk && (p.max.None? || p.max.value > 0);
      && c'.name == (if p.name.Some? then p.name.value else c.name)
      && c'.strategy == (if p.strategy.Some? then p.strategy.value else c.strategy)
      && c'.rate == (if p.rate.Some? && rateOk then p.rate.value else c.rate)
      && c'.burst == (if p.burst.Some? && burstOk then p.burst.value else c.burst)
      && c'.active == (if p.active.Some? && burstOk then p.active.value else c.active)
      && c'.min == (if p.min.Some? && minOk then p.min.value else c.min)
      && c'.max == (if p.max.Some? && maxOk then p.max.value else c.max)
      && c'.kind == c.kind && c'.target == c.target && c'.load == c.load
      && (Accepted(c, p) <==> burstOk && (c'.strategy == "adaptive" ==> maxOk && c'.min < c'.rate < c'.max))
  {
  }

  /** An update writes into the config of its id alone and, if accepted, points the config's key at it. */
  lemma UpdatedMeans(s: State, id: Uuid, p: UpdateParams)
    requires id in s.byId
    ensures var s', c := Step(s, Update(id, p)), s.byId[id];
      && s'.byId == s.byId[id := Overlay(c, Reached(c, p))]
      && s'.configs == if Accepted(c, p) then s.configs[c.kind + ":" + c.target := id] else s.configs
  {
  }

  /** Deleting takes the id and whatever its key leads to. */
  lemma DeletedMeans(s: State, id: Uuid)
    requires id in s.byId
    ensures var s', c := Step(s, Delete(id)), s.byId[id];
      s'.byId == s.byId - {id} && s'.configs == s.configs - {c.kind + ":" + c.target}
  {
  }

  /** A system load in [0,1] is that of every adaptive config afterwards; an added load is clamped to [0,1]. */
  lemma LoadMeans(s: State, load: real, id: Uuid)
    requires id in s.byId
    ensures var c, c' := s.byId[id], Step(s, SystemLoad(load)).byId[id];
      c' == if c.strategy == "adaptive" && 0.0 <= load <= 1.0 then c.(load := load) else c
    ensures var c, c' := s.byId[id], Step(s, AddLoad(id, load)).byId[id];
      && c' == c.(load := c'.load) && (c.strategy != "adaptive" ==> c' == c)
      && (c.strategy == "adaptive" ==>
            && (c.load + load <= 0.0 ==> c'.load == 0.0) && (c.load + load >= 1.0 ==> c'.load == 1.0)
            && (0.0 <= c.load + load <= 1.0 ==> c'.load == c.load + load))
  {
  }

  /** A pass sets an adaptive rate to the interpolated one cut toward zero, and changes nothing else. */
  lemma PassMeans(s: State, id: Uuid)
    requires id in s.byId
    ensures var c, c' := s.byId[id], Step(s, Event.Adapt).byId[id];
      var x := c.min as real + (1.0 - c.load) * (c.max - c.min) as real;
      && c' == c.(rate := c'.rate) && (c.strategy != "adaptive" ==> c' == c)
      && (c.strategy == "adaptive" && x >= 0.0 ==> c'.rate as real <= x < c'.rate as real + 1.0)
      && (c.strategy == "adaptive" && x < 0.0 ==> c'.rate as real - 1.0 < x <= c'.rate as real)
  {
  }

  // ----- Whole runs -----

  /** A run of a new service; every id that Create draws is fresh. */
  ghost predicate Run(events: seq<Event>, states: seq<State>)
  {
    && |states| == |events| + 1 && states[0] == State(map[], map[])
    && forall i | 0 <= i < |events| :: StepAt(events, states, i)
  }

  ghost predicate StepAt(events: seq<Event>, states: seq<State>, i: nat)
    requires i < |events| && |states| == |events| + 1
  {
    && (events[i].Create? ==> events[i].id !in states[i].byId)
    && states[i + 1] == Step(states[i], events[i])
  }

  /** Every config of the (type, target) index is in the id index and sits under its own key; loads are in [0,1]. */
  ghost predicate Inv(s: State)
  {
    && (forall k | k in s.configs :: s.configs[k] in s.byId && KeyOf(s.byId[s.configs[k]]) == k)
    && (forall id | id in s.byId :: 0.0 <= s.byId[id].load <= 1.0)
  }

  /** Every config of the id index is the one its key leads to. */
  ghost predicate Complete(s: State)
  {
    forall id | id in s.byId :: KeyOf(s.byId[id]) in s.configs && s.configs[KeyOf(s.byId[id])] == id
  }

  lemma StoredInv(s: State, id: Uuid, c: Config)
    requires Inv(s) && 0.0 <= c.load <= 1.0 && (id in s.byId ==> KeyOf(c) == KeyOf(s.byId[id]))
    ensures Inv(Stored(s, id, c)) && Inv(s.(byId := s.byId[id := c]))
  {
  }

  lemma DeletedInv(s: State, id: Uuid)
    requires Inv(s)
    ensures Inv(Deleted(s, id))
  {
  }

  lemma StepInv(s: State, e: Event)
    requires Inv(s) && (e.Create? ==> e.id !in s.byId)
    ensures Inv(Step(s, e))
  {
    match e
    case Create(id, p) => if NewConfig(p).Some? { StoredInv(s, id, NewConfig(p).value); }
    case Update(id, p) =>
      if id in s.byId {
        var c := Overlay(s.byId[id], Reached(s.byId[id], p));
        StoredInv(s, id, c);
      }
    case Delete(id) => DeletedInv(s, id);
    case SystemLoad(load) =>
    case AddLoad(id, delta) =>
    case Adapt =>
  }

  /** Index agreement over every run. */
  lemma {:induction false} RunInv(events: seq<Event>, states: seq<State>, n: nat)
    requires Run(events, states) && n <= |events|
    ensures Inv(states[n])
  {
    if n > 0 {
      RunInv(events, states, n - 1);
      assert StepAt(events, states, n - 1);
      StepInv(states[n - 1], events[n - 1]);
    }
  }

  /** An accepted Create for a (type, target) that a config already holds. */
  ghost predicate Recreates(s: State, e: Event)
  {
    e.Create? && NewConfig(e.create).Some? && Key(e.create.kind, e.create.target) in s.configs
  }

  /** A step keeps the two indexes in bijection exactly when it does not re-create a live key. */
  lemma StepComplete(s: State, e: Event)
    requires Inv(s) && Complete(s) && (e.Create? ==> e.id !in s.byId)
    ensures Complete(Step(s, e)) <==> !Recreates(s, e)
  {
    var s' := Step(s, e);
    match e
    case Create(id, p) =>
      if Recreates(s, e) {
        var other := s.configs[Key(p.kind, p.target)];
        assert other in s'.byId && s'.configs[KeyOf(s'.byId[other])] == id != other;
      }
    case Update(id, p) =>
    case Delete(id) =>
    case SystemLoad(load) =>
    case AddLoad(id, delta) =>
    case Adapt =>
  }

  ghost predicate RecreatesAt(events: seq<Event>, states: seq<State>, i: nat)
    requires i < |events| && |states| == |events| + 1
  {
    Recreates(states[i], events[i])
  }

  lemma {:induction false} CompleteUpTo(events: seq<Event>, states: seq<State>, n: nat)
    requires Run(events, states) && n <= |events|
    requires forall i | 0 <= i < n :: !RecreatesAt(events, states, i)
    ensures Complete(states[n])
  {
    if n > 0 {
      CompleteUpTo(events, states, n - 1);
      RunInv(events, states, n - 1);
      assert StepAt(events, states, n - 1) && !RecreatesAt(events, states, n - 1);
      StepComplete(states[n - 1], events[n - 1]);
    }
  }

  /** The two indexes stay in bijection throughout a run if and only if it never re-creates a live key. */
  lemma BijectionExactly(events: seq<Event>, states: seq<State>)
    requires Run(events, states)
    ensures (forall n | 0 <= n <= |events| :: Complete(states[n])) <==>
            (forall i | 0 <= i < |events| :: !RecreatesAt(events, states, i))
  {
    if forall i | 0 <= i < |events| :: !RecreatesAt(events, states, i) {
      forall n | 0 <= n <= |events| ensures Complete(states[n]) { CompleteUpTo(events, states, n); }
    } else {
      var i :| 0 <= i < |events| && RecreatesAt(events, states, i);
      RunInv(events, states, i);
      assert StepAt(events, states, i);
      if Complete(states[i]) { StepComplete(states[i], events[i]); }
    }
  }

  /** Re-creating a live key and then deleting the old config takes the new one out of force:
      it stays in the id index while its key leads nowhere. */
  lemma DeleteOrphans(p: CreateParams) returns (events: seq<Event>, states: seq<State>)
    requires NewConfig(p).Some?
    ensures Run(events, states) && |events| == 3
    ensures states[3].byId == map[1 := NewConfig(p).value] && Key(p.kind, p.target) !in states[3].configs
  {
    events := [Create(0, p), Create(1, p), Delete(0)];
    var s0 := State(map[], map[]);
    var s1 := Step(s0, events[0]);
    var s2 := Step(s1, events[1]);
    var s3 := Step(s2, events[2]);
    states := [s0, s1, s2, s3];
    assert StepAt(events, states, 0) && StepAt(events, states, 1) && StepAt(events, states, 2);
  }

  /** The index key tells (type, target) pairs apart when types hold no colon, as the defined types do. */
  lemma KeyExact(kind: string, target: string, kind': string, target': string)
    requires ':' !in kind && ':' !in kind'
    ensures Key(kind, target) == Key(kind', target') <==> kind == kind' && target == target'
  {
    if Key(kind, target) == Key(kind', target') { CutUnique(kind, target, kind', target', ':'); }
  }

  // ----- Failing updates -----

  /** A refused update is not undone: an invalid rate leaves the new name in place. */
  lemma RefusedUpdateRenames(s: State, id: Uuid, name: string)
    requires id in s.byId
    ensures var p := UpdateParams(Some(name), None, Some(0), None, None, None, None);
            !Accepted(s.byId[id], p) && Step(s, Update(id, p)).byId[id].name == name
  {
  }

  /** Nor are the bounds: Min < rate can be lost through a refused update. */
  lemma RefusedUpdateBreaksBounds(s: State, id: Uuid)
    requires id in s.byId && s.byId[id].strategy == "adaptive" && s.byId[id].rate > 0
    ensures var p := UpdateParams(None, None, None, None, None, Some(s.byId[id].rate), None);
            var c := Step(s, Update(id, p)).byId[id];
            !Accepted(s.byId[id], p) && c.min == c.rate
  {
  }

  // ----- The adaptive rate -----

  lemma TruncBetween(a: int, x: real, b: int)
    requires a as real <= x <= b as real
    ensures a <= Trunc(x) <= b
  {
  }

  lemma TruncMonotone(x: real, y: real)
    requires x <= y
    ensures Trunc(x) <= Trunc(y)
  {
  }

  lemma ShareOf(f: real, d: real)
    requires 0.0 <= f <= 1.0
    ensures 0.0 <= Share(f, d) <= d || d <= Share(f, d) <= 0.0
    ensures (f == 0.0 ==> Share(f, d) == 0.0) && (f == 1.0 ==> Share(f, d) == d)
  {
    if d >= 0.0 {
      ShareMonotone(0.0, f, d);
      ShareMonotone(f, 1.0, d);
    } else {
      ShareMonotone(0.0, f, -d);
      ShareMonotone(f, 1.0, -d);
      assert Share(f, -d) == -Share(f, d);
    }
  }

  lemma TruncOffset(min: int, max: int, y: real)
    requires 0.0 <= y <= (max - min) as real || (max - min) as real <= y <= 0.0
    ensures min <= Trunc(min as real + y) <= max || max <= Trunc(min as real + y) <= min
    ensures y == 0.0 ==> Trunc(min as real + y) == min
    ensures y == (max - min) as real ==> Trunc(min as real + y) == max
  {
    assert (max - min) as real == max as real - min as real;
    if min <= max { TruncBetween(min, min as real + y, max); } else { TruncBetween(max, min as real + y, min); }
  }

  /** Min and Max bound the rate in either order, and are met at the ends of the load range. */
  lemma RateBetween(min: int, max: int, load: real)
    requires 0.0 <= load <= 1.0
    ensures min <= AdaptedRate(min, max, load) <= max || max <= AdaptedRate(min, max, load) <= min
    ensures load == 0.0 ==> AdaptedRate(min, max, load) == max
    ensures load == 1.0 ==> AdaptedRate(min, max, load) == min
  {
    ShareOf(1.0 - load, (max - min) as real);
    TruncOffset(min, max, Share(1.0 - load, (max - min) as real));
  }

  lemma ShareMonotone(f: real, g: real, d: real)
    requires f <= g && d >= 0.0
    ensures Share(f, d) <= Share(g, d)
  {
    assert (g - f) * d >= 0.0;
  }

  /** More load never means a higher rate. */
  lemma RateFalls(min: int, max: int, load: real, load': real)
    requires min <= max && load <= load'
    ensures AdaptedRate(min, max, load) >= AdaptedRate(min, max, load')
  {
    var d := (max - min) as real;
    ShareMonotone(1.0 - load', 1.0 - load, d);
    TruncMonotone(min as real + Share(1.0 - load', d), min as real + Share(1.0 - load, d));
  }

  /** Adaptive rate bound: in every run, after each updater pass the rate of every adaptive config
      lies between its Min and Max and is the one its load calls for. */
  lemma RunRateBound(events: seq<Event>, states: seq<State>, i: nat, id: Uuid)
    requires Run(events, states) && i < |events| && events[i].Adapt?
    requires id in states[i + 1].byId && states[i + 1].byId[id].strategy == "adaptive"
    ensures var c := states[i + 1].byId[id];
            && 0.0 <= c.load <= 1.0
            && (c.min <= c.rate <= c.max || c.max <= c.rate <= c.min)
            && (c.load == 0.0 ==> c.rate == c.max) && (c.load == 1.0 ==> c.rate == c.min)
  {
    RunInv(events, states, i);
    assert StepAt(events, states, i);
    var c := states[i].byId[id];
    RateBetween(c.min, c.max, c.load);
  }

  /** At full load the rate sits on Min, so an adaptive config refuses every update that leaves
      rate, Min and strategy alone. */
  lemma FullLoadRefuses(c: Config, p: UpdateParams)
    requires c.strategy == "adaptive" && c.load == 1.0
    requires p.rate.None? && p.min.None? && p.strategy.None?
    ensures !Accepted(Adapted(c), p)
  {
    RateBetween(c.min, c.max, c.load);
  }

  /** The default Min of a rate of 1 is 0, which full load then makes the rate. */
  lemma RateReachesZero(id: Uuid) returns (events: seq<Event>, states: seq<State>)
    ensures Run(events, states) && |events| == 3
    ensures id in states[3].byId && states[3].byId[id].rate == 0
  {
    var p := CreateParams("n", "user", "adaptive", "u", 1, 1, 0, 0);
    events := [Create(id, p), SystemLoad(1.0), Event.Adapt];
    var s0 := State(map[], map[]);
    var s1 := Step(s0, events[0]);
    var s2 := Step(s1, events[1]);
    var s3 := Step(s2, events[2]);
    states := [s0, s1, s2, s3];
    assert StepAt(events, states, 0) && StepAt(events, states, 1) && StepAt(events, states, 2);
    RateBetween(0, 2, 1.0);
  }
}
