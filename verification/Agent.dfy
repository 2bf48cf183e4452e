/** authz/agent.go: policy evaluation behind the decision cache. */
module Agent {
  import opened Text
  import opened NormalForm
  import opened Fields
  import opened MemoryCache

  type Modules = map<string, string>

  /** What a prepared Rego query yields, as far as evaluateLocalPolicy looks at it. */
  datatype RegoResult =
    | EvalError
    | NoResult
    | BoolResult(b: bool)
    | ObjectResult(allowed: Option<bool>, reason: Option<string>)
    | OtherResult

  /** Configuration, and the parts of the agent's world that are not in this repository:
      the Rego compiler and evaluator, SHA-256, and the caller's transformers. */
  datatype Env = Env(
    defaultQuery: string,
    compiles: Modules -> bool,
    eval: (Modules, Value) -> RegoResult,
    transformers: seq<Value -> Option<Value>>,
    sha256: string -> string,
    caching: bool,
    ttl: int,
    maxEntries: int,
    keyFields: seq<string>)

  datatype Verdict = Verdict(allowed: bool, reason: string)

  /** How evaluateLocalPolicy reads a result; None is an error. */
  function Interpret(r: RegoResult): Option<Verdict>
  {
    match r
    case EvalError => None
    case BoolResult(b) => Some(Verdict(b, ""))
    case ObjectResult(a, s) => Some(Verdict(a == Some(true), if s.Some? then s.value else ""))
    case _ => Some(Verdict(false, ""))
  }

  /** Plain evaluation of a query by the prepared policies; only prepared queries can be asked. */
  function Decide(env: Env, queries: map<string, Modules>, query: string, x: Value): Option<Verdict>
  {
    if query in queries then Interpret(env.eval(queries[query], x)) else None
  }

  /** The chain of context transformers. */
  function Transform(ts: seq<Value -> Option<Value>>, x: Value): Option<Value>
  {
    if ts == [] then Some(x)
    else match ts[0](x)
      case None => None
      case Some(y) => Transform(ts[1..], y)
  }

  /** generateCacheKey; None when the input cannot be normalised. */
  ghost function KeyOf(env: Env, query: string, x: Value): Option<string>
  {
    if Marshals(Filtered(x, env.keyFields)) then Some(env.sha256(KeyText(query, x, env.keyFields))) else None
  }

  datatype State = State(localPolicies: Modules, queries: map<string, Modules>, store: Store)

  /** The answer an evaluation gives to its caller, without the Cached and Timestamp marks. */
  function Answer(out: Option<Decision>): Option<Verdict>
  {
    match out
    case None => None
    case Some(d) => Some(Verdict(d.allowed, d.reason))
  }

  function Mark(v: Verdict, now: int): Decision { Decision(v.allowed, v.reason, false, now) }

  /** EvaluateQuery on a transformed input, under its cache key. */
  ghost predicate EvaluatesKeyed(env: Env, s: State, query: string, x: Value, key: string, now: int,
      s': State, out: Option<Decision>)
  {
    var found := Found(s.store, key, now);
    var looked := s.(store := Looked(s.store, key, now));
    if found.Some? then s' == looked && out == Some(found.value.(cached := true))
    else match Decide(env, s.queries, query, x)
      case None => s' == looked && out == None
      case Some(v) =>
        && out == Some(Mark(v, now))
        && Sets(looked.store, key, Mark(v, now), env.ttl, now, s'.store)
        && s' == s.(store := s'.store)
  }

  ghost predicate Evaluates(env: Env, s: State, query: string, input: Value, now: int, s': State, out: Option<Decision>)
  {
    match Transform(env.transformers, input)
    case None => s' == s && out == None
    case Some(x) =>
      if env.caching && KeyOf(env, query, x).Some? then
        EvaluatesKeyed(env, s, query, x, KeyOf(env, query, x).value, now, s', out)
      else
        && s' == s
        && out == match Decide(env, s.queries, query, x) case None => None case Some(v) => Some(Mark(v, now))
  }

  /** UpdatePolicies: a set that does not compile is recorded, but the prepared query and
      the cache stay as they were. */
  function Updated(env: Env, s: State, policies: Modules): State
  {
    if env.compiles(policies) then
      State(policies, s.queries[env.defaultQuery := policies], if env.caching then Cleared(s.store) else s.store)
    else
      s.(localPolicies := policies)
  }

  function NewState(env: Env, policies: Modules): State
  {
    State(policies, map[env.defaultQuery := policies],
          Store(map[], [], if env.maxEntries <= 0 then 1000 else env.maxEntries))
  }

  // ----- The agent as the Go type -----

  class AuthzAgent {
    const env: Env
    var localPolicies: Modules
    var queries: map<string, Modules>
    const cache: Cache

    ghost function View(): State
      reads this, cache
    {
      State(localPolicies, queries, cache.View())
    }

    ghost predicate Valid()
      reads this, cache
    {
      cache.Timed()
    }

    /** New, for policies that compile. */
    constructor (env: Env, policies: Modules)
      requires env.compiles(policies)
      ensures this.env == env && fresh(cache) && Valid()
      ensures View() == NewState(env, policies)
    {
      this.env := env;
      localPolicies, queries := policies, map[env.defaultQuery := policies];
      cache := new Cache(env.maxEntries);
    }

    method GenerateCacheKey(query: string, x: Value) returns (key: Option<string>)
      ensures key == KeyOf(env, query, x)
    {
      var filtered := Filtered(x, env.keyFields);
      var normalized := NormalizeForHashing(filtered);
      if normalized.None? { return None; }
      key := Some(env.sha256(query + ":" + normalized.value));
    }

    method ApplyTransformers(input: Value) returns (r: Option<Value>)
      ensures r == Transform(env.transformers, input)
    {
      var x := input;
      for n := 0 to |env.transformers|
        invariant Transform(env.transformers, input) == Transform(env.transformers[n..], x)
      {
        assert env.transformers[n..][1..] == env.transformers[n + 1..];
        var y := env.transformers[n](x);
        if y.None? { return None; }
        x := y.value;
      }
      r := Some(x);
    }

    method EvaluateQuery(query: string, input: Value, now: int) returns (out: Option<Decision>)
      requires Valid() && now > 0
      modifies this, cache
      ensures Valid() && Evaluates(env, old(View()), query, input, now, View(), out)
    {
      var transformed := ApplyTransformers(input);
      if transformed.None? { return None; }
      var x := transformed.value;
      if env.caching {
        var key := GenerateCacheKey(query, x);
        if key.Some? {
          var decision, found := cache.Get(key.value, now);
          if found { return Some(decision.(cached := true)); }
        }
      }
      var verdict := EvaluateLocalPolicy(query, x);
      if verdict.None? { return None; }
      var decision := Mark(verdict.value, now);
      if env.caching {
        var key := GenerateCacheKey(query, x);
        if key.Some? { cache.Set(key.value, decision, env.ttl, now); }
      }
      out := Some(decision);
    }

    method EvaluateLocalPolicy(query: string, x: Value) returns (v: Option<Verdict>)
      ensures v == Decide(env, queries, query, x)
      ensures v.None? <==> query !in queries || env.eval(queries[query], x).EvalError?
      ensures v.Some? ==>
        var result := env.eval(queries[query], x);
        && (v.value.allowed <==> result == BoolResult(true) || (result.ObjectResult? && result.allowed == Some(true)))
        && v.value.reason == if result.ObjectResult? && result.reason.Some? then result.reason.value else ""
    {
      if query !in queries { return None; }
      var result := env.eval(queries[query], x);
      if result.EvalError? { return None; }
      var allowed, reason := false, "";
      if result.BoolResult? {
        allowed := result.b;
      } else if result.ObjectResult? {
        if result.allowed.Some? { allowed := result.allowed.value; }
        if result.reason.Some? { reason := result.reason.value; }
      }
      v := Some(Verdict(allowed, reason));
    }

    method UpdatePolicies(policies: Modules) returns (ok: bool)
      requires Valid()
      modifies this, cache
      ensures Valid() && ok == env.compiles(policies) && View() == Updated(env, old(View()), policies)
      ensures localPolicies == policies
      ensures queries == if ok then old(queries)[env.defaultQuery := policies] else old(queries)
      ensures if ok && env.caching then cache.entries == map[] else cache.View() == old(cache.View())
    {
      localPolicies := policies;
      if !env.compiles(policies) { return false; }
      queries := queries[env.defaultQuery := policies];
      if env.caching { cache.Clear(); }
      ok := true;
    }
  }

  /** New: no policies, or policies that do not compile, are an error, and there is no agent. */
  method NewAgent(env: Env, policies: Modules) returns (agent: AuthzAgent?)
    ensures agent == null <==> policies == map[] || !env.compiles(policies)
    ensures agent != null ==> fresh(agent) && fresh(agent.cache) && agent.env == env && agent.Valid()
    ensures agent != null ==> agent.View() == NewState(env, policies)
  {
    if |policies| == 0 { return null; }
    if !env.compiles(policies) { return null; }
    agent := new AuthzAgent(env, policies);
  }

  // ----- Whole runs -----

  datatype Event = Evaluate(query: string, input: Value) | Update(policies: Modules) | Cleanup

  /** A run of an agent: what happened when, the state before and after each event, and
      what each evaluation returned. */
  datatype AgentRun = AgentRun(
    policies: Modules, events: seq<Event>, times: seq<int>, states: seq<State>, outs: seq<Option<Decision>>)

  /** A run from any policies that compile; the empty set, which New refuses, is what an update can lead to. */
  ghost predicate IsRun(env: Env, r: AgentRun)
  {
    && env.compiles(r.policies)
    && |r.times| == |r.events| == |r.outs| && |r.states| == |r.events| + 1
    && r.states[0] == NewState(env, r.policies)
    && forall i | 0 <= i < |r.events| :: Moves(env, r, i)
  }

  ghost predicate Moves(env: Env, r: AgentRun, i: nat)
    requires i < |r.events| == |r.times| == |r.outs| && |r.states| == |r.events| + 1
  {
    r.times[i] > 0 && Happens(env, r.states[i], r.events[i], r.times[i], r.states[i + 1], r.outs[i])
  }

  ghost predicate Happens(env: Env, s: State, e: Event, now: int, s': State, out: Option<Decision>)
  {
    match e
    case Evaluate(q, input) => Evaluates(env, s, q, input, now, s', out)
    case Update(policies) => s' == Updated(env, s, policies)
    case Cleanup => s' == s.(store := Cleaned(s.store, now))
  }

  /** The policies in force after n events: the last ones that compiled. */
  function InForce(env: Env, r: AgentRun, n: nat): Modules
    requires n <= |r.events|
  {
    if n == 0 then r.policies
    else match r.events[n - 1]
      case Update(p) => if env.compiles(p) then p else InForce(env, r, n - 1)
      case _ => InForce(env, r, n - 1)
  }

  /** What an agent without a cache answers. */
  function Plain(env: Env, policies: Modules, query: string, input: Value): Option<Verdict>
  {
    match Transform(env.transformers, input)
    case None => None
    case Some(x) => Decide(env, map[env.defaultQuery := policies], query, x)
  }

  /** Every evaluation of the run answers as plain evaluation by the policies in force would. */
  ghost predicate Transparent(env: Env, r: AgentRun)
    requires IsRun(env, r)
  {
    forall i | 0 <= i < |r.events| && r.events[i].Evaluate? ::
      Answer(r.outs[i]) == Plain(env, InForce(env, r, i), r.events[i].query, r.events[i].input)
  }

  ghost predicate Arises(env: Env, x: Value)
  {
    exists input :: Transform(env.transformers, input) == Some(x)
  }

  /** The policy gives the same answer to any two requests with the same cache key. */
  ghost predicate Respects(env: Env, policies: Modules)
  {
    forall q, x, q', x' |
      && Arises(env, x) && Arises(env, x')
      && KeyOf(env, q, x).Some? && KeyOf(env, q, x) == KeyOf(env, q', x') ::
      Decide(env, map[env.defaultQuery := policies], q, x) == Decide(env, map[env.defaultQuery := policies], q', x')
  }

  /** Every cached decision is what the policies decide, for every request with its key. */
  ghost predicate Coherent(env: Env, policies: Modules, store: Store)
  {
    forall k, q, x | k in store.entries && Arises(env, x) && KeyOf(env, q, x) == Some(k) ::
      Decide(env, map[env.defaultQuery := policies], q, x) ==
        Some(Verdict(store.entries[k].decision.allowed, store.entries[k].decision.reason))
  }

  /** store' adds no decision that store lacks. */
  ghost predicate Narrows(store': Store, store: Store)
  {
    forall k | k in store'.entries :: k in store.entries && store'.entries[k].decision == store.entries[k].decision
  }

  lemma NarrowsCoherent(env: Env, policies: Modules, store: Store, store': Store)
    requires Coherent(env, policies, store) && Narrows(store', store)
    ensures Coherent(env, policies, store')
  {
  }

  lemma SetsNarrows(s: Store, key: string, d: Decision, ttl: int, now: int, s': Store)
    requires Sets(s, key, d, ttl, now, s')
    ensures key in s'.entries && s'.entries[key] == Entry(d, if ttl > 0 then now + ttl else 0, now)
    ensures forall k | k in s'.entries && k != key :: k in s.entries && s'.entries[k] == s.entries[k]
  {
  }

  lemma KeyedCoherent(env: Env, policies: Modules, s: State, query: string, x: Value, key: string, now: int,
      s': State, out: Option<Decision>)
    requires s.queries == map[env.defaultQuery := policies]
    requires Respects(env, policies) && Coherent(env, policies, s.store)
    requires Arises(env, x) && KeyOf(env, query, x) == Some(key)
    requires EvaluatesKeyed(env, s, query, x, key, now, s', out)
    ensures s'.queries == s.queries && Coherent(env, policies, s'.store)
    ensures Answer(out) == Decide(env, s.queries, query, x)
  {
    var looked := Looked(s.store, key, now);
    assert Narrows(looked, s.store);
    NarrowsCoherent(env, policies, s.store, looked);
    if Found(s.store, key, now).None? && Decide(env, s.queries, query, x).Some? {
      SetsNarrows(looked, key, Mark(Decide(env, s.queries, query, x).value, now), env.ttl, now, s'.store);
    }
  }

  lemma MoveCoherent(env: Env, r: AgentRun, i: nat)
    requires IsRun(env, r) && i < |r.events|
    requires env.caching ==> Respects(env, InForce(env, r, i))
    requires r.states[i].queries == map[env.defaultQuery := InForce(env, r, i)]
    requires env.caching ==> Coherent(env, InForce(env, r, i), r.states[i].store)
    ensures r.states[i + 1].queries == map[env.defaultQuery := InForce(env, r, i + 1)]
    ensures env.caching ==> Coherent(env, InForce(env, r, i + 1), r.states[i + 1].store)
    ensures r.events[i].Evaluate? ==>
      Answer(r.outs[i]) == Plain(env, InForce(env, r, i), r.events[i].query, r.events[i].input)
  {
    assert Moves(env, r, i);
    var s, s' := r.states[i], r.states[i + 1];
    match r.events[i]
    case Evaluate(q, input) =>
      match Transform(env.transformers, input) {
        case None =>
        case Some(x) =>
          assert Arises(env, x);
          if env.caching && KeyOf(env, q, x).Some? {
            KeyedCoherent(env, InForce(env, r, i), s, q, x, KeyOf(env, q, x).value, r.times[i], s', r.outs[i]);
          }
      }
    case Update(_) =>
    case Cleanup =>
      if env.caching { NarrowsCoherent(env, InForce(env, r, i), s.store, s'.store); }
  }

  lemma {:induction false} RunCoherent(env: Env, r: AgentRun, n: nat)
    requires IsRun(env, r) && n <= |r.events|
    requires env.caching ==> forall i | 0 <= i <= |r.events| :: Respects(env, InForce(env, r, i))
    ensures r.states[n].queries == map[env.defaultQuery := InForce(env, r, n)]
    ensures env.caching ==> Coherent(env, InForce(env, r, n), r.states[n].store)
  {
    if n > 0 {
      RunCoherent(env, r, n - 1);
      assert env.caching ==> Respects(env, InForce(env, r, n - 1));
      MoveCoherent(env, r, n - 1);
    }
  }

  /** Cache transparency: a run whose policies in force all respect the cache key answers every
      request as plain evaluation would, through updates that compile or fail, evictions,
      expiries and cleanups. */
  lemma RunTransparent(env: Env, r: AgentRun)
    requires IsRun(env, r)
    requires env.caching ==> forall i | 0 <= i <= |r.events| :: Respects(env, InForce(env, r, i))
    ensures Transparent(env, r)
  {
    forall i | 0 <= i < |r.events| && r.events[i].Evaluate?
      ensures Answer(r.outs[i]) == Plain(env, InForce(env, r, i), r.events[i].query, r.events[i].input)
    {
      RunCoherent(env, r, i);
      assert env.caching ==> Respects(env, InForce(env, r, i));
      MoveCoherent(env, r, i);
    }
  }

  /** The values between the transformers, each the next one's result on the one before. */
  ghost predicate Chained(ts: seq<Value -> Option<Value>>, xs: seq<Value>)
  {
    0 < |xs| <= |ts| + 1 && forall k | 0 <= k < |xs| - 1 :: ts[k](xs[k]) == Some(xs[k + 1])
  }

  lemma {:induction false} ChainTransforms(ts: seq<Value -> Option<Value>>, xs: seq<Value>)
    requires Chained(ts, xs)
    ensures |xs| == |ts| + 1 ==> Transform(ts, xs[0]) == Some(xs[|ts|])
    ensures |xs| <= |ts| && ts[|xs| - 1](xs[|xs| - 1]).None? ==> Transform(ts, xs[0]) == None
    decreases |ts|
  {
    if |xs| > 1 {
      assert ts[0](xs[0]) == Some(xs[1]);
      forall k | 0 <= k < |xs[1..]| - 1 ensures ts[1..][k](xs[1..][k]) == Some(xs[1..][k + 1]) {
        assert ts[k + 1](xs[k + 1]) == Some(xs[k + 2]);
      }
      ChainTransforms(ts[1..], xs[1..]);
    }
  }

  /** What callers get: in a run whose policies in force respect the key, an evaluation whose transformers all succeed
      is answered by what the policies in force evaluate to on the transformed input, and is an error exactly
      if that evaluation is or the query is not the prepared one. */
  lemma AnswersMeanResults(env: Env, r: AgentRun, i: nat, xs: seq<Value>)
    requires IsRun(env, r) && i < |r.events| && r.events[i].Evaluate?
    requires env.caching ==> forall j | 0 <= j <= |r.events| :: Respects(env, InForce(env, r, j))
    requires Chained(env.transformers, xs) && |xs| == |env.transformers| + 1 && xs[0] == r.events[i].input
    ensures var result := env.eval(InForce(env, r, i), xs[|xs| - 1]);
            && (r.outs[i].None? <==> r.events[i].query != env.defaultQuery || result.EvalError?)
            && (r.outs[i].Some? ==>
                  && (r.outs[i].value.allowed <==>
                        result == BoolResult(true) || (result.ObjectResult? && result.allowed == Some(true)))
                  && r.outs[i].value.reason ==
                       if result.ObjectResult? && result.reason.Some? then result.reason.value else "")
  {
    RunTransparent(env, r);
    ChainTransforms(env.transformers, xs);
    var p, q, x := InForce(env, r, i), r.events[i].query, xs[|xs| - 1];
    assert Answer(r.outs[i]) == Plain(env, p, q, r.events[i].input) == Decide(env, map[env.defaultQuery := p], q, x);
  }

  /** An evaluation one of whose transformers fails is an error. */
  lemma FailedTransformer(env: Env, r: AgentRun, i: nat, xs: seq<Value>)
    requires IsRun(env, r) && i < |r.events| && r.events[i].Evaluate?
    requires Chained(env.transformers, xs) && |xs| <= |env.transformers| && xs[0] == r.events[i].input
    requires env.transformers[|xs| - 1](xs[|xs| - 1]).None?
    ensures r.outs[i].None? && r.states[i + 1] == r.states[i]
  {
    ChainTransforms(env.transformers, xs);
    assert Moves(env, r, i);
  }

  /** A decision is marked as cached exactly if a live entry under its key served it; otherwise it carries the
      instant of its evaluation, and is stored under that key for one TTL, or for good without a TTL. */
  lemma MarksExactly(env: Env, s: State, q: string, input: Value, x: Value, key: string, now: int, s': State,
      d: Decision)
    requires Evaluates(env, s, q, input, now, s', Some(d)) && env.caching
    requires Transform(env.transformers, input) == Some(x) && KeyOf(env, q, x) == Some(key)
    ensures d.cached <==>
      key in s.store.entries && (s.store.entries[key].expiration == 0 || now <= s.store.entries[key].expiration)
    ensures if d.cached then d == s.store.entries[key].decision.(cached := true) else d.timestamp == now
    ensures !d.cached ==>
      key in s'.store.entries && s'.store.entries[key] == Entry(d, if env.ttl > 0 then now + env.ttl else 0, now)
  {
    if Found(s.store, key, now).None? {
      SetsNarrows(Looked(s.store, key, now), key, d, env.ttl, now, s'.store);
    }
  }

  lemma {:induction false} InForceCompiles(env: Env, r: AgentRun, n: nat)
    requires IsRun(env, r) && n <= |r.events|
    ensures env.compiles(InForce(env, r, n))
  {
    if n > 0 { InForceCompiles(env, r, n - 1); }
  }

  /** If two requests share a key and the policy decides only the first one so, asking the
      first and then the second gives the second the first one's answer. */
  lemma ClashRun(env: Env, policies: Modules, q: string, input: Value, x: Value, q': string, input': Value, x': Value)
    returns (r: AgentRun)
    requires env.caching && env.compiles(policies)
    requires Transform(env.transformers, input) == Some(x) && Transform(env.transformers, input') == Some(x')
    requires KeyOf(env, q, x).Some? && KeyOf(env, q, x) == KeyOf(env, q', x')
    requires Decide(env, map[env.defaultQuery := policies], q, x).Some?
    requires var qs := map[env.defaultQuery := policies]; Decide(env, qs, q, x) != Decide(env, qs, q', x')
    ensures IsRun(env, r) && !Transparent(env, r)
  {
    var key, v := KeyOf(env, q, x).value, Decide(env, map[env.defaultQuery := policies], q, x).value;
    var first := FirstStores(env, policies, q, input, x, key, v);
    r := SecondHits(env, first, q', input', x', key, Mark(v, 1));
  }

  function Extended(r: AgentRun, e: Event, s': State, out: Option<Decision>): AgentRun
  {
    r.(events := r.events + [e], times := r.times + [1], states := r.states + [s'], outs := r.outs + [out])
  }

  lemma ExtendRun(env: Env, r: AgentRun, e: Event, s': State, out: Option<Decision>)
    requires IsRun(env, r) && Happens(env, r.states[|r.events|], e, 1, s', out)
    ensures IsRun(env, Extended(r, e, s', out))
  {
    var r' := Extended(r, e, s', out);
    forall i | 0 <= i < |r'.events| ensures Moves(env, r', i) {
      if i < |r.events| { assert Moves(env, r, i); }
    }
  }

  lemma MissHappens(env: Env, s: State, q: string, input: Value, x: Value, key: string, v: Verdict)
    requires env.caching && Transform(env.transformers, input) == Some(x) && KeyOf(env, q, x) == Some(key)
    requires Decide(env, s.queries, q, x) == Some(v) && s.store.entries == map[] && s.store.maxEntries > 0
    ensures var s' := s.(store := Put(s.store, key, Mark(v, 1), env.ttl, 1));
            Happens(env, s, Evaluate(q, input), 1, s', Some(Mark(v, 1)))
  {
    assert |s.store.entries| == 0;
  }

  lemma HitHappens(env: Env, s: State, q: string, input: Value, x: Value, key: string, d: Decision)
    requires env.caching && Transform(env.transformers, input) == Some(x) && KeyOf(env, q, x) == Some(key)
    requires Found(s.store, key, 1) == Some(d)
    ensures Happens(env, s, Evaluate(q, input), 1, s.(store := Looked(s.store, key, 1)), Some(d.(cached := true)))
  {
  }

  /** A run of one evaluation, which stores its decision. */
  lemma FirstStores(env: Env, policies: Modules, q: string, input: Value, x: Value, key: string, v: Verdict)
    returns (r: AgentRun)
    requires env.caching && env.compiles(policies)
    requires Transform(env.transformers, input) == Some(x) && KeyOf(env, q, x) == Some(key)
    requires Decide(env, map[env.defaultQuery := policies], q, x) == Some(v)
    ensures IsRun(env, r) && |r.events| == 1 && r.policies == policies && r.events[0].Evaluate?
    ensures Found(r.states[1].store, key, 1) == Some(Mark(v, 1))
  {
    var s0 := NewState(env, policies);
    var s1 := s0.(store := Put(s0.store, key, Mark(v, 1), env.ttl, 1));
    MissHappens(env, s0, q, input, x, key, v);
    ExtendRun(env, AgentRun(policies, [], [], [s0], []), Evaluate(q, input), s1, Some(Mark(v, 1)));
    r := Extended(AgentRun(policies, [], [], [s0], []), Evaluate(q, input), s1, Some(Mark(v, 1)));
  }

  /** Then an evaluation with the same key is served that decision, although the policies decide otherwise. */
  lemma SecondHits(env: Env, r: AgentRun, q: string, input: Value, x: Value, key: string, d: Decision)
    returns (r': AgentRun)
    requires IsRun(env, r) && |r.events| == 1 && r.events[0].Evaluate? && env.caching
    requires Transform(env.transformers, input) == Some(x) && KeyOf(env, q, x) == Some(key)
    requires Found(r.states[1].store, key, 1) == Some(d)
    requires Decide(env, map[env.defaultQuery := r.policies], q, x) != Some(Verdict(d.allowed, d.reason))
    ensures IsRun(env, r') && !Transparent(env, r')
  {
    var s', hit := r.states[1].(store := Looked(r.states[1].store, key, 1)), Some(d.(cached := true));
    HitHappens(env, r.states[1], q, input, x, key, d);
    ExtendRun(env, r, Evaluate(q, input), s', hit);
    r' := Extended(r, Evaluate(q, input), s', hit);
    WrongAnswer(env, r');
  }

  lemma WrongAnswer(env: Env, r: AgentRun)
    requires IsRun(env, r) && |r.events| == 2 && r.events[0].Evaluate? && r.events[1].Evaluate?
    requires Answer(r.outs[1]) != Plain(env, r.policies, r.events[1].query, r.events[1].input)
    ensures !Transparent(env, r)
  {
    assert InForce(env, r, 1) == InForce(env, r, 0) == r.policies;
  }

  /** Exactly when: caching never shows in any run if and only if it is off or every policy
      set that compiles answers alike any two requests with the same cache key. */
  lemma TransparentExactly(env: Env)
    ensures (forall r | IsRun(env, r) :: Transparent(env, r)) <==>
      (env.caching ==> forall p | env.compiles(p) :: Respects(env, p))
  {
    if env.caching ==> forall p | env.compiles(p) :: Respects(env, p) {
      forall r | IsRun(env, r) ensures Transparent(env, r) {
        forall i | 0 <= i <= |r.events| ensures env.compiles(InForce(env, r, i)) { InForceCompiles(env, r, i); }
        RunTransparent(env, r);
      }
    } else {
      var p :| env.compiles(p) && !Respects(env, p);
      var qs := map[env.defaultQuery := p];
      var q, x, q', x' :| Arises(env, x) && Arises(env, x') && KeyOf(env, q, x).Some? &&
        KeyOf(env, q, x) == KeyOf(env, q', x') && Decide(env, qs, q, x) != Decide(env, qs, q', x');
      var input :| Transform(env.transformers, input) == Some(x);
      var input' :| Transform(env.transformers, input') == Some(x');
      if Decide(env, qs, q, x).Some? {
        var r := ClashRun(env, p, q, input, x, q', input', x');
      } else {
        var r := ClashRun(env, p, q', input', x', q, input, x);
      }
    }
  }

  /** Two different texts with the same hash. */
  ghost predicate Collision(env: Env, t: string, t': string)
  {
    t != t' && env.sha256(t) == env.sha256(t')
  }

  /** Barring a hash collision, two requests share a cache key exactly when they are the same query on inputs that
      agree, up to array order, on every configured field or, where they are no maps, altogether. */
  lemma KeyOfExactly(env: Env, q: string, v: Value, q': string, v': Value)
    requires Clean(Filtered(v, env.keyFields)) && Clean(Filtered(v', env.keyFields)) && Seamless(v) && Seamless(v')
    ensures Marshals(Filtered(v, env.keyFields)) && Marshals(Filtered(v', env.keyFields))
    ensures KeyOf(env, q, v) == KeyOf(env, q', v') <==>
      || SameRequest(q, v, q', v', env.keyFields)
      || Collision(env, KeyText(q, v, env.keyFields), KeyText(q', v', env.keyFields))
  {
    KeyFaithful(q, v, q', v', env.keyFields);
  }
}
