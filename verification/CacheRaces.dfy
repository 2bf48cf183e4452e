/** authz/cache/memory.go and authz/agent.go with every operation split where it drops a lock.
    Evaluators, updates and the sweeper interleave freely. */
module CacheRaces {
  import opened Text
  import opened NormalForm
  import opened MemoryCache
  import opened Agent

  /** Where a goroutine stands. */
  datatype Thread =
    | Looking(q: string, x: Value, key: string)                            // before Get reads the entry
    | Holding(q: string, x: Value, key: string, entry: Entry)              // has a copy, lock dropped
    | Expiring(q: string, x: Value, key: string)                           // found it expired
    | Touching(key: string, entry: Entry)                                  // found it live; will write it back
    | Missed(q: string, x: Value, key: string)                             // before reading the prepared query
    | Computed(q: string, x: Value, key: string, v: Verdict, version: nat) // before Set
    | Swapped                                                              // UpdatePolicies before Clear

  /** One Set: which decision, when, by which policy version, with how many versions installed. */
  datatype Stored = Stored(q: string, x: Value, key: string, decision: Decision, time: int, version: nat,
                           installed: nat)

  /** One cache hit, with how many policy versions were installed by then. */
  datatype Hit = Hit(key: string, decision: Decision, time: int, installed: nat)

  datatype World = World(
    now: int,
    versions: seq<Modules>,        // every policy set installed so far, in order
    store: Store,
    threads: map<nat, Thread>,
    log: seq<Stored>,
    hits: seq<Hit>)

  datatype Action =
    | Begin(t: nat, q: string, x: Value)
    | ReadEntry(t: nat)
    | Check(t: nat)
    | Expire(t: nat)
    | Touch(t: nat)
    | ReadPolicy(t: nat)
    | Finish(t: nat)
    | Install(t: nat, policies: Modules)
    | ClearAfter(t: nat)
    | Sweep
    | Tick(later: int)

  function Decided(env: Env, p: Modules, q: string, x: Value): Option<Verdict>
  {
    Decide(env, map[env.defaultQuery := p], q, x)
  }

  function With(w: World, t: nat, th: Thread): World { w.(threads := w.threads[t := th]) }

  function Done(w: World, t: nat): World { w.(threads := w.threads - {t}) }

  /** The Set that ends an evaluation. */
  ghost predicate Finishes(env: Env, w: World, t: nat, th: Thread, w': World)
    requires th.Computed?
  {
    var d := Mark(th.v, w.now);
    && Sets(w.store, th.key, d, env.ttl, w.now, w'.store)
    && w' == Done(w, t).(store := w'.store,
                         log := w.log + [Stored(th.q, th.x, th.key, d, w.now, th.version, |w.versions|)])
  }

  /** What Get does with the copy it holds: a live one is served. */
  ghost predicate Checks(w: World, t: nat, th: Thread, w': World)
    requires th.Holding?
  {
    if Expired(th.entry, w.now) then w' == With(w, t, Expiring(th.q, th.x, th.key))
    else w' == With(w, t, Touching(th.key, th.entry)).(
             hits := w.hits + [Hit(th.key, th.entry.decision, w.now, |w.versions|)])
  }

  /** One step of one goroutine, or of the clock. */
  ghost predicate Next(env: Env, w: World, a: Action, w': World)
  {
    match a
    case Begin(t, q, x) =>
      t !in w.threads && KeyOf(env, q, x).Some? && Arises(env, x)
      && w' == With(w, t, Looking(q, x, KeyOf(env, q, x).value))
    case ReadEntry(t) =>
      t in w.threads && w.threads[t].Looking? &&
      var th := w.threads[t];
      w' == With(w, t, if th.key in w.store.entries then Holding(th.q, th.x, th.key, w.store.entries[th.key])
                       else Missed(th.q, th.x, th.key))
    case Check(t) => t in w.threads && w.threads[t].Holding? && Checks(w, t, w.threads[t], w')
    case Expire(t) =>
      t in w.threads && w.threads[t].Expiring? &&
      var th := w.threads[t];
      w' == With(w, t, Missed(th.q, th.x, th.key)).(store := Remove(w.store, th.key))
    case Touch(t) =>
      t in w.threads && w.threads[t].Touching? &&
      var th := w.threads[t];
      w' == Done(w, t).(store := w.store.(entries := w.store.entries[th.key := th.entry.(lastAccess := w.now)]))
    case ReadPolicy(t) =>
      t in w.threads && w.threads[t].Missed? && w.versions != [] &&
      var th, n := w.threads[t], |w.versions| - 1;
      var v := Decided(env, w.versions[n], th.q, th.x);
      w' == if v.None? then Done(w, t) else With(w, t, Computed(th.q, th.x, th.key, v.value, n))
    case Finish(t) =>
      t in w.threads && w.threads[t].Computed? && Finishes(env, w, t, w.threads[t], w')
    case Install(t, p) =>
      t !in w.threads && env.compiles(p) && w' == With(w, t, Swapped).(versions := w.versions + [p])
    case ClearAfter(t) =>
      t in w.threads && w.threads[t].Swapped? && w' == Done(w, t).(store := Cleared(w.store))
    case Sweep => w' == w.(store := Cleaned(w.store, w.now))
    case Tick(later) => later >= w.now && w' == w.(now := later)
  }

  function Start(env: Env, policies: Modules, now: int): World
  {
    World(now, [policies], NewState(env, policies).store, map[], [], [])
  }

  ghost predicate Run(env: Env, policies: Modules, now: int, actions: seq<Action>, ws: seq<World>)
  {
    && now > 0 && env.compiles(policies)
    && |ws| == |actions| + 1 && ws[0] == Start(env, policies, now)
    && forall i | 0 <= i < |actions| :: NextAt(env, actions, ws, i)
  }

  ghost predicate NextAt(env: Env, actions: seq<Action>, ws: seq<World>, i: nat)
    requires i < |actions| && |ws| == |actions| + 1
  {
    Next(env, ws[i], actions[i], ws[i + 1])
  }

  /** A request with the key, on an input that the transformers yield. */
  ghost predicate Keyed(env: Env, q: string, x: Value, key: string)
  {
    KeyOf(env, q, x) == Some(key) && Arises(env, x)
  }

  /** A genuine Set: its decision was computed, for a request with its key, by a policy version
      installed before it. */
  ghost predicate Genuine(env: Env, w: World, r: Stored)
  {
    && r.version < r.installed <= |w.versions| && 0 < r.time <= w.now
    && Keyed(env, r.q, r.x, r.key)
    && Decided(env, w.versions[r.version], r.q, r.x) == Some(Verdict(r.decision.allowed, r.decision.reason))
  }

  /** The entry is a copy of what some Set put under the key. */
  ghost predicate Justified(env: Env, w: World, key: string, e: Entry)
  {
    exists i | 0 <= i < |w.log| :: Backs(env, w.log[i], key, e)
  }

  ghost predicate Backs(env: Env, r: Stored, key: string, e: Entry)
  {
    r.key == key && r.decision == e.decision && e.expiration == if env.ttl > 0 then r.time + env.ttl else 0
  }

  /** The hit carries a decision stored under its key, no earlier than one TTL before if there is a TTL. */
  ghost predicate Fresh(env: Env, w: World, h: Hit)
  {
    exists i | 0 <= i < |w.log| :: Serves(env, w.log[i], h)
  }

  ghost predicate Serves(env: Env, r: Stored, h: Hit)
  {
    r.key == h.key && r.decision == h.decision && (env.ttl > 0 ==> r.time >= h.time - env.ttl)
  }

  ghost predicate ThreadOk(env: Env, w: World, th: Thread)
  {
    match th
    case Looking(q, x, key) => Keyed(env, q, x, key)
    case Holding(q, x, key, e) => Keyed(env, q, x, key) && Justified(env, w, key, e)
    case Expiring(q, x, key) => Keyed(env, q, x, key)
    case Touching(key, e) => Justified(env, w, key, e)
    case Missed(q, x, key) => Keyed(env, q, x, key)
    case Computed(q, x, key, v, n) =>
      Keyed(env, q, x, key) && n < |w.versions| && Decided(env, w.versions[n], q, x) == Some(v)
    case Swapped => true
  }

  ghost predicate Inv(env: Env, w: World)
  {
    && (forall i | 0 <= i < |w.log| :: Genuine(env, w, w.log[i]))
    && (forall k | k in w.store.entries :: Justified(env, w, k, w.store.entries[k]))
    && (forall t | t in w.threads :: ThreadOk(env, w, w.threads[t]))
    && (forall j | 0 <= j < |w.hits| :: Fresh(env, w, w.hits[j]))
  }

  /** Growing the histories takes nothing away. */
  ghost predicate Extends(w: World, w': World)
  {
    w.versions <= w'.versions && w.log <= w'.log && w.now <= w'.now
  }

  lemma JustifiedStays(env: Env, w: World, w': World, key: string, e: Entry)
    requires Extends(w, w') && Justified(env, w, key, e)
    ensures Justified(env, w', key, e)
  {
    var i :| 0 <= i < |w.log| && Backs(env, w.log[i], key, e);
    assert Backs(env, w'.log[i], key, e);
  }

  lemma HistoryStays(env: Env, w: World, w': World)
    requires Inv(env, w) && Extends(w, w')
    ensures forall i | 0 <= i < |w.log| :: Genuine(env, w', w.log[i])
    ensures forall t | t in w.threads :: ThreadOk(env, w', w.threads[t])
    ensures forall j | 0 <= j < |w.hits| :: Fresh(env, w', w.hits[j])
    ensures forall k | k in w.store.entries :: Justified(env, w', k, w.store.entries[k])
  {
    forall k | k in w.store.entries ensures Justified(env, w', k, w.store.entries[k]) {
      JustifiedStays(env, w, w', k, w.store.entries[k]);
    }
    forall t | t in w.threads ensures ThreadOk(env, w', w.threads[t]) {
      var th := w.threads[t];
      if th.Holding? || th.Touching? { JustifiedStays(env, w, w', th.key, th.entry); }
    }
    forall j | 0 <= j < |w.hits| ensures Fresh(env, w', w.hits[j]) {
      var h := w.hits[j];
      var i :| 0 <= i < |w.log| && Serves(env, w.log[i], h);
      assert Serves(env, w'.log[i], h);
    }
  }

  /** An entry that is live now was stored by some Set, if there is a TTL at most one TTL ago. */
  lemma LiveIsFresh(env: Env, w: World, key: string, e: Entry)
    requires Justified(env, w, key, e) && !Expired(e, w.now)
    requires forall i | 0 <= i < |w.log| :: Genuine(env, w, w.log[i])
    ensures Fresh(env, w, Hit(key, e.decision, w.now, |w.versions|))
  {
    var i :| 0 <= i < |w.log| && Backs(env, w.log[i], key, e);
    assert Genuine(env, w, w.log[i]) && Serves(env, w.log[i], Hit(key, e.decision, w.now, |w.versions|));
  }

  lemma CheckedThreads(env: Env, w: World, t: nat, th: Thread, w': World)
    requires t in w.threads && th == w.threads[t] && th.Holding? && Checks(w, t, th, w')
    requires forall u | u in w.threads :: ThreadOk(env, w', w.threads[u])
    ensures forall u | u in w'.threads :: ThreadOk(env, w', w'.threads[u])
  {
    forall u | u in w'.threads ensures ThreadOk(env, w', w'.threads[u]) {
      if u == t { assert ThreadOk(env, w', th); } else { assert w'.threads[u] == w.threads[u]; }
    }
  }

  lemma CheckInv(env: Env, w: World, t: nat, w': World)
    requires Inv(env, w) && w.now > 0 && t in w.threads && w.threads[t].Holding? && Checks(w, t, w.threads[t], w')
    ensures Inv(env, w')
  {
    var th := w.threads[t];
    HistoryStays(env, w, w');
    assert ThreadOk(env, w', th);
    CheckedThreads(env, w, t, th, w');
    if !Expired(th.entry, w.now) {
      LiveIsFresh(env, w', th.key, th.entry);
      assert w'.hits[..|w.hits|] == w.hits;
    }
  }

  lemma FinishGenuine(env: Env, w: World, t: nat, th: Thread, w': World)
    requires w.now > 0 && th.Computed? && ThreadOk(env, w, th) && Finishes(env, w, t, th, w')
    ensures Genuine(env, w', w'.log[|w.log|])
  {
  }

  lemma FinishJustified(env: Env, w: World, t: nat, th: Thread, w': World)
    requires th.Computed? && Finishes(env, w, t, th, w')
    requires forall k | k in w.store.entries :: Justified(env, w', k, w.store.entries[k])
    ensures forall k | k in w'.store.entries :: Justified(env, w', k, w'.store.entries[k])
  {
    SetsNarrows(w.store, th.key, Mark(th.v, w.now), env.ttl, w.now, w'.store);
    forall k | k in w'.store.entries ensures Justified(env, w', k, w'.store.entries[k]) {
      if k == th.key { assert Backs(env, w'.log[|w.log|], k, w'.store.entries[k]); }
    }
  }

  lemma FinishThreads(env: Env, w: World, t: nat, w': World)
    requires t in w.threads && w.threads[t].Computed? && Finishes(env, w, t, w.threads[t], w')
    ensures Extends(w, w') && w'.hits == w.hits
    ensures forall i | 0 <= i < |w'.log| && i != |w.log| :: i < |w.log| && w'.log[i] == w.log[i]
    ensures forall u | u in w'.threads :: u in w.threads && w'.threads[u] == w.threads[u]
  {
  }

  lemma FinishInv(env: Env, w: World, t: nat, w': World)
    requires Inv(env, w) && w.now > 0
    requires t in w.threads && w.threads[t].Computed? && Finishes(env, w, t, w.threads[t], w')
    ensures Inv(env, w')
  {
    FinishThreads(env, w, t, w');
    HistoryStays(env, w, w');
    FinishGenuine(env, w, t, w.threads[t], w');
    FinishJustified(env, w, t, w.threads[t], w');
  }

  lemma StoreInv(env: Env, w: World, a: Action, w': World)
    requires Inv(env, w) && Next(env, w, a, w') && (a.Expire? || a.Touch? || a.ClearAfter? || a.Sweep?)
    ensures Inv(env, w')
  {
    HistoryStays(env, w, w');
    if a.Touch? {
      var th := w.threads[a.t];
      assert ThreadOk(env, w', th);
    }
  }

  lemma NextInv(env: Env, w: World, a: Action, w': World)
    requires Inv(env, w) && w.now > 0 && Next(env, w, a, w')
    ensures Inv(env, w') && w'.now > 0
  {
    if a.Check? { CheckInv(env, w, a.t, w'); }
    else if a.Finish? { FinishInv(env, w, a.t, w'); }
    else if a.Expire? || a.Touch? || a.ClearAfter? || a.Sweep? { StoreInv(env, w, a, w'); }
    else { HistoryStays(env, w, w'); }
  }

  lemma {:induction false} RunInv(env: Env, policies: Modules, now: int, actions: seq<Action>, ws: seq<World>, n: nat)
    requires Run(env, policies, now, actions, ws) && n <= |actions|
    ensures Inv(env, ws[n]) && ws[n].now > 0
  {
    if n > 0 {
      RunInv(env, policies, now, actions, ws, n - 1);
      assert NextAt(env, actions, ws, n - 1);
      NextInv(env, ws[n - 1], actions[n - 1], ws[n]);
    }
  }

  /** Bounded staleness: in every interleaving each hit carries a decision that some evaluator stored
      under that key, if there is a TTL at most one TTL earlier, computed for a request with that key
      by a policy version installed before that store. */
  lemma BoundedStaleness(env: Env, policies: Modules, now: int, actions: seq<Action>, ws: seq<World>, n: nat, j: nat)
    returns (r: Stored)
    requires Run(env, policies, now, actions, ws) && n <= |actions| && j < |ws[n].hits|
    ensures r in ws[n].log && r.key == ws[n].hits[j].key && r.decision == ws[n].hits[j].decision
    ensures env.ttl > 0 ==> r.time >= ws[n].hits[j].time - env.ttl
    ensures r.version < r.installed <= |ws[n].versions| && Keyed(env, r.q, r.x, r.key)
    ensures Decided(env, ws[n].versions[r.version], r.q, r.x) == Some(Verdict(r.decision.allowed, r.decision.reason))
  {
    RunInv(env, policies, now, actions, ws, n);
    var w := ws[n];
    var h := w.hits[j];
    assert Fresh(env, w, h);
    var i :| 0 <= i < |w.log| && Serves(env, w.log[i], h);
    r := w.log[i];
    assert Genuine(env, w, r);
  }

  // ----- Undisturbed, the steps are the atomic operations -----

  /** A Get that finds nothing leaves everything as it is. */
  lemma SoloMiss(env: Env, w: World, t: nat, w1: World)
    requires Next(env, w, ReadEntry(t), w1) && w.threads[t].key !in w.store.entries
    ensures w1.store == w.store == Looked(w.store, w.threads[t].key, w.now)
    ensures w1.threads[t].Missed? && w1.hits == w.hits
  {
  }

  /** A Get that finds a live entry serves it and touches it, as the atomic one does. */
  lemma SoloHit(env: Env, w: World, t: nat, w1: World, w2: World, w3: World)
    requires Next(env, w, ReadEntry(t), w1) && w.threads[t].key in w.store.entries
    requires Found(w.store, w.threads[t].key, w.now).Some?
    requires Next(env, w1, Check(t), w2) && Next(env, w2, Touch(t), w3)
    ensures w3.store == Looked(w.store, w.threads[t].key, w.now)
    ensures var key := w.threads[t].key;
      w3.hits == w.hits + [Hit(key, Found(w.store, key, w.now).value, w.now, |w.versions|)]
  {
    SoloRead(env, w, t, w1);
  }

  /** A Get that finds an expired entry removes it, as the atomic one does. */
  lemma SoloExpired(env: Env, w: World, t: nat, w1: World, w2: World, w3: World)
    requires Next(env, w, ReadEntry(t), w1) && w.threads[t].key in w.store.entries
    requires Found(w.store, w.threads[t].key, w.now).None?
    requires Next(env, w1, Check(t), w2) && Next(env, w2, Expire(t), w3)
    ensures w3.store == Looked(w.store, w.threads[t].key, w.now) && w3.hits == w.hits && w3.threads[t].Missed?
  {
    SoloRead(env, w, t, w1);
  }

  lemma SoloRead(env: Env, w: World, t: nat, w1: World)
    requires Next(env, w, ReadEntry(t), w1) && w.threads[t].key in w.store.entries
    ensures var th := w.threads[t];
      && w1 == w.(threads := w1.threads) && t in w1.threads
      && w1.threads[t] == Holding(th.q, th.x, th.key, w.store.entries[th.key])
  {
  }

  /** The end of an update, and a sweep, do to the store what Clear and CleanupExpired do. */
  lemma SoloStores(env: Env, w: World, a: Action, w': World)
    requires Next(env, w, a, w') && (a.ClearAfter? || a.Sweep?)
    ensures a.ClearAfter? ==> w'.store.entries == map[] && w'.store.keysByTime == []
    ensures a.Sweep? ==> w'.store == Cleaned(w.store, w.now)
  {
  }

  // ----- When the capacity holds -----

  /** A step that adds an entry to a full store: a Get that writes back an entry gone since it read it,
      or a Set that evicts nothing because no key is listed. */
  ghost predicate Overfills(w: World, a: Action)
  {
    && |w.store.entries| >= w.store.maxEntries
    && ((a.Touch? || a.Finish?) && a.t in w.threads)
    && match w.threads[a.t]
       case Touching(key, _) => a.Touch? && key !in w.store.entries
       case Computed(_, _, key, _, _) => a.Finish? && key !in w.store.entries && w.store.keysByTime == []
       case _ => false
  }

  lemma PutSize(m: map<string, Entry>, key: string, e: Entry)
    ensures |m[key := e]| == |m| + if key in m then 0 else 1
  {
    assert m[key := e].Keys == m.Keys + {key};
    assert |m[key := e]| == |m[key := e].Keys| && |m| == |m.Keys|;
  }

  lemma DropSize(m: map<string, Entry>, keys: set<string>)
    ensures |m - keys| <= |m|
    ensures forall k | k in m && keys == {k} :: |m - keys| == |m| - 1
  {
    assert (m - keys).Keys == m.Keys - keys;
    assert |m - keys| == |(m - keys).Keys| && |m| == |m.Keys|;
  }

  /** A Set keeps the capacity unless the store is full, lists nothing and lacks the key. */
  lemma SetsSize(s: Store, key: string, d: Decision, ttl: int, now: int, s': Store)
    requires Sets(s, key, d, ttl, now, s') && 0 < s.maxEntries && |s.entries| <= s.maxEntries
    ensures s'.maxEntries == s.maxEntries
    ensures |s'.entries| <= s.maxEntries <==>
      !(|s.entries| == s.maxEntries && key !in s.entries && s.keysByTime == [])
  {
    var e := Entry(d, if ttl > 0 then now + ttl else 0, now);
    if |s.entries| == s.maxEntries && s.keysByTime != [] {
      var mid :| Evicts(s, mid) && s' == Put(mid, key, d, ttl, now);
      var victim :| Victim(s, victim) && mid == Remove(s, victim);
      assert |s.entries| != 0;
      DropSize(s.entries, {victim});
      PutSize(mid.entries, key, e);
    } else {
      PutSize(s.entries, key, e);
    }
  }

  lemma StepCapacity(env: Env, w: World, a: Action, w': World)
    requires Next(env, w, a, w') && 0 < w.store.maxEntries && |w.store.entries| <= w.store.maxEntries
    ensures w'.store.maxEntries == w.store.maxEntries
    ensures |w'.store.entries| <= w'.store.maxEntries <==> !Overfills(w, a)
  {
    if a.Touch? {
      var th := w.threads[a.t];
      PutSize(w.store.entries, th.key, th.entry.(lastAccess := w.now));
    } else if a.Finish? {
      var th := w.threads[a.t];
      SetsSize(w.store, th.key, Mark(th.v, w.now), env.ttl, w.now, w'.store);
    } else if a.Expire? {
      DropSize(w.store.entries, {w.threads[a.t].key});
    } else if a.Sweep? {
      DropSize(w.store.entries, ExpiredKeys(w.store, w.now));
    } else if a.ClearAfter? {
      assert |w'.store.entries| == 0;
    } else {
      assert w'.store == w.store;
    }
  }

  ghost predicate OverfillsAt(actions: seq<Action>, ws: seq<World>, i: nat)
    requires i < |actions| && |ws| == |actions| + 1
  {
    Overfills(ws[i], actions[i])
  }

  ghost predicate Fits(w: World)
  {
    0 < w.store.maxEntries && |w.store.entries| <= w.store.maxEntries
  }

  lemma {:induction false} FitsUpTo(env: Env, policies: Modules, now: int, actions: seq<Action>, ws: seq<World>, n: nat)
    requires Run(env, policies, now, actions, ws) && n <= |actions|
    requires forall i | 0 <= i < n :: !OverfillsAt(actions, ws, i)
    ensures Fits(ws[n])
  {
    if n > 0 {
      FitsUpTo(env, policies, now, actions, ws, n - 1);
      assert NextAt(env, actions, ws, n - 1) && !OverfillsAt(actions, ws, n - 1);
      StepCapacity(env, ws[n - 1], actions[n - 1], ws[n]);
    }
  }

  /** Capacity under races, exactly: a run stays within capacity throughout if and only if no Get writes an
      absent entry back into a full store and no Set adds a key to a full store that lists none. */
  lemma CapacityExactly(env: Env, policies: Modules, now: int, actions: seq<Action>, ws: seq<World>)
    requires Run(env, policies, now, actions, ws)
    ensures (forall n | 0 <= n <= |actions| :: Fits(ws[n])) <==>
            (forall i | 0 <= i < |actions| :: !OverfillsAt(actions, ws, i))
  {
    if forall i | 0 <= i < |actions| :: !OverfillsAt(actions, ws, i) {
      forall n | 0 <= n <= |actions| ensures Fits(ws[n]) { FitsUpTo(env, policies, now, actions, ws, n); }
    } else {
      var i :| 0 <= i < |actions| && OverfillsAt(actions, ws, i);
      assert NextAt(env, actions, ws, i);
      if Fits(ws[i]) { StepCapacity(env, ws[i], actions[i], ws[i + 1]); }
    }
  }

  // ----- Reachable worlds -----

  /** A run can be continued by any step its last state allows. */
  lemma RunOn(env: Env, policies: Modules, now: int, actions: seq<Action>, ws: seq<World>, a: Action, w': World)
    requires Run(env, policies, now, actions, ws) && Next(env, ws[|actions|], a, w')
    ensures Run(env, policies, now, actions + [a], ws + [w'])
  {
    var actions', ws' := actions + [a], ws + [w'];
    forall i | 0 <= i < |actions'| ensures NextAt(env, actions', ws', i) {
      if i < |actions| { assert NextAt(env, actions, ws, i); }
    }
  }

  /** Reached by some run. */
  ghost predicate Reachable(env: Env, policies: Modules, now: int, w: World)
  {
    exists actions, ws :: Run(env, policies, now, actions, ws) && ws[|actions|] == w
  }

  lemma ReachableStart(env: Env, policies: Modules, now: int)
    requires now > 0 && env.compiles(policies)
    ensures Reachable(env, policies, now, Start(env, policies, now))
  {
    assert Run(env, policies, now, [], [Start(env, policies, now)]);
  }

  lemma ReachableNext(env: Env, policies: Modules, now: int, w: World, a: Action, w': World)
    requires Reachable(env, policies, now, w) && Next(env, w, a, w')
    ensures Reachable(env, policies, now, w')
  {
    var actions, ws :| Run(env, policies, now, actions, ws) && ws[|actions|] == w;
    RunOn(env, policies, now, actions, ws, a, w');
    assert (ws + [w'])[|actions + [a]|] == w';
  }

  // ----- Installed versions -----

  /** Every version compiles, and every hit knows which one was the latest. */
  ghost predicate Versioned(env: Env, w: World)
  {
    && (forall i | 0 <= i < |w.versions| :: env.compiles(w.versions[i]))
    && (forall j | 0 <= j < |w.hits| :: 1 <= w.hits[j].installed <= |w.versions|)
    && w.versions != []
  }

  lemma NextVersioned(env: Env, w: World, a: Action, w': World)
    requires Versioned(env, w) && Next(env, w, a, w')
    ensures Versioned(env, w')
  {
    assert w'.versions == if a.Install? then w.versions + [a.policies] else w.versions;
    assert a.Check? || w'.hits == w.hits;
  }

  lemma {:induction false} RunVersioned(env: Env, policies: Modules, now: int, actions: seq<Action>, ws: seq<World>,
      n: nat)
    requires Run(env, policies, now, actions, ws) && n <= |actions|
    ensures Versioned(env, ws[n])
  {
    if n > 0 {
      RunVersioned(env, policies, now, actions, ws, n - 1);
      assert NextAt(env, actions, ws, n - 1);
      NextVersioned(env, ws[n - 1], actions[n - 1], ws[n]);
    }
  }
}
