/** Schedules of CacheRaces: what the races can break, and exactly when they do not. */
module CacheSchedules {
  import opened Text
  import opened NormalForm
  import opened MemoryCache
  import opened Agent
  import opened CacheRaces

  // One step each, so that longer schedules need not look at the whole step relation.

  lemma ReachLooking(env: Env, p: Modules, now: int, w: World, t: nat, q: string, x: Value, key: string)
    requires Reachable(env, p, now, w) && t !in w.threads && Keyed(env, q, x, key)
    ensures Reachable(env, p, now, With(w, t, Looking(q, x, key)))
  {
    ReachableNext(env, p, now, w, Begin(t, q, x), With(w, t, Looking(q, x, key)));
  }

  lemma ReachRead(env: Env, p: Modules, now: int, w: World, t: nat, q: string, x: Value, key: string, th: Thread)
    requires Reachable(env, p, now, w) && t in w.threads && w.threads[t] == Looking(q, x, key)
    requires th == if key in w.store.entries then Holding(q, x, key, w.store.entries[key]) else Missed(q, x, key)
    ensures Reachable(env, p, now, With(w, t, th))
  {
    ReachableNext(env, p, now, w, ReadEntry(t), With(w, t, th));
  }

  lemma ReachDecided(env: Env, p: Modules, now: int, w: World, t: nat, q: string, x: Value, key: string, v: Verdict)
    requires Reachable(env, p, now, w) && t in w.threads && w.threads[t] == Missed(q, x, key) && w.versions != []
    requires Decided(env, w.versions[|w.versions| - 1], q, x) == Some(v)
    ensures Reachable(env, p, now, With(w, t, Computed(q, x, key, v, |w.versions| - 1)))
  {
    ReachableNext(env, p, now, w, ReadPolicy(t), With(w, t, Computed(q, x, key, v, |w.versions| - 1)));
  }

  lemma ReachFinished(env: Env, p: Modules, now: int, w: World, t: nat, w': World)
    requires Reachable(env, p, now, w) && t in w.threads && w.threads[t].Computed?
    requires Finishes(env, w, t, w.threads[t], w')
    ensures Reachable(env, p, now, w')
  {
    ReachableNext(env, p, now, w, Finish(t), w');
  }

  function HitOn(w: World, key: string, e: Entry): Hit { Hit(key, e.decision, w.now, |w.versions|) }

  lemma ReachChecked(env: Env, p: Modules, now: int, w: World, t: nat, key: string, e: Entry)
    requires Reachable(env, p, now, w) && t in w.threads && w.threads[t].Holding? && !Expired(e, w.now)
    requires w.threads[t].key == key && w.threads[t].entry == e
    ensures Reachable(env, p, now, With(w, t, Touching(key, e)).(hits := w.hits + [HitOn(w, key, e)]))
  {
    ReachableNext(env, p, now, w, Check(t), With(w, t, Touching(key, e)).(hits := w.hits + [HitOn(w, key, e)]));
  }

  function TouchedStore(w: World, key: string, e: Entry): Store
  {
    w.store.(entries := w.store.entries[key := e.(lastAccess := w.now)])
  }

  lemma ReachTouched(env: Env, p: Modules, now: int, w: World, t: nat, key: string, e: Entry)
    requires Reachable(env, p, now, w) && t in w.threads && w.threads[t] == Touching(key, e)
    ensures Reachable(env, p, now, Done(w, t).(store := TouchedStore(w, key, e)))
  {
    ReachableNext(env, p, now, w, Touch(t), Done(w, t).(store := TouchedStore(w, key, e)));
  }

  lemma Again(w: World, t: nat, th: Thread, th': Thread)
    ensures With(With(w, t, th), t, th') == With(w, t, th')
    ensures t !in w.threads ==> Done(With(w, t, th), t) == w
  {
    assert w.threads[t := th][t := th'] == w.threads[t := th'];
    if t !in w.threads { assert w.threads[t := th] - {t} == w.threads; }
  }

  lemma ReachMissed(env: Env, p: Modules, now: int, w: World, t: nat, q: string, x: Value, key: string)
    requires Reachable(env, p, now, w) && t !in w.threads && Keyed(env, q, x, key) && key !in w.store.entries
    ensures Reachable(env, p, now, With(w, t, Missed(q, x, key)))
  {
    ReachLooking(env, p, now, w, t, q, x, key);
    ReachRead(env, p, now, With(w, t, Looking(q, x, key)), t, q, x, key, Missed(q, x, key));
    Again(w, t, Looking(q, x, key), Missed(q, x, key));
  }

  /** Evaluates (q, x) to the point where its decision is computed but not yet stored. */
  lemma ReachComputed(env: Env, p: Modules, now: int, w: World, t: nat, q: string, x: Value, key: string, v: Verdict)
    requires Reachable(env, p, now, w) && t !in w.threads && w.versions != []
    requires Keyed(env, q, x, key) && key !in w.store.entries
    requires Decided(env, w.versions[|w.versions| - 1], q, x) == Some(v)
    ensures Reachable(env, p, now, With(w, t, Computed(q, x, key, v, |w.versions| - 1)))
  {
    ReachMissed(env, p, now, w, t, q, x, key);
    ReachDecided(env, p, now, With(w, t, Missed(q, x, key)), t, q, x, key, v);
    Again(w, t, Missed(q, x, key), Computed(q, x, key, v, |w.versions| - 1));
  }

  /** A Get that holds a live entry serves it and writes it back. */
  lemma ReachServed(env: Env, p: Modules, now: int, w: World, t: nat, q: string, x: Value, key: string, e: Entry)
    requires Reachable(env, p, now, With(w, t, Holding(q, x, key, e))) && t !in w.threads && !Expired(e, w.now)
    ensures Reachable(env, p, now, w.(store := TouchedStore(w, key, e), hits := w.hits + [HitOn(w, key, e)]))
  {
    ReachChecked(env, p, now, With(w, t, Holding(q, x, key, e)), t, key, e);
    Again(w, t, Holding(q, x, key, e), Touching(key, e));
    ReachTouched(env, p, now, With(w, t, Touching(key, e)).(hits := w.hits + [HitOn(w, key, e)]), t, key, e);
    Again(w, t, Touching(key, e), Touching(key, e));
  }

  /** Asks (q, x) and is served the live entry e. */
  lemma ReachHit(env: Env, p: Modules, now: int, w: World, t: nat, q: string, x: Value, key: string, e: Entry)
    requires Reachable(env, p, now, w) && t !in w.threads
    requires Keyed(env, q, x, key) && key in w.store.entries && e == w.store.entries[key] && !Expired(e, w.now)
    ensures Reachable(env, p, now, w.(store := TouchedStore(w, key, e), hits := w.hits + [HitOn(w, key, e)]))
  {
    ReachLooking(env, p, now, w, t, q, x, key);
    ReachRead(env, p, now, With(w, t, Looking(q, x, key)), t, q, x, key, Holding(q, x, key, e));
    Again(w, t, Looking(q, x, key), Holding(q, x, key, e));
    ReachServed(env, p, now, w, t, q, x, key, e);
  }

  /** Evaluates (q, x) on a cache that does not hold it and stores the decision, leaving store'. */
  lemma ReachStored(env: Env, p: Modules, now: int, w: World, t: nat, q: string, x: Value, key: string, v: Verdict,
      version: nat, store': Store)
    requires Reachable(env, p, now, With(w, t, Computed(q, x, key, v, version))) && t !in w.threads
    requires Sets(w.store, key, Mark(v, w.now), env.ttl, w.now, store')
    ensures Reachable(env, p, now,
      w.(store := store', log := w.log + [Stored(q, x, key, Mark(v, w.now), w.now, version, |w.versions|)]))
  {
    var w1 := With(w, t, Computed(q, x, key, v, version));
    Again(w, t, Computed(q, x, key, v, version), Swapped);
    ReachFinished(env, p, now, w1, t,
      w.(store := store', log := w.log + [Stored(q, x, key, Mark(v, w.now), w.now, version, |w.versions|)]));
  }

  /** Goroutine t runs a whole update. */
  lemma ReachUpdated(env: Env, p: Modules, w: World, t: nat, p': Modules)
    requires Reachable(env, p, 1, w) && t !in w.threads && env.compiles(p')
    ensures Reachable(env, p, 1, w.(versions := w.versions + [p'], store := Cleared(w.store)))
  {
    var mid := With(w, t, Swapped).(versions := w.versions + [p']);
    ReachableNext(env, p, 1, w, Install(t, p'), mid);
    var w' := Done(mid, t).(store := Cleared(mid.store));
    ReachableNext(env, p, 1, mid, ClearAfter(t), w');
    Again(w, t, Swapped, Swapped);
  }

  // ----- Transparency -----

  /** The hit carries what the latest version at that moment decides for every request with its key. */
  ghost predicate Current(env: Env, w: World, h: Hit)
  {
    && 1 <= h.installed <= |w.versions|
    && forall q, x | Keyed(env, q, x, h.key) ::
         Decided(env, w.versions[h.installed - 1], q, x) == Some(Verdict(h.decision.allowed, h.decision.reason))
  }

  ghost predicate AllCurrent(env: Env, w: World)
  {
    forall j | 0 <= j < |w.hits| :: Current(env, w, w.hits[j])
  }

  /** No race ever shows: in every run every hit is current. */
  ghost predicate RaceTransparent(env: Env)
  {
    forall p, now, w | Reachable(env, p, now, w) :: AllCurrent(env, w)
  }

  /** Whatever a policy decides, every policy decides for every request with the same key. */
  ghost predicate KeyDecides(env: Env)
  {
    forall p, p', q, x, q', x' |
      && env.compiles(p) && env.compiles(p') && Arises(env, x) && Arises(env, x')
      && KeyOf(env, q, x).Some? && KeyOf(env, q, x) == KeyOf(env, q', x') && Decided(env, p, q, x).Some? ::
      Decided(env, p, q, x) == Decided(env, p', q', x')
  }

  /** Transparency is lost under races: whenever two policies decide requests with one key differently, there
      is an interleaving in which the update has finished and the old answer is still served. */
  lemma StaleHitAfterUpdate(env: Env, p: Modules, p': Modules, q: string, x: Value, q': string, x': Value)
    returns (w: World)
    requires env.compiles(p) && env.compiles(p') && Arises(env, x) && Arises(env, x')
    requires KeyOf(env, q, x).Some? && KeyOf(env, q, x) == KeyOf(env, q', x')
    requires Decided(env, p, q, x).Some? && Decided(env, p, q, x) != Decided(env, p', q', x')
    ensures Reachable(env, p, 1, w) && w.threads == map[] && w.versions == [p, p']
    ensures |w.hits| == 1 && w.hits[0].key == KeyOf(env, q', x').value && w.hits[0].installed == 2
    ensures Some(Verdict(w.hits[0].decision.allowed, w.hits[0].decision.reason)) != Decided(env, p', q', x')
  {
    var key, v := KeyOf(env, q, x).value, Decided(env, p, q, x).value;
    var w1 := ReachRaced(env, p, p', q, x, key, v);
    w := ReachStale(env, p, w1, q, x, key, v, q', x');
  }

  /** An update runs while an evaluation has computed, but not stored, its decision. */
  lemma ReachRaced(env: Env, p: Modules, p': Modules, q: string, x: Value, key: string, v: Verdict) returns (w: World)
    requires env.compiles(p) && env.compiles(p') && Keyed(env, q, x, key) && Decided(env, p, q, x) == Some(v)
    ensures Reachable(env, p, 1, With(w, 0, Computed(q, x, key, v, 0)))
    ensures w == Start(env, p, 1).(versions := [p, p'])
  {
    var w0, th := Start(env, p, 1), Computed(q, x, key, v, 0);
    ReachableStart(env, p, 1);
    ReachComputed(env, p, 1, w0, 0, q, x, key, v);
    ReachUpdated(env, p, With(w0, 0, th), 1, p');
    w := w0.(versions := [p, p']);
    assert With(w0, 0, th).(versions := [p] + [p'], store := Cleared(w0.store)) == With(w, 0, th);
  }

  /** An evaluation stores what it computed, and the next one with its key is served it. */
  lemma ReachStale(env: Env, p: Modules, w: World, q: string, x: Value, key: string, v: Verdict, q': string, x': Value)
    returns (w': World)
    requires Reachable(env, p, 1, With(w, 0, Computed(q, x, key, v, 0))) && Keyed(env, q', x', key)
    requires w.threads == map[] && w.now == 1 && w.hits == []
    requires w.store.entries == map[] && w.store.maxEntries > 0
    ensures Reachable(env, p, 1, w') && w'.threads == map[] && w'.versions == w.versions
    ensures w'.hits == [Hit(key, Mark(v, 1), 1, |w.versions|)]
  {
    var d := Mark(v, 1);
    assert |w.store.entries| == 0;
    ReachStored(env, p, 1, w, 0, q, x, key, v, 0, Put(w.store, key, d, env.ttl, 1));
    var w1 := w.(store := Put(w.store, key, d, env.ttl, 1), log := w.log + [Stored(q, x, key, d, 1, 0, |w.versions|)]);
    var e := Entry(d, if env.ttl > 0 then 1 + env.ttl else 0, 1);
    ReachHit(env, p, 1, w1, 2, q', x', key, e);
    w' := w1.(store := TouchedStore(w1, key, e), hits := w1.hits + [Hit(key, d, 1, |w.versions|)]);
  }

  lemma HitsCurrent(env: Env, p: Modules, now: int, actions: seq<Action>, ws: seq<World>, n: nat, j: nat)
    requires KeyDecides(env) && CacheRaces.Run(env, p, now, actions, ws)
    requires n <= |actions| && j < |ws[n].hits|
    ensures Current(env, ws[n], ws[n].hits[j])
  {
    var w, h := ws[n], ws[n].hits[j];
    RunVersioned(env, p, now, actions, ws, n);
    var r := BoundedStaleness(env, p, now, actions, ws, n, j);
    forall q, x | Keyed(env, q, x, h.key)
      ensures Decided(env, w.versions[h.installed - 1], q, x) == Some(Verdict(h.decision.allowed, h.decision.reason))
    {
      assert env.compiles(w.versions[r.version]) && env.compiles(w.versions[h.installed - 1]);
      assert Decided(env, w.versions[r.version], r.q, r.x) == Decided(env, w.versions[h.installed - 1], q, x);
    }
  }

  /** Transparency under races, exactly: whatever the TTL, every hit of every interleaving is what the latest
      policy decides if and only if no two policies, nor two requests, tell apart what one key decides. */
  lemma RaceTransparentExactly(env: Env)
    ensures RaceTransparent(env) <==> KeyDecides(env)
  {
    if KeyDecides(env) {
      forall p, now, w | Reachable(env, p, now, w) ensures AllCurrent(env, w) {
        var actions, ws :| CacheRaces.Run(env, p, now, actions, ws) && ws[|actions|] == w;
        forall j | 0 <= j < |w.hits| ensures Current(env, w, w.hits[j]) {
          HitsCurrent(env, p, now, actions, ws, |actions|, j);
        }
      }
    } else {
      var p, p', q, x, q', x' :|
        && env.compiles(p) && env.compiles(p') && Arises(env, x) && Arises(env, x')
        && KeyOf(env, q, x).Some? && KeyOf(env, q, x) == KeyOf(env, q', x') && Decided(env, p, q, x).Some?
        && Decided(env, p, q, x) != Decided(env, p', q', x');
      var w := StaleHitAfterUpdate(env, p, p', q, x, q', x');
      assert Keyed(env, q', x', w.hits[0].key);
      assert !Current(env, w, w.hits[0]);
      assert !AllCurrent(env, w);
    }
  }

  // ----- Capacity -----

  /** A request with its key and the policy's verdict on it. */
  datatype Asked = Asked(q: string, x: Value, key: string, v: Verdict)

  ghost predicate Asks(env: Env, p: Modules, r: Asked)
  {
    Keyed(env, r.q, r.x, r.key) && Decided(env, p, r.q, r.x) == Some(r.v)
  }

  /** Requests with different keys that the policy decides. Nth keeps the solver from looking into
      every request's key where only the requests themselves matter. */
  ghost predicate Askable(env: Env, p: Modules, reqs: seq<Asked>)
  {
    (forall i {:trigger Nth(i)} | Nth(i) && i < |reqs| :: Asks(env, p, reqs[i])) && DistinctKeys(reqs)
  }

  predicate Nth(i: int) { 0 <= i }

  ghost predicate DistinctKeys(reqs: seq<Asked>)
  {
    forall i, j | 0 <= i < j < |reqs| :: reqs[i].key != reqs[j].key
  }

  /** The entry that evaluating the request at instant 1 stores. */
  function EntryFor(ttl: int, r: Asked): Entry
  {
    Entry(Mark(r.v, 1), if ttl > 0 then 1 + ttl else 0, 1)
  }

  function Keys(reqs: seq<Asked>): (ks: seq<string>)
    ensures |ks| == |reqs| && forall i | 0 <= i < |reqs| :: ks[i] == reqs[i].key
  {
    seq(|reqs|, i requires 0 <= i < |reqs| => reqs[i].key)
  }

  /** Goroutine t evaluates a request the cache does not hold, and a Set with room for it stores the decision. */
  lemma ReachEvaluated(env: Env, p: Modules, w: World, t: nat, reqs: seq<Asked>, i: nat) returns (w': World)
    requires Reachable(env, p, 1, w) && t !in w.threads && w.now == 1 && Askable(env, p, reqs) && i < |reqs|
    requires w.versions != [] && w.versions[|w.versions| - 1] == p
    requires reqs[i].key !in w.store.entries && |w.store.entries| < w.store.maxEntries
    ensures Reachable(env, p, 1, w')
    ensures w' == w.(log := w'.log, store := Put(w.store, reqs[i].key, Mark(reqs[i].v, 1), env.ttl, 1))
  {
    var r, n := reqs[i], |w.versions| - 1;
    ReachAsked(env, p, w, t, reqs, i);
    ReachStored(env, p, 1, w, t, r.q, r.x, r.key, r.v, n, Put(w.store, r.key, Mark(r.v, 1), env.ttl, 1));
    w' := w.(store := Put(w.store, r.key, Mark(r.v, 1), env.ttl, 1),
             log := w.log + [Stored(r.q, r.x, r.key, Mark(r.v, 1), 1, n, |w.versions|)]);
  }

  /** The evaluation of the i-th request by goroutine t, up to its Set. */
  lemma ReachAsked(env: Env, p: Modules, w: World, t: nat, reqs: seq<Asked>, i: nat)
    requires Reachable(env, p, 1, w) && t !in w.threads && Askable(env, p, reqs) && i < |reqs|
    requires w.versions != [] && w.versions[|w.versions| - 1] == p && reqs[i].key !in w.store.entries
    ensures Reachable(env, p, 1, With(w, t, Computed(reqs[i].q, reqs[i].x, reqs[i].key, reqs[i].v, |w.versions| - 1)))
  {
    assert Nth(i);
    ReachComputed(env, p, 1, w, t, reqs[i].q, reqs[i].x, reqs[i].key, reqs[i].v);
  }

  function Hold(r: Asked, e: Entry): Thread { Holding(r.q, r.x, r.key, e) }

  /** Goroutine t, evaluating a request the cache holds, has read the entry and dropped the lock. */
  lemma ReachHolding(env: Env, p: Modules, w: World, t: nat, reqs: seq<Asked>, i: nat, e: Entry)
    requires Reachable(env, p, 1, w) && t !in w.threads && Askable(env, p, reqs) && i < |reqs|
    requires reqs[i].key in w.store.entries && w.store.entries[reqs[i].key] == e
    ensures Reachable(env, p, 1, With(w, t, Hold(reqs[i], e)))
  {
    assert Nth(i);
    var r := reqs[i];
    ReachLooking(env, p, 1, w, t, r.q, r.x, r.key);
    ReachRead(env, p, 1, With(w, t, Looking(r.q, r.x, r.key)), t, r.q, r.x, r.key, Hold(r, e));
    Again(w, t, Looking(r.q, r.x, r.key), Hold(r, e));
  }

  /** The store after requests were evaluated into it. */
  ghost predicate Filled(ttl: int, s: Store, reqs: seq<Asked>)
  {
    && s.keysByTime == Keys(reqs) && |s.entries| == |reqs|
    && (forall k | k in s.entries :: k in Keys(reqs) && s.entries[k].lastAccess == 1)
    && (forall i | 0 <= i < |reqs| :: reqs[i].key in s.entries && s.entries[reqs[i].key] == EntryFor(ttl, reqs[i]))
  }

  lemma FilledNext(ttl: int, s: Store, reqs: seq<Asked>, r: Asked)
    requires Filled(ttl, s, reqs) && DistinctKeys(reqs + [r])
    ensures r.key !in s.entries
    ensures Filled(ttl, Put(s, r.key, Mark(r.v, 1), ttl, 1), reqs + [r])
  {
    var all := reqs + [r];
    forall i | 0 <= i < |reqs| ensures reqs[i].key != r.key { assert all[i].key != all[|reqs|].key; }
    assert Keys(all) == Keys(reqs) + [r.key];
    PutSize(s.entries, r.key, EntryFor(ttl, r));
  }

  lemma {:induction false} ReachFilled(env: Env, p: Modules, reqs: seq<Asked>, n: nat) returns (w: World)
    requires env.compiles(p) && Askable(env, p, reqs) && n <= |reqs| && n <= Start(env, p, 1).store.maxEntries
    ensures Reachable(env, p, 1, w) && w.threads == map[] && w.versions == [p] && w.now == 1
    ensures Filled(env.ttl, w.store, reqs[..n]) && w.store.maxEntries == Start(env, p, 1).store.maxEntries
  {
    if n == 0 {
      ReachableStart(env, p, 1);
      w := Start(env, p, 1);
    } else {
      var before := ReachFilled(env, p, reqs, n - 1);
      assert reqs[..n] == reqs[..n - 1] + [reqs[n - 1]];
      FilledNext(env.ttl, before.store, reqs[..n - 1], reqs[n - 1]);
      w := ReachEvaluated(env, p, before, 0, reqs, n - 1);
    }
  }

  lemma PruneHead(s: seq<string>)
    requires s != []
    ensures PruneFirst(s, s[0]) == s[1..]
  {
  }

  /** A Set on a filled store may evict the first key. */
  lemma EvictFirst(ttl: int, s: Store, reqs: seq<Asked>, key: string, d: Decision) returns (s': Store)
    requires reqs != [] && Filled(ttl, s, reqs) && DistinctKeys(reqs)
    requires |reqs| == s.maxEntries && key !in s.entries
    ensures Sets(s, key, d, ttl, 1, s') && s'.maxEntries == s.maxEntries && |s'.entries| == |reqs|
    ensures reqs[0].key !in s'.entries && reqs[0].key !in s'.keysByTime
  {
    var k, ks := reqs[0].key, Keys(reqs);
    var mid := Remove(s, k);
    assert Oldest(s, k) && Victim(s, k) && Evicts(s, mid);
    PruneHead(ks);
    s' := Put(mid, key, d, ttl, 1);
    forall i | 0 < i < |ks| ensures ks[i] != k { assert reqs[0].key != reqs[i].key; }
    assert k != key;
    DropSize(s.entries, {k});
    PutSize(mid.entries, key, Entry(d, if ttl > 0 then 1 + ttl else 0, 1));
  }

  /** The capacity is lost under races, whatever it is: a Get that read an entry before its eviction
      writes it back afterwards, and the cache holds one entry too many, that one unlisted. */
  lemma GetReinstatesEvicted(env: Env, p: Modules, reqs: seq<Asked>) returns (w: World)
    requires env.compiles(p) && env.maxEntries > 0 && |reqs| == env.maxEntries + 1 && Askable(env, p, reqs)
    ensures Reachable(env, p, 1, w) && w.store.maxEntries == env.maxEntries
    ensures |w.store.entries| == env.maxEntries + 1
    ensures reqs[0].key in w.store.entries && reqs[0].key !in w.store.keysByTime
  {
    var full := ReachFilled(env, p, reqs, env.maxEntries);
    var n := env.maxEntries;
    assert reqs == reqs[..n] + [reqs[n]] && reqs[..n][0] == reqs[0];
    w := ReachReinstated(env, p, full, reqs, reqs[..n], reqs[n]);
  }

  /** A Get reads the first entry of a full cache, the evaluation of the last request evicts it, the Get
      writes it back. */
  lemma ReachReinstated(env: Env, p: Modules, full: World, reqs: seq<Asked>, front: seq<Asked>, last: Asked)
    returns (w: World)
    requires Reachable(env, p, 1, full) && full.threads == map[] && full.versions == [p] && full.now == 1
    requires Askable(env, p, reqs) && reqs == front + [last]
    requires |front| == full.store.maxEntries > 0 && Filled(env.ttl, full.store, front)
    ensures Reachable(env, p, 1, w) && w.store.maxEntries == full.store.maxEntries
    ensures |w.store.entries| == full.store.maxEntries + 1
    ensures front[0].key in w.store.entries && front[0].key !in w.store.keysByTime
  {
    var e := EntryFor(env.ttl, front[0]);
    var after := EvictionByLast(env.ttl, full.store, front, last);
    ReachHolding(env, p, full, 1, reqs, 0, e);
    ReachAsked(env, p, With(full, 1, Hold(front[0], e)), 0, reqs, |front|);
    w := ReachWrittenBack(env, p, full, front[0], e, last, after);
  }

  lemma DistinctFront(front: seq<Asked>, last: Asked)
    requires DistinctKeys(front + [last])
    ensures DistinctKeys(front)
  {
    forall i, j | 0 <= i < j < |front| ensures front[i].key != front[j].key {
      assert (front + [last])[i].key != (front + [last])[j].key;
    }
  }

  lemma EvictionByLast(ttl: int, s: Store, front: seq<Asked>, last: Asked) returns (s': Store)
    requires |front| == s.maxEntries > 0 && DistinctKeys(front + [last]) && Filled(ttl, s, front)
    ensures front[0].key in s.entries && s.entries[front[0].key] == EntryFor(ttl, front[0])
    ensures last.key !in s.entries && Sets(s, last.key, Mark(last.v, 1), ttl, 1, s')
    ensures s'.maxEntries == s.maxEntries == |s'.entries|
    ensures front[0].key !in s'.entries && front[0].key !in s'.keysByTime
  {
    FilledNext(ttl, s, front, last);
    DistinctFront(front, last);
    s' := EvictFirst(ttl, s, front, last.key, Mark(last.v, 1));
  }

  lemma ReachWrittenBack(env: Env, p: Modules, w: World, r: Asked, e: Entry, r': Asked,
      after: Store) returns (w': World)
    requires Reachable(env, p, 1, With(With(w, 1, Hold(r, e)), 0, Computed(r'.q, r'.x, r'.key, r'.v, 0)))
    requires w.threads == map[] && w.now == 1 && !Expired(e, 1)
    requires Sets(w.store, r'.key, Mark(r'.v, 1), env.ttl, 1, after) && r.key !in after.entries
    ensures Reachable(env, p, 1, w')
    ensures w'.store.keysByTime == after.keysByTime && w'.store.maxEntries == after.maxEntries
    ensures |w'.store.entries| == |after.entries| + 1 && r.key in w'.store.entries
  {
    ReachStored(env, p, 1, With(w, 1, Hold(r, e)), 0, r'.q, r'.x, r'.key, r'.v, 0, after);
    var w1 := w.(store := after, log := w.log + [Stored(r'.q, r'.x, r'.key, Mark(r'.v, 1), 1, 0, |w.versions|)]);
    assert With(w, 1, Hold(r, e)).(store := after, log := w1.log) == With(w1, 1, Hold(r, e));
    w' := ReachRestored(env, p, With(w1, 1, Hold(r, e)), w1.threads, 1, r, e);
    PutSize(after.entries, r.key, e.(lastAccess := 1));
  }

  /** Goroutine t writes back the entry it holds. */
  lemma ReachRestored(env: Env, p: Modules, w: World, threads: map<nat, Thread>, t: nat, r: Asked, e: Entry)
    returns (w': World)
    requires Reachable(env, p, 1, w) && t !in threads && w.threads == threads[t := Hold(r, e)]
    requires w.now == 1 && !Expired(e, 1)
    ensures Reachable(env, p, 1, w') && w'.threads == threads && w'.now == 1
    ensures w'.store == TouchedStore(w, r.key, e)
  {
    var base := w.(threads := threads);
    assert w == With(base, t, Hold(r, e));
    ReachServed(env, p, 1, base, t, r.q, r.x, r.key, e);
    w' := base.(store := TouchedStore(base, r.key, e), hits := base.hits + [HitOn(base, r.key, e)]);
  }

  /** Goroutine 0 evaluates the request, goroutine t reads its entry, and an update clears the cache. */
  lemma ReachOutdated(env: Env, p: Modules, w: World, t: nat, reqs: seq<Asked>, i: nat) returns (w': World)
    requires Reachable(env, p, 1, w) && w.now == 1 && 0 !in w.threads && t !in w.threads && t > 0
    requires env.compiles(p) && Askable(env, p, reqs) && i < |reqs|
    requires w.versions != [] && w.versions[|w.versions| - 1] == p && w.store.entries == map[] && w.store.maxEntries > 0
    ensures Reachable(env, p, 1, w') && w'.now == 1
    ensures w'.threads == w.threads[t := Hold(reqs[i], EntryFor(env.ttl, reqs[i]))]
    ensures w'.versions == w.versions + [p] && w'.store == Cleared(w.store)
  {
    assert |w.store.entries| == 0;
    var stored := ReachEvaluated(env, p, w, 0, reqs, i);
    var e := EntryFor(env.ttl, reqs[i]);
    ReachHolding(env, p, stored, t, reqs, i, e);
    var held := With(stored, t, Hold(reqs[i], e));
    ReachUpdated(env, p, held, 0, p);
    w' := held.(versions := held.versions + [p], store := Cleared(held.store));
  }

  /** Goroutines i + 1 and up read the entries of requests i and up before updates clear them, and write them
      back at the end. */
  lemma {:induction false} ReachUnlisted(env: Env, p: Modules, w: World, reqs: seq<Asked>, i: nat)
    returns (w': World)
    requires env.compiles(p) && Askable(env, p, reqs) && i <= |reqs|
    requires Reachable(env, p, 1, w) && w.now == 1 && (forall t | t in w.threads :: 1 <= t <= i)
    requires w.versions != [] && w.versions[|w.versions| - 1] == p
    requires w.store.entries == map[] && w.store.keysByTime == [] && w.store.maxEntries > 0
    ensures Reachable(env, p, 1, w') && w'.threads == w.threads && w'.now == 1
    ensures w'.store.keysByTime == [] && w'.store.maxEntries == w.store.maxEntries
    ensures w'.store.entries.Keys == (set j | i <= j < |reqs| :: reqs[j].key) && |w'.store.entries| == |reqs| - i
    decreases |reqs| - i
  {
    if i == |reqs| {
      w' := w;
      assert |w.store.entries| == 0;
    } else {
      var e := EntryFor(env.ttl, reqs[i]);
      var held := ReachOutdated(env, p, w, i + 1, reqs, i);
      var deep := ReachUnlisted(env, p, held, reqs, i + 1);
      w' := ReachRestored(env, p, deep, w.threads, i + 1, reqs[i], e);
      PutSize(deep.store.entries, reqs[i].key, e.(lastAccess := 1));
    }
  }

  /** The same through Clear, and without bound: entries written back after an update cleared them make the
      cache hold any number of entries, none of them listed, so that the next Set finds nothing to evict. */
  lemma GetReinstatesCleared(env: Env, p: Modules, reqs: seq<Asked>) returns (w: World)
    requires env.compiles(p) && Askable(env, p, reqs)
    ensures Reachable(env, p, 1, w) && w.threads == map[]
    ensures |w.store.entries| == |reqs| && w.store.keysByTime == []
  {
    ReachableStart(env, p, 1);
    w := ReachUnlisted(env, p, Start(env, p, 1), reqs, 0);
  }
}
