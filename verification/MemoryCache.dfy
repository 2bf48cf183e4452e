/** authz/cache/memory.go: the LRU/TTL store behind the decision cache, its operations
    taken as atomic. CacheRaces splits them at their lock boundaries. */
module MemoryCache {
  import opened Text

  /** types.Decision. */
  datatype Decision = Decision(allowed: bool, reason: string, cached: bool, timestamp: int)

  /** Instants are positive; 0 is Go's zero time, which as an expiration means "never". */
  datatype Entry = Entry(decision: Decision, expiration: int, lastAccess: int)

  datatype Store = Store(entries: map<string, Entry>, keysByTime: seq<string>, maxEntries: int)

  predicate Expired(e: Entry, now: int)
  {
    e.expiration != 0 && now > e.expiration
  }

  /** pruneKeyByTime: drops the first occurrence only. */
  function PruneFirst(s: seq<string>, key: string): seq<string>
  {
    if s == [] then []
    else if s[0] == key then s[1..]
    else [s[0]] + PruneFirst(s[1..], key)
  }

  function Remove(s: Store, key: string): Store
  {
    s.(entries := s.entries - {key}, keysByTime := PruneFirst(s.keysByTime, key))
  }

  ghost predicate Oldest(s: Store, k: string)
  {
    k in s.entries && forall j | j in s.entries :: s.entries[k].lastAccess <= s.entries[j].lastAccess
  }

  /** What evictLRU may pick: an entry nobody accessed before, or on an empty
      cache the stale head of keysByTime. */
  ghost predicate Victim(s: Store, k: string)
  {
    if s.entries == map[] then s.keysByTime != [] && k == s.keysByTime[0]
    else Oldest(s, k)
  }

  ghost predicate Evicts(s: Store, s': Store)
  {
    if s.keysByTime == [] then s' == s
    else exists k :: Victim(s, k) && s' == Remove(s, k)
  }

  function Put(s: Store, key: string, d: Decision, ttl: int, now: int): Store
  {
    s.(entries := s.entries[key := Entry(d, if ttl > 0 then now + ttl else 0, now)],
       keysByTime := s.keysByTime + [key])
  }

  ghost predicate Sets(s: Store, key: string, d: Decision, ttl: int, now: int, s': Store)
  {
    if |s.entries| >= s.maxEntries && s.maxEntries > 0
    then exists mid :: Evicts(s, mid) && s' == Put(mid, key, d, ttl, now)
    else s' == Put(s, key, d, ttl, now)
  }

  function Looked(s: Store, key: string, now: int): Store
  {
    if key !in s.entries then s
    else if Expired(s.entries[key], now) then Remove(s, key)
    else s.(entries := s.entries[key := s.entries[key].(lastAccess := now)])
  }

  function Found(s: Store, key: string, now: int): Option<Decision>
  {
    if key in s.entries && !Expired(s.entries[key], now) then Some(s.entries[key].decision) else None
  }

  function Cleared(s: Store): Store
  {
    s.(entries := map[], keysByTime := [])
  }

  /** Drops the first occurrence of each of the keys. */
  function PruneAll(s: seq<string>, keys: set<string>): seq<string>
  {
    if s == [] then []
    else if s[0] in keys then PruneAll(s[1..], keys - {s[0]})
    else [s[0]] + PruneAll(s[1..], keys)
  }

  function ExpiredKeys(s: Store, now: int): set<string>
  {
    set k | k in s.entries && Expired(s.entries[k], now)
  }

  function Cleaned(s: Store, now: int): Store
  {
    var gone := ExpiredKeys(s, now);
    s.(entries := s.entries - gone, keysByTime := PruneAll(s.keysByTime, gone))
  }

  /** Pruning keys one at a time, in any order, prunes them all. */
  lemma {:induction false} PruneOneOfAll(s: seq<string>, keys: set<string>, k: string)
    requires k in keys
    ensures PruneAll(PruneFirst(s, k), keys - {k}) == PruneAll(s, keys)
  {
    if s != [] && s[0] != k {
      var p := PruneFirst(s, k);
      assert p[0] == s[0] && p[1..] == PruneFirst(s[1..], k);
      if s[0] in keys {
        PruneOneOfAll(s[1..], keys - {s[0]}, k);
        assert keys - {s[0]} - {k} == keys - {k} - {s[0]};
      } else {
        PruneOneOfAll(s[1..], keys, k);
      }
    }
  }

  lemma {:induction false} PruneNone(s: seq<string>)
    ensures PruneAll(s, {}) == s
  {
    if s != [] { PruneNone(s[1..]); }
  }

  // ----- The store as the Go type -----

  class Cache {
    var entries: map<string, Entry>
    var keysByTime: seq<string>
    var maxEntries: int

    ghost function View(): Store
      reads this
    {
      Store(entries, keysByTime, maxEntries)
    }

    /** Access times are real instants, never Go's zero time. */
    ghost predicate Timed()
      reads this
    {
      forall k | k in entries :: entries[k].lastAccess > 0
    }

    /** NewMemoryCache. */
    constructor (max: int)
      ensures View() == Store(map[], [], if max <= 0 then 1000 else max)
      ensures Timed()
    {
      entries, keysByTime := map[], [];
      maxEntries := if max <= 0 then 1000 else max;
    }

    method PruneKeyByTime(key: string)
      modifies this
      ensures entries == old(entries) && maxEntries == old(maxEntries)
      ensures keysByTime == PruneFirst(old(keysByTime), key)
      ensures key !in old(keysByTime) ==> keysByTime == old(keysByTime)
      ensures key in old(keysByTime) ==> exists i ::
        && 0 <= i < |old(keysByTime)| && old(keysByTime)[i] == key && key !in old(keysByTime)[..i]
        && keysByTime == old(keysByTime)[..i] + old(keysByTime)[i + 1..]
    {
      for i := 0 to |keysByTime|
        invariant keysByTime == old(keysByTime) && entries == old(entries) && maxEntries == old(maxEntries)
        invariant i <= |keysByTime|
        invariant PruneFirst(keysByTime, key) == keysByTime[..i] + PruneFirst(keysByTime[i..], key)
        invariant forall j | 0 <= j < i :: keysByTime[j] != key
      {
        assert keysByTime[i..][1..] == keysByTime[i + 1..];
        if keysByTime[i] == key {
          assert key !in keysByTime[..i];
          keysByTime := keysByTime[..i] + keysByTime[i + 1..];
          return;
        }
        assert keysByTime[..i + 1] == keysByTime[..i] + [keysByTime[i]];
      }
      assert keysByTime[..|keysByTime|] == keysByTime;
    }

    /** Get, at one instant. */
    method Get(key: string, now: int) returns (decision: Decision, ok: bool)
      requires now > 0
      modifies this
      ensures View() == Looked(old(View()), key, now)
      ensures ok == Found(old(View()), key, now).Some?
      ensures ok ==> decision == Found(old(View()), key, now).value
      ensures ok <==> key in old(entries) && (old(entries)[key].expiration == 0 || now <= old(entries)[key].expiration)
      ensures ok ==> decision == old(entries)[key].decision
      ensures entries == if ok then old(entries)[key := old(entries)[key].(lastAccess := now)] else old(entries) - {key}
      ensures ok || key !in old(entries) ==> keysByTime == old(keysByTime)
      ensures old(Timed()) ==> Timed()
    {
      if key !in entries { return Decision(false, "", false, 0), false; }
      var entry := entries[key];
      if entry.expiration != 0 && now > entry.expiration {
        entries := entries - {key};
        PruneKeyByTime(key);
        return Decision(false, "", false, 0), false;
      }
      entry := entry.(lastAccess := now);
      entries := entries[key := entry];
      return entry.decision, true;
    }

    method EvictLRU()
      requires Timed()
      modifies this
      ensures Evicts(old(View()), View()) && Timed()
      ensures old(keysByTime) == [] ==> entries == old(entries)
      ensures old(keysByTime) != [] && old(entries) != map[] ==> exists k ::
        && k in old(entries) && entries == old(entries) - {k}
        && forall j | j in old(entries) :: old(entries)[k].lastAccess <= old(entries)[j].lastAccess
    {
      if |keysByTime| == 0 { return; }
      var oldestKey := keysByTime[0];
      var oldestTime := 0;
      if oldestKey in entries { oldestTime := entries[oldestKey].lastAccess; }
      var todo := entries.Keys;
      while todo != {}
        invariant todo <= entries.Keys
        invariant oldestTime == 0 ==> oldestKey == keysByTime[0] && todo == entries.Keys
        invariant oldestTime != 0 ==> oldestKey in entries && entries[oldestKey].lastAccess == oldestTime
        invariant forall k | k in entries && k !in todo :: oldestTime <= entries[k].lastAccess
        decreases todo
      {
        var key :| key in todo;
        if oldestTime == 0 || entries[key].lastAccess < oldestTime {
          oldestTime, oldestKey := entries[key].lastAccess, key;
        }
        todo := todo - {key};
      }
      assert Victim(View(), oldestKey);
      entries := entries - {oldestKey};
      PruneKeyByTime(oldestKey);
    }

    /** The eviction at the start of Set. */
    method MakeRoom()
      requires Timed()
      modifies this
      ensures Timed() && maxEntries == old(maxEntries)
      ensures if |old(entries)| >= maxEntries && maxEntries > 0
              then Evicts(old(View()), View()) else View() == old(View())
      ensures forall k | k in entries :: k in old(entries) && entries[k] == old(entries)[k]
    {
      if |entries| >= maxEntries && maxEntries > 0 { EvictLRU(); }
    }

    /** Set, at one instant. */
    method Set(key: string, decision: Decision, ttl: int, now: int)
      requires now > 0 && Timed()
      modifies this
      ensures Sets(old(View()), key, decision, ttl, now, View()) && Timed()
      ensures key in entries && entries[key] == Entry(decision, if ttl > 0 then now + ttl else 0, now)
      ensures forall k | k in entries && k != key :: k in old(entries) && entries[k] == old(entries)[k]
      ensures |old(entries)| < maxEntries ==> entries.Keys == old(entries).Keys + {key}
      ensures keysByTime != [] && keysByTime[|keysByTime| - 1] == key
    {
      var expiration := 0;
      if ttl > 0 { expiration := now + ttl; }
      MakeRoom();
      ghost var mid := View();
      entries := entries[key := Entry(decision, expiration, now)];
      keysByTime := keysByTime + [key];
      assert View() == Put(mid, key, decision, ttl, now);
    }

    method Delete(key: string)
      modifies this
      ensures View() == Remove(old(View()), key)
      ensures entries == old(entries) - {key}
      ensures old(Timed()) ==> Timed()
    {
      entries := entries - {key};
      PruneKeyByTime(key);
    }

    method Clear()
      modifies this
      ensures View() == Cleared(old(View())) && Timed()
      ensures entries == map[] && keysByTime == []
    {
      entries, keysByTime := map[], [];
    }

    /** CleanupExpired: whatever order Go ranges over the map in, the result is the same. */
    method CleanupExpired(now: int)
      modifies this
      ensures View() == Cleaned(old(View()), now)
      ensures forall k :: k in entries <==>
        k in old(entries) && (old(entries)[k].expiration == 0 || now <= old(entries)[k].expiration)
      ensures forall k | k in entries :: entries[k] == old(entries)[k]
      ensures old(Timed()) ==> Timed()
    {
      ghost var gone := ExpiredKeys(View(), now);
      var todo := entries.Keys;
      assert gone * todo == gone;
      while todo != {}
        invariant todo <= entries.Keys <= old(entries).Keys && maxEntries == old(maxEntries)
        invariant forall k | k in entries :: entries[k] == old(entries)[k]
        invariant entries == old(entries) - (gone - todo)
        invariant PruneAll(keysByTime, gone * todo) == PruneAll(old(keysByTime), gone)
        decreases todo
      {
        var key :| key in todo;
        if entries[key].expiration != 0 && now > entries[key].expiration {
          PruneOneOfAll(keysByTime, gone * todo, key);
          assert gone * todo - {key} == gone * (todo - {key});
          assert gone - (todo - {key}) == (gone - todo) + {key};
          entries := entries - {key};
          PruneKeyByTime(key);
        } else {
          assert gone * (todo - {key}) == gone * todo;
          assert gone - (todo - {key}) == gone - todo;
        }
        todo := todo - {key};
      }
      PruneNone(keysByTime);
      assert gone * todo == {} && gone - todo == gone;
    }
  }

  // ----- Whole runs -----

  datatype Op =
    | GetOp(key: string)
    | SetOp(key: string, decision: Decision, ttl: int)
    | DeleteOp(key: string)
    | ClearOp
    | CleanupOp

  ghost predicate Step(s: Store, op: Op, now: int, s': Store)
  {
    match op
    case GetOp(k) => s' == Looked(s, k, now)
    case SetOp(k, d, ttl) => Sets(s, k, d, ttl, now, s')
    case DeleteOp(k) => s' == Remove(s, k)
    case ClearOp => s' == Cleared(s)
    case CleanupOp => s' == Cleaned(s, now)
  }

  /** A run from a new cache: operations at positive instants, with the store before and after each. */
  ghost predicate Run(max: int, ops: seq<Op>, times: seq<int>, states: seq<Store>)
  {
    && |times| == |ops| && |states| == |ops| + 1
    && states[0] == Store(map[], [], if max <= 0 then 1000 else max)
    && forall i | 0 <= i < |ops| :: StepAt(ops, times, states, i)
  }

  ghost predicate StepAt(ops: seq<Op>, times: seq<int>, states: seq<Store>, i: nat)
    requires i < |ops| == |times| && |states| == |ops| + 1
  {
    times[i] > 0 && Step(states[i], ops[i], times[i], states[i + 1])
  }

  /** The instant of the last Get or Set of k among the first n operations. */
  function LastUse(ops: seq<Op>, times: seq<int>, n: nat, k: string): int
    requires n <= |ops| == |times|
  {
    if n == 0 then 0
    else if ops[n - 1] == GetOp(k) || (ops[n - 1].SetOp? && ops[n - 1].key == k) then times[n - 1]
    else LastUse(ops, times, n - 1, k)
  }

  /** Within capacity, every cached key listed, access times real. */
  ghost predicate Inv(s: Store)
  {
    && s.maxEntries > 0
    && |s.entries| <= s.maxEntries
    && (forall k | k in s.entries :: k in s.keysByTime && s.entries[k].lastAccess > 0)
  }

  lemma {:induction false} PruneKeeps(s: seq<string>, key: string, k: string)
    requires k in s && k != key
    ensures k in PruneFirst(s, key)
  {
    if s[0] != key && s[0] != k { PruneKeeps(s[1..], key, k); }
  }

  lemma {:induction false} PruneAllKeeps(s: seq<string>, keys: set<string>, k: string)
    requires k in s && k !in keys
    ensures k in PruneAll(s, keys)
  {
    if s[0] != k { PruneAllKeeps(s[1..], if s[0] in keys then keys - {s[0]} else keys, k); }
  }

  lemma RemoveInv(s: Store, key: string)
    requires Inv(s)
    ensures Inv(Remove(s, key))
    ensures key in s.entries ==> |Remove(s, key).entries| == |s.entries| - 1
  {
    var m := s.entries - {key};
    assert m.Keys == s.entries.Keys - {key};
    assert |m| == |m.Keys| && |s.entries| == |s.entries.Keys|;
    forall k | k in m ensures k in PruneFirst(s.keysByTime, key) { PruneKeeps(s.keysByTime, key, k); }
  }

  /** Each eviction on a non-empty cache removes exactly one entry, of minimal lastAccess. */
  lemma EvictionExact(s: Store, s': Store)
    requires Inv(s) && s.entries != map[] && Evicts(s, s')
    ensures exists k :: Oldest(s, k) && s' == Remove(s, k)
    ensures |s'.entries| == |s.entries| - 1 && Inv(s')
  {
    var j :| j in s.entries;
    assert s.keysByTime != [];
    var k :| Victim(s, k) && s' == Remove(s, k);
    RemoveInv(s, k);
  }

  lemma PutInv(s: Store, key: string, d: Decision, ttl: int, now: int)
    requires Inv(s) && now > 0 && |s.entries| < s.maxEntries
    ensures Inv(Put(s, key, d, ttl, now))
  {
    var m := s.entries[key := Entry(d, if ttl > 0 then now + ttl else 0, now)];
    assert m.Keys == s.entries.Keys + {key};
    assert |m| == |m.Keys| && |s.entries| == |s.entries.Keys|;
  }

  lemma LookedInv(s: Store, k: string, now: int)
    requires Inv(s) && now > 0
    ensures Inv(Looked(s, k, now))
  {
    if k in s.entries {
      if Expired(s.entries[k], now) { RemoveInv(s, k); }
      else {
        var m := s.entries[k := s.entries[k].(lastAccess := now)];
        assert m.Keys == s.entries.Keys && |m| == |m.Keys| && |s.entries| == |s.entries.Keys|;
      }
    }
  }

  lemma CleanedInv(s: Store, now: int)
    requires Inv(s)
    ensures Inv(Cleaned(s, now))
  {
    var m, gone := Cleaned(s, now).entries, ExpiredKeys(s, now);
    assert m.Keys == s.entries.Keys - gone && |m| == |m.Keys| && |s.entries| == |s.entries.Keys|;
    forall k | k in m ensures k in Cleaned(s, now).keysByTime { PruneAllKeeps(s.keysByTime, gone, k); }
  }

  lemma StepInv(s: Store, op: Op, now: int, s': Store)
    requires Inv(s) && now > 0 && Step(s, op, now, s')
    ensures Inv(s') && s'.maxEntries == s.maxEntries
  {
    match op
    case GetOp(k) => LookedInv(s, k, now);
    case SetOp(k, d, ttl) =>
      if |s.entries| >= s.maxEntries {
        var mid :| Evicts(s, mid) && s' == Put(mid, k, d, ttl, now);
        EvictionExact(s, mid);
        PutInv(mid, k, d, ttl, now);
      } else {
        PutInv(s, k, d, ttl, now);
      }
    case DeleteOp(k) => RemoveInv(s, k);
    case ClearOp =>
    case CleanupOp => CleanedInv(s, now);
  }

  lemma StepUse(s: Store, op: Op, now: int, s': Store, k: string)
    requires Step(s, op, now, s') && k in s'.entries
    ensures if op == GetOp(k) || (op.SetOp? && op.key == k) then s'.entries[k].lastAccess == now
            else k in s.entries && s'.entries[k].lastAccess == s.entries[k].lastAccess
  {
  }

  /** LRU invariant over every run: the count never exceeds the capacity and every cached
      key is listed in keysByTime, despite duplicates and first-occurrence pruning. */
  lemma {:induction false} LruInvariant(max: int, ops: seq<Op>, times: seq<int>, states: seq<Store>, n: nat)
    requires Run(max, ops, times, states) && n <= |ops|
    ensures Inv(states[n]) && states[n].maxEntries == states[0].maxEntries
  {
    if n > 0 {
      LruInvariant(max, ops, times, states, n - 1);
      assert StepAt(ops, times, states, n - 1);
      StepInv(states[n - 1], ops[n - 1], times[n - 1], states[n]);
    }
  }

  /** In every run lastAccess is the instant of the last Get or Set of the key. */
  lemma {:induction false} LastAccessIsLastUse(max: int, ops: seq<Op>, times: seq<int>, states: seq<Store>, n: nat,
      k: string)
    requires Run(max, ops, times, states) && n <= |ops| && k in states[n].entries
    ensures states[n].entries[k].lastAccess == LastUse(ops, times, n, k)
  {
    if n > 0 {
      assert StepAt(ops, times, states, n - 1);
      StepUse(states[n - 1], ops[n - 1], times[n - 1], states[n], k);
      if k in states[n - 1].entries { LastAccessIsLastUse(max, ops, times, states, n - 1, k); }
    }
  }

  /** What a Get of key at an instant answers, in the entries' own terms. */
  predicate Gives(s: Store, key: string, at: int, d: Decision)
  {
    && key in s.entries && s.entries[key].decision == d
    && (s.entries[key].expiration == 0 || at <= s.entries[key].expiration)
  }

  /** In every run, a cleanup changes the answer of no Get at that or any later instant. */
  lemma CleanupInvisible(max: int, ops: seq<Op>, times: seq<int>, states: seq<Store>, n: nat, key: string, at: int,
      d: Decision)
    requires Run(max, ops, times, states) && n < |ops| && ops[n].CleanupOp? && at >= times[n]
    ensures Gives(states[n], key, at, d) <==> Gives(states[n + 1], key, at, d)
  {
    assert StepAt(ops, times, states, n);
  }

  /** In every run, after a Set of key every Get of it is answered with that decision until it expires, as long as
      no Set of any key, Delete or Clear comes in between. */
  lemma {:induction false} SetServes(max: int, ops: seq<Op>, times: seq<int>, states: seq<Store>, m: nat, n: nat,
      at: int)
    requires Run(max, ops, times, states) && m < n <= |ops| && ops[m].SetOp?
    requires forall i | m < i < n :: (ops[i].GetOp? || ops[i].CleanupOp?) && times[i] <= at
    requires ops[m].ttl > 0 ==> at <= times[m] + ops[m].ttl
    ensures Gives(states[n], ops[m].key, at, ops[m].decision)
    ensures states[n].entries[ops[m].key].expiration == if ops[m].ttl > 0 then times[m] + ops[m].ttl else 0
  {
    assert StepAt(ops, times, states, n - 1);
    if n - 1 > m { SetServes(max, ops, times, states, m, n - 1, at); }
  }

  /** In every run, a Set on a full cache drops one entry: the one used longest ago. */
  lemma FullSetEvictsLeastUsed(max: int, ops: seq<Op>, times: seq<int>, states: seq<Store>, n: nat)
    returns (victim: string)
    requires Run(max, ops, times, states) && n < |ops| && ops[n].SetOp?
    requires |states[n].entries| == states[n].maxEntries
    ensures victim in states[n].entries
    ensures forall k | k in states[n].entries :: LastUse(ops, times, n, victim) <= LastUse(ops, times, n, k)
    ensures states[n + 1].entries.Keys == states[n].entries.Keys - {victim} + {ops[n].key}
  {
    LruInvariant(max, ops, times, states, n);
    forall k | k in states[n].entries
      ensures states[n].entries[k].lastAccess == LastUse(ops, times, n, k)
    {
      LastAccessIsLastUse(max, ops, times, states, n, k);
    }
    var s, op := states[n], ops[n];
    assert StepAt(ops, times, states, n);
    var mid :| Evicts(s, mid) && states[n + 1] == Put(mid, op.key, op.decision, op.ttl, times[n]);
    EvictionExact(s, mid);
    victim :| Oldest(s, victim) && mid == Remove(s, victim);
  }

  /** keysByTime has no such bound: setting one key over and over lists it every time,
      because only eviction, expiry and Delete ever prune. */
  lemma {:induction false} DuplicatesPileUp(max: int, n: nat, key: string, d: Decision)
    returns (ops: seq<Op>, times: seq<int>, states: seq<Store>)
    requires max != 1
    ensures Run(max, ops, times, states) && |ops| == n
    ensures states[n].entries.Keys <= {key} && |states[n].keysByTime| == n
  {
    if n == 0 {
      return [], [], [Store(map[], [], if max <= 0 then 1000 else max)];
    }
    ops, times, states := DuplicatesPileUp(max, n - 1, key, d);
    var s := states[n - 1];
    LruInvariant(max, ops, times, states, n - 1);
    assert |s.entries| == |s.entries.Keys| <= 1 by {
      if s.entries.Keys != {} { assert s.entries.Keys == {key}; }
    }
    var s' := Put(s, key, d, 0, 1);
    var ops', times', states' := ops, times, states;
    ops, times, states := ops + [SetOp(key, d, 0)], times + [1], states + [s'];
    forall i | 0 <= i < |ops| ensures StepAt(ops, times, states, i) {
      if i < n - 1 { assert StepAt(ops', times', states', i); }
    }
  }
}
