/** The key list behind authz/cache/memory.go: when it lists every cached key once, and when its length is
    bounded at all. */
module KeyList {
  import opened MemoryCache

  /** Every cached key is listed exactly once, and nothing else is. */
  ghost predicate Exact(s: Store)
  {
    multiset(s.keysByTime) == multiset(s.entries.Keys)
  }

  lemma {:induction false} PruneBag(s: seq<string>, key: string)
    ensures multiset(PruneFirst(s, key)) == multiset(s) - multiset{key}
  {
    if s != [] {
      assert s == [s[0]] + s[1..];
      if s[0] != key { PruneBag(s[1..], key); }
    }
  }

  lemma {:induction false} PruneAllBag(s: seq<string>, keys: set<string>)
    ensures multiset(PruneAll(s, keys)) == multiset(s) - multiset(keys)
  {
    if s != [] {
      assert s == [s[0]] + s[1..];
      if s[0] in keys {
        PruneAllBag(s[1..], keys - {s[0]});
        assert multiset(keys) == multiset(keys - {s[0]}) + multiset{s[0]};
      } else {
        PruneAllBag(s[1..], keys);
      }
    }
  }

  lemma RemoveExact(s: Store, key: string)
    requires Exact(s)
    ensures Exact(Remove(s, key))
  {
    PruneBag(s.keysByTime, key);
    assert Remove(s, key).entries.Keys == s.entries.Keys - {key};
  }

  lemma CleanedExact(s: Store, now: int)
    requires Exact(s)
    ensures Exact(Cleaned(s, now))
  {
    var gone := ExpiredKeys(s, now);
    PruneAllBag(s.keysByTime, gone);
    assert Cleaned(s, now).entries.Keys == s.entries.Keys - gone;
  }

  lemma LookedExact(s: Store, key: string, now: int)
    requires Exact(s)
    ensures Exact(Looked(s, key, now))
  {
    if key in s.entries {
      if Expired(s.entries[key], now) { RemoveExact(s, key); }
      else { assert Looked(s, key, now).entries.Keys == s.entries.Keys; }
    }
  }

  /** Storing lists the key exactly when it was not cached. */
  lemma PutExact(s: Store, key: string, d: Decision, ttl: int, now: int)
    requires Exact(s)
    ensures Exact(Put(s, key, d, ttl, now)) <==> key !in s.entries
  {
    var s' := Put(s, key, d, ttl, now);
    assert s'.entries.Keys == s.entries.Keys + {key};
    assert multiset(s'.keysByTime) == multiset(s.keysByTime) + multiset{key};
    assert multiset(s'.keysByTime)[key] == multiset(s.entries.Keys)[key] + 1;
  }

  ghost predicate Full(s: Store)
  {
    |s.entries| >= s.maxEntries && s.maxEntries > 0
  }

  /** The store a Set writes into: after the eviction, if it is full. */
  ghost predicate Makes(s: Store, mid: Store)
  {
    if Full(s) then Evicts(s, mid) else mid == s
  }

  /** A Set that finds its key still cached once it has made room. */
  ghost predicate Repeats(s: Store, op: Op, now: int, s': Store)
  {
    op.SetOp? && exists mid :: SetsFrom(s, mid, op, now, s') && op.key in mid.entries
  }

  ghost predicate SetsFrom(s: Store, mid: Store, op: Op, now: int, s': Store)
    requires op.SetOp?
  {
    Makes(s, mid) && s' == Put(mid, op.key, op.decision, op.ttl, now)
  }

  lemma SetExact(s: Store, op: Op, now: int, s': Store)
    requires Inv(s) && Exact(s) && op.SetOp? && Step(s, op, now, s')
    ensures Exact(s') <==> !Repeats(s, op, now, s')
  {
    forall mid | SetsFrom(s, mid, op, now, s') ensures Exact(s') <==> op.key !in mid.entries {
      MakesExact(s, mid);
      PutExact(mid, op.key, op.decision, op.ttl, now);
    }
    if Full(s) {
      var mid :| Evicts(s, mid) && s' == Put(mid, op.key, op.decision, op.ttl, now);
      assert SetsFrom(s, mid, op, now, s');
    } else {
      assert SetsFrom(s, s, op, now, s');
    }
  }

  lemma MakesExact(s: Store, mid: Store)
    requires Inv(s) && Exact(s) && Makes(s, mid)
    ensures Exact(mid)
  {
    if Full(s) {
      assert |s.entries| != 0;
      EvictionExact(s, mid);
      var k :| Oldest(s, k) && mid == Remove(s, k);
      RemoveExact(s, k);
    }
  }

  lemma StepExact(s: Store, op: Op, now: int, s': Store)
    requires Inv(s) && Exact(s) && Step(s, op, now, s')
    ensures Exact(s') <==> !Repeats(s, op, now, s')
  {
    match op
    case GetOp(k) => LookedExact(s, k, now);
    case SetOp(k, d, ttl) => SetExact(s, op, now, s');
    case DeleteOp(k) => RemoveExact(s, k);
    case ClearOp =>
    case CleanupOp => CleanedExact(s, now);
  }

  ghost predicate RepeatsAt(ops: seq<Op>, times: seq<int>, states: seq<Store>, i: nat)
    requires i < |ops| == |times| && |states| == |ops| + 1
  {
    Repeats(states[i], ops[i], times[i], states[i + 1])
  }

  lemma {:induction false} ExactUpTo(max: int, ops: seq<Op>, times: seq<int>, states: seq<Store>, n: nat)
    requires Run(max, ops, times, states) && n <= |ops|
    requires forall i | 0 <= i < n :: !RepeatsAt(ops, times, states, i)
    ensures Exact(states[n])
  {
    if n > 0 {
      ExactUpTo(max, ops, times, states, n - 1);
      LruInvariant(max, ops, times, states, n - 1);
      assert StepAt(ops, times, states, n - 1) && !RepeatsAt(ops, times, states, n - 1);
      StepExact(states[n - 1], ops[n - 1], times[n - 1], states[n]);
    }
  }

  /** Throughout a run the list names every cached key exactly once if and only if no Set finds its key
      still cached after making room. */
  lemma ListExactly(max: int, ops: seq<Op>, times: seq<int>, states: seq<Store>)
    requires Run(max, ops, times, states)
    ensures (forall n | 0 <= n <= |ops| :: Exact(states[n])) <==>
            (forall i | 0 <= i < |ops| :: !RepeatsAt(ops, times, states, i))
  {
    if forall i | 0 <= i < |ops| :: !RepeatsAt(ops, times, states, i) {
      forall n | 0 <= n <= |ops| ensures Exact(states[n]) { ExactUpTo(max, ops, times, states, n); }
    } else {
      var i :| 0 <= i < |ops| && RepeatsAt(ops, times, states, i);
      LruInvariant(max, ops, times, states, i);
      assert StepAt(ops, times, states, i);
      if Exact(states[i]) { StepExact(states[i], ops[i], times[i], states[i + 1]); }
    }
  }

  // ----- How long the list can get -----

  /** With room for one entry a Set always starts from an empty cache. */
  lemma OneNeverRepeats(s: Store, op: Op, now: int, s': Store)
    requires Inv(s) && s.maxEntries == 1
    ensures !Repeats(s, op, now, s')
  {
    forall mid | Makes(s, mid) ensures mid.entries == map[] {
      if Full(s) {
        assert |s.entries| != 0;
        EvictionExact(s, mid);
        assert |mid.entries| == 0;
      } else {
        assert |s.entries| == 0;
      }
    }
  }

  lemma OneStaysShort(ops: seq<Op>, times: seq<int>, states: seq<Store>, n: nat)
    requires Run(1, ops, times, states) && n <= |ops|
    ensures |states[n].keysByTime| <= 1
  {
    forall i | 0 <= i < n ensures !RepeatsAt(ops, times, states, i) {
      LruInvariant(1, ops, times, states, i);
      OneNeverRepeats(states[i], ops[i], times[i], states[i + 1]);
    }
    ExactUpTo(1, ops, times, states, n);
    LruInvariant(1, ops, times, states, n);
    var s := states[n];
    assert |s.keysByTime| == |multiset(s.keysByTime)| == |multiset(s.entries.Keys)| == |s.entries.Keys| == |s.entries|;
  }

  /** No run of a cache made for max entries makes the list longer than bound. */
  ghost predicate ListWithin(max: int, bound: nat)
  {
    forall ops, times, states: seq<Store> | Run(max, ops, times, states) :: |states[|ops|].keysByTime| <= bound
  }

  /** The length of the list is bounded, over all runs, if and only if the capacity is 1. */
  lemma ListBoundedExactly(max: int)
    ensures (exists bound: nat :: ListWithin(max, bound)) <==> max == 1
  {
    if max == 1 {
      forall ops, times, states: seq<Store> | Run(max, ops, times, states) ensures |states[|ops|].keysByTime| <= 1 {
        OneStaysShort(ops, times, states, |ops|);
      }
      assert ListWithin(max, 1);
    } else {
      forall bound: nat ensures !ListWithin(max, bound) {
        var ops, times, states := DuplicatesPileUp(max, bound + 1, "k", Decision(false, "", false, 1));
        assert |states[|ops|].keysByTime| == bound + 1;
      }
    }
  }
}
