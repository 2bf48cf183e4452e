/** aegis/internal/adapters/ratelimiter/ratelimiter.go: the fixed-window counter that the Redis
    script keeps per key. Instants and durations are in milliseconds, the resolution of Redis.
    Redis semantics relied on: a key is gone once the clock is past its expiry, INCR keeps
    the expiry, and EXPIRE with a time to live that is not positive deletes the key. */
module RateLimiter {
  import opened Text

  datatype Config = Config(limit: real, burst: int, ttl: int)

  datatype Counter = Counter(count: int, expireAt: Option<int>)

  type Store = map<string, Counter>

  datatype Info = Info(limit: int, remaining: int, reset: int, retryAt: Option<int>)

  datatype Verdict = Verdict(allowed: bool, info: Info)

  /** One call of Allow; `up` is false when Redis or the script call fails. */
  datatype Request = Request(key: string, now: int, up: bool)

  const SECOND := 1000

  /** int(TTL.Seconds()): truncation toward zero. */
  function Seconds(ttl: int): (r: int)
    ensures ttl >= 0 ==> r * SECOND <= ttl < (r + 1) * SECOND
    ensures ttl < 0 ==> (r - 1) * SECOND < ttl <= r * SECOND
  {
    if ttl >= 0 then ttl / SECOND else -((-ttl) / SECOND)
  }

  function Window(c: Config): int
  {
    Seconds(c.ttl) * SECOND
  }

  /** time.Duration(1/float64(limit)) * time.Second: the conversion drops the fraction, so the hint is whole
      seconds, and none for a limit above 1. */
  function RetryAfter(limit: real): int
    requires limit > 0.0
  {
    (1.0 / limit).Floor * SECOND
  }

  predicate Live(s: Store, key: string, now: int)
  {
    key in s && (s[key].expireAt.Some? ==> now <= s[key].expireAt.value)
  }

  // ----- Redis commands and the script, as the program runs them -----

  class RateLimiterParams {
    var limit: real
    var burst: int
    var strategy: string
    var hasKeyGen: bool

    /** Validate. The TTL is never looked at. */
    method Validate() returns (valid: bool)
      modifies this
      ensures valid == (limit > 0.0 && burst > 0 && (strategy == "custom" ==> hasKeyGen))
      ensures limit == old(limit) && burst == old(burst) && hasKeyGen == old(hasKeyGen)
      ensures strategy == if valid && old(strategy) == "" then "ip" else old(strategy)
    {
      if limit <= 0.0 { return false; }
      if burst <= 0 { return false; }
      if strategy == "custom" && !hasKeyGen { return false; }
      if strategy == "" { strategy := "ip"; }
      return true;
    }
  }

  class RedisRateLimiter {
    const config: Config
    var store: Store

    constructor (config: Config)
      ensures this.config == config && store == map[]
    {
      this.config := config;
      store := map[];
    }

    method GetCommand(key: string, now: int) returns (value: Option<int>)
      ensures value == if Live(store, key, now) then Some(store[key].count) else None
    {
      if key !in store || (store[key].expireAt.Some? && now > store[key].expireAt.value) { return None; }
      return Some(store[key].count);
    }

    method IncrCommand(key: string, now: int) returns (value: int)
      modifies this
      ensures Live(old(store), key, now) ==>
                value == old(store)[key].count + 1 && store == old(store)[key := old(store)[key].(count := value)]
      ensures !Live(old(store), key, now) ==> value == 1 && store == old(store)[key := Counter(1, None)]
    {
      var current := GetCommand(key, now);
      if current.None? {
        store := store[key := Counter(1, None)];
        return 1;
      }
      value := current.value + 1;
      store := store[key := store[key].(count := value)];
    }

    method ExpireCommand(key: string, seconds: int, now: int)
      requires key in store
      modifies this
      ensures store == if seconds <= 0 then old(store) - {key}
                       else old(store)[key := old(store)[key].(expireAt := Some(now + seconds * SECOND))]
    {
      if seconds <= 0 {
        store := store - {key};
      } else {
        store := store[key := store[key].(expireAt := Some(now + seconds * SECOND))];
      }
    }

    /** The Lua script, which Redis runs at one instant. */
    method Script(key: string, now: int) returns (allowed: bool, current: int)
      modifies this
      ensures store == After(config, old(store), key, now)
      ensures allowed == Admits(config, old(store), key, now)
      ensures current == Count(old(store), key, now) + if allowed then 1 else 0
      ensures
        var live := key in old(store) && (old(store)[key].expireAt.Some? ==> now <= old(store)[key].expireAt.value);
        var count := if live then old(store)[key].count else 0;
        && (allowed <==> count < config.burst) && current == count + (if allowed then 1 else 0)
        && (!allowed ==> store == old(store))
        && (allowed && count != 0 ==> store == old(store)[key := Counter(count + 1, old(store)[key].expireAt)])
        && (allowed && count == 0 && config.ttl >= 1000 ==>
              store == old(store)[key := Counter(1, Some(now + Seconds(config.ttl) * 1000))])
        && (allowed && count == 0 && config.ttl < 1000 ==> store == old(store) - {key})
    {
      var value := GetCommand(key, now);
      current := if value.Some? then value.value else 0;
      if current + 1 > config.burst { return false, current; }
      ghost var before := store;
      current := IncrCommand(key, now);
      if current == 1 {
        ExpireCommand(key, Seconds(config.ttl), now);
        if Seconds(config.ttl) <= 0 {
          assert before[key := Counter(1, None)] - {key} == before - {key};
        }
      }
      return true, current;
    }

    method Allow(key: string, now: int, up: bool) returns (allowed: bool, info: Info)
      requires config.limit > 0.0
      modifies this
      ensures store == Next(config, old(store), Request(key, now, up))
      ensures Verdict(allowed, info) == Answer(config, old(store), Request(key, now, up))
      ensures info.limit == config.burst && info.reset == now + config.ttl
      ensures info.retryAt == if allowed then None else Some(now + (1.0 / config.limit).Floor * 1000)
      ensures !up ==> allowed && info.remaining == config.burst && store == old(store)
      ensures up ==>
        var live := key in old(store) && (old(store)[key].expireAt.Some? ==> now <= old(store)[key].expireAt.value);
        var count := if live then old(store)[key].count else 0;
        (allowed <==> count < config.burst) && info.remaining == config.burst - count - (if allowed then 1 else 0)
    {
      if !up { return true, Info(config.burst, config.burst, now + config.ttl, None); }
      var current;
      allowed, current := Script(key, now);
      info := Info(config.burst, config.burst - current, now + config.ttl, None);
      if !allowed { info := info.(retryAt := Some(now + RetryAfter(config.limit))); }
    }
  }

  // ----- The specification -----

  function Count(s: Store, key: string, now: int): int
  {
    if Live(s, key, now) then s[key].count else 0
  }

  predicate Admits(c: Config, s: Store, key: string, now: int)
  {
    Count(s, key, now) < c.burst
  }

  /** The store after a request at one instant: an admission either counts in the
      running window or opens a new one. */
  function After(c: Config, s: Store, key: string, now: int): Store
  {
    if !Admits(c, s, key, now) then s
    else if Live(s, key, now) && s[key].count != 0 then s[key := s[key].(count := s[key].count + 1)]
    else if Seconds(c.ttl) <= 0 then s - {key}
    else s[key := Counter(1, Some(now + Window(c)))]
  }

  function Next(c: Config, s: Store, r: Request): Store
  {
    if r.up then After(c, s, r.key, r.now) else s
  }

  function Answer(c: Config, s: Store, r: Request): Verdict
    requires c.limit > 0.0
  {
    if !r.up then Verdict(true, Info(c.burst, c.burst, r.now + c.ttl, None))
    else
      var allowed := Admits(c, s, r.key, r.now);
      var current := Count(s, r.key, r.now) + if allowed then 1 else 0;
      Verdict(allowed, Info(c.burst, c.burst - current, r.now + c.ttl,
                            if allowed then None else Some(r.now + RetryAfter(c.limit))))
  }

  // ----- Whole runs -----

  function Replay(c: Config, s: Store, reqs: seq<Request>): Store
    decreases |reqs|
  {
    if reqs == [] then s else Replay(c, Next(c, s, reqs[0]), reqs[1..])
  }

  predicate Ordered(reqs: seq<Request>)
  {
    forall i, j | 0 <= i < j < |reqs| :: reqs[i].now <= reqs[j].now
  }

  predicate Asks(r: Request, key: string, lo: int, hi: int)
  {
    r.up && r.key == key && lo <= r.now <= hi
  }

  /** Requests for the key that reach Redis at an instant in [lo, hi]. */
  function Asked(reqs: seq<Request>, key: string, lo: int, hi: int): nat
  {
    if reqs == [] then 0
    else (if Asks(reqs[0], key, lo, hi) then 1 else 0) + Asked(reqs[1..], key, lo, hi)
  }

  /** How many of those a run from s admits. */
  function Admitted(c: Config, s: Store, reqs: seq<Request>, key: string, lo: int, hi: int): nat
    decreases |reqs|
  {
    if reqs == [] then 0
    else
      var r := reqs[0];
      (if Asks(r, key, lo, hi) && Admits(c, s, key, r.now) then 1 else 0)
      + Admitted(c, Next(c, s, r), reqs[1..], key, lo, hi)
  }

  /** Every stored counter belongs to a window that an earlier request opened. */
  ghost predicate Inv(c: Config, s: Store)
  {
    forall k | k in s :: 1 <= s[k].count <= c.burst && s[k].expireAt.Some?
  }

  lemma NextInv(c: Config, s: Store, r: Request)
    requires Inv(c, s)
    ensures Inv(c, Next(c, s, r))
  {
  }

  lemma {:induction false} RunInv(c: Config, s: Store, reqs: seq<Request>)
    requires Inv(c, s)
    ensures Inv(c, Replay(c, s, reqs))
    decreases |reqs|
  {
    if reqs != [] {
      NextInv(c, s, reqs[0]);
      RunInv(c, Next(c, s, reqs[0]), reqs[1..]);
    }
  }

  /** After any run, Remaining is between 0 and burst, and 0 whenever a request is denied. */
  lemma RemainingInRange(c: Config, reqs: seq<Request>, r: Request)
    requires c.limit > 0.0 && c.burst > 0
    ensures var v := Answer(c, Replay(c, map[], reqs), r);
            0 <= v.info.remaining <= c.burst && (!v.allowed ==> v.info.remaining == 0)
  {
    RunInv(c, map[], reqs);
  }

  /** What a key can still admit in [lo, lo + window] from instant lo on: a window opened
      inside the interval outlasts it, and any other has spent `count` before a fresh one can open. */
  function Room(c: Config, s: Store, key: string, lo: int): int
    requires key in s ==> s[key].expireAt.Some?
  {
    if key !in s then c.burst
    else if s[key].expireAt.value >= lo + Window(c) then c.burst - s[key].count
    else 2 * c.burst - s[key].count
  }

  lemma {:induction false} NoneAfter(c: Config, s: Store, reqs: seq<Request>, key: string, lo: int, hi: int)
    requires forall i | 0 <= i < |reqs| :: reqs[i].now > hi
    ensures Admitted(c, s, reqs, key, lo, hi) == 0
    decreases |reqs|
  {
    if reqs != [] {
      assert reqs[0].now > hi;
      NoneAfter(c, Next(c, s, reqs[0]), reqs[1..], key, lo, hi);
    }
  }

  lemma {:induction false} FromInside(c: Config, s: Store, reqs: seq<Request>, key: string, lo: int)
    requires Seconds(c.ttl) >= 1 && c.burst > 0 && Inv(c, s) && Ordered(reqs)
    requires forall i | 0 <= i < |reqs| :: reqs[i].now >= lo
    ensures Admitted(c, s, reqs, key, lo, lo + Window(c)) <= Room(c, s, key, lo)
    decreases |reqs|
  {
    if reqs != [] {
      var r := reqs[0];
      if r.now > lo + Window(c) {
        NoneAfter(c, s, reqs, key, lo, lo + Window(c));
      } else {
        NextInv(c, s, r);
        FromInside(c, Next(c, s, r), reqs[1..], key, lo);
      }
    }
  }

  lemma {:induction false} FromBefore(c: Config, s: Store, reqs: seq<Request>, key: string, lo: int)
    requires Seconds(c.ttl) >= 1 && c.burst > 0 && Inv(c, s) && Ordered(reqs)
    ensures Admitted(c, s, reqs, key, lo, lo + Window(c)) <= 2 * c.burst - 1
    decreases |reqs|
  {
    if reqs != [] {
      var r := reqs[0];
      if r.now >= lo {
        FromInside(c, s, reqs, key, lo);
      } else {
        NextInv(c, s, r);
        FromBefore(c, Next(c, s, r), reqs[1..], key, lo);
      }
    }
  }

  predicate Within(reqs: seq<Request>, lo: int, hi: int)
  {
    forall i | 0 <= i < |reqs| :: lo <= reqs[i].now <= hi
  }

  /** Inside a running window exactly the first requests that fit are admitted, whatever
      happens to other keys. */
  lemma {:induction false} RunningWindow(c: Config, s: Store, reqs: seq<Request>, key: string, lo: int, hi: int)
    requires Inv(c, s) && key in s && Within(reqs, lo, hi) && Within(reqs, lo, s[key].expireAt.value)
    ensures Admitted(c, s, reqs, key, lo, hi) == Least(Asked(reqs, key, lo, hi), c.burst - s[key].count)
    ensures Replay(c, s, reqs).Keys >= {key}
    ensures Replay(c, s, reqs)[key] == s[key].(count := s[key].count + Admitted(c, s, reqs, key, lo, hi))
    decreases |reqs|
  {
    if reqs != [] {
      NextInv(c, s, reqs[0]);
      RunningWindow(c, Next(c, s, reqs[0]), reqs[1..], key, lo, hi);
    }
  }

  /** A request that finds no running window opens one, which then admits exactly the
      first burst requests for its key until it closes. */
  lemma WindowExact(c: Config, s: Store, reqs: seq<Request>, key: string, start: int, lo: int, hi: int)
    requires Seconds(c.ttl) >= 1 && c.burst > 0 && Inv(c, s) && !Live(s, key, start)
    requires reqs != [] && reqs[0] == Request(key, start, true)
    requires Within(reqs, lo, hi) && Within(reqs, start, start + Window(c))
    ensures Admitted(c, s, reqs, key, lo, hi) == Least(Asked(reqs, key, lo, hi), c.burst)
  {
    NextInv(c, s, reqs[0]);
    RunningWindow(c, Next(c, s, reqs[0]), reqs[1..], key, lo, hi);
  }

  /** n identical requests. */
  function Volley(key: string, now: int, n: nat): (r: seq<Request>)
    ensures |r| == n && forall i | 0 <= i < n :: r[i] == Request(key, now, true)
  {
    if n == 0 then [] else [Request(key, now, true)] + Volley(key, now, n - 1)
  }

  lemma {:induction false} VolleyAsks(key: string, now: int, n: nat, lo: int, hi: int)
    requires lo <= now <= hi
    ensures Asked(Volley(key, now, n), key, lo, hi) == n
  {
    if n > 0 {
      assert Volley(key, now, n)[1..] == Volley(key, now, n - 1);
      VolleyAsks(key, now, n - 1, lo, hi);
    }
  }

  lemma {:induction false} AdmittedSplit(c: Config, s: Store, a: seq<Request>, b: seq<Request>, key: string, lo: int,
      hi: int)
    ensures Admitted(c, s, a + b, key, lo, hi)
         == Admitted(c, s, a, key, lo, hi) + Admitted(c, Replay(c, s, a), b, key, lo, hi)
    decreases |a|
  {
    if a == [] {
      assert a + b == b;
    } else {
      assert (a + b)[1..] == a[1..] + b;
      AdmittedSplit(c, Next(c, s, a[0]), a[1..], b, key, lo, hi);
    }
  }

  /** A volley against a running window takes what is left of it. */
  lemma VolleyInside(c: Config, s: Store, key: string, now: int, n: nat, lo: int, hi: int)
    requires Inv(c, s) && key in s && now <= s[key].expireAt.value && lo <= now <= hi
    ensures Admitted(c, s, Volley(key, now, n), key, lo, hi) == Least(n, c.burst - s[key].count)
    ensures var s' := Replay(c, s, Volley(key, now, n)); Inv(c, s') && key in s' && s'[key].expireAt == s[key].expireAt
  {
    VolleyAsks(key, now, n, lo, hi);
    RunningWindow(c, s, Volley(key, now, n), key, lo, hi);
    RunInv(c, s, Volley(key, now, n));
  }

  /** A volley that finds no running window opens one. */
  lemma VolleyOpening(c: Config, s: Store, key: string, now: int, n: nat, lo: int, hi: int)
    requires Seconds(c.ttl) >= 1 && c.burst > 0 && Inv(c, s) && !Live(s, key, now) && lo <= now <= hi
    ensures Admitted(c, s, Volley(key, now, n), key, lo, hi) == Least(n, c.burst)
  {
    VolleyAsks(key, now, n, lo, hi);
    if n > 0 { WindowExact(c, s, Volley(key, now, n), key, now, lo, hi); }
  }

  /** At the instant of an answer, as many more requests for the key are admitted as it says remain. */
  ghost predicate Counts(c: Config, reqs: seq<Request>, r: Request, n: nat)
    requires c.limit > 0.0
  {
    var s := Replay(c, map[], reqs);
    Admitted(c, Next(c, s, r), Volley(r.key, r.now, n), r.key, r.now, r.now) == Least(n, Answer(c, s, r).info.remaining)
  }

  lemma RemainingCounts(c: Config, reqs: seq<Request>, r: Request, n: nat)
    requires c.limit > 0.0 && c.burst > 0 && c.ttl >= SECOND && r.up
    ensures Counts(c, reqs, r, n)
  {
    RunInv(c, map[], reqs);
    var s := Replay(c, map[], reqs);
    NextInv(c, s, r);
    VolleyInside(c, Next(c, s, r), r.key, r.now, n, r.now, r.now);
  }

  /** What is left of a window, and then all of the next. */
  lemma TwoVolleys(c: Config, s: Store, key: string, w: int)
    requires Seconds(c.ttl) >= 1 && c.burst > 0 && w >= 1 && s == map[key := Counter(1, Some(w))]
    ensures Admitted(c, s, Volley(key, w, c.burst - 1) + Volley(key, w + 1, c.burst), key, w, w + w) == 2 * c.burst - 1
  {
    VolleyInside(c, s, key, w, c.burst - 1, w, w + w);
    VolleyOpening(c, Replay(c, s, Volley(key, w, c.burst - 1)), key, w + 1, c.burst, w, w + w);
    AdmittedSplit(c, s, Volley(key, w, c.burst - 1), Volley(key, w + 1, c.burst), key, w, w + w);
  }

  /** The bound is met: the last burst - 1 requests of one window and all of the next can
      fall into one interval of a window's length. */
  lemma BoundIsTight(c: Config, key: string) returns (reqs: seq<Request>, lo: int)
    requires c.ttl >= SECOND && c.burst > 0
    ensures Ordered(reqs) && Admitted(c, map[], reqs, key, lo, lo + Window(c)) == 2 * c.burst - 1
  {
    lo := Window(c);
    var rest := Volley(key, lo, c.burst - 1) + Volley(key, lo + 1, c.burst);
    reqs := [Request(key, 0, true)] + rest;
    var s := map[key := Counter(1, Some(lo))];
    TwoVolleys(c, s, key, lo);
    assert reqs[1..] == rest && lo > 0;
    assert Next(c, map[], reqs[0]) == s;
  }

  /** A denied request's hint lies the whole seconds of 1/limit ahead. After any run, a retry at the hint is admitted
      if and only if the hint lies past the expiry of the running window; so for limits above 1, where the
      hint is the instant of the denial, never. */
  lemma RetryHint(c: Config, reqs: seq<Request>, r: Request)
    requires c.limit > 0.0 && c.burst > 0 && r.up && !Answer(c, Replay(c, map[], reqs), r).allowed
    ensures var s := Replay(c, map[], reqs);
            var hint := Answer(c, s, r).info.retryAt;
            && hint == Some(r.now + (1.0 / c.limit).Floor * SECOND)
            && r.key in s && s[r.key].expireAt.Some?
            && (Answer(c, Next(c, s, r), r.(now := hint.value)).allowed <==> hint.value > s[r.key].expireAt.value)
            && (c.limit > 1.0 ==> hint.value == r.now <= s[r.key].expireAt.value)
  {
    RunInv(c, map[], reqs);
    assert c.limit > 1.0 ==> 0.0 < 1.0 / c.limit < 1.0;
  }

  /** When the whole-second TTL is below 1 every EXPIRE deletes the counter at once and nothing is ever denied. */
  lemma {:induction false} NoWindowNoLimit(c: Config, reqs: seq<Request>, key: string, lo: int, hi: int)
    requires Seconds(c.ttl) <= 0 && c.burst > 0
    ensures Replay(c, map[], reqs) == map[]
    ensures Admitted(c, map[], reqs, key, lo, hi) == Asked(reqs, key, lo, hi)
  {
    if reqs != [] {
      assert Next(c, map[], reqs[0]) == map[];
      NoWindowNoLimit(c, reqs[1..], key, lo, hi);
    }
  }

  /** A window's length, or a single instant when the TTL leaves no window. */
  function Span(c: Config): nat
  {
    if Seconds(c.ttl) >= 1 then Window(c) else 0
  }

  /** Remaining is exact after every run if and only if the TTL is at least a whole second. */
  lemma RemainingExactly(c: Config)
    requires c.limit > 0.0 && c.burst > 0
    ensures (forall reqs, r: Request, n | r.up :: Counts(c, reqs, r, n)) <==> c.ttl >= SECOND
  {
    if c.ttl >= SECOND {
      forall reqs, r: Request, n | r.up ensures Counts(c, reqs, r, n) { RemainingCounts(c, reqs, r, n); }
    } else {
      var r, volley := Request("k", 0, true), Volley("k", 0, c.burst);
      assert Next(c, map[], r) == map[] == Replay(c, map[], []);
      NoWindowNoLimit(c, volley, "k", 0, 0);
      VolleyAsks("k", 0, c.burst, 0, 0);
      assert !Counts(c, [], r, c.burst);
    }
  }

  predicate Bounded(c: Config, reqs: seq<Request>, key: string, lo: int)
  {
    Ordered(reqs) ==> Admitted(c, map[], reqs, key, lo, lo + Span(c)) <= 2 * c.burst - 1
  }

  /** In no run from an empty store does an interval of that length admit 2 * burst requests. */
  ghost predicate Limits(c: Config)
  {
    forall reqs, key, lo :: Bounded(c, reqs, key, lo)
  }

  /** Fixed-window bound: it holds of every run exactly when the TTL is at least a whole second. */
  lemma WindowBoundExactly(c: Config)
    requires c.burst > 0
    ensures Limits(c) <==> c.ttl >= SECOND
  {
    if c.ttl >= SECOND {
      forall reqs, key, lo ensures Bounded(c, reqs, key, lo) {
        if Ordered(reqs) { FromBefore(c, map[], reqs, key, lo); }
      }
    } else {
      NeverDenies(c);
    }
  }

  lemma NeverDenies(c: Config)
    requires c.burst > 0 && c.ttl < SECOND
    ensures !Limits(c)
  {
    var reqs := Volley("k", 0, 2 * c.burst);
    NoWindowNoLimit(c, reqs, "k", 0, 0);
    VolleyAsks("k", 0, 2 * c.burst, 0, 0);
    assert Ordered(reqs) && Span(c) == 0;
    assert !Bounded(c, reqs, "k", 0);
  }
}
