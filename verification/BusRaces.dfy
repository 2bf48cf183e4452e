/** aegis/internal/grpc/eventbus.go with concurrent publishers: the version bump happens outside the
    lock, every send is a step of its own, and only Subscribe and Unsubscribe exclude senders. */
module BusRaces {
  import opened Text

  /** A channel with its history: every version it accepted, and how many of them were received. */
  datatype Chan = Chan(sent: seq<int>, received: nat, closed: bool)

  function Buffered(c: Chan): int { |c.sent| - c.received }

  /** A publisher after its bump: outside the lock, or inside it with channels still to serve. */
  datatype Publisher = Bumped(version: int) | Sending(version: int, todo: set<nat>)

  datatype Bus = Bus(
    version: int,
    subs: map<string, nat>,      // subscriber id to channel number
    chans: seq<Chan>,            // every channel ever made
    pubs: map<nat, Publisher>,
    panicked: bool)              // a send on, or a close of, a closed channel

  datatype Action =
    | Bump(p: nat)
    | Lock(p: nat)
    | Send(p: nat, c: nat)
    | Unlock(p: nat)
    | Subscribe(id: string)
    | Unsubscribe(id: string)
    | Receive(c: nat)

  /** Nobody holds the read lock. */
  predicate Unlocked(b: Bus) { forall p | p in b.pubs :: b.pubs[p].Bumped? }

  function Sent(b: Bus, c: nat, v: int, capacity: nat): Bus
    requires c < |b.chans|
  {
    var ch := b.chans[c];
    if ch.closed then b.(panicked := true)
    else if Buffered(ch) < capacity then b.(chans := b.chans[c := ch.(sent := ch.sent + [v])])
    else b
  }

  ghost predicate Next(capacity: nat, b: Bus, a: Action, b': Bus)
  {
    match a
    case Bump(p) => p !in b.pubs && b' == b.(version := b.version + 1, pubs := b.pubs[p := Bumped(b.version + 1)])
    case Lock(p) =>
      p in b.pubs && b.pubs[p].Bumped? && b' == b.(pubs := b.pubs[p := Sending(b.pubs[p].version, b.subs.Values)])
    case Send(p, c) =>
      p in b.pubs && b.pubs[p].Sending? && c in b.pubs[p].todo && c < |b.chans| &&
      var v, todo := b.pubs[p].version, b.pubs[p].todo;
      b' == Sent(b, c, v, capacity).(pubs := b.pubs[p := Sending(v, todo - {c})])
    case Unlock(p) =>
      p in b.pubs && b.pubs[p].Sending? && b.pubs[p].todo == {} && b' == b.(pubs := b.pubs - {p})
    case Subscribe(id) =>
      Unlocked(b) && b' == b.(subs := b.subs[id := |b.chans|], chans := b.chans + [Chan([], 0, false)])
    case Unsubscribe(id) =>
      Unlocked(b) &&
      if id in b.subs && b.subs[id] < |b.chans| then
        var c := b.subs[id];
        b' == b.(subs := b.subs - {id}, chans := b.chans[c := b.chans[c].(closed := true)],
                 panicked := b.panicked || b.chans[c].closed)
      else b' == b
    case Receive(c) =>
      c < |b.chans| && Buffered(b.chans[c]) > 0 &&
      b' == b.(chans := b.chans[c := b.chans[c].(received := b.chans[c].received + 1)])
  }

  const START := Bus(0, map[], [], map[], false)

  ghost predicate Run(capacity: nat, actions: seq<Action>, bs: seq<Bus>)
  {
    && |bs| == |actions| + 1 && bs[0] == START
    && forall i | 0 <= i < |actions| :: NextAt(capacity, actions, bs, i)
  }

  ghost predicate NextAt(capacity: nat, actions: seq<Action>, bs: seq<Bus>, i: nat)
    requires i < |actions| && |bs| == |actions| + 1
  {
    Next(capacity, bs[i], actions[i], bs[i + 1])
  }

  ghost predicate Distinct(s: seq<int>)
  {
    forall i, j | 0 <= i < j < |s| :: s[i] != s[j]
  }

  /** A channel within capacity whose accepted versions were all issued, each at most once. */
  ghost predicate ChanOk(b: Bus, c: Chan, capacity: nat)
  {
    0 <= Buffered(c) <= capacity && Distinct(c.sent) && forall v | v in c.sent :: 1 <= v <= b.version
  }

  /** A publisher whose version is its own, and which has not served the channels it still has to. */
  ghost predicate PubOk(b: Bus, p: nat)
    requires p in b.pubs
  {
    && 1 <= b.pubs[p].version <= b.version
    && (forall q | q in b.pubs && q != p :: b.pubs[q].version != b.pubs[p].version)
    && match b.pubs[p]
       case Bumped(v) => forall c | 0 <= c < |b.chans| :: v !in b.chans[c].sent
       case Sending(v, todo) =>
         forall c | c in todo :: c in b.subs.Values && c < |b.chans| && v !in b.chans[c].sent
  }

  ghost predicate Inv(b: Bus, capacity: nat)
  {
    && !b.panicked && b.version >= 0
    && (forall id | id in b.subs :: b.subs[id] < |b.chans| && !b.chans[b.subs[id]].closed)
    && (forall id, id' | id in b.subs && id' in b.subs && id != id' :: b.subs[id] != b.subs[id'])
    && (forall c | 0 <= c < |b.chans| :: ChanOk(b, b.chans[c], capacity))
    && (forall p | p in b.pubs :: PubOk(b, p))
  }

  lemma BumpInv(capacity: nat, b: Bus, p: nat, b': Bus)
    requires Inv(b, capacity) && Next(capacity, b, Bump(p), b')
    ensures Inv(b', capacity)
  {
    forall q | q in b'.pubs ensures PubOk(b', q) {
      if q != p { assert PubOk(b, q); }
      forall c | 0 <= c < |b.chans| ensures b.version + 1 !in b.chans[c].sent {
        assert ChanOk(b, b.chans[c], capacity);
      }
    }
    forall c | 0 <= c < |b'.chans| ensures ChanOk(b', b'.chans[c], capacity) { assert ChanOk(b, b.chans[c], capacity); }
  }

  lemma LockInv(capacity: nat, b: Bus, p: nat, b': Bus)
    requires Inv(b, capacity) && Next(capacity, b, Lock(p), b')
    ensures Inv(b', capacity)
  {
    assert PubOk(b, p);
    forall q | q in b'.pubs ensures PubOk(b', q) {
      assert PubOk(b, q);
    }
  }

  lemma SendTakes(capacity: nat, b: Bus, p: nat, c: nat, b': Bus)
    requires Inv(b, capacity) && Next(capacity, b, Send(p, c), b')
    ensures var v, ch := b.pubs[p].version, b.chans[c];
      && b' == b.(pubs := b'.pubs, chans := b'.chans) && |b'.chans| == |b.chans|
      && b'.pubs == b.pubs[p := Sending(v, b.pubs[p].todo - {c})]
      && v !in ch.sent && 1 <= v <= b.version
      && b'.chans[c] == (if |ch.sent| - ch.received < capacity then ch.(sent := ch.sent + [v]) else ch)
      && forall d | 0 <= d < |b.chans| && d != c :: b'.chans[d] == b.chans[d]
  {
    assert PubOk(b, p);
    var id :| id in b.subs && b.subs[id] == c;
    assert !b.chans[c].closed;
  }

  lemma SendKeepsChans(capacity: nat, b: Bus, p: nat, c: nat, b': Bus)
    requires Inv(b, capacity) && Next(capacity, b, Send(p, c), b')
    ensures forall d | 0 <= d < |b'.chans| ::
      ChanOk(b', b'.chans[d], capacity) && b'.chans[d].closed == b.chans[d].closed
  {
    SendTakes(capacity, b, p, c, b');
    forall d | 0 <= d < |b'.chans|
      ensures ChanOk(b', b'.chans[d], capacity) && b'.chans[d].closed == b.chans[d].closed
    {
      assert ChanOk(b, b.chans[d], capacity);
    }
  }

  lemma SendKeepsPubs(capacity: nat, b: Bus, p: nat, c: nat, b': Bus)
    requires Inv(b, capacity) && Next(capacity, b, Send(p, c), b')
    ensures !b'.panicked && b'.subs == b.subs && |b'.chans| == |b.chans| && b'.version == b.version
    ensures forall q | q in b'.pubs :: PubOk(b', q)
  {
    SendTakes(capacity, b, p, c, b');
    assert PubOk(b, p);
    forall q | q in b'.pubs ensures PubOk(b', q) {
      assert PubOk(b, q);
    }
  }

  lemma SendInv(capacity: nat, b: Bus, p: nat, c: nat, b': Bus)
    requires Inv(b, capacity) && Next(capacity, b, Send(p, c), b')
    ensures Inv(b', capacity)
  {
    SendKeepsChans(capacity, b, p, c, b');
    SendKeepsPubs(capacity, b, p, c, b');
  }

  lemma SubscribeInv(capacity: nat, b: Bus, id: string, b': Bus)
    requires Inv(b, capacity) && Next(capacity, b, Subscribe(id), b')
    ensures Inv(b', capacity)
  {
    forall q | q in b'.pubs ensures PubOk(b', q) { assert PubOk(b, q); }
    forall d | 0 <= d < |b'.chans| ensures ChanOk(b', b'.chans[d], capacity) {
      if d < |b.chans| { assert ChanOk(b, b.chans[d], capacity); }
    }
  }

  lemma UnsubscribeInv(capacity: nat, b: Bus, id: string, b': Bus)
    requires Inv(b, capacity) && Next(capacity, b, Unsubscribe(id), b')
    ensures Inv(b', capacity)
  {
    forall q | q in b'.pubs ensures PubOk(b', q) { assert PubOk(b, q); }
    forall d | 0 <= d < |b'.chans| ensures ChanOk(b', b'.chans[d], capacity) {
      assert ChanOk(b, b.chans[d], capacity);
    }
  }

  lemma ReceiveInv(capacity: nat, b: Bus, c: nat, b': Bus)
    requires Inv(b, capacity) && Next(capacity, b, Receive(c), b')
    ensures Inv(b', capacity)
  {
    forall q | q in b'.pubs ensures PubOk(b', q) { assert PubOk(b, q); }
    forall d | 0 <= d < |b'.chans| ensures ChanOk(b', b'.chans[d], capacity) {
      assert ChanOk(b, b.chans[d], capacity);
    }
  }

  lemma NextInv(capacity: nat, b: Bus, a: Action, b': Bus)
    requires Inv(b, capacity) && Next(capacity, b, a, b')
    ensures Inv(b', capacity)
  {
    match a
    case Bump(p) => BumpInv(capacity, b, p, b');
    case Lock(p) => LockInv(capacity, b, p, b');
    case Send(p, c) => SendInv(capacity, b, p, c, b');
    case Unlock(p) => forall q | q in b'.pubs ensures PubOk(b', q) { assert PubOk(b, q); }
    case Subscribe(id) => SubscribeInv(capacity, b, id, b');
    case Unsubscribe(id) => UnsubscribeInv(capacity, b, id, b');
    case Receive(c) => ReceiveInv(capacity, b, c, b');
  }

  lemma {:induction false} RunInv(capacity: nat, actions: seq<Action>, bs: seq<Bus>, n: nat)
    requires Run(capacity, actions, bs) && n <= |actions|
    ensures Inv(bs[n], capacity)
  {
    if n > 0 {
      RunInv(capacity, actions, bs, n - 1);
      assert NextAt(capacity, actions, bs, n - 1);
      NextInv(capacity, bs[n - 1], actions[n - 1], bs[n]);
    }
  }

  /** The version that the Bump of step i gives its publisher. */
  function VersionAt(bs: seq<Bus>, i: nat): int
    requires i + 1 < |bs|
  {
    bs[i + 1].version
  }

  lemma {:induction false} VersionsGrow(capacity: nat, actions: seq<Action>, bs: seq<Bus>, i: nat, j: nat)
    requires Run(capacity, actions, bs) && i <= j <= |actions|
    ensures bs[i].version <= bs[j].version
  {
    if i < j {
      VersionsGrow(capacity, actions, bs, i, j - 1);
      assert NextAt(capacity, actions, bs, j - 1);
    }
  }

  /** Subscribing makes a fresh open channel; unsubscribing closes the subscriber's, for good. */
  lemma SubscriptionSteps(capacity: nat, b: Bus, id: string, b': Bus)
    requires Inv(b, capacity)
    ensures Next(capacity, b, Subscribe(id), b') ==>
      && id in b'.subs && b'.subs[id] == |b.chans| && |b'.chans| == |b.chans| + 1
      && b'.chans[|b.chans|] == Chan([], 0, false) && forall c | 0 <= c < |b.chans| :: b'.chans[c] == b.chans[c]
    ensures Next(capacity, b, Unsubscribe(id), b') && id in b.subs ==>
      && id !in b'.subs && |b'.chans| == |b.chans| && b'.chans[b.subs[id]].closed
      && forall c | 0 <= c < |b.chans| && c != b.subs[id] :: b'.chans[c] == b.chans[c]
  {
  }

  /** Bus safety in every interleaving: no send reaches a closed channel and no channel is closed twice,
      no buffer exceeds its capacity, no two publications of the run get the same version, and
      no subscriber accepts an event twice. */
  lemma BusSafety(capacity: nat, actions: seq<Action>, bs: seq<Bus>, n: nat)
    requires Run(capacity, actions, bs) && n <= |actions|
    ensures !bs[n].panicked
    ensures forall c | 0 <= c < |bs[n].chans| ::
      0 <= Buffered(bs[n].chans[c]) <= capacity && Distinct(bs[n].chans[c].sent)
    ensures forall i, j | 0 <= i < j < n && actions[i].Bump? && actions[j].Bump? :: VersionAt(bs, i) < VersionAt(bs, j)
    ensures forall i | 0 <= i < n && actions[i].Bump? :: bs[i + 1].pubs.Keys >= {actions[i].p} &&
              bs[i + 1].pubs[actions[i].p].version == VersionAt(bs, i)
  {
    RunInv(capacity, actions, bs, n);
    forall c | 0 <= c < |bs[n].chans|
      ensures 0 <= Buffered(bs[n].chans[c]) <= capacity && Distinct(bs[n].chans[c].sent)
    {
      assert ChanOk(bs[n], bs[n].chans[c], capacity);
    }
    forall i | 0 <= i < n && actions[i].Bump?
      ensures bs[i + 1].pubs.Keys >= {actions[i].p} && bs[i + 1].pubs[actions[i].p].version == VersionAt(bs, i)
    {
      assert NextAt(capacity, actions, bs, i);
    }
    forall i, j | 0 <= i < j < n && actions[i].Bump? && actions[j].Bump? ensures VersionAt(bs, i) < VersionAt(bs, j) {
      assert NextAt(capacity, actions, bs, j);
      VersionsGrow(capacity, actions, bs, i + 1, j);
    }
  }

  // ----- When subscribers see versions in order -----

  /** Every channel has accepted its versions in order. */
  ghost predicate InOrder(b: Bus)
  {
    forall c | 0 <= c < |b.chans| :: Increasing(b.chans[c].sent)
  }

  /** At most k publishers are ever in flight. */
  ghost predicate AtMost(k: nat, bs: seq<Bus>)
  {
    forall n | 0 <= n < |bs| :: |bs[n].pubs| <= k
  }

  /** A publisher in flight alone holds the latest version. */
  ghost predicate Latest(b: Bus)
  {
    InOrder(b) && forall p | p in b.pubs :: b.pubs[p].version == b.version
  }

  lemma Alone(m: map<nat, Publisher>, p: nat, q: nat)
    requires |m| <= 1 && p in m && q in m
    ensures p == q
  {
    assert |m.Keys| == |m| && m.Keys == {p} + (m.Keys - {p});
    assert |m.Keys - {p}| == 0;
  }

  lemma BumpAlone(capacity: nat, b: Bus, p: nat, b': Bus)
    requires Next(capacity, b, Bump(p), b') && |b'.pubs| <= 1 && Latest(b)
    ensures Latest(b')
  {
    forall q | q in b'.pubs ensures b'.pubs[q].version == b'.version { Alone(b'.pubs, p, q); }
  }

  lemma SendLatest(capacity: nat, b: Bus, p: nat, c: nat, b': Bus)
    requires Inv(b, capacity) && Next(capacity, b, Send(p, c), b') && Latest(b)
    ensures Latest(b')
  {
    SendTakes(capacity, b, p, c, b');
    var sent, v := b.chans[c].sent, b.version;
    assert ChanOk(b, b.chans[c], capacity);
    forall i | 0 <= i < |sent| ensures sent[i] < v { assert sent[i] in sent; }
    assert Increasing(sent) && Increasing(sent + [v]);
  }

  lemma NextLatest(capacity: nat, b: Bus, a: Action, b': Bus)
    requires Inv(b, capacity) && Next(capacity, b, a, b') && |b'.pubs| <= 1 && Latest(b)
    ensures Latest(b')
  {
    if a.Bump? { BumpAlone(capacity, b, a.p, b'); }
    else if a.Send? { SendLatest(capacity, b, a.p, a.c, b'); }
    else { SameSent(capacity, b, a, b'); }
  }

  lemma SameSent(capacity: nat, b: Bus, a: Action, b': Bus)
    requires Inv(b, capacity) && Next(capacity, b, a, b') && !a.Bump? && !a.Send? && Latest(b)
    ensures Latest(b')
  {
    assert b'.version == b.version;
    forall c | 0 <= c < |b'.chans| ensures Increasing(b'.chans[c].sent) {
      assert c < |b.chans| ==> b'.chans[c].sent == b.chans[c].sent;
      assert c >= |b.chans| ==> b'.chans[c].sent == [];
    }
  }

  lemma {:induction false} SoloInOrder(capacity: nat, actions: seq<Action>, bs: seq<Bus>, n: nat)
    requires Run(capacity, actions, bs) && AtMost(1, bs) && n <= |actions|
    ensures Latest(bs[n])
  {
    if n > 0 {
      SoloInOrder(capacity, actions, bs, n - 1);
      RunInv(capacity, actions, bs, n - 1);
      assert NextAt(capacity, actions, bs, n - 1);
      NextLatest(capacity, bs[n - 1], actions[n - 1], bs[n]);
    }
  }

  /** Reached by a run in which at most k publishers are ever in flight. */
  ghost predicate Reachable(capacity: nat, k: nat, b: Bus)
  {
    exists actions, bs :: Run(capacity, actions, bs) && AtMost(k, bs) && bs[|actions|] == b
  }

  lemma ReachableNext(capacity: nat, k: nat, b: Bus, a: Action, b': Bus)
    requires Reachable(capacity, k, b) && Next(capacity, b, a, b') && |b'.pubs| <= k
    ensures Reachable(capacity, k, b')
  {
    var actions, bs :| Run(capacity, actions, bs) && AtMost(k, bs) && bs[|actions|] == b;
    RunOn(capacity, actions, bs, a, b');
    assert (bs + [b'])[|actions + [a]|] == b' && AtMost(k, bs + [b']);
  }

  /** A run can be continued by any step its last state allows. */
  lemma RunOn(capacity: nat, actions: seq<Action>, bs: seq<Bus>, a: Action, b': Bus)
    requires Run(capacity, actions, bs) && Next(capacity, bs[|actions|], a, b')
    ensures Run(capacity, actions + [a], bs + [b'])
  {
    var actions', bs' := actions + [a], bs + [b'];
    forall i | 0 <= i < |actions'| ensures NextAt(capacity, actions', bs', i) {
      if i < |actions| { assert NextAt(capacity, actions, bs, i); }
    }
  }

  lemma Resize(m: map<nat, Publisher>, p: nat, x: Publisher)
    requires p in m
    ensures |m[p := x]| == |m|
  {
    assert m[p := x].Keys == m.Keys && |m[p := x]| == |m[p := x].Keys| && |m| == |m.Keys|;
  }

  /** A publisher that has bumped takes the lock and serves the only channel, which the subscriber then drains. */
  lemma ReachSent(capacity: nat, k: nat, b: Bus, p: nat) returns (b': Bus)
    requires Reachable(capacity, k, b) && p in b.pubs && b.pubs[p].Bumped? && |b.pubs| <= k
    requires b.subs == map["s" := 0] && |b.chans| == 1 && !b.chans[0].closed && 0 == Buffered(b.chans[0]) < capacity
    ensures Reachable(capacity, k, b') && |b'.pubs| == |b.pubs|
    ensures b' == b.(pubs := b.pubs[p := Sending(b.pubs[p].version, {})], chans := b'.chans)
    ensures b'.chans == [Chan(b.chans[0].sent + [b.pubs[p].version], b.chans[0].received + 1, false)]
  {
    var v, ch := b.pubs[p].version, b.chans[0];
    assert b.subs["s"] == 0 && b.subs.Values == {0};
    var b1 := b.(pubs := b.pubs[p := Sending(v, {0})]);
    Resize(b.pubs, p, Sending(v, {0}));
    ReachableNext(capacity, k, b, Lock(p), b1);
    var b2 := Sent(b1, 0, v, capacity).(pubs := b1.pubs[p := Sending(v, {0} - {0})]);
    Resize(b1.pubs, p, Sending(v, {0} - {0}));
    ReachableNext(capacity, k, b1, Send(p, 0), b2);
    assert {0} - {0} == {} && b2.pubs == b.pubs[p := Sending(v, {})];
    assert b2.chans == [ch.(sent := ch.sent + [v])];
    b' := b2.(chans := [Chan(ch.sent + [v], ch.received + 1, false)]);
    ReachableNext(capacity, k, b2, Receive(0), b');
  }

  /** Two publishers that bump in one order and send in the other give a subscriber version 2 before version 1. */
  lemma VersionsOutOfOrder(capacity: nat, k: nat) returns (b: Bus)
    requires capacity >= 1 && k >= 2
    ensures Reachable(capacity, k, b) && |b.chans| == 1 && b.chans[0].sent == [2, 1]
  {
    assert Run(capacity, [], [START]) && AtMost(k, [START]);
    assert Reachable(capacity, k, START);
    var b1 := START.(subs := map["s" := 0], chans := [Chan([], 0, false)]);
    ReachableNext(capacity, k, START, Subscribe("s"), b1);
    var b2 := b1.(version := 1, pubs := map[1 := Bumped(1)]);
    ReachableNext(capacity, k, b1, Bump(1), b2);
    var b3 := b2.(version := 2, pubs := map[1 := Bumped(1), 2 := Bumped(2)]);
    assert b3.pubs.Keys == {1, 2} && |b3.pubs| == |b3.pubs.Keys|;
    ReachableNext(capacity, k, b2, Bump(2), b3);
    var b4 := ReachSent(capacity, k, b3, 2);
    b := ReachSent(capacity, k, b4, 1);
  }

  /** Version order, exactly: runs with at most k publishers in flight all deliver to every subscriber in
      version order if and only if k is at most 1, that is, if publishing is serialised. */
  lemma OrderExactly(capacity: nat, k: nat)
    requires capacity >= 1
    ensures (forall b | Reachable(capacity, k, b) :: InOrder(b)) <==> k <= 1
  {
    if k <= 1 {
      forall b | Reachable(capacity, k, b) ensures InOrder(b) {
        var actions, bs :| Run(capacity, actions, bs) && AtMost(k, bs) && bs[|actions|] == b;
        assert AtMost(1, bs);
        SoloInOrder(capacity, actions, bs, |actions|);
      }
    } else {
      var b := VersionsOutOfOrder(capacity, k);
      assert b.chans[0].sent[0] > b.chans[0].sent[1];
      assert !Increasing(b.chans[0].sent);
    }
  }
}
