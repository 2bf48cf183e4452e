/** What the stream of SyncAuth delivers, exactly: the order of its versions across the snapshot border,
    and what the client holds once everything is delivered. */
module SyncExact {
  import opened Text
  import opened EventBus
  import opened SyncAuth

  // ----- Versions across the snapshot border -----

  lemma {:induction false} NothingForwarded(cfg: Config, db: map<Pair, Roles>, version: int, actions: seq<Action>,
      ss: seq<Stream>, n: nat)
    requires Run(cfg, db, version, actions, ss) && n <= |actions| && ss[n].snapshotting
    ensures ss[n].forwarded == []
  {
    if n > 0 {
      assert NextAt(cfg, actions, ss, n - 1);
      assert ss[n - 1].snapshotting;
      NothingForwarded(cfg, db, version, actions, ss, n - 1);
    }
  }

  lemma {:induction false} OfferedGrows(cfg: Config, db: map<Pair, Roles>, version: int, actions: seq<Action>,
      ss: seq<Stream>, m: nat, n: nat)
    requires Run(cfg, db, version, actions, ss) && m <= n <= |actions|
    ensures ss[m].offered <= ss[n].offered
  {
    if m < n {
      OfferedGrows(cfg, db, version, actions, ss, m, n - 1);
      assert NextAt(cfg, actions, ss, n - 1);
      assert ss[n - 1].offered <= ss[n].offered;
    }
  }

  lemma {:induction false} AcceptedConcat(a: seq<(int, bool)>, b: seq<(int, bool)>)
    ensures Accepted(a + b) == Accepted(a) + Accepted(b)
  {
    if b == [] {
      assert a + b == a;
    } else {
      var n := |b| - 1;
      assert (a + b)[..|a| + n] == a + b[..n];
      AcceptedConcat(a, b[..n]);
    }
  }

  lemma {:induction false} AcceptedFrom(offered: seq<(int, bool)>, least: int)
    requires forall i | 0 <= i < |offered| :: offered[i].0 >= least
    ensures forall v | v in Accepted(offered) :: v >= least
  {
    if offered != [] { AcceptedFrom(offered[..|offered| - 1], least); }
  }

  /** What has been forwarded is the start of: what waited when the snapshot ended, then later versions. */
  lemma AfterSnapshot(cfg: Config, db: map<Pair, Roles>, version: int, actions: seq<Action>, ss: seq<Stream>,
      m: nat, n: nat) returns (later: seq<int>)
    requires Run(cfg, db, version, actions, ss) && m <= n <= |actions| && ss[m].snapshotting
    ensures ss[n].forwarded + Versions(ss[n].buf) == Versions(ss[m].buf) + later
    ensures forall v | v in later :: v > ss[m].version
    ensures forall v | v in Versions(ss[m].buf) :: v <= ss[m].version
  {
    RunLedger(cfg, db, version, actions, ss, m);
    RunLedger(cfg, db, version, actions, ss, n);
    NothingForwarded(cfg, db, version, actions, ss, m);
    OfferedGrows(cfg, db, version, actions, ss, m, n);
    var old', all := ss[m].offered, ss[n].offered;
    assert all == old' + all[|old'|..];
    AcceptedConcat(old', all[|old'|..]);
    AcceptedFrom(all[|old'|..], ss[m].version + 1);
    AcceptedIncreasing(old', version);
    later := Accepted(all[|old'|..]);
    assert ss[m].forwarded + Versions(ss[m].buf) == Versions(ss[m].buf);
  }

  /** The marker that ends the snapshot carries the current version. Everything forwarded after it
      carries a later one if and only if nothing was waiting when the snapshot ended. */
  lemma SnapshotOrderExactly(cfg: Config, db: map<Pair, Roles>, version: int, actions: seq<Action>, ss: seq<Stream>,
      m: nat, n: nat)
    requires Run(cfg, db, version, actions, ss) && m < n <= |actions|
    requires actions[m].SendPage? && ss[m].snapshotting && !ss[m + 1].snapshotting && ss[n].forwarded != []
    ensures var stamps := ss[m + 1].snapshotVersions; stamps != [] && stamps[|stamps| - 1] == ss[m].version
    ensures (forall v | v in ss[n].forwarded :: v > ss[m].version) <==> ss[m].buf == []
  {
    assert NextAt(cfg, actions, ss, m);
    var later := AfterSnapshot(cfg, db, version, actions, ss, m, n);
    var all, waiting := ss[n].forwarded + Versions(ss[n].buf), Versions(ss[m].buf);
    if ss[m].buf == [] {
      forall v | v in ss[n].forwarded ensures v > ss[m].version { assert v in all; }
    } else {
      assert ss[n].forwarded[0] == all[0] == waiting[0];
      assert waiting[0] in waiting && ss[n].forwarded[0] in ss[n].forwarded;
    }
  }

  // ----- What the client ends up with -----

  /** The roles of the last of the first n actions that changes p. */
  function LastChange(actions: seq<Action>, n: nat, p: Pair): (r: seq<Roles>)
    requires n <= |actions|
    ensures |r| <= 1
  {
    if n == 0 then []
    else if actions[n - 1].Change? && actions[n - 1].pair == p then [actions[n - 1].roles]
    else LastChange(actions, n - 1, p)
  }

  /** The same, of the changes that found room in the buffer. */
  function LastAccepted(actions: seq<Action>, ss: seq<Stream>, n: nat, p: Pair): (r: seq<Roles>)
    requires n <= |actions| && |ss| == |actions| + 1
    ensures |r| <= 1
  {
    if n == 0 then []
    else if actions[n - 1].Change? && actions[n - 1].pair == p && |ss[n - 1].buf| < AUTH_CAPACITY
    then [actions[n - 1].roles]
    else LastAccepted(actions, ss, n - 1, p)
  }

  /** The user whose row a ReadUser reads. */
  function Reads(cfg: Config, s: Stream): seq<string>
  {
    if s.page >= 1 && Offset(cfg, s.page) + |s.rows| < |cfg.users|
    then [cfg.users[Offset(cfg, s.page) + |s.rows|]]
    else []
  }

  /** What the row just read carries for p. */
  function LastRow(s: Stream, p: Pair): Roles
  {
    if s.rows == [] then [] else Lookup(s.rows[|s.rows| - 1].roles, p)
  }

  /** The roles that the snapshot's row carries for p; none while it has not read the user. */
  function RowRead(cfg: Config, actions: seq<Action>, ss: seq<Stream>, n: nat, p: Pair): Roles
    requires n <= |actions| && |ss| == |actions| + 1
  {
    if n == 0 then []
    else if actions[n - 1].ReadUser? && Reads(cfg, ss[n - 1]) == [p.user] then LastRow(ss[n], p)
    else RowRead(cfg, actions, ss, n - 1, p)
  }

  /** The stream still carries, or the client already holds, the last accepted change of p, or else what
      its row read. */
  ghost predicate Told(cfg: Config, s: Stream, j: nat, p: Pair, accepted: seq<Roles>, read: Roles)
    requires s.page >= 1 && |accepted| <= 1
  {
    var at := Offset(cfg, s.page);
    if accepted != [] then
      || Waiting(s.buf, p) == accepted
      || (Waiting(s.buf, p) == [] && !s.snapshotting && Lookup(s.client, p) == accepted[0])
    else
      && Waiting(s.buf, p) == []
      && if !s.snapshotting || j < at then Lookup(s.client, p) == read
         else if j < at + |s.rows| then Lookup(s.rows[j - at].roles, p) == read
         else read == []
  }

  lemma ToldChange(cfg: Config, s: Stream, a: Action, s': Stream, j: nat, p: Pair, accepted: seq<Roles>, read: Roles)
    requires s.page >= 1 && |accepted| <= 1 && Told(cfg, s, j, p, accepted, read)
    requires (a.Change? || a.Revoke?) && Next(cfg, s, a, s')
    ensures s'.page >= 1
    ensures Told(cfg, s', j, p,
      if a.Change? && a.pair == p && |s.buf| < AUTH_CAPACITY then [a.roles] else accepted, read)
  {
    WaitingOffer(s.buf, Event(s.version + 1, if a.Change? then UserRoles(a.pair, a.roles) else Other), p);
  }

  lemma ToldRead(cfg: Config, s: Stream, s': Stream, j: nat, p: Pair, accepted: seq<Roles>, read: Roles)
    requires DistinctUsers(cfg) && PageOk(cfg, s) && Of(cfg, j, p)
    requires |accepted| <= 1 && Told(cfg, s, j, p, accepted, read)
    requires Next(cfg, s, ReadUser, s')
    ensures Told(cfg, s', j, p, accepted, if Reads(cfg, s) == [p.user] then LastRow(s', p) else read)
  {
    var i := Offset(cfg, s.page) + |s.rows|;
    assert Reads(cfg, s) == [cfg.users[i]];
    assert Reads(cfg, s) == [p.user] <==> i == j by {
      if i != j { assert cfg.users[i] != cfg.users[j]; }
      assert [cfg.users[i]][0] == cfg.users[i] && [p.user][0] == p.user;
    }
  }

  lemma ToldSend(cfg: Config, s: Stream, s': Stream, j: nat, p: Pair, accepted: seq<Roles>, read: Roles)
    requires DistinctUsers(cfg) && PageOk(cfg, s) && Of(cfg, j, p)
    requires |accepted| <= 1 && Told(cfg, s, j, p, accepted, read)
    requires Next(cfg, s, SendPage, s')
    ensures Told(cfg, s', j, p, accepted, read)
  {
    SendPageLookup(cfg, s, j, p);
    assert Offset(cfg, s'.page) == Offset(cfg, s.page) + PAGE_SIZE;
  }

  lemma ToldForward(cfg: Config, s: Stream, s': Stream, j: nat, p: Pair, accepted: seq<Roles>, read: Roles)
    requires s.page >= 1 && |accepted| <= 1 && Told(cfg, s, j, p, accepted, read)
    requires Next(cfg, s, Forward, s')
    ensures Told(cfg, s', j, p, accepted, read)
  {
    WaitingPop(s.buf, p);
  }

  lemma NextTold(cfg: Config, s: Stream, a: Action, s': Stream, j: nat, p: Pair, accepted: seq<Roles>, read: Roles)
    requires DistinctUsers(cfg) && PageOk(cfg, s) && Of(cfg, j, p)
    requires |accepted| <= 1 && Told(cfg, s, j, p, accepted, read)
    requires Next(cfg, s, a, s')
    ensures s'.page >= 1
    ensures Told(cfg, s', j, p,
      if a.Change? && a.pair == p && |s.buf| < AUTH_CAPACITY then [a.roles] else accepted,
      if a.ReadUser? && Reads(cfg, s) == [p.user] then LastRow(s', p) else read)
  {
    match a
    case Change(_, _) => ToldChange(cfg, s, a, s', j, p, accepted, read);
    case Revoke => ToldChange(cfg, s, a, s', j, p, accepted, read);
    case ReadUser => ToldRead(cfg, s, s', j, p, accepted, read);
    case SendPage => ToldSend(cfg, s, s', j, p, accepted, read);
    case Forward => ToldForward(cfg, s, s', j, p, accepted, read);
  }

  lemma {:induction false} RunTold(cfg: Config, db: map<Pair, Roles>, version: int, actions: seq<Action>,
      ss: seq<Stream>,
      n: nat, j: nat, p: Pair)
    requires Run(cfg, db, version, actions, ss) && n <= |actions| && Of(cfg, j, p)
    ensures ss[n].page >= 1
    ensures Told(cfg, ss[n], j, p, LastAccepted(actions, ss, n, p), RowRead(cfg, actions, ss, n, p))
  {
    if n > 0 {
      RunTold(cfg, db, version, actions, ss, n - 1, j, p);
      RunPageOk(cfg, db, version, actions, ss, n - 1);
      assert NextAt(cfg, actions, ss, n - 1);
      NextTold(cfg, ss[n - 1], actions[n - 1], ss[n], j, p, LastAccepted(actions, ss, n - 1, p),
               RowRead(cfg, actions, ss, n - 1, p));
    }
  }

  lemma {:induction false} ServerHolds(cfg: Config, db: map<Pair, Roles>, version: int, actions: seq<Action>,
      ss: seq<Stream>,
      n: nat, p: Pair)
    requires Run(cfg, db, version, actions, ss) && n <= |actions|
    ensures Lookup(ss[n].db, p) == Written(db, actions, n, p)
  {
    if n > 0 {
      ServerHolds(cfg, db, version, actions, ss, n - 1, p);
      assert NextAt(cfg, actions, ss, n - 1);
    }
  }

  /** What a client has heard of p: the last change the channel took, or else what its row carried. */
  function Heard(cfg: Config, actions: seq<Action>, ss: seq<Stream>, n: nat, p: Pair): Roles
    requires n <= |actions| && |ss| == |actions| + 1
  {
    var accepted := LastAccepted(actions, ss, n, p);
    if accepted != [] then accepted[0] else RowRead(cfg, actions, ss, n, p)
  }

  /** What has been written of p: its last change, or else what stood there when the stream subscribed. */
  function Written(db: map<Pair, Roles>, actions: seq<Action>, n: nat, p: Pair): Roles
    requires n <= |actions|
  {
    var change := LastChange(actions, n, p);
    if change != [] then change[0] else Lookup(db, p)
  }

  /** In every run, once snapshot and buffer are through, the client holds for every pair of every listed user
      exactly what it heard; so it agrees with the server if and only if that is what was written last. */
  lemma DrainedExactly(cfg: Config, db: map<Pair, Roles>, version: int, actions: seq<Action>, ss: seq<Stream>,
      n: nat, j: nat, p: Pair)
    requires Run(cfg, db, version, actions, ss) && n <= |actions| && Of(cfg, j, p)
    requires !ss[n].snapshotting && ss[n].buf == []
    ensures Lookup(ss[n].client, p) == Heard(cfg, actions, ss, n, p)
    ensures Lookup(ss[n].client, p) == Lookup(ss[n].db, p) <==>
      Heard(cfg, actions, ss, n, p) == Written(db, actions, n, p)
  {
    RunTold(cfg, db, version, actions, ss, n, j, p);
    ServerHolds(cfg, db, version, actions, ss, n, p);
  }

  // ----- When that is what the server holds -----

  /** A pair whose latest change was not dropped has been heard of as last written, if it was written at all. */
  lemma {:induction false} NothingLost(cfg: Config, db: map<Pair, Roles>, version: int, actions: seq<Action>,
      ss: seq<Stream>, n: nat, p: Pair)
    requires Run(cfg, db, version, actions, ss) && n <= |actions|
    ensures p !in ss[n].lost ==> LastAccepted(actions, ss, n, p) == LastChange(actions, n, p)
  {
    if n > 0 {
      NothingLost(cfg, db, version, actions, ss, n - 1, p);
      assert NextAt(cfg, actions, ss, n - 1);
    }
  }

  /** What a row carries of a pair with these roles. */
  ghost predicate Carries(db: map<Pair, Roles>, p: Pair, carried: Roles)
  {
    if p in db then OneOf(db[p], carried) else carried == []
  }

  /** The user stands before page 1's offset, or its row has not been read yet. */
  predicate Unread(cfg: Config, s: Stream, j: nat)
    requires s.page >= 1
  {
    j < cfg.first || (s.snapshotting && j >= Offset(cfg, s.page) + |s.rows|)
  }

  lemma UnreadNext(cfg: Config, s: Stream, a: Action, s': Stream, j: nat, p: Pair)
    requires DistinctUsers(cfg) && PageOk(cfg, s) && Of(cfg, j, p) && Next(cfg, s, a, s')
    ensures s'.page >= 1
    ensures a.ReadUser? && Reads(cfg, s) == [p.user] ==> Unread(cfg, s, j) && !Unread(cfg, s', j)
    ensures !(a.ReadUser? && Reads(cfg, s) == [p.user]) ==> (Unread(cfg, s, j) <==> Unread(cfg, s', j))
  {
    if a.ReadUser? {
      var i := Offset(cfg, s.page) + |s.rows|;
      assert Reads(cfg, s) == [cfg.users[i]] && [cfg.users[i]][0] == cfg.users[i] && [p.user][0] == p.user;
      if i != j { assert cfg.users[i] != cfg.users[j]; }
    } else if a.SendPage? {
      assert Offset(cfg, s'.page) == Offset(cfg, s.page) + PAGE_SIZE;
    }
  }

  lemma CarriedNow(cfg: Config, s: Stream, s': Stream, p: Pair)
    requires Next(cfg, s, ReadUser, s') && Reads(cfg, s) == [p.user]
    ensures Carries(s.db, p, LastRow(s', p))
  {
    var i := Offset(cfg, s.page) + |s.rows|;
    assert [cfg.users[i]][0] == cfg.users[i] && [p.user][0] == p.user;
  }

  /** Of a pair that has not changed, the row carries what stood there when the stream subscribed. */
  lemma {:induction false} RowCarries(cfg: Config, db: map<Pair, Roles>, version: int, actions: seq<Action>,
      ss: seq<Stream>, n: nat, j: nat, p: Pair)
    requires Run(cfg, db, version, actions, ss) && n <= |actions| && Of(cfg, j, p) && LastChange(actions, n, p) == []
    ensures ss[n].page >= 1 && (p in ss[n].db <==> p in db) && (p in db ==> ss[n].db[p] == db[p])
    ensures if Unread(cfg, ss[n], j) then RowRead(cfg, actions, ss, n, p) == []
            else Carries(db, p, RowRead(cfg, actions, ss, n, p))
  {
    if n > 0 {
      RowCarries(cfg, db, version, actions, ss, n - 1, j, p);
      RunPageOk(cfg, db, version, actions, ss, n - 1);
      assert NextAt(cfg, actions, ss, n - 1);
      UnreadNext(cfg, ss[n - 1], actions[n - 1], ss[n], j, p);
      if actions[n - 1].ReadUser? && Reads(cfg, ss[n - 1]) == [p.user] { CarriedNow(cfg, ss[n - 1], ss[n], p); }
    }
  }

  /** A client that holds the one carried role agrees exactly if there is no other. */
  lemma CarriedExactly(db: map<Pair, Roles>, p: Pair, carried: Roles)
    requires Carries(db, p, carried) && (p in db ==> db[p] != [])
    ensures carried == Lookup(db, p) <==> p !in db || |db[p]| == 1
  {
    if p in db && |db[p]| == 1 { assert carried == [carried[0]] == db[p]; }
  }

  /** The snapshot alone, exactly: of a pair that has not changed, the client agrees with the server after the
      snapshot if and only if the pair has no role, or it has one and the user stands at page 1's offset or later. */
  lemma SnapshotCoversExactly(cfg: Config, db: map<Pair, Roles>, version: int, actions: seq<Action>, ss: seq<Stream>,
      n: nat, j: nat, p: Pair)
    requires Run(cfg, db, version, actions, ss) && n <= |actions| && Of(cfg, j, p)
    requires !ss[n].snapshotting && LastChange(actions, n, p) == []
    ensures Lookup(ss[n].client, p) == Lookup(ss[n].db, p) <==> p !in db || (cfg.first <= j && |db[p]| == 1)
  {
    RunTold(cfg, db, version, actions, ss, n, j, p);
    RowCarries(cfg, db, version, actions, ss, n, j, p);
    NeverAccepted(actions, ss, n, p);
    if cfg.first <= j { CarriedExactly(db, p, RowRead(cfg, actions, ss, n, p)); }
  }

  lemma {:induction false} NeverAccepted(actions: seq<Action>, ss: seq<Stream>, n: nat, p: Pair)
    requires n <= |actions| && |ss| == |actions| + 1 && LastChange(actions, n, p) == []
    ensures LastAccepted(actions, ss, n, p) == []
  {
    if n > 0 { NeverAccepted(actions, ss, n - 1, p); }
  }

  /** Subscribe-before-snapshot converges, exactly: in every interleaving, once snapshot and buffer are through, and
      unless the latest change of that very pair met a full buffer, the client holds the server's roles of a
      pair if and only if the pair changed since Subscribe, or has no role, or has one and its user stands at
      page 1's offset or later. */
  lemma ConvergesExactly(cfg: Config, db: map<Pair, Roles>, version: int, actions: seq<Action>, ss: seq<Stream>,
      n: nat, j: nat, p: Pair)
    requires Run(cfg, db, version, actions, ss) && n <= |actions| && Of(cfg, j, p)
    requires !ss[n].snapshotting && ss[n].buf == [] && p !in ss[n].lost
    ensures Lookup(ss[n].client, p) == Lookup(ss[n].db, p) <==>
      LastChange(actions, n, p) != [] || p !in db || (cfg.first <= j && |db[p]| == 1)
  {
    if LastChange(actions, n, p) == [] {
      SnapshotCoversExactly(cfg, db, version, actions, ss, n, j, p);
    } else {
      DrainedExactly(cfg, db, version, actions, ss, n, j, p);
      NothingLost(cfg, db, version, actions, ss, n, p);
    }
  }

  /** The repository's own offsets: ListAll reads a page from page * pageSize on. */
  function Repository(users: seq<string>): (cfg: Config)
    ensures forall page: nat | page >= 1 :: Offset(cfg, page) == page * PAGE_SIZE
  {
    Config(users, PAGE_SIZE)
  }

  /** So the roles of the first hundred users never reach a client through the snapshot. */
  lemma FirstPageMissed(users: seq<string>, db: map<Pair, Roles>, version: int, actions: seq<Action>, ss: seq<Stream>,
      n: nat, j: nat, p: Pair)
    requires Run(Repository(users), db, version, actions, ss) && n <= |actions| && LastChange(actions, n, p) == []
    requires j < |users| && p.user == users[j] && !ss[n].snapshotting
    ensures Lookup(ss[n].client, p) == Lookup(ss[n].db, p) <==> p !in db || (100 <= j && |db[p]| == 1)
  {
    SnapshotCoversExactly(Repository(users), db, version, actions, ss, n, j, p);
  }
}
