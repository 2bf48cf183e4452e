/** aegis/internal/grpc/sync_auth.go: a stream subscribes, then sends a snapshot page by page, then
    forwards the events that gathered in its buffer. Role changes, each written and published in
    one step, and the reads of the snapshot interleave freely over a fixed user list. */
module SyncAuth {
  import opened Text
  import opened EventBus

  const PAGE_SIZE: nat := 100

  datatype Pair = Pair(user: string, tenant: string)
  type Roles = seq<string>

  /** UserRolesSnapshot, or any other event on the bus (a revoked token). */
  datatype Body = UserRoles(pair: Pair, roles: Roles) | Other

  /** The roles a map records for a pair; none when it has no entry. */
  function Lookup(m: map<Pair, Roles>, p: Pair): Roles { if p in m then m[p] else [] }

  /** One user as the repository returned it, with the roles its snapshot messages carry. */
  datatype Row = Row(user: string, roles: map<Pair, Roles>)

  /** A RoleMap holds one role per tenant, whichever its query returns last: of a pair with several roles the
      snapshot carries just one. */
  ghost predicate RowOf(db: map<Pair, Roles>, user: string, row: Row)
  {
    && row.user == user
    && (forall p :: p in row.roles <==> p in db && p.user == user)
    && (forall p | p in row.roles :: OneOf(db[p], row.roles[p]))
  }

  ghost predicate OneOf(roles: Roles, carried: Roles)
  {
    |carried| == 1 && carried[0] in roles
  }

  datatype Stream = Stream(
    db: map<Pair, Roles>,
    version: int,                        // of the bus
    buf: seq<Event<Body>>,               // events waiting in the channel
    snapshotting: bool,
    page: nat,
    rows: seq<Row>,                      // rows of this page read so far
    client: map<Pair, Roles>,            // what the client holds after applying the stream in order
    snapshotVersions: seq<int>,          // versions on the snapshot messages sent
    forwarded: seq<int>,                 // versions forwarded in the incremental phase
    offered: seq<(int, bool)>,           // versions published since Subscribe, and whether the channel took them
    lost: set<Pair>)                     // pairs whose latest change met a full buffer

  datatype Action = Change(pair: Pair, roles: Roles) | Revoke | ReadUser | SendPage | Forward

  /** The user list and the offset of page 1. */
  datatype Config = Config(users: seq<string>, first: nat)

  function Offset(cfg: Config, page: nat): nat
    requires page >= 1
  {
    cfg.first + (page - 1) * PAGE_SIZE
  }

  /** How many users ListAll returns for a page. */
  function PageLen(cfg: Config, page: nat): nat
    requires page >= 1
  {
    var left := |cfg.users| - Offset(cfg, page);
    if left < 0 then 0 else if left < PAGE_SIZE then left else PAGE_SIZE
  }

  /** What applying a page of rows does to the client. */
  function Applied(client: map<Pair, Roles>, rows: seq<Row>): map<Pair, Roles>
  {
    if rows == [] then client else Applied(client, rows[..|rows| - 1]) + rows[|rows| - 1].roles
  }

  /** The snapshot messages one row becomes, all stamped NextVersion, which is the current version. */
  function Stamps(rows: seq<Row>, version: int): seq<int>
  {
    if rows == [] then [] else Stamps(rows[..|rows| - 1], version) + seq(|rows[|rows| - 1].roles|, _ => version)
  }

  /** One stamp for each pair of each row, all of them the current version. */
  lemma {:induction false} StampsExactly(rows: seq<Row>, version: int)
    ensures forall v | v in Stamps(rows, version) :: v == version
    ensures |Stamps(rows, version)| == Pairs(rows)
  {
    if rows != [] { StampsExactly(rows[..|rows| - 1], version); }
  }

  function Pairs(rows: seq<Row>): nat
  {
    if rows == [] then 0 else Pairs(rows[..|rows| - 1]) + |rows[|rows| - 1].roles|
  }

  function PublishTo(s: Stream, body: Body): Stream
  {
    s.(version := s.version + 1,
       buf := Offer(s.buf, Event(s.version + 1, body), AUTH_CAPACITY),
       offered := s.offered + [(s.version + 1, |s.buf| < AUTH_CAPACITY)])
  }

  ghost predicate Next(cfg: Config, s: Stream, a: Action, s': Stream)
  {
    match a
    case Change(p, roles) =>
      s' == PublishTo(s, UserRoles(p, roles)).(
        db := if roles == [] then s.db - {p} else s.db[p := roles],
        lost := if |s.buf| < AUTH_CAPACITY then s.lost - {p} else s.lost + {p})
    case Revoke => s' == PublishTo(s, Other)
    case ReadUser =>
      s.snapshotting && s.page >= 1 && |s.rows| < PageLen(cfg, s.page) && |s'.rows| == |s.rows| + 1 &&
      var row := s'.rows[|s.rows|];
      RowOf(s.db, cfg.users[Offset(cfg, s.page) + |s.rows|], row) && s' == s.(rows := s.rows + [row])
    case SendPage =>
      s.snapshotting && s.page >= 1 && |s.rows| == PageLen(cfg, s.page) &&
      var last := PageLen(cfg, s.page) < PAGE_SIZE;
      s' == s.(client := Applied(s.client, s.rows), rows := [], page := s.page + 1, snapshotting := !last,
               snapshotVersions := s.snapshotVersions + Stamps(s.rows, s.version) + (if last then [s.version] else []))
    case Forward =>
      !s.snapshotting && s.buf != [] &&
      var e := s.buf[0];
      s' == s.(buf := s.buf[1..], forwarded := s.forwarded + [e.version],
               client := if e.body.UserRoles? then s.client[e.body.pair := e.body.roles] else s.client)
  }

  /** The stream right after Subscribe. */
  function Start(db: map<Pair, Roles>, version: int): Stream
  {
    Stream(db, version, [], true, 1, [], map[], [], [], [], {})
  }

  ghost predicate Run(cfg: Config, db: map<Pair, Roles>, version: int, actions: seq<Action>, ss: seq<Stream>)
  {
    && |ss| == |actions| + 1 && ss[0] == Start(db, version)
    && DistinctUsers(cfg)
    && (forall p | p in db :: db[p] != [])
    && forall i | 0 <= i < |actions| :: NextAt(cfg, actions, ss, i)
  }

  ghost predicate NextAt(cfg: Config, actions: seq<Action>, ss: seq<Stream>, i: nat)
    requires i < |actions| && |ss| == |actions| + 1
  {
    Next(cfg, ss[i], actions[i], ss[i + 1])
  }

  // ----- Pages and buffer -----

  /** The roles the last waiting event about p carries, if there is one. */
  function Waiting(buf: seq<Event<Body>>, p: Pair): (r: seq<Roles>)
    ensures |r| <= 1
  {
    if buf == [] then []
    else
      var e := buf[|buf| - 1];
      if e.body.UserRoles? && e.body.pair == p then [e.body.roles] else Waiting(buf[..|buf| - 1], p)
  }

  /** p is a pair of user number j. */
  ghost predicate Of(cfg: Config, j: nat, p: Pair)
  {
    j < |cfg.users| && p.user == cfg.users[j]
  }

  /** The rows read belong to the page's users, and the client has heard of no later user in the snapshot. */
  ghost predicate PageOk(cfg: Config, s: Stream)
  {
    && s.page >= 1 && (s.snapshotting ==> |s.rows| <= PageLen(cfg, s.page))
    && (forall i | 0 <= i < |s.rows| && Offset(cfg, s.page) + i < |cfg.users| ::
          && s.rows[i].user == cfg.users[Offset(cfg, s.page) + i]
          && forall q | q in s.rows[i].roles :: q.user == s.rows[i].user)
    && (s.snapshotting ==> forall j: nat, p | Offset(cfg, s.page) <= j && Of(cfg, j, p) :: p !in s.client)
    && (!s.snapshotting ==> s.rows == [] && |cfg.users| <= Offset(cfg, s.page))
  }

  lemma WaitingOffer(buf: seq<Event<Body>>, e: Event<Body>, p: Pair)
    ensures Waiting(buf + [e], p) == if e.body.UserRoles? && e.body.pair == p then [e.body.roles] else Waiting(buf, p)
  {
    assert (buf + [e])[..|buf|] == buf;
  }

  lemma {:induction false} WaitingPop(buf: seq<Event<Body>>, p: Pair)
    requires buf != []
    ensures Waiting(buf, p) == if Waiting(buf[1..], p) != [] then Waiting(buf[1..], p)
      else if buf[0].body.UserRoles? && buf[0].body.pair == p then [buf[0].body.roles] else []
  {
    if |buf| > 1 {
      var init := buf[..|buf| - 1];
      WaitingPop(init, p);
      assert init[1..] == buf[1..][..|buf[1..]| - 1];
    }
  }

  /** Applying rows about different users leaves each pair with what its own row says. */
  lemma {:induction false} AppliedRows(client: map<Pair, Roles>, rows: seq<Row>, p: Pair, i: nat)
    requires forall k | 0 <= k < |rows| :: forall q | q in rows[k].roles :: q.user == rows[k].user
    requires forall k | 0 <= k < |rows| && k != i :: rows[k].user != p.user
    ensures Lookup(Applied(client, rows), p) ==
      if i < |rows| && p in rows[i].roles then rows[i].roles[p] else Lookup(client, p)
    ensures (i >= |rows| && p !in client) ==> p !in Applied(client, rows)
  {
    if rows != [] {
      AppliedRows(client, rows[..|rows| - 1], p, i);
    }
  }

  ghost predicate DistinctUsers(cfg: Config)
  {
    forall i, j | 0 <= i < j < |cfg.users| :: cfg.users[i] != cfg.users[j]
  }

  lemma SendPageLookup(cfg: Config, s: Stream, j: nat, p: Pair)
    requires PageOk(cfg, s) && s.snapshotting && DistinctUsers(cfg) && Of(cfg, j, p)
    ensures var at := Offset(cfg, s.page);
      && (j < at ==> Lookup(Applied(s.client, s.rows), p) == Lookup(s.client, p))
      && (at <= j < at + |s.rows| ==> Lookup(Applied(s.client, s.rows), p) == Lookup(s.rows[j - at].roles, p))
      && (j >= at + |s.rows| ==> p !in Applied(s.client, s.rows))
  {
    var at := Offset(cfg, s.page);
    var i: nat := if j < at then |s.rows| else j - at;
    forall k | 0 <= k < |s.rows| && k != i ensures s.rows[k].user != p.user {
      assert cfg.users[at + k] != cfg.users[j];
    }
    AppliedRows(s.client, s.rows, p, i);
  }

  lemma SendPageOk(cfg: Config, s: Stream, s': Stream)
    requires DistinctUsers(cfg) && PageOk(cfg, s) && Next(cfg, s, SendPage, s')
    ensures PageOk(cfg, s')
  {
    var at' := Offset(cfg, s'.page);
    assert at' == Offset(cfg, s.page) + PAGE_SIZE;
    forall j: nat, q | at' <= j && Of(cfg, j, q) && s'.snapshotting ensures q !in s'.client {
      SendPageLookup(cfg, s, j, q);
    }
  }

  lemma NextPageOk(cfg: Config, s: Stream, a: Action, s': Stream)
    requires DistinctUsers(cfg) && PageOk(cfg, s) && Next(cfg, s, a, s')
    ensures PageOk(cfg, s')
  {
    if a.SendPage? { SendPageOk(cfg, s, s'); }
  }

  lemma {:induction false} RunPageOk(cfg: Config, db: map<Pair, Roles>, version: int, actions: seq<Action>,
      ss: seq<Stream>, n: nat)
    requires Run(cfg, db, version, actions, ss) && n <= |actions|
    ensures PageOk(cfg, ss[n])
  {
    if n > 0 {
      RunPageOk(cfg, db, version, actions, ss, n - 1);
      assert NextAt(cfg, actions, ss, n - 1);
      NextPageOk(cfg, ss[n - 1], actions[n - 1], ss[n]);
    }
  }

  // ----- Conservation of events -----

  function Versions(buf: seq<Event<Body>>): (r: seq<int>)
    ensures |r| == |buf|
  {
    seq(|buf|, i requires 0 <= i < |buf| => buf[i].version)
  }

  /** The versions the channel took. */
  function Accepted(offered: seq<(int, bool)>): seq<int>
  {
    if offered == [] then []
    else
      var rest := Accepted(offered[..|offered| - 1]);
      if offered[|offered| - 1].1 then rest + [offered[|offered| - 1].0] else rest
  }

  ghost predicate Ledger(version: int, s: Stream)
  {
    && |s.buf| <= AUTH_CAPACITY
    && s.version == version + |s.offered|
    && (forall i | 0 <= i < |s.offered| :: s.offered[i].0 == version + 1 + i)
    && s.forwarded + Versions(s.buf) == Accepted(s.offered)
  }

  lemma PublishLedger(version: int, s: Stream, body: Body)
    requires Ledger(version, s)
    ensures Ledger(version, PublishTo(s, body))
  {
    var s' := PublishTo(s, body);
    assert s'.offered[..|s.offered|] == s.offered;
    assert |s.buf| < AUTH_CAPACITY ==> Versions(s'.buf) == Versions(s.buf) + [s.version + 1];
  }

  lemma {:induction false} RunLedger(cfg: Config, db: map<Pair, Roles>, version: int, actions: seq<Action>,
      ss: seq<Stream>, n: nat)
    requires Run(cfg, db, version, actions, ss) && n <= |actions|
    ensures Ledger(version, ss[n])
  {
    if n > 0 {
      RunLedger(cfg, db, version, actions, ss, n - 1);
      assert NextAt(cfg, actions, ss, n - 1);
      var s, a := ss[n - 1], actions[n - 1];
      if a.Change? { PublishLedger(version, s, UserRoles(a.pair, a.roles)); }
      else if a.Revoke? { PublishLedger(version, s, Other); }
      else if a.Forward? { assert Versions(s.buf) == [s.buf[0].version] + Versions(s.buf[1..]); }
    }
  }

  lemma {:induction false} AcceptedIncreasing(offered: seq<(int, bool)>, version: int)
    requires forall i | 0 <= i < |offered| :: offered[i].0 == version + 1 + i
    ensures Increasing(Accepted(offered))
    ensures forall v | v in Accepted(offered) :: v <= version + |offered|
  {
    if offered != [] {
      var rest := Accepted(offered[..|offered| - 1]);
      AcceptedIncreasing(offered[..|offered| - 1], version);
      assert forall i | 0 <= i < |rest| :: rest[i] in rest;
    }
  }

  /** Event conservation: what the stream has forwarded followed by what is buffered is what was published
      since Subscribe, in order, less exactly the events that met a full buffer; so its
      versions are strictly increasing. */
  lemma EventConservation(cfg: Config, db: map<Pair, Roles>, version: int, actions: seq<Action>, ss: seq<Stream>,
      n: nat)
    requires Run(cfg, db, version, actions, ss) && n <= |actions|
    ensures forall i | 0 <= i < |ss[n].offered| :: ss[n].offered[i].0 == version + 1 + i
    ensures ss[n].forwarded + Versions(ss[n].buf) == Accepted(ss[n].offered)
    ensures Increasing(ss[n].forwarded + Versions(ss[n].buf))
    ensures n < |actions| && (actions[n].Change? || actions[n].Revoke?) ==>
      ss[n + 1].offered == ss[n].offered + [(ss[n].version + 1, |ss[n].buf| < AUTH_CAPACITY)]
  {
    RunLedger(cfg, db, version, actions, ss, n);
    AcceptedIncreasing(ss[n].offered, version);
    if n < |actions| { assert NextAt(cfg, actions, ss, n); }
  }

  // ----- What drops and stamps break -----

  ghost predicate Reachable(cfg: Config, db: map<Pair, Roles>, s: Stream)
  {
    exists actions, ss :: Run(cfg, db, 0, actions, ss) && ss[|actions|] == s
  }

  lemma ReachableStart(cfg: Config, db: map<Pair, Roles>)
    requires DistinctUsers(cfg) && forall p | p in db :: db[p] != []
    ensures Reachable(cfg, db, Start(db, 0))
  {
    assert Run(cfg, db, 0, [], [Start(db, 0)]);
  }

  lemma ReachableNext(cfg: Config, db: map<Pair, Roles>, s: Stream, a: Action, s': Stream)
    requires Reachable(cfg, db, s) && Next(cfg, s, a, s')
    ensures Reachable(cfg, db, s')
  {
    var actions, ss :| Run(cfg, db, 0, actions, ss) && ss[|actions|] == s;
    var actions', ss' := actions + [a], ss + [s'];
    forall i | 0 <= i < |actions'| ensures NextAt(cfg, actions', ss', i) {
      if i < |actions| { assert NextAt(cfg, actions, ss, i); }
    }
    assert ss'[|actions'|] == s';
  }

  /** Versions are not monotone across the snapshot border: the marker that ends the snapshot carries
      the current version 2, and then version 1 is forwarded. */
  lemma SnapshotVersionRunsAhead() returns (cfg: Config, s: Stream)
    ensures Reachable(cfg, map[], s) && s.snapshotVersions == [2] && s.forwarded == [1]
  {
    cfg := Config([], 0);
    var s0 := Start(map[], 0);
    ReachableStart(cfg, map[]);
    var s1 := PublishTo(s0, Other);
    ReachableNext(cfg, map[], s0, Revoke, s1);
    var s2 := PublishTo(s1, Other);
    ReachableNext(cfg, map[], s1, Revoke, s2);
    var s3 := s2.(page := 2, snapshotting := false, snapshotVersions := [2]);
    ReachableNext(cfg, map[], s2, SendPage, s3);
    s := s3.(buf := s3.buf[1..], forwarded := [1]);
    ReachableNext(cfg, map[], s3, Forward, s);
  }

  /** k revocations in a row, while there is room for them. */
  lemma {:induction false} Fill(cfg: Config, db: map<Pair, Roles>, s: Stream, k: nat, p: Pair) returns (s': Stream)
    requires Reachable(cfg, db, s) && |s.buf| + k <= AUTH_CAPACITY
    ensures Reachable(cfg, db, s') && |s'.buf| == |s.buf| + k && Waiting(s'.buf, p) == Waiting(s.buf, p)
    ensures s' == s.(version := s'.version, buf := s'.buf, offered := s'.offered)
  {
    if k == 0 { return s; }
    var mid := Fill(cfg, db, s, k - 1, p);
    WaitingOffer(mid.buf, Event(mid.version + 1, Other), p);
    s' := PublishTo(mid, Other);
    ReachableNext(cfg, db, mid, Revoke, s');
  }

  /** Forwarding everything that waits. */
  lemma {:induction false} Drain(cfg: Config, db: map<Pair, Roles>, s: Stream, p: Pair) returns (s': Stream)
    requires Reachable(cfg, db, s) && !s.snapshotting
    ensures Reachable(cfg, db, s') && !s'.snapshotting && s'.buf == [] && s'.db == s.db
    ensures Lookup(s'.client, p) == if Waiting(s.buf, p) != [] then Waiting(s.buf, p)[0] else Lookup(s.client, p)
    decreases |s.buf|
  {
    if s.buf == [] { return s; }
    var e := s.buf[0];
    var mid := s.(buf := s.buf[1..], forwarded := s.forwarded + [e.version],
                  client := if e.body.UserRoles? then s.client[e.body.pair := e.body.roles] else s.client);
    ReachableNext(cfg, db, s, Forward, mid);
    WaitingPop(s.buf, p);
    s' := Drain(cfg, db, mid, p);
  }

  /** A drop can undo the snapshot: the page shows the new role, then an older buffered event overwrites it. */
  lemma DropDiverges() returns (cfg: Config, s: Stream, p: Pair)
    ensures Reachable(cfg, map[], s) && !s.snapshotting && s.buf == [] && cfg.first == 0 && Of(cfg, 0, p)
    ensures Lookup(s.db, p) == ["b"] && Lookup(s.client, p) == ["a"]
  {
    cfg, p := Config(["u"], 0), Pair("u", "t");
    var s0 := Start(map[], 0);
    ReachableStart(cfg, map[]);
    WaitingOffer([], Event(1, UserRoles(p, ["a"])), p);
    var s1 := PublishTo(s0, UserRoles(p, ["a"])).(db := map[p := ["a"]]);
    ReachableNext(cfg, map[], s0, Change(p, ["a"]), s1);
    var s2 := Fill(cfg, map[], s1, AUTH_CAPACITY - 1, p);
    var s3 := PublishTo(s2, UserRoles(p, ["b"])).(db := map[p := ["b"]], lost := {p});
    ReachableNext(cfg, map[], s2, Change(p, ["b"]), s3);
    var s4 := s3.(rows := [Row("u", map[p := ["b"]])]);
    ReachableNext(cfg, map[], s3, ReadUser, s4);
    var s5 := s4.(client := Applied(s4.client, s4.rows), rows := [], page := 2, snapshotting := false,
                  snapshotVersions := s4.snapshotVersions + Stamps(s4.rows, s4.version) + [s4.version]);
    ReachableNext(cfg, map[], s4, SendPage, s5);
    s := Drain(cfg, map[], s5, p);
  }

  lemma SoleRow(client: map<Pair, Roles>, row: Row)
    ensures Applied(client, [row]) == client + row.roles
  {
    assert [row][..0] == [];
  }

  /** The stream of a single user once its row is read. */
  lemma ReachRead(cfg: Config, db: map<Pair, Roles>, row: Row) returns (s: Stream)
    requires cfg == Config([row.user], 0) && RowOf(db, row.user, row) && forall p | p in db :: db[p] != []
    ensures Reachable(cfg, db, s) && s == Start(db, 0).(rows := [row])
  {
    ReachableStart(cfg, db);
    s := Start(db, 0).(rows := [row]);
    assert PageLen(cfg, 1) == 1;
    ReachableNext(cfg, db, Start(db, 0), ReadUser, s);
  }

  /** And once that page is sent. */
  lemma ReachSent(cfg: Config, db: map<Pair, Roles>, row: Row) returns (s: Stream)
    requires cfg == Config([row.user], 0) && RowOf(db, row.user, row) && forall p | p in db :: db[p] != []
    ensures Reachable(cfg, db, s) && !s.snapshotting && s.buf == [] && s.db == db && s.client == row.roles
  {
    var read := ReachRead(cfg, db, row);
    assert PageLen(cfg, 1) == 1;
    SoleRow(map[], row);
    s := read.(client := row.roles, rows := [], page := 2, snapshotting := false,
               snapshotVersions := [] + Stamps([row], 0) + [0]);
    ReachableNext(cfg, db, read, SendPage, s);
  }

  /** Several roles of a pair do not survive the snapshot: although nothing changes, the client ends with one of
      them, and it can be any. */
  lemma SnapshotKeepsOne(p: Pair, roles: Roles, r: string) returns (cfg: Config, s: Stream)
    requires r in roles
    ensures Reachable(cfg, map[p := roles], s) && !s.snapshotting && s.buf == [] && cfg.first == 0 && Of(cfg, 0, p)
    ensures Lookup(s.db, p) == roles && Lookup(s.client, p) == [r]
  {
    cfg := Config([p.user], 0);
    var row := Row(p.user, map[p := [r]]);
    assert OneOf(roles, [r]);
    s := ReachSent(cfg, map[p := roles], row);
  }
}
