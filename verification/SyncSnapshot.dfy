/** The snapshot loop of aegis/internal/grpc/sync_auth.go, with the role query behind it, as it runs when nothing
    changes meanwhile; SyncAuth takes it apart into steps that role changes interleave with. */
module SyncSnapshot {
  import opened SyncAuth

  /** A pair and the one role a message carries for it. */
  type Message = (Pair, string)

  /** The table behind the roles holds no empty list. */
  ghost predicate Proper(db: map<Pair, Roles>)
  {
    forall p | p in db :: db[p] != []
  }

  /** One message for every pair of the given users that has roles, with one of them, and nothing else. */
  ghost predicate Covers(db: map<Pair, Roles>, users: seq<string>, sent: seq<Message>)
  {
    && (forall i, j | 0 <= i < j < |sent| :: sent[i].0 != sent[j].0)
    && (forall i | 0 <= i < |sent| :: sent[i].0 in db && sent[i].0.user in users && sent[i].1 in db[sent[i].0])
    && (forall p | p in db && p.user in users :: Sends(sent, p))
  }

  ghost predicate Sends(sent: seq<Message>, p: Pair)
  {
    exists i | 0 <= i < |sent| :: sent[i].0 == p
  }

  // ----- One user -----

  /** The rows of the role query for a user, in some order: every role of every pair, and nothing else. */
  ghost predicate Joins(db: map<Pair, Roles>, user: string, rows: seq<Message>)
  {
    && (forall i | 0 <= i < |rows| :: rows[i].0 in db && rows[i].0.user == user && rows[i].1 in db[rows[i].0])
    && (forall p, role | p in db && p.user == user && role in db[p] :: (p, role) in rows)
  }

  /** The role of p's last row, which is the one a RoleMap keeps. */
  function LastRole(rows: seq<Message>, p: Pair): (r: seq<string>)
    ensures |r| <= 1
  {
    if rows == [] then []
    else if rows[|rows| - 1].0 == p then [rows[|rows| - 1].1]
    else LastRole(rows[..|rows| - 1], p)
  }

  /** GetRoles: later rows of a pair overwrite earlier ones. */
  method GetRoles(rows: seq<Message>) returns (roleMap: map<Pair, string>)
    ensures forall p :: LastRole(rows, p) == if p in roleMap then [roleMap[p]] else []
  {
    roleMap := map[];
    for i := 0 to |rows|
      invariant forall p :: LastRole(rows[..i], p) == if p in roleMap then [roleMap[p]] else []
    {
      assert rows[..i + 1][..i] == rows[..i];
      roleMap := roleMap[rows[i].0 := rows[i].1];
    }
    assert rows[..|rows|] == rows;
  }

  /** It is the role of a row of p behind which no other row of p comes. */
  lemma {:induction false} LastRoleExactly(rows: seq<Message>, p: Pair, role: string)
    ensures LastRole(rows, p) == [role] <==> exists i :: Latest(rows, p, role, i)
  {
    if rows != [] {
      var n := |rows| - 1;
      LastRoleExactly(rows[..n], p, role);
      if rows[n].0 == p {
        assert Latest(rows, p, rows[n].1, n) && [rows[n].1][0] == rows[n].1 && [role][0] == role;
        forall i | Latest(rows, p, role, i) ensures i == n {}
      } else {
        forall i | Latest(rows[..n], p, role, i) ensures Latest(rows, p, role, i) {}
        forall i | Latest(rows, p, role, i) ensures Latest(rows[..n], p, role, i) {}
      }
    }
  }

  ghost predicate Latest(rows: seq<Message>, p: Pair, role: string, i: int)
  {
    0 <= i < |rows| && rows[i] == (p, role) && forall j | i < j < |rows| :: rows[j].0 != p
  }

  lemma {:induction false} LastRoleIn(rows: seq<Message>, p: Pair)
    ensures LastRole(rows, p) != [] ==> (p, LastRole(rows, p)[0]) in rows
    ensures LastRole(rows, p) == [] ==> forall role :: (p, role) !in rows
  {
    if rows != [] {
      assert rows == rows[..|rows| - 1] + [rows[|rows| - 1]];
      LastRoleIn(rows[..|rows| - 1], p);
    }
  }

  /** What GetRoles keeps of a user is one of the roles of each of its pairs. */
  ghost predicate Keeps(db: map<Pair, Roles>, user: string, roleMap: map<Pair, string>)
  {
    && (forall p :: p in roleMap <==> p in db && p.user == user)
    && (forall p | p in roleMap :: roleMap[p] in db[p])
  }

  lemma RolesKept(db: map<Pair, Roles>, user: string, rows: seq<Message>, roleMap: map<Pair, string>)
    requires Proper(db) && Joins(db, user, rows)
    requires forall p :: LastRole(rows, p) == if p in roleMap then [roleMap[p]] else []
    ensures Keeps(db, user, roleMap)
  {
    forall p ensures p in roleMap <==> p in db && p.user == user {
      LastRoleIn(rows, p);
      if p in db && p.user == user { assert db[p][0] in db[p] && (p, db[p][0]) in rows; }
      if p in roleMap { assert (p, LastRole(rows, p)[0]) in rows; }
    }
    forall p | p in roleMap ensures roleMap[p] in db[p] {
      LastRoleIn(rows, p);
      assert LastRole(rows, p) == [roleMap[p]] && (p, roleMap[p]) in rows;
    }
  }

  /** The messages for one user, in whatever order Go ranges over the RoleMap. */
  method SendUser(ghost db: map<Pair, Roles>, ghost user: string, roles: map<Pair, string>) returns (sent: seq<Message>)
    requires Keeps(db, user, roles)
    ensures Covers(db, [user], sent)
  {
    sent := [];
    var todo := roles.Keys;
    while todo != {}
      invariant todo <= roles.Keys
      invariant forall i, j | 0 <= i < j < |sent| :: sent[i].0 != sent[j].0
      invariant forall i | 0 <= i < |sent| :: sent[i].0 in roles && sent[i].0 !in todo && sent[i].1 == roles[sent[i].0]
      invariant forall p | p in roles && p !in todo :: Sends(sent, p)
      decreases todo
    {
      var p :| p in todo;
      ghost var before := sent;
      sent := sent + [(p, roles[p])];
      assert forall q | Sends(before, q) :: Sends(sent, q) by {
        forall q | Sends(before, q) ensures Sends(sent, q) {
          var i :| 0 <= i < |before| && before[i].0 == q;
          assert sent[i].0 == q;
        }
      }
      assert sent[|before|].0 == p;
      todo := todo - {p};
    }
  }

  // ----- A page, and the snapshot -----

  /** ListAll: at most a page of users from the page's offset. */
  function ListAll(cfg: Config, page: nat): (users: seq<string>)
    requires page >= 1
    ensures |users| == PageLen(cfg, page)
  {
    if Offset(cfg, page) >= |cfg.users| then []
    else cfg.users[Offset(cfg, page)..Offset(cfg, page) + PageLen(cfg, page)]
  }

  lemma CoversPages(db: map<Pair, Roles>, users: seq<string>, sent: seq<Message>, page: seq<string>, more: seq<Message>)
    requires forall u | u in page :: u !in users
    requires Covers(db, users, sent) && Covers(db, page, more)
    ensures Covers(db, users + page, sent + more)
  {
    var all := sent + more;
    forall p | p in db && p.user in users + page ensures Sends(all, p) {
      if p.user in users {
        assert Sends(sent, p);
        var i :| 0 <= i < |sent| && sent[i].0 == p;
        assert all[i].0 == p;
      } else {
        assert Sends(more, p);
        var i :| 0 <= i < |more| && more[i].0 == p;
        assert all[|sent| + i].0 == p;
      }
    }
  }

  /** The loop over a page's users. Their role queries answered with `queries`. */
  method SendUsers(ghost db: map<Pair, Roles>, users: seq<string>, queries: string -> seq<Message>)
    returns (sent: seq<Message>)
    requires Proper(db) && forall user :: Joins(db, user, queries(user))
    requires forall i, j | 0 <= i < j < |users| :: users[i] != users[j]
    ensures Covers(db, users, sent)
  {
    sent := [];
    for i := 0 to |users|
      invariant Covers(db, users[..i], sent)
    {
      var roles := GetRoles(queries(users[i]));
      RolesKept(db, users[i], queries(users[i]), roles);
      var more := SendUser(db, users[i], roles);
      CoversPages(db, users[..i], sent, [users[i]], more);
      assert users[..i + 1] == users[..i] + [users[i]];
      sent := sent + more;
    }
    assert users[..|users|] == users;
  }

  /** The users from page 1's offset on. */
  function FromFirst(cfg: Config): seq<string>
  {
    if cfg.first >= |cfg.users| then [] else cfg.users[cfg.first..]
  }

  /** The users at or after page 1's offset that pages before `page` listed. */
  function Listed(cfg: Config, page: nat): seq<string>
    requires page >= 1
  {
    if cfg.first >= |cfg.users| then []
    else if Offset(cfg, page) >= |cfg.users| then cfg.users[cfg.first..]
    else cfg.users[cfg.first..Offset(cfg, page)]
  }

  lemma NextPage(cfg: Config, page: nat)
    requires page >= 1 && DistinctUsers(cfg)
    ensures Listed(cfg, page + 1) == Listed(cfg, page) + ListAll(cfg, page)
    ensures forall u | u in ListAll(cfg, page) :: u !in Listed(cfg, page)
    ensures PageLen(cfg, page) < PAGE_SIZE ==> Listed(cfg, page + 1) == FromFirst(cfg)
  {
    var at := Offset(cfg, page);
    assert Offset(cfg, page + 1) == at + PAGE_SIZE;
    if at < |cfg.users| {
      var a, b := cfg.users[cfg.first..at], ListAll(cfg, page);
      assert Listed(cfg, page + 1) == a + b;
      forall u | u in b ensures u !in a {
        var j :| 0 <= j < |b| && b[j] == u;
        assert cfg.users[at + j] == u;
        forall i | 0 <= i < |a| ensures a[i] != u { assert cfg.users[cfg.first + i] != cfg.users[at + j]; }
      }
    }
  }

  /** The snapshot phase: it ends, and has sent every pair of every user from page 1's offset on
      exactly once, with one of its roles, and no other. */
  method SendSnapshot(cfg: Config, ghost db: map<Pair, Roles>, queries: string -> seq<Message>)
    returns (sent: seq<Message>)
    requires DistinctUsers(cfg) && Proper(db) && forall user :: Joins(db, user, queries(user))
    ensures Covers(db, FromFirst(cfg), sent)
  {
    sent := [];
    var page := 1;
    assert Listed(cfg, 1) == [];
    while true
      invariant page >= 1 && Covers(db, Listed(cfg, page), sent)
      decreases |cfg.users| - (page - 1) * PAGE_SIZE
    {
      var users := ListAll(cfg, page);
      forall i, j | 0 <= i < j < |users| ensures users[i] != users[j] {
        assert cfg.users[Offset(cfg, page) + i] != cfg.users[Offset(cfg, page) + j];
      }
      var more := SendUsers(db, users, queries);
      NextPage(cfg, page);
      CoversPages(db, Listed(cfg, page), sent, users, more);
      sent := sent + more;
      if |users| < PAGE_SIZE { break; }
      page := page + 1;
    }
  }
}
