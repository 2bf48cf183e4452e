/** aegis/internal/service/service_permission.go: wildcard and hierarchy matching behind a
    result cache that every mutator clears. The repositories are the tables of
    aegis/deploy/migrations/00013_create_roles_table.up.sql: unique names, unique
    (action, resource) pairs, and a join that a deleted permission drops out of. */
module Permissions {
  import opened Text

  type Uuid = nat

  datatype Permission = Permission(name: string, description: string, action: string, resource: string)

  datatype Repo = Repo(perms: map<Uuid, Permission>, grants: set<(Uuid, Uuid)>)

  datatype Call = Call(roles: seq<string>, action: string, resource: string)

  /** makeCacheKey. */
  function Key(c: Call): string
  {
    Join(c.roles, ',') + ":" + c.action + ":" + c.resource
  }

  // ----- What a check means -----

  /** The role-permission join. */
  ghost predicate Holds(repo: Repo, role: Uuid, p: Permission)
  {
    exists id :: id in repo.perms && (role, id) in repo.grants && repo.perms[id] == p
  }

  /** A resource covers itself and everything below it in the ':' hierarchy. */
  predicate Under(top: string, resource: string)
  {
    Split(top, ':') <= Split(resource, ':')
  }

  /** A permission matches through its action on a resource subtree, where "*" and "manage"
      stand for every action, or through its action on the wildcard resource, where only "*" does. */
  predicate Matches(p: Permission, action: string, resource: string)
  {
    || (p.action in {action, "*", "manage"} && Under(p.resource, resource))
    || (p.action in {action, "*"} && p.resource == "*")
  }

  ghost predicate Grants(parse: string -> Option<Uuid>, repo: Repo, c: Call)
  {
    exists role :: role in c.roles && RoleGrants(parse, repo, role, c.action, c.resource)
  }

  ghost predicate RoleGrants(parse: string -> Option<Uuid>, repo: Repo, role: string, action: string, resource: string)
  {
    parse(role).Some? && exists p :: Holds(repo, parse(role).value, p) && Matches(p, action, resource)
  }

  lemma PrefixCons(x: string, s: seq<string>, y: string, t: seq<string>)
    ensures [x] + s <= [y] + t <==> x == y && s <= t
  {
    var a, b := [x] + s, [y] + t;
    if a <= b {
      assert x == a[0] == b[0] == y;
      assert s == a[1..] == b[1..|a|] == t[..|s|];
    }
    if x == y && s <= t {
      assert b[..|a|] == [y] + t[..|s|] == a;
    }
  }

  lemma SplitStep(c: char, s: string, sep: char)
    ensures var rest := Split(s, sep);
            Split([c] + s, sep) == if c == sep then [""] + rest else [[c] + rest[0]] + rest[1..]
  {
    assert ([c] + s)[1..] == s;
  }

  /** One more equal character in front changes nothing. */
  lemma UnderStep(c: char, top: string, resource: string)
    ensures Under([c] + top, [c] + resource) <==> Under(top, resource)
  {
    var ts, rs := Split(top, ':'), Split(resource, ':');
    SplitStep(c, top, ':');
    SplitStep(c, resource, ':');
    if c == ':' {
      PrefixCons("", ts, "", rs);
    } else {
      assert [c] + ts[0] == [c] + rs[0] <==> ts[0] == rs[0] by {
        assert ([c] + ts[0])[1..] == ts[0] && ([c] + rs[0])[1..] == rs[0];
      }
      PrefixCons([c] + ts[0], ts[1..], [c] + rs[0], rs[1..]);
      PrefixCons(ts[0], ts[1..], rs[0], rs[1..]);
      assert ts == [ts[0]] + ts[1..] && rs == [rs[0]] + rs[1..];
    }
  }

  /** Different first characters put the two in different trees. */
  lemma UnderDiffers(c: char, top: string, d: char, resource: string)
    requires c != d
    ensures !Under([c] + top, [d] + resource)
  {
    SplitStep(c, top, ':');
    SplitStep(d, resource, ':');
    var x, y := Split([c] + top, ':')[0], Split([d] + resource, ':')[0];
    assert x == (if c == ':' then "" else [c] + Split(top, ':')[0]);
    assert y == (if d == ':' then "" else [d] + Split(resource, ':')[0]);
    assert x != y by { if c != ':' && d != ':' { assert x[0] == c && y[0] == d; } }
  }

  lemma UnderEmpty(s: string)
    requires s != ""
    ensures !Under(s, "") && (Under("", s) <==> s[0] == ':')
  {
    assert s == [s[0]] + s[1..];
    SplitStep(s[0], s[1..], ':');
  }

  /** The resource test of the program, equality or a prefix up to ':', is the hierarchy. */
  lemma {:induction false} UnderIsPrefix(top: string, resource: string)
    ensures Under(top, resource) <==> (resource == top || top + ":" <= resource)
  {
    if top == "" || resource == "" {
      if top != "" { UnderEmpty(top); }
      if resource != "" { UnderEmpty(resource); }
    } else {
      var c, d, t, r := top[0], resource[0], top[1..], resource[1..];
      assert top == [c] + t && resource == [d] + r && top + ":" == [c] + (t + ":");
      if c == d {
        UnderStep(c, t, r);
        UnderIsPrefix(t, r);
        ConsPrefix(c, t + ":", r);
      } else {
        UnderDiffers(c, t, d, r);
      }
    }
  }

  lemma ConsPrefix(c: char, s: string, t: string)
    ensures [c] + s <= [c] + t <==> s <= t
    ensures [c] + s == [c] + t <==> s == t
  {
    var a, b := [c] + s, [c] + t;
    assert a[1..] == s && b[1..] == t;
    if a <= b { assert s == a[1..] == b[1..|a|] == t[..|s|]; }
    if s <= t { assert b[..|a|] == [c] + t[..|s|] == a; }
  }

  /** What a call is granted it is granted on every resource further down, and with any more roles. */
  lemma GrantsMonotone(parse: string -> Option<Uuid>, repo: Repo, c: Call, below: string, more: seq<string>)
    requires Grants(parse, repo, c) && Under(c.resource, below)
    requires forall role | role in c.roles :: role in more
    ensures Grants(parse, repo, Call(more, c.action, below))
  {
    var role :| role in c.roles && RoleGrants(parse, repo, role, c.action, c.resource);
    var p :| Holds(repo, parse(role).value, p) && Matches(p, c.action, c.resource);
    assert Matches(p, c.action, below);
    assert RoleGrants(parse, repo, role, c.action, below);
  }

  /** Although "manage" implies all actions, on the wildcard resource it grants nothing but itself. */
  lemma ManageNotGlobal(p: Permission, action: string, resource: string)
    requires p.action == "manage" && p.resource == "*" && action != "manage"
    ensures Matches(p, action, resource) <==> resource == "*" || "*:" <= resource
  {
    UnderIsPrefix("*", resource);
  }

  // ----- The repository's own answers -----

  function CreatedIn(repo: Repo, id: Uuid, p: Permission): Option<Repo>
  {
    if id in repo.perms || p.name == "" || p.action == "" || p.resource == ""
       || HasName(repo, p.name) || HasPair(repo, p.action, p.resource)
    then None else Some(repo.(perms := repo.perms[id := p]))
  }

  predicate HasName(repo: Repo, name: string)
  {
    exists id :: id in repo.perms && repo.perms[id].name == name
  }

  predicate HasPair(repo: Repo, action: string, resource: string)
  {
    exists id :: id in repo.perms && repo.perms[id].action == action && repo.perms[id].resource == resource
  }

  function UpdatedIn(repo: Repo, id: Uuid, description: string): Option<Repo>
  {
    if id !in repo.perms then None
    else Some(repo.(perms := repo.perms[id := repo.perms[id].(description := description)]))
  }

  function DeletedIn(repo: Repo, id: Uuid): Option<Repo>
  {
    if id !in repo.perms || "system:" <= repo.perms[id].name then None
    else Some(Repo(repo.perms - {id}, set g | g in repo.grants && g.1 != id))
  }

  function GrantedIn(repo: Repo, role: Uuid, id: Uuid): Option<Repo>
  {
    if id !in repo.perms then None else Some(repo.(grants := repo.grants + {(role, id)}))
  }

  function RevokedIn(repo: Repo, role: Uuid, id: Uuid): Option<Repo>
  {
    if (role, id) !in repo.grants then None else Some(repo.(grants := repo.grants - {(role, id)}))
  }

  /** What the join query may answer: an error, or the role's permissions in some order. */
  ghost predicate Faithful(list: Uuid -> Option<seq<Permission>>, repo: Repo)
  {
    forall role, p | list(role).Some? :: p in list(role).value <==> Holds(repo, role, p)
  }

  // ----- The service -----

  class PermissionService {
    const parse: string -> Option<Uuid>
    var repo: Repo
    var cache: map<string, bool>

    constructor (parse: string -> Option<Uuid>, repo: Repo)
      ensures this.parse == parse && this.repo == repo && cache == map[]
    {
      this.parse, this.repo, cache := parse, repo, map[];
    }

    method ClearCache()
      modifies this`cache
      ensures cache == map[]
    {
      cache := map[];
    }

    /** A lookup that fails counts as "not there"; then only the table's own constraints refuse a duplicate. */
    method CreatePermission(p: Permission, id: Uuid, lookupsFail: bool, createFails: bool) returns (ok: bool)
      modifies this
      ensures ok == (!createFails && RepoAfter(old(repo), Create(id, p)).Some?)
      ensures ok ==> Some(repo) == RepoAfter(old(repo), Create(id, p)) && cache == map[]
      ensures !ok ==> repo == old(repo) && cache == old(cache)
      ensures ok <==>
        && !createFails && id !in old(repo).perms && p.name != "" && p.action != "" && p.resource != ""
        && forall j | j in old(repo).perms ::
             && old(repo).perms[j].name != p.name
             && !(old(repo).perms[j].action == p.action && old(repo).perms[j].resource == p.resource)
      ensures ok ==> repo.perms == old(repo).perms[id := p] && repo.grants == old(repo).grants
    {
      if p.name == "" { return false; }
      if p.action == "" { return false; }
      if p.resource == "" { return false; }
      if !lookupsFail && HasName(repo, p.name) { return false; }
      if !lookupsFail && HasPair(repo, p.action, p.resource) { return false; }
      var created := CreatedIn(repo, id, p);
      if createFails || created.None? { return false; }
      repo := created.value;
      ClearCache();
      return true;
    }

    method UpdatePermission(id: Uuid, description: string, getFails: bool, updateFails: bool) returns (ok: bool)
      modifies this
      ensures ok == (!getFails && !updateFails && RepoAfter(old(repo), Update(id, description)).Some?)
      ensures ok ==> Some(repo) == RepoAfter(old(repo), Update(id, description)) && cache == map[]
      ensures !ok ==> repo == old(repo) && cache == old(cache)
      ensures ok <==> !getFails && !updateFails && id in old(repo).perms
      ensures ok ==> repo.grants == old(repo).grants && repo.perms.Keys == old(repo).perms.Keys
      ensures ok ==> forall j | j in repo.perms && j != id :: repo.perms[j] == old(repo).perms[j]
      ensures ok ==>
        && repo.perms[id].description == description && repo.perms[id].name == old(repo).perms[id].name
        && repo.perms[id].action == old(repo).perms[id].action
        && repo.perms[id].resource == old(repo).perms[id].resource
    {
      if getFails || id !in repo.perms { return false; }
      var permission := repo.perms[id];
      permission := permission.(description := description);
      if updateFails { return false; }
      repo := repo.(perms := repo.perms[id := permission]);
      ClearCache();
      return true;
    }

    method DeletePermission(id: Uuid, getFails: bool, deleteFails: bool) returns (ok: bool)
      modifies this
      ensures ok == (!getFails && !deleteFails && RepoAfter(old(repo), Delete(id)).Some?)
      ensures ok ==> Some(repo) == RepoAfter(old(repo), Delete(id)) && cache == map[]
      ensures !ok ==> repo == old(repo) && cache == old(cache)
      ensures ok <==> !getFails && !deleteFails && id in old(repo).perms && !("system:" <= old(repo).perms[id].name)
      ensures ok ==> repo.perms == old(repo).perms - {id}
      ensures ok ==> forall g :: g in repo.grants <==> g in old(repo).grants && g.1 != id
    {
      if getFails || id !in repo.perms { return false; }
      if "system:" <= repo.perms[id].name { return false; }
      if deleteFails { return false; }
      repo := Repo(repo.perms - {id}, set g | g in repo.grants && g.1 != id);
      ClearCache();
      return true;
    }

    method AddPermissionToRole(role: Uuid, id: Uuid, fails: bool) returns (ok: bool)
      modifies this
      ensures ok == (!fails && RepoAfter(old(repo), Grant(role, id)).Some?)
      ensures ok ==> Some(repo) == RepoAfter(old(repo), Grant(role, id)) && cache == map[]
      ensures !ok ==> repo == old(repo) && cache == old(cache)
      ensures ok <==> !fails && id in old(repo).perms
      ensures ok ==> repo.perms == old(repo).perms && repo.grants == old(repo).grants + {(role, id)}
    {
      if fails || id !in repo.perms { return false; }
      repo := repo.(grants := repo.grants + {(role, id)});
      ClearCache();
      return true;
    }

    method RemovePermissionFromRole(role: Uuid, id: Uuid, fails: bool) returns (ok: bool)
      modifies this
      ensures ok == (!fails && RepoAfter(old(repo), Revoke(role, id)).Some?)
      ensures ok ==> Some(repo) == RepoAfter(old(repo), Revoke(role, id)) && cache == map[]
      ensures !ok ==> repo == old(repo) && cache == old(cache)
      ensures ok <==> !fails && (role, id) in old(repo).grants
      ensures ok ==> repo.perms == old(repo).perms && repo.grants == old(repo).grants - {(role, id)}
    {
      if fails || (role, id) !in repo.grants { return false; }
      repo := repo.(grants := repo.grants - {(role, id)});
      ClearCache();
      return true;
    }

    /** The tests one permission goes through, in the order of the program. */
    method MatchPermission(perm: Permission, action: string, resource: string) returns (matched: bool)
      ensures matched == Matches(perm, action, resource)
      ensures matched <==>
        || ((perm.action == action || perm.action == "*") &&
            (perm.resource == resource || perm.resource == "*" || perm.resource + ":" <= resource))
        || (perm.action == "manage" && (perm.resource == resource || perm.resource + ":" <= resource))
    {
      UnderIsPrefix(perm.resource, resource);
      if perm.action == action && perm.resource == resource { return true; }
      if perm.action == "*" && perm.resource == resource { return true; }
      if perm.action == action && perm.resource == "*" { return true; }
      if perm.action == "*" && perm.resource == "*" { return true; }
      if perm.action == "manage" && perm.resource == resource { return true; }
      if perm.resource + ":" <= resource && (perm.action == action || perm.action == "*" || perm.action == "manage") {
        return true;
      }
      return false;
    }

    /** The role ids, unparsable names skipped. */
    method RoleIds(roles: seq<string>) returns (ids: seq<Uuid>)
      ensures forall id :: id in ids <==> exists role :: role in roles && parse(role) == Some(id)
    {
      ids := [];
      for i := 0 to |roles|
        invariant forall id :: id in ids <==> exists role :: role in roles[..i] && parse(role) == Some(id)
      {
        assert roles[..i + 1] == roles[..i] + [roles[i]];
        var roleId := parse(roles[i]);
        if roleId.None? { continue; }
        ids := ids + [roleId.value];
      }
      assert roles[..|roles|] == roles;
    }

    /** The inner loop over one role's permissions. */
    method AnyMatch(permissions: seq<Permission>, action: string, resource: string) returns (found: bool)
      ensures found == exists p :: p in permissions && Matches(p, action, resource)
    {
      for i := 0 to |permissions|
        invariant forall j | 0 <= j < i :: !Matches(permissions[j], action, resource)
      {
        found := MatchPermission(permissions[i], action, resource);
        if found { return true; }
      }
      return false;
    }

    /** HasPermission: None is an error return. */
    method HasPermission(roles: seq<string>, action: string, resource: string, list: Uuid -> Option<seq<Permission>>)
      returns (result: Option<bool>)
      requires Faithful(list, repo)
      modifies this
      ensures Checks(parse, old(State(repo, cache)), Call(roles, action, resource), State(repo, cache), result)
      ensures (forall role :: list(role).Some?) ==> result.Some?
      ensures repo == old(repo)
      ensures var key := Key(Call(roles, action, resource));
        if key in old(cache) then result == Some(old(cache)[key]) && cache == old(cache)
        else if roles == [] then result == Some(false) && cache == old(cache)
        else cache == if result.Some? then old(cache)[key := result.value] else old(cache)
    {
      var call := Call(roles, action, resource);
      var cacheKey := Key(call);
      if cacheKey in cache { return Some(cache[cacheKey]); }
      if |roles| == 0 { return Some(false); }
      var ids := RoleIds(roles);
      for i := 0 to |ids|
        invariant repo == old(repo) && cache == old(cache)
        invariant forall j, p | 0 <= j < i && Holds(repo, ids[j], p) :: !Matches(p, action, resource)
      {
        var permissions := list(ids[i]);
        if permissions.None? { return None; }
        var found := AnyMatch(permissions.value, action, resource);
        if found {
          assert ids[i] in ids;
          var role :| role in roles && parse(role) == Some(ids[i]);
          assert RoleGrants(parse, repo, role, action, resource);
          cache := cache[cacheKey := true];
          return Some(true);
        }
      }
      assert !Grants(parse, repo, call) by {
        forall role | role in roles ensures !RoleGrants(parse, repo, role, action, resource) {
          if parse(role).Some? { assert parse(role).value in ids; }
        }
      }
      cache := cache[cacheKey := false];
      return Some(false);
    }
  }

  // ----- Whole runs -----

  datatype State = State(repo: Repo, cache: map<string, bool>)

  /** One check: a hit, the empty role list, an error, or a computed answer that is cached. */
  ghost predicate Checks(parse: string -> Option<Uuid>, s: State, c: Call, s': State, out: Option<bool>)
  {
    if Key(c) in s.cache then s' == s && out == Some(s.cache[Key(c)])
    else if c.roles == [] then s' == s && out == Some(false)
    else
      || (out == None && s' == s)
      || (out == Some(Grants(parse, s.repo, c)) && s' == s.(cache := s.cache[Key(c) := Grants(parse, s.repo, c)]))
  }

  datatype Event =
    | Check(call: Call)
    | Create(id: Uuid, permission: Permission)
    | Update(id: Uuid, description: string)
    | Delete(id: Uuid)
    | Grant(role: Uuid, id: Uuid)
    | Revoke(role: Uuid, id: Uuid)
    | Clear

  function RepoAfter(repo: Repo, e: Event): Option<Repo>
    requires !e.Check?
  {
    match e
    case Create(id, p) => CreatedIn(repo, id, p)
    case Update(id, d) => UpdatedIn(repo, id, d)
    case Delete(id) => DeletedIn(repo, id)
    case Grant(role, id) => GrantedIn(repo, role, id)
    case Revoke(role, id) => RevokedIn(repo, role, id)
    case Clear => Some(repo)
  }

  /** A mutator fails, or leaves its new repository behind an empty cache. */
  ghost predicate Step(parse: string -> Option<Uuid>, s: State, e: Event, s': State, out: Option<bool>)
  {
    if e.Check? then Checks(parse, s, e.call, s', out)
    else s' == s || (RepoAfter(s.repo, e).Some? && s' == State(RepoAfter(s.repo, e).value, map[]))
  }

  datatype ServiceRun = ServiceRun(events: seq<Event>, states: seq<State>, outs: seq<Option<bool>>)

  /** A run over any repository, whose checks are all among the given calls. */
  ghost predicate IsRun(parse: string -> Option<Uuid>, calls: iset<Call>, r: ServiceRun)
  {
    && |r.outs| == |r.events| && |r.states| == |r.events| + 1
    && r.states[0].cache == map[]
    && forall i | 0 <= i < |r.events| :: StepAt(parse, calls, r, i)
  }

  ghost predicate StepAt(parse: string -> Option<Uuid>, calls: iset<Call>, r: ServiceRun, i: nat)
    requires i < |r.events| == |r.outs| && |r.states| == |r.events| + 1
  {
    && (r.events[i].Check? ==> r.events[i].call in calls)
    && Step(parse, r.states[i], r.events[i], r.states[i + 1], r.outs[i])
  }

  /** Every error-free answer is what the repository grants at that moment. */
  ghost predicate Truthful(parse: string -> Option<Uuid>, r: ServiceRun)
    requires |r.outs| == |r.events| && |r.states| == |r.events| + 1
  {
    forall i | 0 <= i < |r.events| && r.events[i].Check? && r.outs[i].Some? ::
      r.outs[i].value == Grants(parse, r.states[i].repo, r.events[i].call)
  }

  /** Calls with the same cache key are granted alike, whatever the repository. */
  ghost predicate KeySeparates(parse: string -> Option<Uuid>, calls: iset<Call>)
  {
    forall c, c', repo | c in calls && c' in calls && Key(c) == Key(c') ::
      Grants(parse, repo, c) == Grants(parse, repo, c')
  }

  ghost predicate Coherent(parse: string -> Option<Uuid>, calls: iset<Call>, s: State)
  {
    forall c | c in calls && Key(c) in s.cache :: s.cache[Key(c)] == Grants(parse, s.repo, c)
  }

  lemma {:induction false} RunCoherent(parse: string -> Option<Uuid>, calls: iset<Call>, r: ServiceRun, n: nat)
    requires IsRun(parse, calls, r) && KeySeparates(parse, calls) && n <= |r.events|
    ensures Coherent(parse, calls, r.states[n])
  {
    if n > 0 {
      RunCoherent(parse, calls, r, n - 1);
      assert StepAt(parse, calls, r, n - 1);
    }
  }

  /** Two calls with one key that the repository tells apart: the second gets the first one's answer. */
  lemma ClashRun(parse: string -> Option<Uuid>, calls: iset<Call>, repo: Repo, c: Call,
      c': Call) returns (r: ServiceRun)
    requires c in calls && c' in calls && Key(c) == Key(c') && c.roles != []
    requires Grants(parse, repo, c) != Grants(parse, repo, c')
    ensures IsRun(parse, calls, r) && !Truthful(parse, r)
  {
    var s, a := State(repo, map[]), Grants(parse, repo, c);
    var s' := State(repo, map[Key(c) := a]);
    r := ServiceRun([Check(c), Check(c')], [s, s', s'], [Some(a), Some(a)]);
    assert StepAt(parse, calls, r, 0) && StepAt(parse, calls, r, 1);
    assert r.outs[1].value != Grants(parse, r.states[1].repo, r.events[1].call);
  }

  /** Cache coherence: every run of checks among `calls` and of mutators answers truthfully if
      and only if the cache key never merges calls that some repository tells apart. */
  lemma CoherentExactly(parse: string -> Option<Uuid>, calls: iset<Call>)
    ensures (forall r | IsRun(parse, calls, r) :: Truthful(parse, r)) <==> KeySeparates(parse, calls)
  {
    if KeySeparates(parse, calls) {
      forall r | IsRun(parse, calls, r) ensures Truthful(parse, r) {
        forall i | 0 <= i < |r.events| && r.events[i].Check? && r.outs[i].Some?
          ensures r.outs[i].value == Grants(parse, r.states[i].repo, r.events[i].call)
        {
          RunCoherent(parse, calls, r, i);
          assert StepAt(parse, calls, r, i);
        }
      }
    } else {
      var c, c', repo :| c in calls && c' in calls && Key(c) == Key(c') &&
        Grants(parse, repo, c) != Grants(parse, repo, c');
      if c.roles != [] {
        var r := ClashRun(parse, calls, repo, c, c');
      } else {
        var r := ClashRun(parse, calls, repo, c', c);
      }
    }
  }

  /** Roles without ',' and ':' and an action without ':'; the resource is free. */
  predicate CleanCall(c: Call)
  {
    ':' !in c.action && forall role | role in c.roles :: ',' !in role && ':' !in role
  }

  ghost function CleanCalls(): iset<Call>
  {
    iset c | CleanCall(c)
  }

  lemma {:induction false} JoinFree(items: seq<string>, sep: char, x: char)
    requires x != sep && forall item | item in items :: x !in item
    ensures x !in Join(items, sep)
  {
    if |items| > 1 { JoinFree(items[1..], sep, x); }
  }

  /** On clean calls the key is injective up to the clash of no role with one empty role. */
  lemma KeyInjective(c: Call, c': Call)
    requires CleanCall(c) && CleanCall(c')
    ensures Key(c) == Key(c') <==>
      c.action == c'.action && c.resource == c'.resource &&
      (c.roles == c'.roles || (c.roles in {[], [""]} && c'.roles in {[], [""]}))
  {
    if Key(c) == Key(c') {
      JoinFree(c.roles, ',', ':');
      JoinFree(c'.roles, ',', ':');
      var roles, roles' := Join(c.roles, ','), Join(c'.roles, ',');
      assert Key(c) == roles + [':'] + (c.action + [':'] + c.resource);
      assert Key(c') == roles' + [':'] + (c'.action + [':'] + c'.resource);
      CutUnique(roles, c.action + [':'] + c.resource, roles', c'.action + [':'] + c'.resource, ':');
      CutUnique(c.action, c.resource, c'.action, c'.resource, ':');
      if c.roles != [] { SplitJoin(c.roles, ','); }
      if c'.roles != [] { SplitJoin(c'.roles, ','); }
    }
  }

  /** Every run of clean checks answers truthfully: the empty string is no UUID. */
  lemma CleanRunsTruthful(parse: string -> Option<Uuid>, r: ServiceRun)
    requires parse("") == None && IsRun(parse, CleanCalls(), r)
    ensures Truthful(parse, r)
  {
    var calls := CleanCalls();
    forall c, c', repo | c in calls && c' in calls && Key(c) == Key(c')
      ensures Grants(parse, repo, c) == Grants(parse, repo, c')
    {
      KeyInjective(c, c');
      if c.roles != c'.roles {
        assert !Grants(parse, repo, c) && !Grants(parse, repo, c');
      }
    }
    assert KeySeparates(parse, calls);
    CoherentExactly(parse, calls);
  }

  /** Permission id, granted to a parsable role of the call, covers its action and resource: through the action itself
      or "*" on the resource, a resource above it or "*", or through "manage" on the resource or one above it. */
  ghost predicate Entitles(parse: string -> Option<Uuid>, repo: Repo, c: Call, role: string, id: Uuid)
  {
    && role in c.roles && parse(role).Some? && (parse(role).value, id) in repo.grants && id in repo.perms
    && var p := repo.perms[id];
       || ((p.action == c.action || p.action == "*") &&
           (p.resource == c.resource || p.resource == "*" || p.resource + ":" <= c.resource))
       || (p.action == "manage" && (p.resource == c.resource || p.resource + ":" <= c.resource))
  }

  lemma GrantsMeans(parse: string -> Option<Uuid>, repo: Repo, c: Call)
    ensures Grants(parse, repo, c) <==> exists role, id :: Entitles(parse, repo, c, role, id)
  {
    if Grants(parse, repo, c) {
      var role :| role in c.roles && RoleGrants(parse, repo, role, c.action, c.resource);
      var p :| Holds(repo, parse(role).value, p) && Matches(p, c.action, c.resource);
      var id :| id in repo.perms && (parse(role).value, id) in repo.grants && repo.perms[id] == p;
      UnderIsPrefix(p.resource, c.resource);
      assert Entitles(parse, repo, c, role, id);
    }
    if role, id :| Entitles(parse, repo, c, role, id) {
      UnderIsPrefix(repo.perms[id].resource, c.resource);
      assert Holds(repo, parse(role).value, repo.perms[id]) && Matches(repo.perms[id], c.action, c.resource);
      assert RoleGrants(parse, repo, role, c.action, c.resource);
    }
  }

  /** What callers get: in every run of clean checks an error-free answer is true if and only if some permission in
      the current repository entitles the call. */
  lemma AnswersMeanPermissions(parse: string -> Option<Uuid>, r: ServiceRun, i: nat)
    requires parse("") == None && IsRun(parse, CleanCalls(), r)
    requires i < |r.events| && r.events[i].Check? && r.outs[i].Some?
    ensures r.outs[i].value <==> exists role, id :: Entitles(parse, r.states[i].repo, r.events[i].call, role, id)
  {
    CleanRunsTruthful(parse, r);
    GrantsMeans(parse, r.states[i].repo, r.events[i].call);
  }

  /** One colon in an action is enough for a wrong answer: action "read:all" on "x" shares its key
      with action "read" on "all:x", which a grant on "all" covers. */
  lemma ColonClash(parse: string -> Option<Uuid>, role: string) returns (r: ServiceRun)
    requires parse(role).Some?
    ensures IsRun(parse, iset{Call([role], "read", "all:x"), Call([role], "read:all", "x")}, r) && !Truthful(parse, r)
  {
    var c, c' := Call([role], "read", "all:x"), Call([role], "read:all", "x");
    var id := parse(role).value;
    var p := Permission("n", "", "read", "all");
    var repo := Repo(map[0 := p], {(id, 0)});
    assert Key(c) == Join([role], ',') + ":read:all:x" == Key(c');
    UnderIsPrefix("all", "all:x");
    assert Holds(repo, id, p) && Matches(p, c.action, c.resource);
    assert RoleGrants(parse, repo, role, c.action, c.resource) && role in c.roles;
    assert !Grants(parse, repo, c');
    r := ClashRun(parse, iset{c, c'}, repo, c, c');
  }
}
