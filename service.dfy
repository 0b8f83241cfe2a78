/** Grouping the grouping rules by member, the view `GetUsers` returns. */
module Users {
  import opened RoleGraph

  /** `User`: a member and the groups of its grouping rules. */
  datatype User = User(userName: string, roleNames: seq<string>)

  /** The groups of `m`'s grouping rules, in the order the rules are enumerated. */
  function RolesOf(gs: seq<Grouping>, m: string): seq<string>
  {
    if gs == [] then []
    else
      var last := gs[|gs| - 1];
      RolesOf(gs[..|gs| - 1], m) + (if last.member == m then [last.group] else [])
  }

  /** The grouping rules of every member other than `m`, in their order. */
  function OthersThan(gs: seq<Grouping>, m: string): seq<Grouping>
  {
    if gs == [] then []
    else
      var last := gs[|gs| - 1];
      OthersThan(gs[..|gs| - 1], m) + (if last.member != m then [last] else [])
  }

  function Members(gs: seq<Grouping>): set<string>
  {
    set e | e in gs :: e.member
  }

  function Names(us: seq<User>): set<string>
  {
    set u | u in us :: u.userName
  }

  /** `us` lists every member of `gs` exactly once, each with all of its groups
      in enumeration order; the order of the members themselves is free. */
  predicate GroupedByMember(us: seq<User>, gs: seq<Grouping>)
  {
    && (forall i, j :: 0 <= i < j < |us| ==> us[i].userName != us[j].userName)
    && (forall i :: 0 <= i < |us| ==> us[i].roleNames == RolesOf(gs, us[i].userName))
    && Names(us) == Members(gs)
  }

  function TotalRoleNames(us: seq<User>): nat
  {
    if us == [] then 0 else |us[0].roleNames| + TotalRoleNames(us[1..])
  }

  lemma MembersOfPrefix(gs: seq<Grouping>)
    requires gs != []
    ensures Members(gs) == Members(gs[..|gs| - 1]) + {gs[|gs| - 1].member}
  {
    assert gs == gs[..|gs| - 1] + [gs[|gs| - 1]];
  }

  /** One more grouping rule extends its member's groups by one. */
  lemma PrefixStep(p: seq<Grouping>, i: nat)
    requires i < |p|
    ensures Members(p[..i + 1]) == Members(p[..i]) + {p[i].member}
    ensures forall m :: RolesOf(p[..i + 1], m) ==
                        RolesOf(p[..i], m) + (if p[i].member == m then [p[i].group] else [])
  {
    assert p[..i + 1][..i] == p[..i] && p[..i + 1][i] == p[i];
    MembersOfPrefix(p[..i + 1]);
  }

  /** `idx` maps every member of `gs`, and nothing else, to its user. */
  predicate IndexesMembers(idx: map<string, User>, gs: seq<Grouping>)
  {
    && idx.Keys == Members(gs)
    && forall m :: m in idx ==> idx[m] == User(m, RolesOf(gs, m))
  }

  /** Recording one more grouping rule: its group goes after the member's
      earlier groups, or starts a new user. */
  lemma IndexStep(p: seq<Grouping>, i: nat, before: map<string, User>, after: map<string, User>)
    requires i < |p| && IndexesMembers(before, p[..i])
    requires var m := p[i].member;
             after == if m in before then before[m := User(m, before[m].roleNames + [p[i].group])]
                      else before[m := User(m, [p[i].group])]
    ensures IndexesMembers(after, p[..i + 1])
  {
    var m := p[i].member;
    PrefixStep(p, i);
    RolesOfMember(p[..i], m);
    forall x | x in after
      ensures after[x] == User(x, RolesOf(p[..i + 1], x))
    {
      if x != m {
        assert after[x] == before[x];
      }
    }
  }

  lemma NamesSnoc(us: seq<User>, u: User)
    ensures Names(us + [u]) == Names(us) + {u.userName}
  {
    assert forall x :: x in us + [u] <==> x in us || x == u;
  }

  /** A name has groups exactly when it is the member of some grouping rule. */
  lemma {:induction false} RolesOfMember(gs: seq<Grouping>, m: string)
    ensures RolesOf(gs, m) != [] <==> m in Members(gs)
  {
    if gs != [] {
      RolesOfMember(gs[..|gs| - 1], m);
      MembersOfPrefix(gs);
    }
  }

  /** Every grouping rule belongs either to `m` or to some other member. */
  lemma {:induction false} SplitByMember(gs: seq<Grouping>, m: string)
    ensures |gs| == |RolesOf(gs, m)| + |OthersThan(gs, m)|
    ensures forall k :: k != m ==> RolesOf(OthersThan(gs, m), k) == RolesOf(gs, k)
    ensures Members(OthersThan(gs, m)) == Members(gs) - {m}
  {
    if gs != [] {
      var front, last := gs[..|gs| - 1], gs[|gs| - 1];
      SplitByMember(front, m);
      MembersOfPrefix(gs);
      var o := OthersThan(gs, m);
      if last.member != m {
        assert o[..|o| - 1] == OthersThan(front, m) && o[|o| - 1] == last;
        MembersOfPrefix(o);
      } else {
        assert o == OthersThan(front, m);
      }
    }
  }

  lemma NamesOfTail(us: seq<User>)
    requires us != []
    requires forall j :: 0 < j < |us| ==> us[j].userName != us[0].userName
    ensures Names(us) == Names(us[1..]) + {us[0].userName}
    ensures us[0].userName !in Names(us[1..])
  {
    assert us == [us[0]] + us[1..];
    forall u | u in us[1..]
      ensures u.userName != us[0].userName
    {
      var j :| 0 <= j < |us[1..]| && us[1..][j] == u;
      assert us[j + 1] == u;
    }
  }

  /** Dropping the first user leaves the view of the other members' rules. */
  lemma GroupedTail(us: seq<User>, gs: seq<Grouping>)
    requires us != [] && GroupedByMember(us, gs)
    ensures GroupedByMember(us[1..], OthersThan(gs, us[0].userName))
  {
    var m, rest := us[0].userName, us[1..];
    var others := OthersThan(gs, m);
    SplitByMember(gs, m);
    NamesOfTail(us);
    forall i | 0 <= i < |rest|
      ensures rest[i].roleNames == RolesOf(others, rest[i].userName)
    {
      assert rest[i] == us[i + 1];
    }
  }

  /** The view holds as many role names as there are grouping rules and one
      user per member; no grouping rule means no user. */
  lemma {:induction false} GroupedCount(us: seq<User>, gs: seq<Grouping>)
    requires GroupedByMember(us, gs)
    ensures TotalRoleNames(us) == |gs|
    ensures |us| == |Members(gs)|
    ensures gs == [] <==> us == []
  {
    if gs != [] {
      assert gs[0].member in Members(gs);
    }
    if us != [] {
      var m := us[0].userName;
      SplitByMember(gs, m);
      GroupedTail(us, gs);
      GroupedCount(us[1..], OthersThan(gs, m));
      NamesOfTail(us);
      assert m in Members(gs);
    }
  }

  /** Two results for the same grouping rules hold the same users. */
  lemma GroupedUnique(us1: seq<User>, us2: seq<User>, gs: seq<Grouping>)
    requires GroupedByMember(us1, gs) && GroupedByMember(us2, gs)
    ensures forall u :: u in us1 <==> u in us2
  {
    forall u | u in us1
      ensures u in us2
    {
      assert u.userName in Names(us2);
      var j :| 0 <= j < |us2| && us2[j].userName == u.userName;
      var i :| 0 <= i < |us1| && us1[i] == u;
    }
    forall u | u in us2
      ensures u in us1
    {
      assert u.userName in Names(us1);
      var j :| 0 <= j < |us1| && us1[j].userName == u.userName;
      var i :| 0 <= i < |us2| && us2[i] == u;
    }
  }
}

/** `CasbinService`: the enforcer's in-memory policy and the rule table behind
    it, and the service operations that read, change and persist them. */
module Service {
  import opened RoleGraph
  import opened KeyMatch
  import opened Enforcer
  import opened Users

  /** What a failed call to the rule table reports. */
  datatype Error = StoreUnavailable

  /** The `error` result of a service operation. */
  datatype Status = Ok | Err(error: Error)

  class CasbinService {
    /** The rows of the durable rule table. */
    var store: Policy
    /** The enforcer's in-memory policy, which decisions are made on. */
    var model: Policy

    /** Both keep each grouping rule once (the table has a unique index). */
    ghost predicate Valid()
      reads this
    {
      NoDup(store.groupings) && NoDup(model.groupings)
    }

    /** `NewCasbinService`: the enforcer starts from the table's rows. */
    constructor (initial: Policy)
      requires NoDup(initial.groupings)
      ensures Valid()
      ensures store == initial && model == initial
    {
      store := initial;
      model := initial;
    }

    /** `LoadPolicy`: the in-memory policy becomes a copy of the table. */
    method LoadPolicy(fails: bool) returns (st: Status)
      requires Valid()
      modifies this`model
      ensures Valid()
      ensures st == if fails then Err(StoreUnavailable) else Ok
      ensures model == if fails then old(model) else store
    {
      if fails {
        return Err(StoreUnavailable);
      }
      model := store;
      return Ok;
    }

    /** `SavePolicy`: the table is overwritten with the in-memory policy. */
    method SavePolicy(fails: bool) returns (st: Status)
      requires Valid()
      modifies this`store
      ensures Valid()
      ensures st == if fails then Err(StoreUnavailable) else Ok
      ensures store == if fails then old(store) else model
    {
      if fails {
        return Err(StoreUnavailable);
      }
      store := model;
      return Ok;
    }

    /** `GetRoles`: the groups of the in-memory grouping rules, each once. */
    function GetRoles(): (roles: seq<string>)
      reads this
      ensures NoDup(roles)
      ensures forall x :: x in roles <==> exists e :: e in model.groupings && e.group == x
    {
      AllRoles(model.groupings)
    }

    /** `GetRolePolicy`: the permission rules as the table holds them, which may
        differ from the in-memory ones. */
    method GetRolePolicy(fails: bool) returns (st: Status, roles: set<RolePolicy>)
      ensures st == if fails then Err(StoreUnavailable) else Ok
      ensures roles == if fails then {} else store.rules
    {
      if fails {
        return Err(StoreUnavailable), {};
      }
      return Ok, store.rules;
    }

    /** `CreateRolePolicy`: reload, add the rule (ignored if present), save. A
        failed reload or add stops before anything is saved. */
    method CreateRolePolicy(r: RolePolicy, loadFails: bool, addFails: bool, saveFails: bool)
      returns (st: Status)
      requires Valid()
      modifies this
      ensures Valid()
      ensures loadFails ==>
                st == Err(StoreUnavailable) && model == old(model) && store == old(store)
      ensures !loadFails && addFails ==>
                st == Err(StoreUnavailable) && model == old(store) && store == old(store)
      ensures !loadFails && !addFails ==>
                model == AddPolicy(old(store), r) &&
                st == (if saveFails then Err(StoreUnavailable) else Ok) &&
                store == (if saveFails then old(store) else model)
      ensures st == Ok ==> r in model.rules && store == model
      ensures st == Ok && r in old(store).rules ==> store == old(store)
    {
      st := LoadPolicy(loadFails);
      if st.Err? {
        return;
      }
      if addFails {
        return Err(StoreUnavailable);
      }
      model := AddPolicy(model, r);
      st := SavePolicy(saveFails);
    }

    /** `UpdateRolePolicy`: replace the rule in memory (no reload first), then
        save. Replacing an absent rule changes nothing and is still saved. */
    method UpdateRolePolicy(oldRule: RolePolicy, newRule: RolePolicy, updateFails: bool, saveFails: bool)
      returns (st: Status)
      requires Valid()
      modifies this
      ensures Valid()
      ensures updateFails ==>
                st == Err(StoreUnavailable) && model == old(model) && store == old(store)
      ensures !updateFails ==>
                model == UpdatePolicy(old(model), oldRule, newRule) &&
                st == (if saveFails then Err(StoreUnavailable) else Ok) &&
                store == (if saveFails then old(store) else model)
    {
      if updateFails {
        return Err(StoreUnavailable);
      }
      model := UpdatePolicy(model, oldRule, newRule);
      st := SavePolicy(saveFails);
    }

    /** `DeleteRolePolicy`: remove the rule in memory (no reload first), then
        save. Removing an absent rule is not an error. */
    method DeleteRolePolicy(r: RolePolicy, removeFails: bool, saveFails: bool)
      returns (st: Status)
      requires Valid()
      modifies this
      ensures Valid()
      ensures removeFails ==>
                st == Err(StoreUnavailable) && model == old(model) && store == old(store)
      ensures !removeFails ==>
                model == RemovePolicy(old(model), r) &&
                st == (if saveFails then Err(StoreUnavailable) else Ok) &&
                store == (if saveFails then old(store) else model)
    {
      if removeFails {
        return Err(StoreUnavailable);
      }
      model := RemovePolicy(model, r);
      st := SavePolicy(saveFails);
    }

    /** `UpdateUserRole`: add `username` to `rolename` in memory, creating the
        group implicitly, then save. Permission rules are untouched. */
    method UpdateUserRole(username: string, rolename: string, addFails: bool, saveFails: bool)
      returns (st: Status)
      requires Valid()
      modifies this
      ensures Valid()
      ensures addFails ==>
                st == Err(StoreUnavailable) && model == old(model) && store == old(store)
      ensures !addFails ==>
                model == AddGroupingPolicy(old(model), Grouping(username, rolename)) &&
                st == (if saveFails then Err(StoreUnavailable) else Ok) &&
                store == (if saveFails then old(store) else model)
    {
      if addFails {
        return Err(StoreUnavailable);
      }
      model := AddGroupingPolicy(model, Grouping(username, rolename));
      st := SavePolicy(saveFails);
    }

    /** `DeleteUserRole`: remove `username` from `rolename` in memory, then save. */
    method DeleteUserRole(username: string, rolename: string, removeFails: bool, saveFails: bool)
      returns (st: Status)
      requires Valid()
      modifies this
      ensures Valid()
      ensures removeFails ==>
                st == Err(StoreUnavailable) && model == old(model) && store == old(store)
      ensures !removeFails ==>
                model == RemoveGroupingPolicy(old(model), Grouping(username, rolename)) &&
                st == (if saveFails then Err(StoreUnavailable) else Ok) &&
                store == (if saveFails then old(store) else model)
    {
      if removeFails {
        return Err(StoreUnavailable);
      }
      model := RemoveGroupingPolicy(model, Grouping(username, rolename));
      st := SavePolicy(saveFails);
    }

    /** `GetUsers`: the in-memory grouping rules grouped by member. The map is
        read back in no particular order, so the users come in any order. */
    method GetUsers() returns (users: seq<User>)
      ensures GroupedByMember(users, model.groupings)
    {
      var p := model.groupings;
      var usernameUser: map<string, User> := map[];
      var i := 0;
      while i < |p|
        invariant 0 <= i <= |p|
        invariant IndexesMembers(usernameUser, p[..i])
      {
        var username, usergroup := p[i].member, p[i].group;
        ghost var before := usernameUser;
        if username in usernameUser {
          var v := usernameUser[username];
          usernameUser := usernameUser[username := User(v.userName, v.roleNames + [usergroup])];
        } else {
          usernameUser := usernameUser[username := User(username, [usergroup])];
        }
        IndexStep(p, i, before, usernameUser);
        i := i + 1;
      }
      assert p[..i] == p;
      var pending := usernameUser.Keys;
      users := [];
      while pending != {}
        invariant pending <= usernameUser.Keys
        invariant Names(users) + pending == usernameUser.Keys
        invariant Names(users) !! pending
        invariant forall j :: 0 <= j < |users| ==> users[j] == usernameUser[users[j].userName]
        invariant forall j, k :: 0 <= j < k < |users| ==> users[j].userName != users[k].userName
        decreases pending
      {
        var k :| k in pending;
        NamesSnoc(users, usernameUser[k]);
        users := users + [usernameUser[k]];
        pending := pending - {k};
      }
    }

    /** `CanAccess`: default deny against the in-memory policy. The request is
        allowed exactly when some permission rule's role is reachable from
        `username`, its path pattern matches `url` and its method is `httpMethod`. */
    function CanAccess(username: string, url: string, httpMethod: string): (ok: bool)
      reads this
      ensures ok <==> exists p :: p in model.rules && Reachable(model.groupings, username, p.roleName) &&
                                  KeyMatch2(url, p.url) && httpMethod == p.httpMethod
    {
      EnforceDefaultDeny(model, username, url, httpMethod);
      Enforce(model, username, url, httpMethod)
    }
  }

  // ---------------------------------------------------------------------------
  // The rule table drawn in the service's header comment
  // ---------------------------------------------------------------------------

  const AdminGet := RolePolicy("admin", "/api/user", "GET")
  const AdminDelete := RolePolicy("admin", "/api/user", "DELETE")
  const UserGet := RolePolicy("user", "/api/user", "GET")

  function ExampleTable(): Policy
  {
    Policy({AdminGet, AdminDelete, UserGet},
           [Grouping("leo", "admin"), Grouping("leo2", "admin"), Grouping("leo3", "user")])
  }

  /** No rule of the table names POST, so nobody may POST. */
  lemma ExamplePostDenied(sub: string, obj: string)
    ensures !Enforce(ExampleTable(), sub, obj, "POST")
  {
    UnknownActionDenied(ExampleTable(), sub, obj, "POST");
  }

  /** `leo` is in `admin`, and `admin` may GET `/api/user`. */
  lemma ExampleAdminGets()
    ensures Enforce(ExampleTable(), "leo", "/api/user", "GET")
  {
    var pol := ExampleTable();
    assert IsPath(pol.groupings, ["leo", "admin"]);
    HasLinkIsReachable(pol.groupings, "leo", "admin");
    ApiPathsAreLiteral();
    LiteralMatchesOnlyItself("/api/user", "/api/user");
    assert Matches(pol.groupings, "leo", "/api/user", "GET", AdminGet);
  }

  /** `leo3` is only in `user`, which may not DELETE. */
  lemma ExampleUserCannotDelete()
    ensures !Enforce(ExampleTable(), "leo3", "/api/user", "DELETE")
  {
    var pol := ExampleTable();
    ExampleUserNotAdmin();
    forall p | p in pol.rules && p.httpMethod == "DELETE"
      ensures !HasLink(pol.groupings, "leo3", p.roleName)
    {
      assert p == AdminDelete;
    }
    DeniedWithoutRole(pol, "leo3", "/api/user", "DELETE");
  }

  lemma ExampleUserNotAdmin()
    ensures !HasLink(ExampleTable().groupings, "leo3", "admin")
  {
    var gs := ExampleTable().groupings;
    HasLinkIsReachable(gs, "leo3", "admin");
    if Reachable(gs, "leo3", "admin") {
      var path :| IsPath(gs, path) && path[0] == "leo3" && path[|path| - 1] == "admin";
      LeavesUserOnly(gs, path);
    }
  }

  /** Every path from `leo3` stays at `leo3` or `user`. */
  lemma {:induction false} LeavesUserOnly(gs: seq<Grouping>, path: seq<string>)
    requires gs == ExampleTable().groupings
    requires IsPath(gs, path) && (path[0] == "leo3" || path[0] == "user")
    ensures path[|path| - 1] == "leo3" || path[|path| - 1] == "user"
    decreases |path|
  {
    if |path| > 1 {
      assert Grouping(path[0], path[1]) in gs;
      var rest := path[1..];
      assert forall i :: 0 <= i < |rest| - 1 ==> Grouping(rest[i], rest[i + 1]) in gs by {
        forall i | 0 <= i < |rest| - 1
          ensures Grouping(rest[i], rest[i + 1]) in gs
        {
          assert rest[i] == path[i + 1] && rest[i + 1] == path[i + 2];
        }
      }
      LeavesUserOnly(gs, rest);
    }
  }

  /** Deleting the only DELETE rule: `leo` keeps GET and loses DELETE. */
  lemma ExampleDeleteRevokes()
    ensures !Enforce(RemovePolicy(ExampleTable(), AdminDelete), "leo", "/api/user", "DELETE")
    ensures Enforce(RemovePolicy(ExampleTable(), AdminDelete), "leo", "/api/user", "GET")
  {
    var pol := RemovePolicy(ExampleTable(), AdminDelete);
    assert pol.rules == {AdminGet, UserGet};
    UnknownActionDenied(pol, "leo", "/api/user", "DELETE");
    ExampleAdminGets();
    RemovePolicyRevokes(ExampleTable(), AdminDelete, "leo", "/api/user", "GET");
  }

  /** The user listing of the table: three members with one group each. */
  lemma ExampleUsers(users: seq<User>)
    requires GroupedByMember(users, ExampleTable().groupings)
    ensures |users| == 3 && TotalRoleNames(users) == 3
  {
    var gs := ExampleTable().groupings;
    GroupedCount(users, gs);
    ExampleMembers();
  }

  lemma ExampleMembers()
    ensures |Members(ExampleTable().groupings)| == 3
  {
    var gs := ExampleTable().groupings;
    var a, b, c := gs[0], gs[1], gs[2];
    assert gs == [a, b, c];
    assert Members(gs) == {a.member, b.member, c.member};
    assert |a.member| == 3 && |b.member| == 4 && b.member[3] != c.member[3];
  }
}
