/** The enforcer's policy as a value: the permission rules (`ptype = p`) and the
    grouping rules (`ptype = g`), the in-memory operations the service calls on
    it, and the decision fixed by the model string (request, policy and role
    definitions, the `some(where (p.eft == allow))` effect and the matcher). */
module Enforcer {
  import opened RoleGraph
  import opened KeyMatch

  /** A permission rule `(sub, obj, act)`: columns v0, v1, v2 of a `p` row. */
  datatype RolePolicy = RolePolicy(roleName: string, url: string, httpMethod: string)

  /** Permission rules are unique, so they form a set; grouping rules keep the
      order in which they were added, without repetitions. */
  datatype Policy = Policy(rules: set<RolePolicy>, groupings: seq<Grouping>)

  predicate NoDup<T(==)>(s: seq<T>)
  {
    forall i, j :: 0 <= i < j < |s| ==> s[i] != s[j]
  }

  // ---------------------------------------------------------------------------
  // In-memory operations of the enforcer
  // ---------------------------------------------------------------------------

  /** `AddPolicy`: adding a rule that is already present changes nothing. */
  function AddPolicy(pol: Policy, r: RolePolicy): (q: Policy)
    ensures r in q.rules
    ensures forall x :: x != r ==> (x in q.rules <==> x in pol.rules)
    ensures r in pol.rules ==> q == pol
    ensures q.groupings == pol.groupings
  {
    Policy(pol.rules + {r}, pol.groupings)
  }

  /** `RemovePolicy`: removing an absent rule changes nothing. */
  function RemovePolicy(pol: Policy, r: RolePolicy): (q: Policy)
    ensures r !in q.rules
    ensures forall x :: x != r ==> (x in q.rules <==> x in pol.rules)
    ensures r !in pol.rules ==> q == pol
    ensures q.groupings == pol.groupings
  {
    Policy(pol.rules - {r}, pol.groupings)
  }

  /** `UpdatePolicy`: when `oldRule` is present it is replaced by `newRule`;
      otherwise the policy is left as it is and no error is reported. */
  function UpdatePolicy(pol: Policy, oldRule: RolePolicy, newRule: RolePolicy): (q: Policy)
    ensures oldRule in pol.rules ==> newRule in q.rules
    ensures oldRule in pol.rules && oldRule != newRule ==> oldRule !in q.rules
    ensures oldRule !in pol.rules ==> q == pol
    ensures forall x :: x != oldRule && x != newRule ==> (x in q.rules <==> x in pol.rules)
    ensures q.groupings == pol.groupings
  {
    if oldRule in pol.rules then Policy(pol.rules - {oldRule} + {newRule}, pol.groupings)
    else pol
  }

  /** The grouping rules other than `g`, in their original order (when `g`
      occurs once, `WithoutKeepsOrder` states that order exactly). */
  function Without(gs: seq<Grouping>, g: Grouping): (r: seq<Grouping>)
    ensures g !in r
    ensures forall x :: x != g ==> (x in r <==> x in gs)
    ensures g !in gs ==> r == gs
    ensures NoDup(gs) ==> NoDup(r)
  {
    if gs == [] then []
    else
      var rest := Without(gs[1..], g);
      if gs[0] == g then rest
      else
        assert gs == [gs[0]] + gs[1..];
        assert NoDup(gs) ==> gs[0] !in gs[1..] by {
          if NoDup(gs) {
            forall x | x in gs[1..]
              ensures x != gs[0]
            {
              var k :| 0 <= k < |gs[1..]| && gs[1..][k] == x;
              assert gs[k + 1] == x;
            }
          }
        }
        [gs[0]] + rest
  }

  /** `AddGroupingPolicy`: a new rule goes after the existing ones; an existing
      rule is not added twice. */
  function AddGroupingPolicy(pol: Policy, g: Grouping): (q: Policy)
    ensures g in q.groupings
    ensures forall x :: x != g ==> (x in q.groupings <==> x in pol.groupings)
    ensures |q.groupings| >= |pol.groupings| && q.groupings[..|pol.groupings|] == pol.groupings
    ensures NoDup(pol.groupings) ==> NoDup(q.groupings)
    ensures q.rules == pol.rules
  {
    if g in pol.groupings then pol else Policy(pol.rules, pol.groupings + [g])
  }

  lemma NoDupTail<T>(s: seq<T>)
    requires |s| >= 1 && NoDup(s)
    ensures NoDup(s[1..]) && s[0] !in s[1..]
  {
    forall j, k | 0 <= j < k < |s[1..]|
      ensures s[1..][j] != s[1..][k]
    {
      assert s[1..][j] == s[j + 1] && s[1..][k] == s[k + 1];
    }
    forall k | 0 <= k < |s[1..]|
      ensures s[1..][k] != s[0]
    {
      assert s[1..][k] == s[k + 1];
    }
  }

  /** Dropping the one occurrence of `g` closes the gap; the rules before and
      after it keep their order. */
  lemma {:induction false} WithoutKeepsOrder(gs: seq<Grouping>, g: Grouping, i: int)
    requires 0 <= i < |gs| && gs[i] == g && NoDup(gs)
    ensures Without(gs, g) == gs[..i] + gs[i + 1..]
  {
    NoDupTail(gs);
    var tail := gs[1..];
    if i == 0 {
      assert Without(gs, g) == Without(tail, g);
      assert gs[..i] + gs[i + 1..] == tail;
    } else {
      WithoutKeepsOrder(tail, g, i - 1);
      assert Without(gs, g) == [gs[0]] + (tail[..i - 1] + tail[i..]);
      assert gs[..i] == [gs[0]] + tail[..i - 1];
      assert gs[i + 1..] == tail[i..];
    }
  }

  /** `RemoveGroupingPolicy`: the other grouping rules keep their order. */
  function RemoveGroupingPolicy(pol: Policy, g: Grouping): (q: Policy)
    ensures g !in q.groupings
    ensures forall x :: x != g ==> (x in q.groupings <==> x in pol.groupings)
    ensures g !in pol.groupings ==> q == pol
    ensures NoDup(pol.groupings) ==> NoDup(q.groupings)
    ensures NoDup(pol.groupings) ==>
              forall i :: 0 <= i < |pol.groupings| && pol.groupings[i] == g ==>
                q.groupings == pol.groupings[..i] + pol.groupings[i + 1..]
    ensures q.rules == pol.rules
  {
    forall i | 0 <= i < |pol.groupings| && pol.groupings[i] == g && NoDup(pol.groupings)
      ensures Without(pol.groupings, g) == pol.groupings[..i] + pol.groupings[i + 1..]
    {
      WithoutKeepsOrder(pol.groupings, g, i);
    }
    Policy(pol.rules, Without(pol.groupings, g))
  }

  /** `GetAllRoles`: every group named by a grouping rule, each once. */
  function AllRoles(gs: seq<Grouping>): (roles: seq<string>)
    ensures NoDup(roles)
    ensures forall x :: x in roles <==> x in Groups(gs)
  {
    if gs == [] then []
    else
      var front := gs[..|gs| - 1];
      var r := AllRoles(front);
      var g := gs[|gs| - 1].group;
      assert gs == front + [gs[|gs| - 1]];
      assert Groups(gs) == Groups(front) + {g};
      if g in r then r else r + [g]
  }

  // ---------------------------------------------------------------------------
  // The decision: request (sub, obj, act), policy (sub, obj, act), g = _, _
  // ---------------------------------------------------------------------------

  /** The matcher `g(r.sub, p.sub) && keyMatch2(r.obj, p.obj) && r.act == p.act`. */
  predicate Matches(gs: seq<Grouping>, sub: string, obj: string, act: string, p: RolePolicy)
  {
    HasLink(gs, sub, p.roleName) && KeyMatch2(obj, p.url) && act == p.httpMethod
  }

  /** The effect `some(where (p.eft == allow))`: every rule allows, so a request
      is allowed when at least one rule matches it. */
  predicate Enforce(pol: Policy, sub: string, obj: string, act: string)
  {
    exists p :: p in pol.rules && Matches(pol.groupings, sub, obj, act, p)
  }

  /** Default deny, stated with path reachability instead of the computed closure. */
  lemma EnforceDefaultDeny(pol: Policy, sub: string, obj: string, act: string)
    ensures Enforce(pol, sub, obj, act) <==>
            exists p :: p in pol.rules && Reachable(pol.groupings, sub, p.roleName) &&
                        KeyMatch2(obj, p.url) && act == p.httpMethod
  {
    forall p | p in pol.rules {
      HasLinkIsReachable(pol.groupings, sub, p.roleName);
    }
  }

  /** An action no rule names is denied to everyone, on every path. */
  lemma UnknownActionDenied(pol: Policy, sub: string, obj: string, act: string)
    requires forall p :: p in pol.rules ==> p.httpMethod != act
    ensures !Enforce(pol, sub, obj, act)
  {
  }

  /** A subject that inherits no role whose rules name the action is denied it. */
  lemma DeniedWithoutRole(pol: Policy, sub: string, obj: string, act: string)
    requires forall p :: p in pol.rules && p.httpMethod == act ==> !HasLink(pol.groupings, sub, p.roleName)
    ensures !Enforce(pol, sub, obj, act)
  {
  }

  /** Adding a rule grants exactly the requests that rule matches. */
  lemma AddPolicyGrants(pol: Policy, r: RolePolicy, sub: string, obj: string, act: string)
    ensures Enforce(AddPolicy(pol, r), sub, obj, act) <==>
            Enforce(pol, sub, obj, act) || Matches(pol.groupings, sub, obj, act, r)
  {
    var q := AddPolicy(pol, r);
    if Enforce(q, sub, obj, act) && !Matches(pol.groupings, sub, obj, act, r) {
      var p :| p in q.rules && Matches(q.groupings, sub, obj, act, p);
      assert p in pol.rules;
    }
  }

  /** Removing a rule denies exactly the requests no other rule matches. */
  lemma RemovePolicyRevokes(pol: Policy, r: RolePolicy, sub: string, obj: string, act: string)
    ensures Enforce(RemovePolicy(pol, r), sub, obj, act) <==>
            exists p :: p in pol.rules && p != r && Matches(pol.groupings, sub, obj, act, p)
  {
    var q := RemovePolicy(pol, r);
    if exists p :: p in pol.rules && p != r && Matches(pol.groupings, sub, obj, act, p) {
      var p :| p in pol.rules && p != r && Matches(pol.groupings, sub, obj, act, p);
      assert p in q.rules;
    }
  }

  /** Replacing a rule: the request is allowed by some other rule, or by the new
      rule if the old one was present. */
  lemma UpdatePolicyDecision(pol: Policy, oldRule: RolePolicy, newRule: RolePolicy,
                             sub: string, obj: string, act: string)
    requires oldRule in pol.rules
    ensures Enforce(UpdatePolicy(pol, oldRule, newRule), sub, obj, act) <==>
            Matches(pol.groupings, sub, obj, act, newRule) ||
            exists p :: p in pol.rules && p != oldRule && Matches(pol.groupings, sub, obj, act, p)
  {
    var q := UpdatePolicy(pol, oldRule, newRule);
    assert q == AddPolicy(RemovePolicy(pol, oldRule), newRule);
    AddPolicyGrants(RemovePolicy(pol, oldRule), newRule, sub, obj, act);
    RemovePolicyRevokes(pol, oldRule, sub, obj, act);
  }

  /** Adding a member to a group never takes a permission away. */
  lemma AddGroupingKeepsAccess(pol: Policy, g: Grouping, sub: string, obj: string, act: string)
    requires Enforce(pol, sub, obj, act)
    ensures Enforce(AddGroupingPolicy(pol, g), sub, obj, act)
  {
    var q := AddGroupingPolicy(pol, g);
    var p :| p in pol.rules && Matches(pol.groupings, sub, obj, act, p);
    HasLinkMonotone(pol.groupings, q.groupings, sub, p.roleName);
    assert p in q.rules;
  }

  /** Removing a member from a group never grants a new permission. */
  lemma RemoveGroupingGrantsNothing(pol: Policy, g: Grouping, sub: string, obj: string, act: string)
    requires Enforce(RemoveGroupingPolicy(pol, g), sub, obj, act)
    ensures Enforce(pol, sub, obj, act)
  {
    var q := RemoveGroupingPolicy(pol, g);
    var p :| p in q.rules && Matches(q.groupings, sub, obj, act, p);
    HasLinkMonotone(q.groupings, pol.groupings, sub, p.roleName);
  }

  /** A rule added and then removed leaves the policy as it was. */
  lemma RemoveAfterAddPolicy(pol: Policy, r: RolePolicy)
    requires r !in pol.rules
    ensures RemovePolicy(AddPolicy(pol, r), r) == pol
  {
    assert AddPolicy(pol, r).rules - {r} == pol.rules;
  }

  lemma {:induction false} WithoutAppended(gs: seq<Grouping>, g: Grouping)
    ensures Without(gs + [g], g) == Without(gs, g)
  {
    if gs == [] {
      assert [g][1..] == [];
    } else {
      assert (gs + [g])[1..] == gs[1..] + [g];
      WithoutAppended(gs[1..], g);
    }
  }

  /** A grouping rule added and then removed leaves the policy as it was. */
  lemma RemoveAfterAddGrouping(pol: Policy, g: Grouping)
    requires g !in pol.groupings
    ensures RemoveGroupingPolicy(AddGroupingPolicy(pol, g), g) == pol
  {
    WithoutAppended(pol.groupings, g);
  }

  /** Updating a rule and updating it back restores the policy. */
  lemma UpdateBack(pol: Policy, oldRule: RolePolicy, newRule: RolePolicy)
    requires oldRule in pol.rules && newRule !in pol.rules
    ensures UpdatePolicy(UpdatePolicy(pol, oldRule, newRule), newRule, oldRule) == pol
  {
    assert pol.rules - {oldRule} + {newRule} - {newRule} + {oldRule} == pol.rules;
  }
}
