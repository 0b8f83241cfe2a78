# CasbinService as a Dafny model

This project models `CasbinService` from `casbin.go`. The service is a thin layer over a Casbin
enforcer that keeps role-based access rules in a SQL table (`casbin_rule`):

- **Permission rules** (`ptype = p`) give a role one HTTP method on one path pattern.
- **Grouping rules** (`ptype = g`) put a user, or a role, into a role.

The service reads and changes these rules. It also answers one question: may this user call
this method on this path?

The project has four modules:

- `RoleGraph` models the role definition `g = _, _`. Grouping rules are edges `member -> group`.
  `g(a, b)` is computed as the closure of `{a}` under those edges, so it terminates on cyclic
  rules. It is proved equal to a reference definition: some path of edges leads from `a` to `b`.
- `KeyMatch` is a simplified `keyMatch2` over `/`-separated segments:
  - a pattern segment `:name` matches exactly one non-empty segment;
  - a final pattern segment `*` matches one or more remaining segments;
  - any other segment matches only itself.

  Splitting a path into segments is proved to round-trip with joining them.
- `Enforcer` treats the enforcer's policy as a value:
  - permission rules are a set;
  - grouping rules are a sequence without repetitions;
  - the library calls the service makes (`AddPolicy`, `RemovePolicy`, `UpdatePolicy`,
    `AddGroupingPolicy`, `RemoveGroupingPolicy`, `GetAllRoles`) are functions;
  - the decision follows the model string: request, policy and role definitions, the effect
    `some(where (p.eft == allow))`, and the matcher `g(r.sub, p.sub) && keyMatch2(r.obj, p.obj) && r.act == p.act`.
- `Users` and `Service` model the service object. The class `CasbinService` has two fields:
  - `store`: the rows of the durable table;
  - `model`: the enforcer's in-memory policy.

  `LoadPolicy` copies the store into the model, and `SavePolicy` copies the model into the store.
  Each service operation is a method or a function that runs the same sequence of steps as the
  Go function.
  Whether the table is reachable at each step is a boolean parameter (`loadFails`, `addFails`,
  `saveFails`, …), so every error path is covered.

Two points about the code that a caller may not expect:

- **`UpdateRolePolicy` with an absent old rule** (casbin.go:103-108). The code discards the
  boolean result of `UpdatePolicy`. Updating a rule that does not exist changes nothing, still
  saves, and reports success, so a caller cannot tell it from a real update.
- **No reload before most operations** (casbin.go:88-164). Only `CreateRolePolicy` reloads
  the table before changing the policy. `UpdateRolePolicy`, `DeleteRolePolicy`,
  `UpdateUserRole` and `DeleteUserRole` change the in-memory policy as it is and then save it.
  `CanAccess` decides on the in-memory policy without reloading.

## Model

| member | source | states |
|---|---|---|
| RoleGraph.HasLink | casbin.go:49 | the matcher's `g(a, b)`: `b` is in the closure of `{a}` under the grouping rules |
| RoleGraph.Closure | casbin.go:49 | the computed role set contains the start and is closed under one more grouping step, and the computation terminates on cyclic grouping rules |
| RoleGraph.HasLinkIsReachable | casbin.go:49 | `g(a, b)` holds exactly when a chain of grouping rules leads from `a` to `b`; every name reaches itself |
| RoleGraph.HasLinkTransitive | casbin.go:49 | role inheritance is transitive |
| RoleGraph.HasLinkMonotone | casbin.go:49 | more grouping rules never remove an inherited role |
| RoleGraph.NoEdgesOnlySelf | casbin.go:49 | a name that is the member of no grouping rule inherits only itself |
| KeyMatch.KeyMatch2 | casbin.go:55 | the matcher's `keyMatch2(key, pattern)`: the key's segments match the pattern's segments one by one, with a final `*` taking the rest |
| KeyMatch.Split | casbin.go:55 | a path has at least one segment, and no segment contains `/` |
| KeyMatch.JoinSplit | casbin.go:55 | joining the segments of a path gives the path back |
| KeyMatch.SplitInjective | casbin.go:55 | different paths have different segment lists |
| KeyMatch.LiteralMatchesOnlyItself | casbin.go:55 | a pattern with no `:name` and no `*` segment matches exactly the path it spells |
| KeyMatch.WildcardMatchesExtensions | casbin.go:55 | `prefix/*` matches exactly the paths that start with `prefix/`, in both directions |
| KeyMatch.ParamMatchesOneSegment | casbin.go:55 | `prefix/:name` matches exactly `prefix/` followed by one non-empty segment without `/` |
| KeyMatch.ParamRejectsDeeperPath | casbin.go:55 | `prefix/:name` never matches a path two segments below `prefix` |
| KeyMatch.LiteralAppend | casbin.go:55 | appending a segment that is neither a parameter nor `*` to a literal pattern gives a literal pattern |
| KeyMatch.WildcardMatchesBelow | casbin.go:55 | `prefix/*` matches `prefix/` followed by anything |
| KeyMatch.WildcardRejectsOwnPrefix | casbin.go:55 | `prefix/*` does not match `prefix` itself |
| KeyMatch.ParamMatchesAnySegment | casbin.go:55 | `prefix/:name` matches `prefix/` followed by any one non-empty segment |
| KeyMatch.ApiPathsAreLiteral | casbin.go:17 | `/api` and `/api/user` are literal patterns |
| KeyMatch.ParamMatchesSegment | casbin.go:55 | `/api/user/:id` matches `/api/user/42` |
| KeyMatch.WildcardMatchesChild | casbin.go:55 | `/api/*` matches `/api/user` |
| KeyMatch.WildcardMatchesDescendant | casbin.go:55 | `/api/*` matches `/api/user/42` |
| KeyMatch.WildcardRejectsPrefix | casbin.go:55 | `/api/*` does not match `/api` |
| Enforcer.AddPolicy | casbin.go:94 | the rule is present afterwards, no other rule changes, adding a present rule changes nothing, and grouping rules are untouched |
| Enforcer.RemovePolicy | casbin.go:113 | the rule is absent afterwards, no other rule changes, removing an absent rule changes nothing, and grouping rules are untouched |
| Enforcer.UpdatePolicy | casbin.go:103-104 | a present old rule is replaced by the new one; an absent old rule leaves the policy as it is; no third rule changes |
| Enforcer.Without | casbin.go:154 | the given grouping rule is absent afterwards, every other rule is kept, and repetition-freedom is preserved |
| Enforcer.WithoutKeepsOrder | casbin.go:154 | removing the one occurrence of a grouping rule leaves the rules before it and after it in their order, closing the gap |
| Enforcer.AddGroupingPolicy | casbin.go:145 | the pair is present afterwards, existing grouping rules keep their order as a prefix, no pair is repeated, and permission rules are untouched |
| Enforcer.RemoveGroupingPolicy | casbin.go:154 | the pair is absent afterwards, other pairs are kept in their order with the pair's place closed, removing an absent pair changes nothing, and permission rules are untouched |
| Enforcer.AllRoles | casbin.go:75 | every group named by some grouping rule, each exactly once, and nothing else |
| Enforcer.Matches | casbin.go:55 | the matcher `m`: the subject inherits the rule's role, the path matches the rule's pattern and the action equals the rule's method |
| Enforcer.Enforce | casbin.go:52 | the effect `some(where (p.eft == allow))`: allowed when at least one permission rule satisfies the matcher |
| Enforcer.EnforceDefaultDeny | casbin.go:52-55 | a request is allowed exactly when some permission rule's role is reachable from the subject, its pattern matches the path and its method equals the action |
| Enforcer.UnknownActionDenied | casbin.go:52-55 | an action that no permission rule names is denied to everybody |
| Enforcer.DeniedWithoutRole | casbin.go:52-55 | a subject that inherits none of the roles whose rules name the action is denied |
| Enforcer.AddPolicyGrants | casbin.go:94 | after adding a rule, exactly the old grants plus the requests that rule matches are allowed |
| Enforcer.RemovePolicyRevokes | casbin.go:113 | after removing a rule, only the requests another rule matches remain allowed |
| Enforcer.UpdatePolicyDecision | casbin.go:103-104 | after a replacement, a request is allowed when the new rule or some rule other than the old one matches it |
| Enforcer.AddGroupingKeepsAccess | casbin.go:145 | adding a grouping rule never takes a permission away |
| Enforcer.RemoveGroupingGrantsNothing | casbin.go:154 | removing a grouping rule never grants a new permission |
| Enforcer.RemoveAfterAddPolicy | casbin.go:94 | adding a new rule and removing it restores the policy |
| Enforcer.RemoveAfterAddGrouping | casbin.go:145 | adding a new grouping rule and removing it restores the policy |
| Enforcer.UpdateBack | casbin.go:103-104 | replacing a rule and replacing it back restores the policy |
| Users.GroupedByMember | casbin.go:128-139 | the listing names each member of the grouping rules exactly once, gives each its groups in rule order, and names nobody else |
| Users.RolesOfMember | casbin.go:129-136 | a name has groups in the listing exactly when it is the member of some grouping rule |
| Users.GroupedCount | casbin.go:126-141 | the users' group counts add up to the number of grouping rules, there is one user per distinct member, and no grouping rules means no users |
| Users.GroupedUnique | casbin.go:137-139 | any two listings of the same grouping rules hold the same users; only their order can differ |
| Service.CasbinService.constructor | casbin.go:37-64 | the enforcer starts from the rows of the table |
| Service.CasbinService.LoadPolicy | casbin.go:90 | on success the in-memory policy equals the table; on failure it is unchanged and the error is reported |
| Service.CasbinService.SavePolicy | casbin.go:98 | on success the table equals the in-memory policy; on failure it is unchanged and the error is reported |
| Service.CasbinService.GetRoles | casbin.go:74-76 | every group of the in-memory grouping rules, each once |
| Service.CasbinService.GetRolePolicy | casbin.go:79-85 | the permission rules as stored in the table, or an error and no rules |
| Service.CasbinService.CreateRolePolicy | casbin.go:88-99 | a failed reload stops before anything changes; a failed add stops after the reload without saving; otherwise the reloaded policy gets the rule and is saved; on success the rule is present and the table equals the in-memory policy; re-creating a stored rule changes nothing |
| Service.CasbinService.UpdateRolePolicy | casbin.go:102-109 | a failed update changes nothing and saves nothing; otherwise the in-memory policy is updated (unchanged when the old rule is absent) and saved |
| Service.CasbinService.DeleteRolePolicy | casbin.go:112-118 | a failed remove changes nothing and saves nothing; otherwise the rule is removed from the in-memory policy, everything else is kept, and the result is saved; an absent rule is not an error |
| Service.CasbinService.UpdateUserRole | casbin.go:143-150 | a failed add changes nothing; otherwise the pair is added to the in-memory grouping rules and saved; permission rules are untouched |
| Service.CasbinService.DeleteUserRole | casbin.go:152-159 | a failed remove changes nothing; otherwise the pair is removed from the in-memory grouping rules and saved; permission rules are untouched |
| Service.CasbinService.GetUsers | casbin.go:126-141 | each member of the in-memory grouping rules appears once, with exactly its groups in rule order, and nobody else appears |
| Service.CasbinService.CanAccess | casbin.go:162-164 | default deny: allowed exactly when some in-memory permission rule's role is reachable from the user, its pattern matches the path and its method equals the request's method |
| Service.ExamplePostDenied | casbin.go:14-30 | with the table's rules, nobody may POST |
| Service.ExampleAdminGets | casbin.go:14-30 | `leo`, a member of `admin`, may GET `/api/user` |
| Service.ExampleUserCannotDelete | casbin.go:14-30 | `leo3`, a member of `user` only, may not DELETE `/api/user` |
| Service.ExampleDeleteRevokes | casbin.go:14-30 | after removing `admin`'s DELETE rule, `leo` may still GET but no longer DELETE `/api/user` |
| Service.ExampleUsers | casbin.go:14-30 | listing the table's users gives three users with three groups in total |

## Left out

- The GORM adapter, SQLite and the network are not modelled. The table is the `store` field,
  and whether each step reaches it is a boolean parameter. The exact error values are collapsed
  into one `StoreUnavailable`.
- The library's auto-save write-through is not modelled. In the model, the table changes only
  when `SavePolicy` writes the whole in-memory policy.
- `Service.CasbinService.SavePolicy`: a failed save is modelled as leaving the table unchanged,
  as a rolled-back transaction would. Partial writes are not modelled.
- `Service.CasbinService.LoadPolicy`: a failed load is modelled as leaving the in-memory policy
  unchanged. Some library versions clear it first.
- `RoleGraph.HasLink`: the role manager's maximum hierarchy depth of 10 is not modelled. Any
  chain of grouping rules counts, however long.
- `KeyMatch.KeyMatch2` is simplified, and the following are not modelled:
  - regular-expression metacharacters in patterns;
  - `*` anywhere other than as a whole final segment;
  - a `:name` that is only part of a segment;
  - the pattern consisting of `*` alone.
- `Enforcer.UpdatePolicy`: when the new rule already exists, the library can end up holding it
  twice. Because permission rules form a set, the model merges the two.
- The order of permission rules is not modelled, because they form a set. The order of the
  rows that `GetRolePolicy` returns is therefore not modelled either.
- `Service.CasbinService.GetRoles` states which groups are returned, each once. It does not
  state their order.
- `Service.CasbinService.GetUsers`: Go's map iteration order is not modelled. The contract
  allows any order of users.
- `Enforcer.Enforce`: when there are no permission rules at all, the library evaluates the
  matcher once against an all-empty rule. That would allow the request `("", "", "")` on an
  empty policy, while the model denies every request on an empty policy. An HTTP request
  path is never empty, so the service does not reach this case.
- `Service.CasbinService.CanAccess` never reports an evaluation error, because the model has no
  malformed matcher.
- `NewCasbinService` errors (adapter creation, model parsing) are not modelled. The
  constructor starts from an already loaded table.
- Concurrency is not modelled, including the lost update between two service calls that both
  load, change and save.
- The HTTP routes and the permission middleware are not part of this model. That includes a
  reload before every check, which is done outside `casbin.go`.
