/**
  The policy snapshot published to the proxy (aegis-backend/app/services/
  proxy_config_service.py) and what the proxy's rule selection makes of it
  (reverse-proxy/internal/proxy/rate_limiter.go).
*/
module ProxyConfig {
  import opened Common
  import opened ActiveTable
  import J = JwtConfigs
  import L = RateLimitRules
  import R = RoutePermissions
  import B = IpBlocks

  datatype ThreatRule = ThreatRule(name: string, pattern: string, severity: string, active: bool)

  predicate ThreatActive(t: ThreatRule) { t.active }

  datatype Database = Database(
    jwtConfigs: J.Configs, rules: map<int, L.Rule>, blocks: map<int, B.Block>,
    threats: map<int, ThreatRule>, permissions: map<int, R.Permission>)

  datatype RateLimitPolicy = RateLimitPolicy(
    id: int, scopeType: L.ScopeType, scopeValue: Option<string>, algorithm: string,
    limitCount: int, windowSeconds: int, burstAllowance: Option<int>)

  datatype ThreatPolicy = ThreatPolicy(id: int, name: string, pattern: string, severity: string)

  datatype RoutePolicy = RoutePolicy(id: int, verb: string, path: string, requiredScope: string)

  datatype Snapshot = Snapshot(
    jwt: Option<J.JwtPolicy>, rateLimitRules: seq<RateLimitPolicy>, blockedIpAddresses: seq<string>,
    threatRules: seq<ThreatPolicy>, routePermissions: seq<RoutePolicy>)

  /** The list comprehensions: one element for each active row, in id order. */
  ghost function Listed<R, P>(rows: map<int, R>, active: R -> bool, project: (int, R) -> P): (list: seq<P>)
    ensures var ids := ActiveIds(rows, active);
            |list| == |ids| && forall i | 0 <= i < |ids| :: ids[i] in rows && list[i] == project(ids[i], rows[ids[i]])
  {
    var ids := ActiveIds(rows, active);
    assert forall i | 0 <= i < |ids| :: ids[i] in ids;
    seq(|ids|, i requires 0 <= i < |ids| => project(ids[i], rows[ids[i]]))
  }

  function RulePolicy(id: int, r: L.Rule): RateLimitPolicy {
    RateLimitPolicy(id, r.scopeType, r.scopeValue, r.algorithm, r.limitCount, r.windowSeconds, r.burstAllowance)
  }

  /** The active rule that a published policy stands for. */
  function RuleOf(p: RateLimitPolicy, name: string, createdBy: int): L.Rule {
    L.Rule(name, p.scopeType, p.scopeValue, p.algorithm, p.limitCount, p.windowSeconds, p.burstAllowance, true, createdBy)
  }

  function PermissionOf(p: RoutePolicy, createdBy: int): R.Permission {
    R.Permission(p.verb, p.path, p.requiredScope, true, createdBy)
  }

  function ThreatOf(p: ThreatPolicy): ThreatRule { ThreatRule(p.name, p.pattern, p.severity, true) }

  /** Publishing loses only what the proxy has no use for: from the policy, the name and the
      author, the active row can be had back. */
  lemma PublishedCanBeReadBack(id: int, r: L.Rule, p: R.Permission, t: ThreatRule)
    ensures r.active ==> RuleOf(RulePolicy(id, r), r.name, r.createdBy) == r
    ensures p.active ==> PermissionOf(RoutePolicyOf(id, p), p.createdBy) == p
    ensures t.active ==> ThreatOf(ThreatPolicyOf(id, t)) == t
    ensures RulePolicy(id, r).id == id && RoutePolicyOf(id, p).id == id && ThreatPolicyOf(id, t).id == id
  {
  }

  function BlockAddress(id: int, b: B.Block): string { b.ip }

  function ThreatPolicyOf(id: int, t: ThreatRule): ThreatPolicy { ThreatPolicy(id, t.name, t.pattern, t.severity) }

  function RoutePolicyOf(id: int, p: R.Permission): RoutePolicy { RoutePolicy(id, p.verb, p.path, p.requiredScope) }

  ghost function GetSnapshot(db: Database): Snapshot {
    Snapshot(J.PublishedJwt(db.jwtConfigs),
             Listed(db.rules, L.IsActive, RulePolicy),
             Listed(db.blocks, B.IsActive, BlockAddress),
             Listed(db.threats, ThreatActive, ThreatPolicyOf),
             Listed(db.permissions, R.IsActive, RoutePolicyOf))
  }

  /** A list holds exactly the projections of the active rows, in ascending id order. */
  ghost predicate ExactList<R(!new), P>(rows: map<int, R>, active: R -> bool, project: (int, R) -> P, list: seq<P>, ids: seq<int>) {
    && Ascending(ids) && |ids| == |list|
    && (forall id :: id in ids <==> id in rows && active(rows[id]))
    && forall i | 0 <= i < |ids| :: ids[i] in rows && list[i] == project(ids[i], rows[ids[i]])
  }

  /** Two places of the list never show the same key. */
  lemma ListedKeysDistinct<R(!new), P, K(!new)>(rows: map<int, R>, active: R -> bool, key: R -> K, project: (int, R) -> P, i: nat, j: nat)
    requires OneActivePerKey(rows, active, key)
    requires i < j < |Listed(rows, active, project)|
    ensures var ids := ActiveIds(rows, active); key(rows[ids[i]]) != key(rows[ids[j]])
  {
    var ids := ActiveIds(rows, active);
    assert ids[i] in ids && ids[j] in ids && ids[i] < ids[j];
  }

  /** The tables as the services can leave them, from empty ones. */
  datatype History = History(
    jwt: seq<J.Transaction>, rules: seq<Request<L.Rule, L.RuleUpdate>>, blocks: seq<Request<B.Block, B.BlockUpdate>>,
    permissions: seq<Request<R.Permission, R.PermissionUpdate>>)

  ghost function DatabaseAfter(h: History, threats: map<int, ThreatRule>): Database {
    Database(J.CommitAll(map[], h.jwt), HandleAll(L.RuleKind(), Table(map[], 1), h.rules).rows,
             HandleAll(B.BlockKind(), Table(map[], 1), h.blocks).rows, threats,
             HandleAll(R.PermissionKind(), Table(map[], 1), h.permissions).rows)
  }

  predicate DistinctScopes(rules: seq<RateLimitPolicy>) {
    forall i, j | 0 <= i < j < |rules| :: (rules[i].scopeType, rules[i].scopeValue) != (rules[j].scopeType, rules[j].scopeValue)
  }

  predicate WellScoped(rules: seq<RateLimitPolicy>) {
    forall i | 0 <= i < |rules| :: rules[i].scopeType.Global? <==> rules[i].scopeValue.None?
  }

  predicate DistinctRoutes(routes: seq<RoutePolicy>) {
    forall i, j | 0 <= i < j < |routes| :: (routes[i].verb, routes[i].path) != (routes[j].verb, routes[j].path)
  }

  predicate Distinct<T(==)>(xs: seq<T>) {
    forall i, j | 0 <= i < j < |xs| :: xs[i] != xs[j]
  }

  /** In every reachable store the snapshot lists exactly the active rows in id order, with
      pairwise distinct scopes, routes and addresses, and the JWT policy is the projection of
      the configuration last activated. */
  lemma SnapshotIsExact(h: History, threats: map<int, ThreatRule>)
    requires forall t | t in h.jwt :: (t.Insert? ==> t.config.signingKey.Sealed?)
    ensures var db := DatabaseAfter(h, threats);
            var s := GetSnapshot(db);
            && ExactList(db.rules, L.IsActive, RulePolicy, s.rateLimitRules, ActiveIds(db.rules, L.IsActive))
            && ExactList(db.blocks, B.IsActive, BlockAddress, s.blockedIpAddresses, ActiveIds(db.blocks, B.IsActive))
            && ExactList(db.threats, ThreatActive, ThreatPolicyOf, s.threatRules, ActiveIds(db.threats, ThreatActive))
            && ExactList(db.permissions, R.IsActive, RoutePolicyOf, s.routePermissions, ActiveIds(db.permissions, R.IsActive))
    ensures var s := GetSnapshot(DatabaseAfter(h, threats));
            && DistinctScopes(s.rateLimitRules) && WellScoped(s.rateLimitRules)
            && (forall i, j | 0 <= i < j < |s.blockedIpAddresses| :: s.blockedIpAddresses[i] != s.blockedIpAddresses[j])
            && (forall i, j | 0 <= i < j < |s.routePermissions| ::
                  s.routePermissions[i].verb != s.routePermissions[j].verb || s.routePermissions[i].path != s.routePermissions[j].path)
    ensures var db := DatabaseAfter(h, threats);
            GetSnapshot(db).jwt == match J.LastActivated(map[], h.jwt, None)
                                   case None => None
                                   case Some(id) => if id in db.jwtConfigs then J.Project(id, db.jwtConfigs[id]) else None
  {
    J.PublishedIsLastActivated(h.jwt);
    RuleListDistinct(h.rules);
    BlockListDistinct(h.blocks);
    RouteListDistinct(h.permissions);
  }

  /** Every active row is published once, under its id and as it is, and no other row is. */
  lemma PublishedIff(db: Database, id: int)
    ensures var rules := Listed(db.rules, L.IsActive, RulePolicy);
            && ((exists p | p in rules :: p.id == id) <==> id in db.rules && db.rules[id].active)
            && forall p | p in rules && p.id == id :: RuleOf(p, db.rules[id].name, db.rules[id].createdBy) == db.rules[id]
    ensures var threats := Listed(db.threats, ThreatActive, ThreatPolicyOf);
            && ((exists p | p in threats :: p.id == id) <==> id in db.threats && db.threats[id].active)
            && forall p | p in threats && p.id == id :: ThreatOf(p) == db.threats[id]
    ensures var routes := Listed(db.permissions, R.IsActive, RoutePolicyOf);
            && ((exists p | p in routes :: p.id == id) <==> id in db.permissions && db.permissions[id].active)
            && forall p | p in routes && p.id == id :: PermissionOf(p, db.permissions[id].createdBy) == db.permissions[id]
  {
    ListedIff(db.rules, L.IsActive, RulePolicy, id);
    ListedIff(db.threats, ThreatActive, ThreatPolicyOf, id);
    ListedIff(db.permissions, R.IsActive, RoutePolicyOf, id);
  }

  /** A list holds the projection of every active row, and of no other row. */
  lemma ListedIff<T, Q>(rows: map<int, T>, active: T -> bool, project: (int, T) -> Q, id: int)
    ensures id in rows && active(rows[id]) ==> project(id, rows[id]) in Listed(rows, active, project)
    ensures forall p | p in Listed(rows, active, project) ::
              exists other | other in rows :: active(rows[other]) && p == project(other, rows[other])
  {
    var ids, list := ActiveIds(rows, active), Listed(rows, active, project);
    if id in rows && active(rows[id]) {
      assert id in ids;
      var i :| 0 <= i < |ids| && ids[i] == id;
      assert list[i] == project(id, rows[id]);
    }
    forall p | p in list
      ensures exists other | other in rows :: active(rows[other]) && p == project(other, rows[other])
    {
      var i :| 0 <= i < |list| && list[i] == p;
      assert ids[i] in ids;
    }
  }

  lemma RuleListDistinct(requests: seq<Request<L.Rule, L.RuleUpdate>>)
    ensures var list := Listed(HandleAll(L.RuleKind(), Table(map[], 1), requests).rows, L.IsActive, RulePolicy);
            DistinctScopes(list) && WellScoped(list)
  {
    L.OneActivePerScope(requests);
    var rows := HandleAll(L.RuleKind(), Table(map[], 1), requests).rows;
    var list := Listed(rows, L.IsActive, RulePolicy);
    forall i, j | 0 <= i < j < |list|
      ensures (list[i].scopeType, list[i].scopeValue) != (list[j].scopeType, list[j].scopeValue)
    {
      ListedKeysDistinct(rows, L.IsActive, L.ScopeOf, RulePolicy, i, j);
    }
    var ids := ActiveIds(rows, L.IsActive);
    forall i | 0 <= i < |list|
      ensures list[i].scopeType.Global? <==> list[i].scopeValue.None?
    {
      StoredRuleWellScoped(requests, ids[i]);
    }
  }

  lemma StoredRuleWellScoped(requests: seq<Request<L.Rule, L.RuleUpdate>>, id: int)
    requires id in HandleAll(L.RuleKind(), Table(map[], 1), requests).rows
    ensures L.WellScoped(HandleAll(L.RuleKind(), Table(map[], 1), requests).rows[id])
  {
    L.RulesStaySound(requests);
  }

  lemma AddressesDistinct(rows: map<int, B.Block>)
    requires OneActivePerKey(rows, B.IsActive, B.AddressOf)
    ensures Distinct(Listed(rows, B.IsActive, BlockAddress))
  {
    var list := Listed(rows, B.IsActive, BlockAddress);
    forall i, j | 0 <= i < j < |list|
      ensures list[i] != list[j]
    {
      ListedKeysDistinct(rows, B.IsActive, B.AddressOf, BlockAddress, i, j);
    }
  }

  lemma BlockListDistinct(requests: seq<Request<B.Block, B.BlockUpdate>>)
    ensures Distinct(Listed(HandleAll(B.BlockKind(), Table(map[], 1), requests).rows, B.IsActive, BlockAddress))
  {
    B.OneActivePerAddress(requests);
    AddressesDistinct(HandleAll(B.BlockKind(), Table(map[], 1), requests).rows);
  }

  lemma RouteListDistinct(requests: seq<Request<R.Permission, R.PermissionUpdate>>)
    ensures DistinctRoutes(Listed(HandleAll(R.PermissionKind(), Table(map[], 1), requests).rows, R.IsActive, RoutePolicyOf))
  {
    R.OneActivePerRoute(requests);
    var rows := HandleAll(R.PermissionKind(), Table(map[], 1), requests).rows;
    var list := Listed(rows, R.IsActive, RoutePolicyOf);
    forall i, j | 0 <= i < j < |list|
      ensures (list[i].verb, list[i].path) != (list[j].verb, list[j].path)
    {
      ListedKeysDistinct(rows, R.IsActive, R.RouteOf, RoutePolicyOf, i, j);
    }
  }

  // ---------- The proxy's choice of a rule ----------

  predicate ForKey(r: RateLimitPolicy, key: string) { r.scopeType.ApiKey? && r.scopeValue == Some(key) }

  predicate ForRoute(r: RateLimitPolicy, path: string) { r.scopeType.Route? && r.scopeValue == Some(path) }

  /** The rule a request is held to: its key's, else its route's, else the global one. */
  ghost predicate Governs(rules: seq<RateLimitPolicy>, key: string, path: string, choice: Option<RateLimitPolicy>) {
    if exists r | r in rules :: r.scopeType.ApiKey? && r.scopeValue == Some(key) then
      choice.Some? && choice.value in rules && choice.value.scopeType.ApiKey? && choice.value.scopeValue == Some(key)
    else if exists r | r in rules :: r.scopeType.Route? && r.scopeValue == Some(path) then
      choice.Some? && choice.value in rules && choice.value.scopeType.Route? && choice.value.scopeValue == Some(path)
    else if exists r | r in rules :: r.scopeType.Global? then choice.Some? && choice.value in rules && choice.value.scopeType.Global?
    else choice.None?
  }

  /** selectRateLimitRule: the first rule of the key, or the last of the route, or the last
      global one. */
  method SelectRateLimitRule(rules: seq<RateLimitPolicy>, key: string, path: string) returns (choice: Option<RateLimitPolicy>)
    ensures Governs(rules, key, path, choice)
  {
    var routeRule: Option<RateLimitPolicy> := None;
    var globalRule: Option<RateLimitPolicy> := None;
    for index := 0 to |rules|
      invariant forall i | 0 <= i < index :: !ForKey(rules[i], key)
      invariant routeRule.None? ==> forall i | 0 <= i < index :: !ForRoute(rules[i], path)
      invariant globalRule.None? ==> forall i | 0 <= i < index :: !rules[i].scopeType.Global?
      invariant routeRule.Some? ==> routeRule.value in rules && ForRoute(routeRule.value, path)
      invariant globalRule.Some? ==> globalRule.value in rules && globalRule.value.scopeType.Global?
    {
      var rule := rules[index];
      if ForKey(rule, key) {
        return Some(rule);
      } else if ForRoute(rule, path) {
        routeRule := Some(rule);
      } else if rule.scopeType.Global? {
        globalRule := Some(rule);
      }
    }
    return if routeRule.Some? then routeRule else globalRule;
  }

  /** With distinct scopes only one choice is possible, in whatever order the same rules are
      listed: first match, last match and any match agree. */
  lemma ChoiceIsUnique(rules: seq<RateLimitPolicy>, other: seq<RateLimitPolicy>, key: string, path: string,
                       choice: Option<RateLimitPolicy>, choice': Option<RateLimitPolicy>)
    requires DistinctScopes(rules) && WellScoped(rules)
    requires forall r :: r in rules <==> r in other
    requires Governs(rules, key, path, choice) && Governs(other, key, path, choice')
    ensures choice == choice'
  {
  }
}
