/**
  The policy snapshot on the heap and the providers that hold one: deep copies go in and
  deep copies come out, so that no caller shares an object with a provider
  (reverse-proxy/internal/controlplane/policy_cache.go, streaming_policy.go).
*/
module PolicyObjects {
  import opened Common

  // ---------- Values ----------

  datatype RateLimitValue = RateLimitValue(
    id: int, scopeType: string, scopeValue: string, algorithm: string,
    limitCount: int, windowSeconds: int, burstAllowance: Option<int>)

  datatype JwtValue = JwtValue(id: int, algorithm: string, verificationKey: string, issuer: string, audience: string)

  datatype ThreatPolicy = ThreatPolicy(id: int, name: string, pattern: string, severity: string)

  datatype RoutePermissionPolicy = RoutePermissionPolicy(id: int, method_: string, pathPattern: string, requiredScope: string)

  datatype SnapshotValue = SnapshotValue(
    generatedAt: int, jwt: Option<JwtValue>, rateLimitRules: seq<RateLimitValue>,
    blockedIPAddresses: seq<string>, threatRules: seq<ThreatPolicy>, routePermissions: seq<RoutePermissionPolicy>)

  // ---------- Objects ----------

  class Burst {
    var value: int
    constructor (value: int)
      ensures this.value == value
    {
      this.value := value;
    }
  }

  /** A struct in a slice: copying it copies the burst pointer. */
  datatype RateLimitPolicy = RateLimitPolicy(
    id: int, scopeType: string, scopeValue: string, algorithm: string,
    limitCount: int, windowSeconds: int, burstAllowance: Burst?)
  {
    ghost function Footprint(): set<object> {
      if burstAllowance == null then {} else {burstAllowance}
    }

    ghost function Value(): RateLimitValue
      reads Footprint()
    {
      RateLimitValue(id, scopeType, scopeValue, algorithm, limitCount, windowSeconds,
                     if burstAllowance == null then None else Some(burstAllowance.value))
    }
  }

  class JwtPolicy {
    var fields: JwtValue
    constructor (fields: JwtValue)
      ensures this.fields == fields
    {
      this.fields := fields;
    }
  }

  ghost function JwtFootprint(jwt: JwtPolicy?): set<object> {
    if jwt == null then {} else {jwt}
  }

  ghost function JwtContent(jwt: JwtPolicy?): Option<JwtValue>
    reads jwt
  {
    if jwt == null then None else Some(jwt.fields)
  }

  ghost function RulesFootprint(rules: seq<RateLimitPolicy>): set<object> {
    set i, o: object | 0 <= i < |rules| && o in rules[i].Footprint() :: o
  }

  ghost function RulesValue(rules: seq<RateLimitPolicy>): seq<RateLimitValue>
    reads RulesFootprint(rules)
  {
    seq(|rules|, i requires 0 <= i < |rules| reads RulesFootprint(rules) => rules[i].Value())
  }

  class PolicySnapshot {
    var generatedAt: int
    var jwt: JwtPolicy?
    var rateLimitRules: array<RateLimitPolicy>
    var blockedIPAddresses: array<string>
    var threatRules: array<ThreatPolicy>
    var routePermissions: array<RoutePermissionPolicy>
    ghost var Repr: set<object>

    /** Repr covers everything reachable from the snapshot. */
    ghost predicate Valid()
      reads this, Repr
      ensures Valid() ==> this in Repr
    {
      && this in Repr
      && rateLimitRules in Repr && blockedIPAddresses in Repr && threatRules in Repr && routePermissions in Repr
      && JwtFootprint(jwt) <= Repr
      && RulesFootprint(rateLimitRules[..]) <= Repr
    }

    ghost function Value(): SnapshotValue
      requires Valid()
      reads this, Repr
    {
      SnapshotValue(generatedAt, JwtContent(jwt), RulesValue(rateLimitRules[..]),
                    blockedIPAddresses[..], threatRules[..], routePermissions[..])
    }

    constructor (generatedAt: int, jwt: JwtPolicy?, rateLimitRules: array<RateLimitPolicy>,
                 blockedIPAddresses: array<string>, threatRules: array<ThreatPolicy>,
                 routePermissions: array<RoutePermissionPolicy>)
      ensures Valid()
      ensures Repr == {this, rateLimitRules, blockedIPAddresses, threatRules, routePermissions}
                      + JwtFootprint(jwt) + RulesFootprint(rateLimitRules[..])
      ensures Value() == SnapshotValue(generatedAt, JwtContent(jwt), RulesValue(rateLimitRules[..]),
                                       blockedIPAddresses[..], threatRules[..], routePermissions[..])
    {
      this.generatedAt, this.jwt, this.rateLimitRules := generatedAt, jwt, rateLimitRules;
      this.blockedIPAddresses, this.threatRules := blockedIPAddresses, threatRules;
      this.routePermissions := routePermissions;
      Repr := {this, rateLimitRules, blockedIPAddresses, threatRules, routePermissions}
              + JwtFootprint(jwt) + RulesFootprint(rateLimitRules[..]);
    }
  }

  ghost predicate ValidOrNil(s: PolicySnapshot?)
    reads s, if s == null then {} else s.Repr
  {
    s != null ==> s.Valid()
  }

  ghost function Content(s: PolicySnapshot?): Option<SnapshotValue>
    requires ValidOrNil(s)
    reads s, if s == null then {} else s.Repr
  {
    if s == null then None else Some(s.Value())
  }

  /** append([]T(nil), source...): a new backing array with the same elements. */
  method CopyArray<T>(source: array<T>) returns (copy: array<T>)
    ensures fresh(copy) && copy[..] == source[..]
  {
    copy := new T[source.Length](i requires 0 <= i < source.Length reads source => source[i]);
  }

  /** The slice of rate-limit rules, with each burst pointer replaced by a fresh one. */
  method CloneRules(rules: array<RateLimitPolicy>) returns (copy: array<RateLimitPolicy>)
    ensures fresh(copy) && fresh(RulesFootprint(copy[..]))
    ensures RulesValue(copy[..]) == old(RulesValue(rules[..]))
  {
    copy := CopyArray(rules);
    ghost var original := rules[..];
    for index := 0 to copy.Length
      invariant copy.Length == |original| && rules[..] == original
      invariant forall i :: index <= i < |original| ==> copy[i] == original[i]
      invariant forall i :: 0 <= i < index ==> fresh(copy[i].Footprint()) && copy[i].Value() == old(original[i].Value())
    {
      if rules[index].burstAllowance != null {
        var burst := new Burst(rules[index].burstAllowance.value);
        copy[index] := copy[index].(burstAllowance := burst);
      }
    }
    assert forall i :: 0 <= i < copy.Length ==> copy[..][i] == copy[i];
  }

  method CloneJwt(jwt: JwtPolicy?) returns (copy: JwtPolicy?)
    ensures fresh(JwtFootprint(copy)) && JwtContent(copy) == old(JwtContent(jwt))
  {
    if jwt == null {
      return null;
    }
    copy := new JwtPolicy(jwt.fields);
  }

  method ClonePolicySnapshot(value: PolicySnapshot?) returns (copy: PolicySnapshot?)
    requires ValidOrNil(value)
    ensures ValidOrNil(copy) && Content(copy) == old(Content(value))
    ensures copy != null ==> fresh(copy.Repr)
  {
    if value == null {
      return null;
    }
    ghost var rulesValue := RulesValue(value.rateLimitRules[..]);
    var jwt, rules := CloneParts(value.jwt, value.rateLimitRules);
    var blocked, threats, routes := CloneLists(value.blockedIPAddresses, value.threatRules, value.routePermissions);
    assert RulesValue(rules[..]) == rulesValue;
    copy := new PolicySnapshot(value.generatedAt, jwt, rules, blocked, threats, routes);
  }

  method CloneParts(jwt: JwtPolicy?, rules: array<RateLimitPolicy>)
    returns (jwtCopy: JwtPolicy?, rulesCopy: array<RateLimitPolicy>)
    ensures fresh(JwtFootprint(jwtCopy)) && JwtContent(jwtCopy) == old(JwtContent(jwt))
    ensures fresh(rulesCopy) && fresh(RulesFootprint(rulesCopy[..]))
    ensures RulesValue(rulesCopy[..]) == old(RulesValue(rules[..]))
  {
    rulesCopy := CloneRules(rules);
    jwtCopy := CloneJwt(jwt);
  }

  method CloneLists(blocked: array<string>, threats: array<ThreatPolicy>, routes: array<RoutePermissionPolicy>)
    returns (b: array<string>, t: array<ThreatPolicy>, r: array<RoutePermissionPolicy>)
    ensures fresh(b) && fresh(t) && fresh(r)
    ensures b[..] == blocked[..] && t[..] == threats[..] && r[..] == routes[..]
  {
    b := CopyArray(blocked);
    t := CopyArray(threats);
    r := CopyArray(routes);
  }
}
