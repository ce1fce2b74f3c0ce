/**
  Rate-limit rules (aegis-backend/app/services/rate_limit_rule_service.py,
  app/repositories/rate_limit_rule_repository.py) as an instance of ActiveTable.
*/
module RateLimitRules {
  import opened Common
  import opened ActiveTable
  import opened Requests

  datatype ScopeType = Global | ApiKey | Route

  datatype Rule = Rule(
    name: string, scopeType: ScopeType, scopeValue: Option<string>, algorithm: string,
    limitCount: int, windowSeconds: int, burstAllowance: Option<int>, active: bool, createdBy: int)

  datatype RuleUpdate = RuleUpdate(
    name: Field<string>, scopeType: Field<ScopeType>, scopeValue: Field<string>, algorithm: Field<string>,
    limitCount: Field<int>, windowSeconds: Field<int>, burstAllowance: Field<int>, active: Field<bool>)

  type Scope = (ScopeType, Option<string>)

  predicate IsActive(r: Rule) { r.active }

  function ScopeOf(r: Rule): Scope { (r.scopeType, r.scopeValue) }

  /** Global exactly when the value is null. */
  predicate WellScoped(r: Rule) {
    r.scopeType.Global? <==> r.scopeValue.None?
  }

  function Off(r: Rule): Rule { r.(active := false) }

  predicate IsEmpty(u: RuleUpdate) {
    u == RuleUpdate(Unset, Unset, Unset, Unset, Unset, Unset, Unset, Unset)
  }

  /** The tuple the service validates: a null scope type or status means the row's own, a
      null scope value means null. */
  function Target(r: Rule, u: RuleUpdate): Rule {
    r.(scopeType := Or(u.scopeType, r.scopeType), scopeValue := AssignNullable(u.scopeValue, r.scopeValue),
       active := Or(u.active, r.active))
  }

  predicate NullsRequired(u: RuleUpdate) {
    u.name.Null? || u.scopeType.Null? || u.algorithm.Null? || u.limitCount.Null? || u.windowSeconds.Null? || u.active.Null?
  }

  /** The setattr loop, refused when a NOT NULL column was sent as null. */
  function Assigned(r: Rule, u: RuleUpdate): Option<Rule> {
    if NullsRequired(u) then None
    else Some(Rule(Or(u.name, r.name), Or(u.scopeType, r.scopeType), AssignNullable(u.scopeValue, r.scopeValue),
                   Or(u.algorithm, r.algorithm), Or(u.limitCount, r.limitCount), Or(u.windowSeconds, r.windowSeconds),
                   AssignNullable(u.burstAllowance, r.burstAllowance), Or(u.active, r.active), r.createdBy))
  }

  function RuleKind(): Kind<Rule, RuleUpdate, Scope> {
    Kind(IsActive, ScopeOf, WellScoped, Off, IsEmpty, Target, Assigned)
  }

  /** The scope tuple and the status that were validated are the ones stored. */
  lemma ValidatedIsStored()
    ensures Coherent(RuleKind())
  {
  }

  /** A stored update wrote each column from its own field of the request and left the
      author alone; an update is refused by the store only for a null. */
  lemma StoredFieldByField(t: Table<Rule>, actor: Actor, id: int, u: RuleUpdate)
    ensures var (after, reply) := Update(RuleKind(), t, actor, id, u);
            && (reply.RejectedByStore? ==> NullsRequired(u) && after == t)
            && (reply.Stored? ==>
                  && id in t.rows && after == t.(rows := t.rows[id := reply.row])
                  && var before := t.rows[id];
                     var now := reply.row;
                     && Carried(u.name, before.name, now.name)
                     && Carried(u.scopeType, before.scopeType, now.scopeType)
                     && CarriedNullable(u.scopeValue, before.scopeValue, now.scopeValue)
                     && Carried(u.algorithm, before.algorithm, now.algorithm)
                     && Carried(u.limitCount, before.limitCount, now.limitCount)
                     && Carried(u.windowSeconds, before.windowSeconds, now.windowSeconds)
                     && CarriedNullable(u.burstAllowance, before.burstAllowance, now.burstAllowance)
                     && Carried(u.active, before.active, now.active)
                     && now.createdBy == before.createdBy)
  {
  }

  lemma OneActivePerScope(requests: seq<Request<Rule, RuleUpdate>>)
    ensures OneActivePerKey(HandleAll(RuleKind(), Table(map[], 1), requests).rows, IsActive, ScopeOf)
  {
    ValidatedIsStored();
    RunKeepsInv(RuleKind(), Table(map[], 1), requests);
  }

  /** Over every run of requests: every row is well-scoped, no two active rows share a scope,
      and the one-or-none lookup never finds two. */
  lemma RulesStaySound(requests: seq<Request<Rule, RuleUpdate>>)
    ensures var t := HandleAll(RuleKind(), Table(map[], 1), requests);
            && (forall id | id in t.rows :: t.rows[id].scopeType.Global? <==> t.rows[id].scopeValue.None?)
            && (forall id, id' | id in t.rows && id' in t.rows && t.rows[id].active && t.rows[id'].active
                  && ScopeOf(t.rows[id]) == ScopeOf(t.rows[id']) :: id == id')
            && forall scope, exclude :: |Matching(t.rows, IsActive, ScopeOf, scope, exclude)| <= 1
  {
    ValidatedIsStored();
    RunKeepsInv(RuleKind(), Table(map[], 1), requests);
  }

  /** When an admin's update of an existing row succeeds, and with what. */
  lemma UpdateSucceedsIff(t: Table<Rule>, admin: int, id: int, u: RuleUpdate)
    requires OneActivePerKey(t.rows, IsActive, ScopeOf) && id in t.rows
    ensures var target := Target(t.rows[id], u);
            Update(RuleKind(), t, User(admin, true), id, u).1.Stored? <==>
            && u != RuleUpdate(Unset, Unset, Unset, Unset, Unset, Unset, Unset, Unset) && !NullsRequired(u)
            && (target.scopeType.Global? <==> target.scopeValue.None?)
            && (target.active ==> forall other | other in t.rows && other != id && t.rows[other].active ::
                  ScopeOf(t.rows[other]) != ScopeOf(target))
    ensures var reply := Update(RuleKind(), t, User(admin, true), id, u).1;
            reply.Stored? ==> reply.id == id && ScopeOf(reply.row) == ScopeOf(Target(t.rows[id], u))
                              && reply.row.active == Target(t.rows[id], u).active
  {
    var target := Target(t.rows[id], u);
    var ids := Matching(t.rows, IsActive, ScopeOf, ScopeOf(target), Some(id));
    LookupFindsAtMostOne(t.rows, IsActive, ScopeOf, ScopeOf(target), Some(id));
    if ids != {} {
      var other := Choose(ids);
      assert other in t.rows && other != id && t.rows[other].active && ScopeOf(t.rows[other]) == ScopeOf(target);
    } else {
      forall other | other in t.rows && other != id && t.rows[other].active
        ensures ScopeOf(t.rows[other]) != ScopeOf(target)
      {
        assert other !in ids;
      }
    }
  }

  /** When an admin's new row is stored: when it is well-scoped and its scope is free, or it comes
      disabled; then it is stored as it is. */
  lemma CreateSucceedsIff(t: Table<Rule>, admin: int, row: Rule)
    requires OneActivePerKey(t.rows, IsActive, ScopeOf)
    ensures var (after, reply) := Create(RuleKind(), t, User(admin, true), row);
            && (reply.Stored? <==>
                  && (row.scopeType.Global? <==> row.scopeValue.None?)
                  && !(row.active && exists other | other in t.rows :: t.rows[other].active && ScopeOf(t.rows[other]) == ScopeOf(row)))
            && (reply.Stored? ==> reply == Stored(t.nextId, row) && after == Table(t.rows[t.nextId := row], t.nextId + 1))
            && (!reply.Stored? ==> after == t)
            && (Create(RuleKind(), t, User(admin, true), row).1.Invalid? <==> !(row.scopeType.Global? <==> row.scopeValue.None?))
  {
    AdministratorsAreServed(RuleKind(), t, admin, row, 0, RuleUpdate(Unset, Unset, Unset, Unset, Unset, Unset, Unset, Unset));
    if row.active && exists other | other in t.rows :: t.rows[other].active && ScopeOf(t.rows[other]) == ScopeOf(row) {
      assert Taken(RuleKind(), t.rows, row, None);
    }
  }

  /** Disabling changes nothing but the status: enabling the row again gives the table back. */
  lemma DisableIsUndoneByEnabling(t: Table<Rule>, admin: int, id: int)
    requires OneActivePerKey(t.rows, IsActive, ScopeOf) && id in t.rows && t.rows[id].active
    requires t.rows[id].scopeType.Global? <==> t.rows[id].scopeValue.None?
    ensures var disabled := Disable(RuleKind(), t, User(admin, true), id).0;
            var (enabled, reply) := Update(RuleKind(), disabled, User(admin, true), id,
                                           RuleUpdate(Unset, Unset, Unset, Unset, Unset, Unset, Unset, Value(true)));
            !disabled.rows[id].active && reply.Stored? && enabled == t
  {
    AloneOnItsKey(t.rows, IsActive, ScopeOf, id, Off(t.rows[id]));
    assert t.rows[id := t.rows[id]] == t.rows;
  }
}
