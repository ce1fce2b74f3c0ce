/**
  The API-key service as an object (aegis-backend/app/services/api_key_service.py): who may
  create, change and revoke a key, and the validation of a presented one.
*/
module ApiKeyLifecycle {
  import opened Common
  import opened ApiKeys
  import CreationLimiter

  datatype Role = Admin | ApiConsumer | Viewer

  /** The user behind a token, if there is one. */
  datatype Caller = Nobody | Caller(id: int, role: Role)

  datatype Outcome =
    | Done(id: int)
    | Unauthorized
    | Forbidden
    | TooManyRequests
    | RateLimitUnavailable
    | InvalidUpdate
    | KeyMissing

  predicate MayManage(caller: Caller, row: Row) {
    caller.Caller? && (row.owner == caller.id || caller.role.Admin?)
  }

  class ApiKeyService {
    const prefixLength: nat
    var table: Table
    var nextId: int

    ghost predicate Valid()
      reads this
    {
      && WellKeyed(table, prefixLength)
      && forall id | id in table :: id < nextId && table[id].hash.HashOf?
    }

    constructor (prefixLength: nat)
      ensures Valid() && this.prefixLength == prefixLength && table == map[]
    {
      this.prefixLength := prefixLength;
      table, nextId := map[], 1;
    }

    /** `limiter` is what the rate limiter says when it is asked; `raw` is drawn at random, so one that no row
        was made from. The key handed out is the one its row verifies, and nobody's before. */
    method CreateApiKey(caller: Caller, limiter: CreationLimiter.Outcome, raw: string, name: string, scopes: seq<string>,
                        expiresAt: Option<int>)
      returns (outcome: Outcome)
      requires Valid() && forall id :: !Verifies(table, id, raw)
      modifies this
      ensures Valid()
      ensures outcome.Done? <==> caller.Caller? && !caller.role.Viewer? && limiter.Admitted?
      ensures outcome.Unauthorized? <==> caller.Nobody?
      ensures outcome.Forbidden? <==> caller.Caller? && caller.role.Viewer?
      ensures outcome.TooManyRequests? <==> caller.Caller? && !caller.role.Viewer? && limiter.LimitExceeded?
      ensures outcome.RateLimitUnavailable? <==> caller.Caller? && !caller.role.Viewer? && limiter.Unavailable?
      ensures outcome.Done? ==>
                && outcome.id !in old(table) && outcome.id in table && table == old(table)[outcome.id := table[outcome.id]]
                && FullScan(table, raw) == Some(outcome.id) && table[outcome.id].owner == caller.id
                && table[outcome.id].name == name && table[outcome.id].scopes == scopes
                && table[outcome.id].status == Active && table[outcome.id].expiresAt == expiresAt
      ensures !outcome.Done? ==> table == old(table)
    {
      if caller.Nobody? {
        return Unauthorized;
      }
      if caller.role.Viewer? {
        return Forbidden;
      }
      match limiter {
        case LimitExceeded => return TooManyRequests;
        case Unavailable => return RateLimitUnavailable;
        case Admitted =>
      }
      var row := Created(raw, prefixLength, caller.id, name, scopes, expiresAt);
      CreateKeepsKeyed(table, prefixLength, nextId, row, raw);
      outcome := Done(nextId);
      table, nextId := table[nextId := row], nextId + 1;
      assert Verifies(table, outcome.id, raw);
    }

    /** Only the owner or an administrator changes a key, and only its name and scopes. */
    method UpdateApiKey(caller: Caller, id: int, name: Option<string>, scopes: Option<seq<string>>) returns (outcome: Outcome)
      requires Valid()
      modifies this
      ensures Valid()
      ensures outcome.Done? <==> (name.Some? || scopes.Some?) && id in old(table) && MayManage(caller, old(table)[id])
      ensures outcome.Done? ==>
                && outcome.id == id && id in table && table == old(table)[id := table[id]]
                && table[id].(name := old(table)[id].name, scopes := old(table)[id].scopes) == old(table)[id]
                && table[id].name == (if name.Some? then name.value else old(table)[id].name)
                && table[id].scopes == (if scopes.Some? then scopes.value else old(table)[id].scopes)
      ensures !outcome.Done? ==> table == old(table)
      ensures outcome.InvalidUpdate? <==> name.None? && scopes.None?
      ensures outcome.Unauthorized? <==> (name.Some? || scopes.Some?) && caller.Nobody?
      ensures outcome.KeyMissing? <==> (name.Some? || scopes.Some?) && caller.Caller? && id !in old(table)
      ensures outcome.Forbidden? <==>
                && (name.Some? || scopes.Some?) && caller.Caller? && id in old(table)
                && old(table)[id].owner != caller.id && !caller.role.Admin?
    {
      if name.None? && scopes.None? {
        return InvalidUpdate;
      }
      if caller.Nobody? {
        return Unauthorized;
      }
      if id !in table {
        return KeyMissing;
      }
      if !MayManage(caller, table[id]) {
        return Forbidden;
      }
      table := table[id := Written(table[id], Update(name, scopes, None, None))];
      return Done(id);
    }

    /** Revoking keeps the row, its hash included; revoking again changes nothing. */
    method RevokeApiKey(caller: Caller, id: int) returns (outcome: Outcome)
      requires Valid()
      modifies this
      ensures Valid()
      ensures outcome.Done? <==> id in old(table) && MayManage(caller, old(table)[id])
      ensures outcome.Unauthorized? <==> caller.Nobody?
      ensures outcome.KeyMissing? <==> caller.Caller? && id !in old(table)
      ensures outcome.Forbidden? <==>
                caller.Caller? && id in old(table) && old(table)[id].owner != caller.id && !caller.role.Admin?
      ensures outcome.Done? ==>
                && id in table && table == old(table)[id := old(table)[id].(status := Revoked)]
                && forall raw, now | Verifies(table, id, raw) :: Decode(AfterValidation(table, raw, now).1, now) == KeyRevoked
      ensures !outcome.Done? ==> table == old(table)
    {
      if caller.Nobody? {
        return Unauthorized;
      }
      if id !in table {
        return KeyMissing;
      }
      if !MayManage(caller, table[id]) {
        return Forbidden;
      }
      if table[id].status == Active {
        table := table[id := Written(table[id], Update(None, None, Some(Revoked), None))];
      }
      outcome := Done(id);
      assert table == old(table)[id := old(table)[id].(status := Revoked)];
      forall raw, now | Verifies(table, id, raw)
        ensures Decode(AfterValidation(table, raw, now).1, now) == KeyRevoked
      {
        VerdictIff(table, prefixLength, raw, now);
      }
    }

    /** `candidates` are the rows selected by the key's prefix. */
    method ValidateApiKey(raw: string, candidates: seq<int>, now: int) returns (reply: Response)
      requires Valid() && Selects(table, PrefixOf(raw, prefixLength), candidates)
      modifies this
      ensures Valid() && (table, reply) == AfterValidation(old(table), raw, now)
    {
      var found := Lookup(table, prefixLength, candidates, raw);
      if found.None? {
        return NOT_FOUND_REPLY;
      }
      var id := found.value;
      if table[id].status == Revoked {
        return REVOKED_REPLY;
      }
      if Expired(table[id], now) {
        return EXPIRED_REPLY;
      }
      table := table[id := Written(table[id], Update(None, None, None, Some(now)))];
      return FoundReply(InfoOf(id, table[id]));
    }
  }
}
