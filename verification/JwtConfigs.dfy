/**
  JWT validation configurations (aegis-backend/app/services/jwt_config_service.py,
  app/repositories/jwt_config_repository.py): at most one is active, and the active one is
  what the proxy is given.

  A request reads a row, decides, and sends one transaction. `Commit` applies transactions in
  any order with whatever the requests had read, so a result about sequences of
  transactions is a result about every interleaving of requests.
*/
module JwtConfigs {
  import opened Common
  import opened Requests

  datatype Algorithm = HS256 | RS256 | ES256

  /** Encryption at rest: decrypting a sealed key gives the key back. The nonce makes two
      encryptions of one key differ. */
  datatype Ciphertext = Sealed(key: string, nonce: int) | Garbled

  function Decrypt(c: Ciphertext): Option<string> {
    if c.Sealed? then Some(c.key) else None
  }

  datatype JwtConfig = JwtConfig(
    name: string, algorithm: Algorithm, signingKey: Ciphertext, publicKey: Option<string>,
    issuer: Option<string>, audience: Option<string>, accessTtl: int, refreshTtl: int, active: bool, createdBy: int)

  datatype ConfigUpdate = ConfigUpdate(
    issuer: Field<string>, audience: Field<string>, accessTtl: Field<int>, refreshTtl: Field<int>)

  type Configs = map<int, JwtConfig>

  // ---------- The store ----------

  /** The CHECK constraints of the table. */
  predicate Checked(c: JwtConfig) {
    && (c.algorithm.HS256? <==> c.publicKey.None?)
    && c.accessTtl < c.refreshTtl
  }

  /** The setattr loop of an update. */
  function Assigned(c: JwtConfig, u: ConfigUpdate): JwtConfig {
    c.(issuer := AssignNullable(u.issuer, c.issuer), audience := AssignNullable(u.audience, c.audience),
       accessTtl := Or(u.accessTtl, c.accessTtl), refreshTtl := Or(u.refreshTtl, c.refreshTtl))
  }

  /** What the loop leaves of each column. Only these four can change; the algorithm, the
      keys and the status are none of an update's business. */
  ghost predicate AssignedFieldByField(before: JwtConfig, u: ConfigUpdate, after: JwtConfig) {
    && CarriedNullable(u.issuer, before.issuer, after.issuer)
    && CarriedNullable(u.audience, before.audience, after.audience)
    && Carried(u.accessTtl, before.accessTtl, after.accessTtl)
    && Carried(u.refreshTtl, before.refreshTtl, after.refreshTtl)
    && after.name == before.name && after.algorithm == before.algorithm && after.signingKey == before.signingKey
    && after.publicKey == before.publicKey && after.active == before.active && after.createdBy == before.createdBy
  }

  /** Switch every active row off, then the chosen one on. */
  function Activated(rows: Configs, id: int): Configs
    requires id in rows
  {
    map other | other in rows :: rows[other].(active := other == id)
  }

  datatype Transaction =
    | Insert(id: int, config: JwtConfig)
    | Assign(id: int, update: ConfigUpdate)
    | Activate(id: int)

  /** A transaction whose target is missing, or that a constraint refuses, leaves the table
      as it was. Services insert disabled rows only. */
  function Commit(rows: Configs, t: Transaction): Configs {
    match t
    case Insert(id, config) =>
      if id !in rows && Checked(config) then rows[id := config.(active := false)] else rows
    case Assign(id, u) =>
      if id in rows && !u.accessTtl.Null? && !u.refreshTtl.Null? && Checked(Assigned(rows[id], u))
      then rows[id := Assigned(rows[id], u)] else rows
    case Activate(id) =>
      if id in rows then Activated(rows, id) else rows
  }

  /** An activation touches nothing but the statuses: the chosen row is on and the others off. */
  lemma ActivationTouchesStatusOnly(rows: Configs, id: int)
    requires id in rows
    ensures var after := Commit(rows, Activate(id));
            && after.Keys == rows.Keys
            && forall other | other in rows ::
                 && after[other].(active := false) == rows[other].(active := false)
                 && (after[other].active <==> other == id)
  {
  }

  /** The other transactions touch one row: an insert adds the given one, disabled, an
      assignment changes the columns it names; a missing target, a null TTL or a row that fails
      the checks leaves everything as it was. */
  lemma CommitsTouchOneRow(rows: Configs, id: int, config: JwtConfig, u: ConfigUpdate)
    ensures Commit(rows, Insert(id, config)) ==
            if id !in rows && (config.algorithm.HS256? <==> config.publicKey.None?) && config.accessTtl < config.refreshTtl
            then rows[id := config.(active := false)] else rows
    ensures var after := Commit(rows, Assign(id, u));
            && after.Keys == rows.Keys
            && (forall other | other in rows && other != id :: after[other] == rows[other])
            && (after != rows ==> id in rows && AssignedFieldByField(rows[id], u, after[id]))
            && (id in rows && Checked(rows[id]) && !u.accessTtl.Null? && !u.refreshTtl.Null?
                && Or(u.accessTtl, rows[id].accessTtl) < Or(u.refreshTtl, rows[id].refreshTtl) ==>
                  AssignedFieldByField(rows[id], u, after[id]))
            && (id in rows && (u.accessTtl.Null? || u.refreshTtl.Null?) ==> after == rows)
            && (id in rows && Or(u.accessTtl, rows[id].accessTtl) >= Or(u.refreshTtl, rows[id].refreshTtl) ==> after == rows)
    ensures id !in rows ==> Commit(rows, Activate(id)) == rows
  {
  }

  function CommitAll(rows: Configs, ts: seq<Transaction>): Configs
    decreases |ts|
  {
    if ts == [] then rows else CommitAll(Commit(rows, ts[0]), ts[1..])
  }

  /** The row most recently activated. */
  function LastActivated(rows: Configs, ts: seq<Transaction>, before: Option<int>): Option<int>
    decreases |ts|
  {
    if ts == [] then before
    else LastActivated(Commit(rows, ts[0]), ts[1..], if ts[0].Activate? && ts[0].id in rows then Some(ts[0].id) else before)
  }

  /** Exactly the row `current` is active, every row passes the checks, every key decrypts. */
  ghost predicate Inv(rows: Configs, current: Option<int>) {
    && (forall id | id in rows :: Checked(rows[id]) && rows[id].signingKey.Sealed? && (rows[id].active <==> current == Some(id)))
    && (current.Some? ==> current.value in rows)
  }

  lemma {:induction false} CommitAllInv(rows: Configs, ts: seq<Transaction>, current: Option<int>)
    requires Inv(rows, current) && forall t | t in ts :: (t.Insert? ==> t.config.signingKey.Sealed?)
    ensures Inv(CommitAll(rows, ts), LastActivated(rows, ts, current))
    ensures current.Some? ==> LastActivated(rows, ts, current).Some?
    decreases |ts|
  {
    if ts != [] {
      assert ts[0] in ts;
      CommitAllInv(Commit(rows, ts[0]), ts[1..], if ts[0].Activate? && ts[0].id in rows then Some(ts[0].id) else current);
    }
  }

  // ---------- What the proxy is given ----------

  datatype JwtPolicy = JwtPolicy(
    id: int, algorithm: Algorithm, verificationKey: string, issuer: Option<string>, audience: Option<string>)

  function VerificationKey(c: JwtConfig): Option<string> {
    if c.algorithm.HS256? then Decrypt(c.signingKey) else c.publicKey
  }

  function Project(id: int, c: JwtConfig): Option<JwtPolicy> {
    match VerificationKey(c)
    case None => None
    case Some(key) => Some(JwtPolicy(id, c.algorithm, key, c.issuer, c.audience))
  }

  ghost predicate IsActiveConfig(rows: Configs, id: int) {
    id in rows && rows[id].active
  }

  /** get_active_config and the projection of its row. */
  ghost function PublishedJwt(rows: Configs): Option<JwtPolicy> {
    if exists id :: IsActiveConfig(rows, id) then (var id :| IsActiveConfig(rows, id); Project(id, rows[id])) else None
  }

  /** Over every sequence of transactions from an empty table: at most one row is active; it
      is the one most recently activated; the access TTL is below the refresh TTL in every
      row; and what is published is exactly the projection of that row as it is now, absent
      only as long as nothing has ever been activated. */
  lemma PublishedIsLastActivated(ts: seq<Transaction>)
    requires forall t | t in ts :: (t.Insert? ==> t.config.signingKey.Sealed?)
    ensures var rows := CommitAll(map[], ts);
            var current := LastActivated(map[], ts, None);
            && (forall id | id in rows :: rows[id].active <==> current == Some(id))
            && (forall id | id in rows :: rows[id].accessTtl < rows[id].refreshTtl)
            && (current.None? ==> PublishedJwt(rows) == None)
            && (current.Some? ==> current.value in rows && PublishedJwt(rows).Some?
                                  && PublishedJwt(rows) == Project(current.value, rows[current.value]))
  {
    CommitAllInv(map[], ts, None);
    var rows := CommitAll(map[], ts);
    var current := LastActivated(map[], ts, None);
    if current.Some? {
      assert IsActiveConfig(rows, current.value);
    }
  }

  /** What the proxy is given of the active row: its identity and claims each from their own
      column, and as key what the row's signatures can be checked with, the decrypted signing
      key under HS256 and the public key otherwise. */
  lemma PublishedFields(ts: seq<Transaction>, id: int)
    requires forall t | t in ts :: (t.Insert? ==> t.config.signingKey.Sealed?)
    requires LastActivated(map[], ts, None) == Some(id)
    ensures var rows := CommitAll(map[], ts);
            && PublishedJwt(rows).Some? && id in rows
            && var p := PublishedJwt(rows).value;
               && p.id == id && p.algorithm == rows[id].algorithm
               && p.issuer == rows[id].issuer && p.audience == rows[id].audience
               && (p.algorithm.HS256? ==> rows[id].signingKey.Sealed? && rows[id].signingKey.key == p.verificationKey)
               && (!p.algorithm.HS256? ==> rows[id].publicKey == Some(p.verificationKey))
  {
    PublishedIsLastActivated(ts);
  }

  /** Once a configuration has been activated, every later state has exactly one active. */
  lemma ActivationLasts(rows: Configs, current: int, ts: seq<Transaction>)
    requires Inv(rows, Some(current)) && forall t | t in ts :: (t.Insert? ==> t.config.signingKey.Sealed?)
    ensures exists id :: IsActiveConfig(CommitAll(rows, ts), id)
    ensures forall id, id' | IsActiveConfig(CommitAll(rows, ts), id) && IsActiveConfig(CommitAll(rows, ts), id') :: id == id'
  {
    CommitAllInv(rows, ts, Some(current));
    assert IsActiveConfig(CommitAll(rows, ts), LastActivated(rows, ts, Some(current)).value);
  }

  // ---------- The service object ----------

  datatype Outcome =
    | Saved(id: int)
    | Unchanged
    | Unauthorized
    | Forbidden
    | EmptyUpdate
    | NotFound
    | InvalidTtl
    | ActiveDeleteForbidden
    | RejectedByStore

  class JwtConfigService {
    var rows: Configs
    var nextId: int
    ghost var current: Option<int>

    ghost predicate Valid()
      reads this
    {
      Inv(rows, current) && forall id | id in rows :: id < nextId
    }

    constructor ()
      ensures Valid() && rows == map[] && current == None
    {
      rows, nextId, current := map[], 1, None;
    }

    /** The request schema has checked the algorithm against the public key and the TTLs. */
    method CreateConfig(actor: Actor, name: string, algorithm: Algorithm, signingKey: string, nonce: int,
                        publicKey: Option<string>, issuer: Option<string>, audience: Option<string>,
                        accessTtl: int, refreshTtl: int) returns (outcome: Outcome)
      requires Valid() && (algorithm.HS256? <==> publicKey.None?) && accessTtl < refreshTtl
      modifies this
      ensures Valid() && current == old(current)
      ensures outcome.Saved? <==> actor.User? && actor.admin
      ensures outcome.Unauthorized? <==> actor.Unknown?
      ensures outcome.Forbidden? <==> actor.User? && !actor.admin
      ensures outcome.Saved? ==>
                && outcome.id == old(nextId) && outcome.id !in old(rows) && outcome.id in rows
                && rows == Commit(old(rows), Insert(outcome.id, rows[outcome.id]))
                && Decrypt(rows[outcome.id].signingKey) == Some(signingKey) && !rows[outcome.id].active
                && rows[outcome.id].publicKey == publicKey && rows[outcome.id].algorithm == algorithm
                && rows[outcome.id].name == name && rows[outcome.id].createdBy == actor.id
                && rows[outcome.id].issuer == issuer && rows[outcome.id].audience == audience
                && rows[outcome.id].accessTtl == accessTtl && rows[outcome.id].refreshTtl == refreshTtl
      ensures !outcome.Saved? ==> rows == old(rows)
    {
      if actor.Unknown? {
        return Unauthorized;
      }
      if !actor.admin {
        return Forbidden;
      }
      var config := JwtConfig(name, algorithm, Sealed(signingKey, nonce), publicKey, issuer, audience,
                              accessTtl, refreshTtl, false, actor.id);
      outcome := Saved(nextId);
      rows, nextId := rows[nextId := config], nextId + 1;
    }

    method UpdateConfig(actor: Actor, id: int, u: ConfigUpdate) returns (outcome: Outcome)
      requires Valid()
      modifies this
      ensures Valid() && current == old(current)
      ensures outcome.Saved? <==>
                && actor.User? && actor.admin && u != ConfigUpdate(Unset, Unset, Unset, Unset) && id in old(rows)
                && Checked(Assigned(old(rows)[id], u)) && !u.accessTtl.Null? && !u.refreshTtl.Null?
      ensures outcome.Saved? ==>
                && rows == Commit(old(rows), Assign(id, u)) && id in rows && rows == old(rows)[id := rows[id]]
                && AssignedFieldByField(old(rows)[id], u, rows[id])
      ensures !outcome.Saved? ==> rows == old(rows)
      ensures outcome.InvalidTtl? <==>
                && actor.User? && actor.admin && u != ConfigUpdate(Unset, Unset, Unset, Unset) && id in old(rows)
                && Or(u.accessTtl, old(rows)[id].accessTtl) >= Or(u.refreshTtl, old(rows)[id].refreshTtl)
      ensures outcome.Unauthorized? <==> actor.Unknown?
      ensures outcome.Forbidden? <==> actor.User? && !actor.admin
      ensures outcome.EmptyUpdate? <==> actor.User? && actor.admin && u == ConfigUpdate(Unset, Unset, Unset, Unset)
      ensures outcome.NotFound? <==>
                actor.User? && actor.admin && u != ConfigUpdate(Unset, Unset, Unset, Unset) && id !in old(rows)
      ensures outcome.RejectedByStore? <==>
                && actor.User? && actor.admin && id in old(rows) && Checked(Assigned(old(rows)[id], u))
                && (u.accessTtl.Null? || u.refreshTtl.Null?)
    {
      if actor.Unknown? {
        return Unauthorized;
      }
      if !actor.admin {
        return Forbidden;
      }
      if u == ConfigUpdate(Unset, Unset, Unset, Unset) {
        return EmptyUpdate;
      }
      if id !in rows {
        return NotFound;
      }
      if Or(u.accessTtl, rows[id].accessTtl) >= Or(u.refreshTtl, rows[id].refreshTtl) {
        return InvalidTtl;
      }
      if u.accessTtl.Null? || u.refreshTtl.Null? {
        return RejectedByStore;
      }
      rows := rows[id := Assigned(rows[id], u)];
      return Saved(id);
    }

    method ActivateConfig(actor: Actor, id: int) returns (outcome: Outcome)
      requires Valid()
      modifies this
      ensures Valid()
      ensures (outcome.Saved? || outcome.Unchanged?) <==> actor.User? && actor.admin && id in old(rows)
      ensures outcome.Saved? || outcome.Unchanged? ==>
                && rows == Commit(old(rows), Activate(id)) && current == Some(id) && IsActiveConfig(rows, id)
                && rows.Keys == old(rows).Keys
                && forall other | other in rows ::
                     && rows[other].(active := false) == old(rows)[other].(active := false)
                     && (rows[other].active <==> other == id)
      ensures outcome.Unchanged? <==> actor.User? && actor.admin && IsActiveConfig(old(rows), id)
      ensures outcome.Unauthorized? <==> actor.Unknown?
      ensures outcome.Forbidden? <==> actor.User? && !actor.admin
      ensures outcome.NotFound? <==> actor.User? && actor.admin && id !in old(rows)
      ensures !(outcome.Saved? || outcome.Unchanged?) ==> rows == old(rows) && current == old(current)
    {
      if actor.Unknown? {
        return Unauthorized;
      }
      if !actor.admin {
        return Forbidden;
      }
      if id !in rows {
        return NotFound;
      }
      if rows[id].active {
        assert Activated(rows, id) == rows;
        return Unchanged;
      }
      rows := map other | other in rows :: rows[other].(active := false);
      rows := rows[id := rows[id].(active := true)];
      current := Some(id);
      assert rows == Activated(old(rows), id);
      return Saved(id);
    }

    /** Disabling never changes a row: the active one is refused, the others already are. */
    method DisableConfig(actor: Actor, id: int) returns (outcome: Outcome)
      requires Valid()
      modifies this
      ensures Valid() && rows == old(rows) && current == old(current)
      ensures outcome.ActiveDeleteForbidden? <==> actor.User? && actor.admin && IsActiveConfig(rows, id)
      ensures outcome.Unchanged? <==> actor.User? && actor.admin && id in rows && !rows[id].active
      ensures outcome.Unauthorized? <==> actor.Unknown?
      ensures outcome.Forbidden? <==> actor.User? && !actor.admin
      ensures outcome.NotFound? <==> actor.User? && actor.admin && id !in rows
    {
      if actor.Unknown? {
        return Unauthorized;
      }
      if !actor.admin {
        return Forbidden;
      }
      if id !in rows {
        return NotFound;
      }
      if rows[id].active {
        return ActiveDeleteForbidden;
      }
      return Unchanged;
    }
  }
}
