/**
  What the rate-limit-rule, route-permission and IP-block services of the control plane have
  in common: a table whose rows are switched off instead of deleted, with at most one active
  row per key, kept by create, partial update and disable.

  A `Kind` says what is particular to one table; the invariants are proved here once, for
  every kind whose update validates the tuple that it then stores.
*/
module ActiveTable {
  import opened Common
  import opened Requests

  /**
    `target` is the row as the service works it out from a request in order to check it;
    `assign` gives the row as the field-by-field assignment leaves it, None when a column that
    must not be null would be.
  */
  datatype Kind<!R, !U, !K> = Kind(
    active: R -> bool, key: R -> K, valid: R -> bool, disabled: R -> R,
    isEmpty: U -> bool, target: (R, U) -> R, assign: (R, U) -> Option<R>)

  /** The tuple validated is the tuple stored, and disabling only disables. */
  ghost predicate Coherent<R(!new), U(!new), K>(kind: Kind<R, U, K>) {
    && (forall r, u | kind.assign(r, u).Some? ::
          var stored := kind.assign(r, u).value;
          && kind.key(stored) == kind.key(kind.target(r, u))
          && kind.active(stored) == kind.active(kind.target(r, u))
          && kind.valid(stored) == kind.valid(kind.target(r, u)))
    && (forall r :: !kind.active(kind.disabled(r)) && kind.key(kind.disabled(r)) == kind.key(r)
                    && kind.valid(kind.disabled(r)) == kind.valid(r))
  }

  datatype Table<R> = Table(rows: map<int, R>, nextId: int)

  datatype Reply<R> =
    | Stored(id: int, row: R)
    | Disabled
    | Unauthorized
    | Forbidden
    | EmptyUpdate
    | NotFound
    | Invalid
    | AlreadyActive
    | RejectedByStore
    | MultipleResultsFound

  // ---------- Lookup ----------

  function Matching<R, K(==)>(rows: map<int, R>, active: R -> bool, key: R -> K, k: K, exclude: Option<int>): set<int> {
    set id | id in rows && Some(id) != exclude && active(rows[id]) && key(rows[id]) == k
  }

  datatype Found = Nothing | One | Many

  /** scalar_one_or_none */
  function ScalarOneOrNone(ids: set<int>): Found {
    if |ids| == 0 then Nothing else if |ids| == 1 then One else Many
  }

  ghost predicate OneActivePerKey<R, K>(rows: map<int, R>, active: R -> bool, key: R -> K) {
    forall id, id' | id in rows && id' in rows && active(rows[id]) && active(rows[id']) && key(rows[id]) == key(rows[id']) ::
      id == id'
  }

  /** With one active row per key the lookup never finds several. */
  lemma LookupFindsAtMostOne<R, K>(rows: map<int, R>, active: R -> bool, key: R -> K, k: K, exclude: Option<int>)
    requires OneActivePerKey(rows, active, key)
    ensures |Matching(rows, active, key, k, exclude)| <= 1
    ensures ScalarOneOrNone(Matching(rows, active, key, k, exclude)) != Many
  {
    var ids := Matching(rows, active, key, k, exclude);
    if ids != {} {
      var id := Choose(ids);
      forall other | other in ids ensures other == id {}
      assert ids == {id};
    }
  }

  // ---------- The three operations ----------

  /** The checks on a row about to be stored: None when it may be. */
  function Objection<R, U, K(==)>(kind: Kind<R, U, K>, rows: map<int, R>, row: R, exclude: Option<int>): Option<Reply<R>> {
    if !kind.valid(row) then Some(Invalid)
    else if !kind.active(row) then None
    else match ScalarOneOrNone(Matching(rows, kind.active, kind.key, kind.key(row), exclude)) {
      case Nothing => None
      case One => Some(AlreadyActive)
      case Many => Some(MultipleResultsFound)
    }
  }

  function AdminOnly<R>(actor: Actor): Option<Reply<R>> {
    if actor.Unknown? then Some(Unauthorized) else if !actor.admin then Some(Forbidden) else None
  }

  function Create<R, U, K(==)>(kind: Kind<R, U, K>, t: Table<R>, actor: Actor, row: R): (Table<R>, Reply<R>) {
    var refused := AdminOnly<R>(actor);
    var objection := Objection(kind, t.rows, row, None);
    if refused.Some? then (t, refused.value)
    else if objection.Some? then (t, objection.value)
    else (Table(t.rows[t.nextId := row], t.nextId + 1), Stored(t.nextId, row))
  }

  function Update<R, U, K(==)>(kind: Kind<R, U, K>, t: Table<R>, actor: Actor, id: int, u: U): (Table<R>, Reply<R>) {
    var refused := AdminOnly<R>(actor);
    if refused.Some? then (t, refused.value)
    else if kind.isEmpty(u) then (t, EmptyUpdate)
    else if id !in t.rows then (t, NotFound)
    else
      var objection := Objection(kind, t.rows, kind.target(t.rows[id], u), Some(id));
      var stored := kind.assign(t.rows[id], u);
      if objection.Some? then (t, objection.value)
      else if stored.None? then (t, RejectedByStore)
      else (t.(rows := t.rows[id := stored.value]), Stored(id, stored.value))
  }

  function Disable<R, U, K>(kind: Kind<R, U, K>, t: Table<R>, actor: Actor, id: int): (Table<R>, Reply<R>) {
    var refused := AdminOnly<R>(actor);
    if refused.Some? then (t, refused.value)
    else if id !in t.rows then (t, NotFound)
    else if !kind.active(t.rows[id]) then (t, Disabled)
    else (t.(rows := t.rows[id := kind.disabled(t.rows[id])]), Disabled)
  }

  datatype Request<R, U> =
    | CreateRequest(actor: Actor, row: R)
    | UpdateRequest(actor: Actor, id: int, update: U)
    | DisableRequest(actor: Actor, id: int)

  function Handle<R, U, K(==)>(kind: Kind<R, U, K>, t: Table<R>, request: Request<R, U>): (Table<R>, Reply<R>) {
    match request
    case CreateRequest(actor, row) => Create(kind, t, actor, row)
    case UpdateRequest(actor, id, u) => Update(kind, t, actor, id, u)
    case DisableRequest(actor, id) => Disable(kind, t, actor, id)
  }

  function HandleAll<R, U, K(==)>(kind: Kind<R, U, K>, t: Table<R>, requests: seq<Request<R, U>>): Table<R>
    decreases |requests|
  {
    if requests == [] then t else HandleAll(kind, Handle(kind, t, requests[0]).0, requests[1..])
  }

  // ---------- The invariant ----------

  ghost predicate Inv<R, U, K>(kind: Kind<R, U, K>, t: Table<R>) {
    && OneActivePerKey(t.rows, kind.active, kind.key)
    && (forall id | id in t.rows :: id < t.nextId && kind.valid(t.rows[id]))
  }

  lemma PutKeepsOneActive<R, K>(rows: map<int, R>, active: R -> bool, key: R -> K, id: int, row: R)
    requires OneActivePerKey(rows, active, key)
    requires active(row) ==> Matching(rows, active, key, key(row), Some(id)) == {}
    ensures OneActivePerKey(rows[id := row], active, key)
  {
    forall other | other in rows && other != id && active(row) && active(rows[other])
      ensures key(rows[other]) != key(row)
    {
      assert other !in Matching(rows, active, key, key(row), Some(id));
    }
  }

  /** Nobody else is active on an active row's key, whatever is then written to the row. */
  lemma AloneOnItsKey<R, K>(rows: map<int, R>, active: R -> bool, key: R -> K, id: int, row: R)
    requires OneActivePerKey(rows, active, key) && id in rows && active(rows[id])
    ensures Matching(rows[id := row], active, key, key(rows[id]), Some(id)) == {}
  {
    forall other | other in rows && other != id && active(rows[other])
      ensures key(rows[other]) != key(rows[id])
    {
    }
  }

  lemma HandleKeepsInv<R(!new), U(!new), K>(kind: Kind<R, U, K>, t: Table<R>, request: Request<R, U>)
    requires Coherent(kind) && Inv(kind, t)
    ensures Inv(kind, Handle(kind, t, request).0)
    ensures !Handle(kind, t, request).1.MultipleResultsFound?
  {
    match request
    case CreateRequest(actor, row) =>
      LookupFindsAtMostOne(t.rows, kind.active, kind.key, kind.key(row), None);
      assert Matching(t.rows, kind.active, kind.key, kind.key(row), Some(t.nextId))
          == Matching(t.rows, kind.active, kind.key, kind.key(row), None);
      if Create(kind, t, actor, row).1.Stored? {
        PutKeepsOneActive(t.rows, kind.active, kind.key, t.nextId, row);
      }
    case UpdateRequest(actor, id, u) =>
      if id in t.rows {
        var target := kind.target(t.rows[id], u);
        LookupFindsAtMostOne(t.rows, kind.active, kind.key, kind.key(target), Some(id));
        if Update(kind, t, actor, id, u).1.Stored? {
          PutKeepsOneActive(t.rows, kind.active, kind.key, id, kind.assign(t.rows[id], u).value);
        }
      }
    case DisableRequest(actor, id) =>
      if id in t.rows {
        PutKeepsOneActive(t.rows, kind.active, kind.key, id, kind.disabled(t.rows[id]));
      }
  }

  /** Over every serialised run of requests from an empty table: one active row per key,
      every row valid, and no lookup ever finds several rows. */
  lemma {:induction false} RunKeepsInv<R(!new), U(!new), K>(kind: Kind<R, U, K>, t: Table<R>, requests: seq<Request<R, U>>)
    requires Coherent(kind) && Inv(kind, t)
    ensures Inv(kind, HandleAll(kind, t, requests))
    ensures forall k, exclude ::
              |Matching(HandleAll(kind, t, requests).rows, kind.active, kind.key, k, exclude)| <= 1
    decreases |requests|
  {
    if requests == [] {
      forall k, exclude
        ensures |Matching(t.rows, kind.active, kind.key, k, exclude)| <= 1
      {
        LookupFindsAtMostOne(t.rows, kind.active, kind.key, k, exclude);
      }
    } else {
      HandleKeepsInv(kind, t, requests[0]);
      RunKeepsInv(kind, Handle(kind, t, requests[0]).0, requests[1..]);
    }
  }

  /** What a request can change: nothing when it is refused, one row when it succeeds. */
  lemma OtherRowsUntouched<R, U, K>(kind: Kind<R, U, K>, t: Table<R>, request: Request<R, U>, other: int)
    requires other in t.rows
    requires request.CreateRequest? ==> other != t.nextId
    requires !request.CreateRequest? ==> other != request.id
    ensures var (after, reply) := Handle(kind, t, request);
            && other in after.rows && after.rows[other] == t.rows[other]
            && (!reply.Stored? && !reply.Disabled? ==> after == t)
  {
  }

  /** A new active row is refused as a duplicate exactly when its key is taken. */
  lemma CreateConflictIff<R(!new), U(!new), K>(kind: Kind<R, U, K>, t: Table<R>, row: R, id: int)
    requires Inv(kind, t) && kind.valid(row)
    ensures Create(kind, t, User(id, true), row).1.AlreadyActive? <==>
            kind.active(row) && exists other | other in t.rows :: kind.active(t.rows[other]) && kind.key(t.rows[other]) == kind.key(row)
  {
    var ids := Matching(t.rows, kind.active, kind.key, kind.key(row), None);
    LookupFindsAtMostOne(t.rows, kind.active, kind.key, kind.key(row), None);
    if ids != {} {
      var other := Choose(ids);
      assert other in t.rows && kind.active(t.rows[other]) && kind.key(t.rows[other]) == kind.key(row);
    }
    if kind.active(row) {
      forall other | other in t.rows && kind.active(t.rows[other]) && kind.key(t.rows[other]) == kind.key(row)
        ensures ids != {}
      {
        assert other in ids;
      }
    }
  }

  /** Nobody but an administrator gets anything done: others are told so and change nothing. */
  lemma OnlyAdministrators<R, U, K>(kind: Kind<R, U, K>, t: Table<R>, request: Request<R, U>)
    ensures var (after, reply) := Handle(kind, t, request);
            && (reply.Unauthorized? <==> request.actor == Unknown)
            && (reply.Forbidden? <==> request.actor.User? && !request.actor.admin)
            && (reply.Unauthorized? || reply.Forbidden? ==> after == t)
  {
  }

  /** Another active row has the key. */
  ghost predicate Taken<R, U, K>(kind: Kind<R, U, K>, rows: map<int, R>, row: R, exclude: Option<int>) {
    exists other | other in rows :: Some(other) != exclude && kind.active(rows[other]) && kind.key(rows[other]) == kind.key(row)
  }

  lemma ObjectionIs<R(!new), U(!new), K>(kind: Kind<R, U, K>, rows: map<int, R>, row: R, exclude: Option<int>)
    requires OneActivePerKey(rows, kind.active, kind.key)
    ensures Objection(kind, rows, row, exclude) ==
            if !kind.valid(row) then Some(Invalid)
            else if kind.active(row) && Taken(kind, rows, row, exclude) then Some(AlreadyActive)
            else None
  {
    var ids := Matching(rows, kind.active, kind.key, kind.key(row), exclude);
    LookupFindsAtMostOne(rows, kind.active, kind.key, kind.key(row), exclude);
    if ids != {} {
      var other := Choose(ids);
      assert other in rows && kind.active(rows[other]);
    }
    if Taken(kind, rows, row, exclude) {
      var other :| other in rows && Some(other) != exclude && kind.active(rows[other]) && kind.key(rows[other]) == kind.key(row);
      assert other in ids;
    }
  }

  /** Where two active rows share a key after all, the duplicate check fails loudly. */
  lemma SeveralFoundIsAnError<R, U, K>(kind: Kind<R, U, K>, rows: map<int, R>, row: R, exclude: Option<int>, id: int, id': int)
    requires kind.valid(row) && kind.active(row) && id != id'
    requires {id, id'} <= Matching(rows, kind.active, kind.key, kind.key(row), exclude)
    ensures Objection(kind, rows, row, exclude) == Some(MultipleResultsFound)
  {
    SubsetBound({id, id'}, Matching(rows, kind.active, kind.key, kind.key(row), exclude));
  }

  /** What an administrator's request comes to, reply and table, case by case. */
  lemma AdministratorsAreServed<R(!new), U(!new), K>(kind: Kind<R, U, K>, t: Table<R>, admin: int, row: R, id: int, u: U)
    requires OneActivePerKey(t.rows, kind.active, kind.key)
    ensures Create(kind, t, User(admin, true), row) ==
            if !kind.valid(row) then (t, Invalid)
            else if kind.active(row) && Taken(kind, t.rows, row, None) then (t, AlreadyActive)
            else (Table(t.rows[t.nextId := row], t.nextId + 1), Stored(t.nextId, row))
    ensures Update(kind, t, User(admin, true), id, u) ==
            if kind.isEmpty(u) then (t, EmptyUpdate)
            else if id !in t.rows then (t, NotFound)
            else if !kind.valid(kind.target(t.rows[id], u)) then (t, Invalid)
            else if kind.active(kind.target(t.rows[id], u)) && Taken(kind, t.rows, kind.target(t.rows[id], u), Some(id))
            then (t, AlreadyActive)
            else match kind.assign(t.rows[id], u) {
              case None => (t, RejectedByStore)
              case Some(stored) => (Table(t.rows[id := stored], t.nextId), Stored(id, stored))
            }
    ensures Disable(kind, t, User(admin, true), id) ==
            if id !in t.rows then (t, NotFound)
            else if kind.active(t.rows[id]) then (Table(t.rows[id := kind.disabled(t.rows[id])], t.nextId), Disabled)
            else (t, Disabled)
  {
    ObjectionIs(kind, t.rows, row, None);
    if id in t.rows {
      ObjectionIs(kind, t.rows, kind.target(t.rows[id], u), Some(id));
    }
  }

  // ---------- The active rows, in id order ----------

  ghost predicate Least(ids: set<int>, m: int) {
    m in ids && forall id | id in ids :: m <= id
  }

  lemma {:induction false} MinExists(ids: set<int>) returns (m: int)
    requires ids != {}
    ensures Least(ids, m)
    decreases |ids|
  {
    var x := Choose(ids);
    m := x;
    if ids - {x} != {} {
      var least := MinExists(ids - {x});
      m := if least < x then least else x;
      forall id | id in ids
        ensures m <= id
      {
        assert id == x || id in ids - {x};
      }
    } else {
      assert ids == {x};
    }
  }

  function Min(ids: set<int>): (m: int)
    requires ids != {}
    ensures m in ids && forall id | id in ids :: m <= id
  {
    assert exists m :: Least(ids, m) by {
      var _ := MinExists(ids);
    }
    var m :| m in ids && forall id | id in ids :: m <= id;
    m
  }

  predicate Ascending(ids: seq<int>) {
    forall i, j | 0 <= i < j < |ids| :: ids[i] < ids[j]
  }

  /** ORDER BY id ASC */
  function Ordered(ids: set<int>): (order: seq<int>)
    ensures Ascending(order)
    ensures forall id :: id in order <==> id in ids
    decreases |ids|
  {
    if ids == {} then [] else [Min(ids)] + Ordered(ids - {Min(ids)})
  }

  function ActiveIds<R>(rows: map<int, R>, active: R -> bool): seq<int> {
    Ordered(set id | id in rows && active(rows[id]))
  }

  // ---------- The service object ----------

  class Service<!R, !U, !K(==)> {
    const kind: Kind<R, U, K>
    var rows: map<int, R>
    var nextId: int

    function View(): Table<R>
      reads this
    {
      Table(rows, nextId)
    }

    constructor (kind: Kind<R, U, K>)
      ensures this.kind == kind && View() == Table(map[], 1)
    {
      this.kind := kind;
      rows, nextId := map[], 1;
    }

    /** The one-or-none lookup behind the duplicate check. */
    method AssertNoActiveConflict(row: R, exclude: Option<int>) returns (objection: Option<Reply<R>>)
      requires kind.valid(row)
      ensures objection == Objection(kind, rows, row, exclude)
    {
      if !kind.active(row) {
        return None;
      }
      var existing := ScalarOneOrNone(Matching(rows, kind.active, kind.key, kind.key(row), exclude));
      match existing {
        case Nothing => return None;
        case One => return Some(AlreadyActive);
        case Many => return Some(MultipleResultsFound);
      }
    }

    method CreateRow(actor: Actor, row: R) returns (reply: Reply<R>)
      modifies this
      ensures (View(), reply) == Create(kind, old(View()), actor, row)
      ensures reply.Unauthorized? <==> actor.Unknown?
      ensures reply.Forbidden? <==> actor.User? && !actor.admin
      ensures reply.Unauthorized? || reply.Forbidden? ==> View() == old(View())
    {
      if actor.Unknown? {
        return Unauthorized;
      }
      if !actor.admin {
        return Forbidden;
      }
      if !kind.valid(row) {
        return Invalid;
      }
      var objection := AssertNoActiveConflict(row, None);
      if objection.Some? {
        return objection.value;
      }
      reply := Stored(nextId, row);
      rows, nextId := rows[nextId := row], nextId + 1;
    }

    method UpdateRow(actor: Actor, id: int, u: U) returns (reply: Reply<R>)
      modifies this
      ensures (View(), reply) == Update(kind, old(View()), actor, id, u)
      ensures reply.Unauthorized? <==> actor.Unknown?
      ensures reply.Forbidden? <==> actor.User? && !actor.admin
      ensures reply.Unauthorized? || reply.Forbidden? ==> View() == old(View())
    {
      if actor.Unknown? {
        return Unauthorized;
      }
      if !actor.admin {
        return Forbidden;
      }
      if kind.isEmpty(u) {
        return EmptyUpdate;
      }
      if id !in rows {
        return NotFound;
      }
      var target := kind.target(rows[id], u);
      if !kind.valid(target) {
        return Invalid;
      }
      var objection := AssertNoActiveConflict(target, Some(id));
      if objection.Some? {
        return objection.value;
      }
      var stored := kind.assign(rows[id], u);
      if stored.None? {
        return RejectedByStore;
      }
      rows := rows[id := stored.value];
      return Stored(id, stored.value);
    }

    method DisableRow(actor: Actor, id: int) returns (reply: Reply<R>)
      modifies this
      ensures (View(), reply) == Disable(kind, old(View()), actor, id)
      ensures reply.Unauthorized? <==> actor.Unknown?
      ensures reply.Forbidden? <==> actor.User? && !actor.admin
      ensures reply.Unauthorized? || reply.Forbidden? ==> View() == old(View())
    {
      if actor.Unknown? {
        return Unauthorized;
      }
      if !actor.admin {
        return Forbidden;
      }
      if id !in rows {
        return NotFound;
      }
      if kind.active(rows[id]) {
        rows := rows[id := kind.disabled(rows[id])];
      }
      return Disabled;
    }
  }
}
