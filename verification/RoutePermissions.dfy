/**
  Route permissions (aegis-backend/app/services/route_permission_service.py,
  app/repositories/route_permission_repository.py) as an instance of ActiveTable.
*/
module RoutePermissions {
  import opened Common
  import opened ActiveTable
  import opened Requests

  datatype Permission = Permission(verb: string, path: string, requiredScope: string, active: bool, createdBy: int)

  datatype PermissionUpdate = PermissionUpdate(
    verb: Field<string>, path: Field<string>, requiredScope: Field<string>, active: Field<bool>)

  predicate IsActive(p: Permission) { p.active }

  function RouteOf(p: Permission): (string, string) { (p.verb, p.path) }

  predicate AnyPermission(p: Permission) { true }

  function Off(p: Permission): Permission { p.(active := false) }

  predicate IsEmpty(u: PermissionUpdate) {
    u == PermissionUpdate(Unset, Unset, Unset, Unset)
  }

  function Target(p: Permission, u: PermissionUpdate): Permission {
    p.(verb := Or(u.verb, p.verb), path := Or(u.path, p.path), active := Or(u.active, p.active))
  }

  /** The request schema refuses explicit nulls; the NOT NULL columns would as well. */
  function Assigned(p: Permission, u: PermissionUpdate): Option<Permission> {
    if u.verb.Null? || u.path.Null? || u.requiredScope.Null? || u.active.Null? then None
    else Some(Permission(Or(u.verb, p.verb), Or(u.path, p.path), Or(u.requiredScope, p.requiredScope),
                         Or(u.active, p.active), p.createdBy))
  }

  function PermissionKind(): Kind<Permission, PermissionUpdate, (string, string)> {
    Kind(IsActive, RouteOf, AnyPermission, Off, IsEmpty, Target, Assigned)
  }

  lemma ValidatedIsStored()
    ensures Coherent(PermissionKind())
  {
  }

  /** A stored update wrote each column from its own field of the request. */
  lemma StoredFieldByField(t: Table<Permission>, actor: Actor, id: int, u: PermissionUpdate)
    ensures var (after, reply) := Update(PermissionKind(), t, actor, id, u);
            reply.Stored? ==>
              && id in t.rows && after == t.(rows := t.rows[id := reply.row])
              && var before := t.rows[id];
                 var now := reply.row;
                 && Carried(u.verb, before.verb, now.verb) && Carried(u.path, before.path, now.path)
                 && Carried(u.requiredScope, before.requiredScope, now.requiredScope)
                 && Carried(u.active, before.active, now.active)
                 && now.createdBy == before.createdBy
  {
  }

  /** When an admin's update of an existing permission succeeds: no null was sent, something
      was, and the route it ends on is free if it ends active. */
  lemma UpdateSucceedsIff(t: Table<Permission>, admin: int, id: int, u: PermissionUpdate)
    requires OneActivePerKey(t.rows, IsActive, RouteOf) && id in t.rows
    ensures var target := Target(t.rows[id], u);
            Update(PermissionKind(), t, User(admin, true), id, u).1.Stored? <==>
            && u != PermissionUpdate(Unset, Unset, Unset, Unset) && !u.verb.Null? && !u.path.Null? && !u.requiredScope.Null? && !u.active.Null?
            && (target.active ==> forall other | other in t.rows && other != id && t.rows[other].active ::
                  RouteOf(t.rows[other]) != RouteOf(target))
  {
    var target := Target(t.rows[id], u);
    var ids := Matching(t.rows, IsActive, RouteOf, RouteOf(target), Some(id));
    LookupFindsAtMostOne(t.rows, IsActive, RouteOf, RouteOf(target), Some(id));
    if ids != {} {
      var other := Choose(ids);
      assert other in t.rows && other != id && t.rows[other].active && RouteOf(t.rows[other]) == RouteOf(target);
    } else {
      forall other | other in t.rows && other != id && t.rows[other].active
        ensures RouteOf(t.rows[other]) != RouteOf(target)
      {
        assert other !in ids;
      }
    }
  }

  lemma OneActivePerRoute(requests: seq<Request<Permission, PermissionUpdate>>)
    ensures OneActivePerKey(HandleAll(PermissionKind(), Table(map[], 1), requests).rows, IsActive, RouteOf)
  {
    ValidatedIsStored();
    RunKeepsInv(PermissionKind(), Table(map[], 1), requests);
  }

  /** Over every run of requests no two active permissions share a method and path, and the
      lookup never finds two. */
  lemma PermissionsStaySound(requests: seq<Request<Permission, PermissionUpdate>>)
    ensures var t := HandleAll(PermissionKind(), Table(map[], 1), requests);
            && (forall id, id' | id in t.rows && id' in t.rows && t.rows[id].active && t.rows[id'].active
                  && RouteOf(t.rows[id]) == RouteOf(t.rows[id']) :: id == id')
            && forall route, exclude :: |Matching(t.rows, IsActive, RouteOf, route, exclude)| <= 1
  {
    ValidatedIsStored();
    RunKeepsInv(PermissionKind(), Table(map[], 1), requests);
  }

  /** When an admin's new row is stored: when its route is free, or it comes
      disabled; then it is stored as it is. */
  lemma CreateSucceedsIff(t: Table<Permission>, admin: int, row: Permission)
    requires OneActivePerKey(t.rows, IsActive, RouteOf)
    ensures var (after, reply) := Create(PermissionKind(), t, User(admin, true), row);
            && (reply.Stored? <==>
                  !(row.active && exists other | other in t.rows :: t.rows[other].active && RouteOf(t.rows[other]) == RouteOf(row)))
            && (reply.Stored? ==> reply == Stored(t.nextId, row) && after == Table(t.rows[t.nextId := row], t.nextId + 1))
            && (!reply.Stored? ==> after == t)
  {
    AdministratorsAreServed(PermissionKind(), t, admin, row, 0, PermissionUpdate(Unset, Unset, Unset, Unset));
    if row.active && exists other | other in t.rows :: t.rows[other].active && RouteOf(t.rows[other]) == RouteOf(row) {
      assert Taken(PermissionKind(), t.rows, row, None);
    }
  }

  /** Disabling changes nothing but the status: enabling the row again gives the table back. */
  lemma DisableIsUndoneByEnabling(t: Table<Permission>, admin: int, id: int)
    requires OneActivePerKey(t.rows, IsActive, RouteOf) && id in t.rows && t.rows[id].active
    ensures var disabled := Disable(PermissionKind(), t, User(admin, true), id).0;
            var (enabled, reply) := Update(PermissionKind(), disabled, User(admin, true), id,
                                           PermissionUpdate(Unset, Unset, Unset, Value(true)));
            !disabled.rows[id].active && reply.Stored? && enabled == t
  {
    AloneOnItsKey(t.rows, IsActive, RouteOf, id, Off(t.rows[id]));
    assert t.rows[id := t.rows[id]] == t.rows;
  }
}
