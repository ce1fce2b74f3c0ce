/**
  Administrator-managed IP blocks (aegis-backend/app/services/ip_block_service.py,
  app/repositories/ip_block_repository.py) as an instance of ActiveTable. An update never
  moves a block to another address.
*/
module IpBlocks {
  import opened Common
  import opened ActiveTable
  import opened Requests

  datatype Block = Block(ip: string, reason: string, automatic: bool, active: bool, createdBy: Option<int>)

  datatype BlockUpdate = BlockUpdate(reason: Field<string>, active: Field<bool>)

  predicate IsActive(b: Block) { b.active }

  function AddressOf(b: Block): string { b.ip }

  predicate AnyBlock(b: Block) { true }

  function Off(b: Block): Block { b.(active := false) }

  predicate IsEmpty(u: BlockUpdate) { u == BlockUpdate(Unset, Unset) }

  function Target(b: Block, u: BlockUpdate): Block { b.(active := Or(u.active, b.active)) }

  function Assigned(b: Block, u: BlockUpdate): Option<Block> {
    if u.reason.Null? || u.active.Null? then None
    else Some(b.(reason := Or(u.reason, b.reason), active := Or(u.active, b.active)))
  }

  function BlockKind(): Kind<Block, BlockUpdate, string> {
    Kind(IsActive, AddressOf, AnyBlock, Off, IsEmpty, Target, Assigned)
  }

  lemma ValidatedIsStored()
    ensures Coherent(BlockKind())
  {
  }

  /** A stored update wrote the reason and the status from their own fields; the address,
      the origin and the author of a block never change. */
  lemma StoredFieldByField(t: Table<Block>, actor: Actor, id: int, u: BlockUpdate)
    ensures var (after, reply) := Update(BlockKind(), t, actor, id, u);
            reply.Stored? ==>
              && id in t.rows && after == t.(rows := t.rows[id := reply.row])
              && Carried(u.reason, t.rows[id].reason, reply.row.reason)
              && Carried(u.active, t.rows[id].active, reply.row.active)
              && reply.row.ip == t.rows[id].ip && reply.row.automatic == t.rows[id].automatic
              && reply.row.createdBy == t.rows[id].createdBy
  {
  }

  lemma OneActivePerAddress(requests: seq<Request<Block, BlockUpdate>>)
    ensures OneActivePerKey(HandleAll(BlockKind(), Table(map[], 1), requests).rows, IsActive, AddressOf)
  {
    ValidatedIsStored();
    RunKeepsInv(BlockKind(), Table(map[], 1), requests);
  }

  /** Over every run of requests no two active blocks share an address. */
  lemma BlocksStaySound(requests: seq<Request<Block, BlockUpdate>>)
    ensures var t := HandleAll(BlockKind(), Table(map[], 1), requests);
            && (forall id, id' | id in t.rows && id' in t.rows && t.rows[id].active && t.rows[id'].active
                  && t.rows[id].ip == t.rows[id'].ip :: id == id')
            && forall ip, exclude :: |Matching(t.rows, IsActive, AddressOf, ip, exclude)| <= 1
  {
    ValidatedIsStored();
    RunKeepsInv(BlockKind(), Table(map[], 1), requests);
  }

  /** When an admin's update of an existing block succeeds: no null was sent, something was, and
      no other block of its address is on if it ends on. */
  lemma UpdateSucceedsIff(t: Table<Block>, admin: int, id: int, u: BlockUpdate)
    requires OneActivePerKey(t.rows, IsActive, AddressOf) && id in t.rows
    ensures Update(BlockKind(), t, User(admin, true), id, u).1.Stored? <==>
            && u != BlockUpdate(Unset, Unset) && !u.reason.Null? && !u.active.Null?
            && ((u.active.Value? && u.active.value) || (u.active.Unset? && t.rows[id].active) ==>
                  forall other | other in t.rows && other != id && t.rows[other].active :: t.rows[other].ip != t.rows[id].ip)
  {
    AdministratorsAreServed(BlockKind(), t, admin, t.rows[id], id, u);
    var target := Target(t.rows[id], u);
    if other :| other in t.rows && other != id && t.rows[other].active && t.rows[other].ip == t.rows[id].ip {
      assert Taken(BlockKind(), t.rows, target, Some(id));
    }
  }

  /** A disabled block can be switched on again exactly when no other block of its address
      is on; the address never changes. */
  lemma ReactivationIff(t: Table<Block>, admin: int, id: int)
    requires OneActivePerKey(t.rows, IsActive, AddressOf) && id in t.rows && !t.rows[id].active
    ensures var (after, reply) := Update(BlockKind(), t, User(admin, true), id, BlockUpdate(Unset, Value(true)));
            && (reply.Stored? <==> forall other | other in t.rows && t.rows[other].ip == t.rows[id].ip :: !t.rows[other].active)
            && id in after.rows && after.rows[id] == t.rows[id].(active := reply.Stored?)
  {
    var ids := Matching(t.rows, IsActive, AddressOf, t.rows[id].ip, Some(id));
    LookupFindsAtMostOne(t.rows, IsActive, AddressOf, t.rows[id].ip, Some(id));
    if ids != {} {
      var other := Choose(ids);
      assert other in t.rows && t.rows[other].ip == t.rows[id].ip && t.rows[other].active;
    } else {
      forall other | other in t.rows && t.rows[other].ip == t.rows[id].ip
        ensures !t.rows[other].active
      {
        assert other !in ids;
      }
    }
  }

  /** When an admin's new row is stored: when its address is free, or it comes
      disabled; then it is stored as it is. */
  lemma CreateSucceedsIff(t: Table<Block>, admin: int, row: Block)
    requires OneActivePerKey(t.rows, IsActive, AddressOf)
    ensures var (after, reply) := Create(BlockKind(), t, User(admin, true), row);
            && (reply.Stored? <==>
                  !(row.active && exists other | other in t.rows :: t.rows[other].active && AddressOf(t.rows[other]) == AddressOf(row)))
            && (reply.Stored? ==> reply == Stored(t.nextId, row) && after == Table(t.rows[t.nextId := row], t.nextId + 1))
            && (!reply.Stored? ==> after == t)
  {
    AdministratorsAreServed(BlockKind(), t, admin, row, 0, BlockUpdate(Unset, Unset));
    if row.active && exists other | other in t.rows :: t.rows[other].active && AddressOf(t.rows[other]) == AddressOf(row) {
      assert Taken(BlockKind(), t.rows, row, None);
    }
  }

  /** Disabling changes nothing but the status: enabling the row again gives the table back. */
  lemma DisableIsUndoneByEnabling(t: Table<Block>, admin: int, id: int)
    requires OneActivePerKey(t.rows, IsActive, AddressOf) && id in t.rows && t.rows[id].active
    ensures var disabled := Disable(BlockKind(), t, User(admin, true), id).0;
            var (enabled, reply) := Update(BlockKind(), disabled, User(admin, true), id, BlockUpdate(Unset, Value(true)));
            !disabled.rows[id].active && reply.Stored? && enabled == t
  {
    AloneOnItsKey(t.rows, IsActive, AddressOf, id, Off(t.rows[id]));
    assert t.rows[id := t.rows[id]] == t.rows;
  }
}
