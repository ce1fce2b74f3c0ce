/**
  Automatic and administrators' blocks are rows of one table (aegis-backend/app/models/
  ip_block.py). AutoBlock tells how ingests and administrators race on it, IpBlocks how the
  administrators' service checks; here the two views are put together, up to what is published.
*/
module BlockStore {
  import opened Common
  import opened ActiveTable
  import opened Requests
  import A = AutoBlock
  import B = IpBlocks
  import P = ProxyConfig

  /** The same rows, with the columns that both views have. */
  ghost predicate SameRows(blocks: A.Blocks, rows: map<int, B.Block>) {
    && blocks.Keys == rows.Keys
    && forall id | id in blocks :: SameRow(blocks[id], rows[id])
  }

  predicate SameRow(b: A.Block, row: B.Block) {
    b.ip == row.ip && b.active == row.active && (b.source.Auto? <==> row.automatic)
  }

  /** Every table of blocks has the administrators' view, whatever the columns that it has alone. */
  lemma ViewExists(blocks: A.Blocks) returns (rows: map<int, B.Block>)
    ensures SameRows(blocks, rows)
  {
    rows := map id | id in blocks :: B.Block(blocks[id].ip, "", blocks[id].source.Auto?, blocks[id].active, None);
  }

  lemma SameActive(blocks: A.Blocks, rows: map<int, B.Block>, ip: string)
    requires SameRows(blocks, rows)
    ensures A.HasActive(blocks, ip) <==> exists id | id in rows :: rows[id].active && rows[id].ip == ip
  {
    if A.HasActive(blocks, ip) {
      var id :| id in blocks && A.ActiveAt(blocks, id, ip);
      assert id in rows && SameRow(blocks[id], rows[id]);
    }
    if id :| id in rows && rows[id].active && rows[id].ip == ip {
      assert SameRow(blocks[id], rows[id]) && A.ActiveAt(blocks, id, ip);
    }
  }

  /** An insert under the index, automatic or not, does to the table what an administrator's
      create request for that row does, and is refused exactly when that would be. */
  lemma InsertIsACreate(t: Table<B.Block>, blocks: A.Blocks, admin: int, b: A.Block, row: B.Block)
    requires Inv(B.BlockKind(), t) && SameRows(blocks, t.rows) && SameRow(b, row)
    ensures var (after, reply) := Handle(B.BlockKind(), t, CreateRequest(User(admin, true), row));
            && SameRows(A.Insert(blocks, t.nextId, b), after.rows)
            && (A.InsertRefused(blocks, b) <==> reply.AlreadyActive?)
            && (!A.InsertRefused(blocks, b) <==> reply == Stored(t.nextId, row))
            && Inv(B.BlockKind(), after)
  {
    B.ValidatedIsStored();
    HandleKeepsInv(B.BlockKind(), t, CreateRequest(User(admin, true), row));
    CreateConflictIff(B.BlockKind(), t, row, admin);
    LookupFindsAtMostOne(t.rows, B.IsActive, B.AddressOf, row.ip, None);
    SameActive(blocks, t.rows, b.ip);
  }

  /** In every state of every run of racing ingests and administrators, automatic blocks
      included, the published list holds exactly the active rows in id order: every address
      with an active block, each once, and no other. */
  lemma PublishedIsExactlyActive(cfg: A.Config, states: seq<A.State>, actions: seq<A.Action>, n: nat, rows: map<int, B.Block>)
    requires A.Trace(cfg, states, actions) && n < |states| && SameRows(states[n].blocks, rows)
    ensures OneActivePerKey(rows, B.IsActive, B.AddressOf)
    ensures var list := P.Listed(rows, B.IsActive, P.BlockAddress);
            && P.ExactList(rows, B.IsActive, P.BlockAddress, list, ActiveIds(rows, B.IsActive))
            && P.Distinct(list)
            && forall ip :: ip in list <==> A.HasActive(states[n].blocks, ip)
  {
    A.BlocksAreEarnedAndUnique(cfg, states, actions, n);
    forall id, id' | id in rows && id' in rows && B.IsActive(rows[id]) && B.IsActive(rows[id'])
                     && B.AddressOf(rows[id]) == B.AddressOf(rows[id'])
      ensures id == id'
    {
      assert A.ActiveAt(states[n].blocks, id, rows[id].ip) && A.ActiveAt(states[n].blocks, id', rows[id].ip);
    }
    P.AddressesDistinct(rows);
    forall ip
      ensures ip in P.Listed(rows, B.IsActive, P.BlockAddress) <==> A.HasActive(states[n].blocks, ip)
    {
      SameActive(states[n].blocks, rows, ip);
      ListedIff(rows, ip);
    }
  }

  lemma ListedIff(rows: map<int, B.Block>, ip: string)
    ensures ip in P.Listed(rows, B.IsActive, P.BlockAddress) <==> exists id | id in rows :: rows[id].active && rows[id].ip == ip
  {
    var ids, list := ActiveIds(rows, B.IsActive), P.Listed(rows, B.IsActive, P.BlockAddress);
    if i :| 0 <= i < |list| && list[i] == ip {
      assert ids[i] in ids && ids[i] in rows && rows[ids[i]].active && rows[ids[i]].ip == ip;
    }
    if id :| id in rows && rows[id].active && rows[id].ip == ip {
      assert id in ids;
      var i :| 0 <= i < |ids| && ids[i] == id;
      assert list[i] == ip;
    }
  }
}
