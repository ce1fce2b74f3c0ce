/**
  Find-or-create (the `_upsert_*` functions of scripts/seed_dev_data.py): take the first row
  that matches, by preference and then by id; patch it, or insert a new one.
*/
module Upserts {
  import opened Common
  import opened ActiveTable

  /** `prefers` is the leading ORDER BY term; it is always true for most tables. */
  datatype Spec<!R> = Spec(matches: R -> bool, prefers: R -> bool, make: R, patch: R -> R)

  function Candidates<R>(t: Table<R>, s: Spec<R>): set<int> {
    set id | id in t.rows && s.matches(t.rows[id])
  }

  function Preferred<R>(t: Table<R>, s: Spec<R>): set<int> {
    set id | id in t.rows && s.matches(t.rows[id]) && s.prefers(t.rows[id])
  }

  /** ORDER BY preference, id LIMIT 1 */
  function Pick<R>(t: Table<R>, s: Spec<R>): Option<int> {
    if Preferred(t, s) != {} then Some(Min(Preferred(t, s)))
    else if Candidates(t, s) != {} then Some(Min(Candidates(t, s)))
    else None
  }

  /** The table and the row's id. */
  function Upsert<R>(t: Table<R>, s: Spec<R>): (Table<R>, int) {
    match Pick(t, s)
    case None => (Table(t.rows[t.nextId := s.make], t.nextId + 1), t.nextId)
    case Some(id) =>
      assert id in Preferred(t, s) || id in Candidates(t, s);
      (t.(rows := t.rows[id := s.patch(t.rows[id])]), id)
  }

  function UpsertAll<R>(t: Table<R>, specs: seq<Spec<R>>): (result: (Table<R>, seq<int>))
    ensures |result.1| == |specs|
    decreases |specs|
  {
    if specs == [] then (t, [])
    else
      var (first, id) := Upsert(t, specs[0]);
      var (last, ids) := UpsertAll(first, specs[1..]);
      (last, [id] + ids)
  }

  lemma UpsertNext<R>(t: Table<R>, specs: seq<Spec<R>>, i: nat)
    requires i < |specs|
    ensures var (next, id) := Upsert(t, specs[i]);
            && UpsertAll(t, specs[i..]).0 == UpsertAll(next, specs[i + 1..]).0
            && UpsertAll(t, specs[i..]).1 == [id] + UpsertAll(next, specs[i + 1..]).1
  {
  }

  ghost predicate Numbered<R>(t: Table<R>) {
    forall id | id in t.rows :: id < t.nextId
  }

  /** What running `first` and later `second` needs of the two: they look for the same row,
      `first` leaves a preferred one, and `second` has nothing to change in it. */
  ghost predicate Repeats<R(!new)>(first: Spec<R>, second: Spec<R>) {
    && (forall r :: first.matches(r) == second.matches(r))
    && (forall r :: first.prefers(r) == second.prefers(r))
    && first.matches(first.make) && first.prefers(first.make) && second.patch(first.make) == first.make
    && forall r {:trigger first.patch(r)} | first.matches(r) ::
         && first.matches(first.patch(r)) && first.prefers(first.patch(r))
         && second.patch(first.patch(r)) == first.patch(r)
  }

  ghost predicate Disjoint<R(!new)>(s: Spec<R>, s': Spec<R>) {
    forall r :: !(s.matches(r) && s'.matches(r))
  }

  /** The spec finds row `id` and has nothing to change in it. */
  ghost predicate Settled<R>(t: Table<R>, s: Spec<R>, id: int) {
    Pick(t, s) == Some(id) && id in t.rows && s.patch(t.rows[id]) == t.rows[id]
  }

  lemma PickMatches<R>(t: Table<R>, s: Spec<R>)
    ensures Pick(t, s).Some? ==> Pick(t, s).value in t.rows && s.matches(t.rows[Pick(t, s).value])
    ensures Pick(t, s).None? ==> forall id | id in t.rows :: !s.matches(t.rows[id])
  {
    match Pick(t, s)
    case None =>
      forall id | id in t.rows ensures !s.matches(t.rows[id]) {
        assert id !in Candidates(t, s);
      }
    case Some(id) => assert id in Preferred(t, s) || id in Candidates(t, s);
  }

  lemma SettledIsNoop<R>(t: Table<R>, s: Spec<R>, id: int)
    requires Settled(t, s, id)
    ensures Upsert(t, s) == (t, id)
  {
    assert t.rows[id := s.patch(t.rows[id])] == t.rows;
  }

  /** Writing a row that matches neither before nor after does not disturb a spec. */
  lemma WriteElsewhere<R>(t: Table<R>, s: Spec<R>, id: int, other: int, row: R, nextId: int)
    requires Settled(t, s, id)
    requires !s.matches(row) && (other in t.rows ==> !s.matches(t.rows[other]))
    ensures Settled(Table(t.rows[other := row], nextId), s, id)
  {
    var after := Table(t.rows[other := row], nextId);
    assert Candidates(after, s) == Candidates(t, s);
    assert Preferred(after, s) == Preferred(t, s);
    assert id in Preferred(t, s) || id in Candidates(t, s);
  }

  /** An upsert writes one row: the one it found, patched, or a new one. */
  lemma UpsertWritesOneRow<R>(t: Table<R>, s: Spec<R>)
    requires Numbered(t)
    ensures var (after, id) := Upsert(t, s);
            && after.rows.Keys == t.rows.Keys + {id}
            && (forall other | other in t.rows && other != id :: after.rows[other] == t.rows[other])
            && (id in t.rows ==> s.matches(t.rows[id]) && after.rows[id] == s.patch(t.rows[id]) && after.nextId == t.nextId)
            && (id !in t.rows ==> id == t.nextId && after.rows[id] == s.make && after.nextId == t.nextId + 1
                                  && forall other | other in t.rows :: !s.matches(t.rows[other]))
            && Numbered(after)
  {
    PickMatches(t, s);
  }

  lemma {:induction false} UpsertAllWritesItsRows<R>(t: Table<R>, specs: seq<Spec<R>>)
    requires Numbered(t)
    ensures var (after, ids) := UpsertAll(t, specs);
            && Numbered(after) && t.rows.Keys <= after.rows.Keys
            && (forall other | other in t.rows && other !in ids :: after.rows[other] == t.rows[other])
            && (forall other | other in after.rows && other !in t.rows :: other in ids)
    decreases |specs|
  {
    if specs != [] {
      UpsertWritesOneRow(t, specs[0]);
      UpsertAllWritesItsRows(Upsert(t, specs[0]).0, specs[1..]);
    }
  }

  lemma UpsertSettles<R(!new)>(t: Table<R>, first: Spec<R>, second: Spec<R>)
    requires Numbered(t) && Repeats(first, second)
    ensures var (after, id) := Upsert(t, first); Numbered(after) && Settled(after, second, id)
  {
    var (after, id) := Upsert(t, first);
    PickMatches(t, first);
    assert id in Preferred(after, second);
    forall other | other in Preferred(after, second)
      ensures id <= other
    {
      if other != id {
        assert other in t.rows && after.rows[other] == t.rows[other];
        assert other in Preferred(t, first);
      }
    }
    assert Min(Preferred(after, second)) == id;
  }

  lemma UpsertKeeps<R(!new)>(t: Table<R>, s: Spec<R>, again: Spec<R>, other: Spec<R>, id: int)
    requires Numbered(t) && Repeats(s, again) && Disjoint(s, other) && Settled(t, other, id)
    ensures Settled(Upsert(t, s).0, other, id)
  {
    match Pick(t, s)
    case None =>
      WriteElsewhere(t, other, id, t.nextId, s.make, t.nextId + 1);
    case Some(picked) =>
      assert picked in Preferred(t, s) || picked in Candidates(t, s);
      WriteElsewhere(t, other, id, picked, s.patch(t.rows[picked]), t.nextId);
  }

  ghost predicate RepeatsAll<R(!new)>(specs: seq<Spec<R>>, again: seq<Spec<R>>) {
    |specs| == |again| && forall i | 0 <= i < |specs| :: Repeats(specs[i], again[i])
  }

  ghost predicate DisjointAll<R(!new)>(specs: seq<Spec<R>>, again: seq<Spec<R>>) {
    forall i, j | 0 <= i < |specs| && 0 <= j < |again| && i != j :: Disjoint(specs[i], again[j])
  }

  lemma TailRepeats<R(!new)>(specs: seq<Spec<R>>, again: seq<Spec<R>>)
    requires RepeatsAll(specs, again) && specs != []
    ensures Repeats(specs[0], again[0]) && RepeatsAll(specs[1..], again[1..])
  {
  }

  lemma TailDisjoint<R(!new)>(specs: seq<Spec<R>>, again: seq<Spec<R>>)
    requires DisjointAll(specs, again) && specs != [] && |specs| == |again|
    ensures DisjointAll(specs[1..], again[1..])
    ensures forall i | 0 <= i < |specs| - 1 :: Disjoint(specs[1..][i], again[0])
  {
  }

  lemma {:induction false} UpsertAllKeeps<R(!new)>(t: Table<R>, specs: seq<Spec<R>>, again: seq<Spec<R>>, other: Spec<R>, id: int)
    requires Numbered(t) && RepeatsAll(specs, again) && Settled(t, other, id)
    requires forall i | 0 <= i < |specs| :: Disjoint(specs[i], other)
    ensures Settled(UpsertAll(t, specs).0, other, id)
    decreases |specs|
  {
    if specs != [] {
      TailRepeats(specs, again);
      UpsertSettles(t, specs[0], again[0]);
      UpsertKeeps(t, specs[0], again[0], other, id);
      UpsertAllKeeps(Upsert(t, specs[0]).0, specs[1..], again[1..], other, id);
    }
  }

  /** After upserting a list of disjoint specs, each of them is settled on the row it got. */
  lemma {:induction false} UpsertAllSettles<R(!new)>(t: Table<R>, specs: seq<Spec<R>>, again: seq<Spec<R>>)
    requires Numbered(t) && RepeatsAll(specs, again) && DisjointAll(specs, again)
    ensures var (after, ids) := UpsertAll(t, specs);
            Numbered(after) && forall i | 0 <= i < |specs| :: Settled(after, again[i], ids[i])
    decreases |specs|
  {
    if specs != [] {
      var (first, id) := Upsert(t, specs[0]);
      TailRepeats(specs, again);
      TailDisjoint(specs, again);
      UpsertSettles(t, specs[0], again[0]);
      UpsertAllSettles(first, specs[1..], again[1..]);
      UpsertAllKeeps(first, specs[1..], again[1..], again[0], id);
    }
  }

  /** And upserting a settled list changes nothing and finds the same rows. */
  lemma {:induction false} SettledAllIsNoop<R>(t: Table<R>, specs: seq<Spec<R>>, ids: seq<int>)
    requires |ids| == |specs| && forall i | 0 <= i < |specs| :: Settled(t, specs[i], ids[i])
    ensures UpsertAll(t, specs) == (t, ids)
    decreases |specs|
  {
    if specs != [] {
      SettledIsNoop(t, specs[0], ids[0]);
      SettledAllIsNoop(t, specs[1..], ids[1..]);
      assert [ids[0]] + ids[1..] == ids;
    }
  }

  // ---------- Active rows ----------

  /** A spec that prefers active rows and leaves an active one never adds a second active row
      for its key. */
  lemma PreferringActiveKeepsOne<R(!new), K(!new)>(t: Table<R>, s: Spec<R>, again: Spec<R>, active: R -> bool, key: R -> K, k: K)
    requires Numbered(t) && Repeats(s, again) && OneActivePerKey(t.rows, active, key)
    requires forall r :: s.prefers(r) == active(r) && (s.matches(r) <==> key(r) == k)
    ensures OneActivePerKey(Upsert(t, s).0.rows, active, key)
  {
    var (after, id) := Upsert(t, s);
    PickMatches(t, s);
    assert key(after.rows[id]) == k;
    forall other | other in after.rows && other != id && active(after.rows[other])
      ensures key(after.rows[other]) != k
    {
      assert other in t.rows && after.rows[other] == t.rows[other];
      assert key(t.rows[other]) == k ==> other in Preferred(t, s) && id in Preferred(t, s);
    }
    forall x, y | x in after.rows && y in after.rows && active(after.rows[x]) && active(after.rows[y]) && key(after.rows[x]) == key(after.rows[y])
      ensures x == y
    {
      if x != id && y != id {
        assert x in t.rows && y in t.rows;
      }
    }
  }

  /** A spec that goes by id alone and leaves an active row keeps one active row per key
      exactly when no row of its key but the first by id was active. */
  lemma FirstByIdKeepsOneIff<R(!new), K(!new)>(t: Table<R>, s: Spec<R>, again: Spec<R>, active: R -> bool, key: R -> K, k: K)
    requires Numbered(t) && Repeats(s, again) && OneActivePerKey(t.rows, active, key)
    requires forall r :: s.prefers(r) && (s.matches(r) <==> key(r) == k)
    requires active(s.make) && forall r :: active(s.patch(r))
    ensures OneActivePerKey(Upsert(t, s).0.rows, active, key) <==>
            forall id, id' | id in t.rows && id' in t.rows && key(t.rows[id]) == k && key(t.rows[id']) == k && id < id' ::
              !active(t.rows[id'])
  {
    var (after, id) := Upsert(t, s);
    assert Preferred(t, s) == Candidates(t, s);
    match Pick(t, s)
    case None =>
      forall other | other in t.rows
        ensures key(t.rows[other]) != k
      {
        assert other !in Candidates(t, s);
      }
    case Some(picked) =>
      assert picked == id && id in Candidates(t, s);
      assert active(after.rows[id]) && key(after.rows[id]) == k;
      forall other | other in t.rows && key(t.rows[other]) == k
        ensures id <= other
      {
        assert other in Candidates(t, s);
      }
      if later :| later in t.rows && key(t.rows[later]) == k && id < later && active(t.rows[later]) {
        assert after.rows[later] == t.rows[later];
      }
  }
}
