/**
  What the actions of a run of KeySystem come to: when the clock stands where, which keys exist
  since when, which are revoked since when, told from the actions alone; and with that what
  callers may rely on after a creation, an edit or a revocation.
*/
module KeyRuns {
  import opened Common
  import opened ApiKeys
  import opened KeySystem

  // ---------- The actions alone ----------

  function ClockAfter(now: int, actions: seq<Action>): int
    decreases |actions|
  {
    if actions == [] then now else ClockAfter(if actions[0].Tick? then actions[0].to else now, actions[1..])
  }

  /** When each row was first revoked. */
  function Revocations(now: int, known: map<int, int>, actions: seq<Action>): map<int, int>
    decreases |actions|
  {
    if actions == [] then known
    else
      var a := actions[0];
      Revocations(if a.Tick? then a.to else now,
                  if a.RevokeKey? && a.id !in known then known[a.id := now] else known, actions[1..])
  }

  /** When each row was created. */
  function Creations(now: int, known: map<int, int>, actions: seq<Action>): map<int, int>
    decreases |actions|
  {
    if actions == [] then known
    else
      var a := actions[0];
      Creations(if a.Tick? then a.to else now, if a.CreateKey? then known[a.id := now] else known, actions[1..])
  }

  /** The key that each row was made from. */
  function Keys(known: map<int, string>, actions: seq<Action>): map<int, string>
    decreases |actions|
  {
    if actions == [] then known
    else Keys(if actions[0].CreateKey? then known[actions[0].id := actions[0].raw] else known, actions[1..])
  }

  /** When each call read its clock, and for which key. */
  function Asked(now: int, known: map<nat, (string, int)>, actions: seq<Action>): map<nat, (string, int)>
    decreases |actions|
  {
    if actions == [] then known
    else
      var a := actions[0];
      Asked(if a.Tick? then a.to else now, if a.ReadClock? then known[a.call := (a.key, now)] else known, actions[1..])
  }

  /** The rows hold exactly these keys, by their hashes. */
  ghost predicate HoldsKeys(s: State, keys: map<int, string>) {
    s.table.Keys == keys.Keys && forall id | id in keys :: s.table[id].hash == HashOf(keys[id])
  }

  ghost predicate HoldsCalls(s: State, asked: map<nat, (string, int)>) {
    s.calls.Keys == asked.Keys && forall call | call in asked :: (s.calls[call].key, s.calls[call].asked) == asked[call]
  }

  /** What one action does to the clock, the rows' existence and the revocations. */
  lemma StepHistories(cfg: Config, s: State, a: Action)
    requires Enabled(s, a)
    ensures var t := Step(cfg, s, a);
            && t.now == (if a.Tick? then a.to else s.now)
            && t.revoked == (if a.RevokeKey? && a.id !in s.revoked then s.revoked[a.id := s.now] else s.revoked)
            && t.created == (if a.CreateKey? then s.created[a.id := s.now] else s.created)
  {
    if !Writes(a) {
      CallStepFrame(cfg, s, a);
    }
  }

  lemma StepKeys(cfg: Config, s: State, a: Action, keys: map<int, string>)
    requires Enabled(s, a) && HoldsKeys(s, keys)
    ensures HoldsKeys(Step(cfg, s, a), if a.CreateKey? then keys[a.id := a.raw] else keys)
  {
    if !Writes(a) {
      CallStepFrame(cfg, s, a);
    }
  }

  lemma StepCalls(cfg: Config, s: State, a: Action, asked: map<nat, (string, int)>)
    requires Enabled(s, a) && HoldsCalls(s, asked)
    ensures HoldsCalls(Step(cfg, s, a), if a.ReadClock? then asked[a.call := (a.key, s.now)] else asked)
  {
  }

  /** The histories that states carry are those of the actions. */
  lemma {:induction false} HistoriesAreTheActions(cfg: Config, s: State, actions: seq<Action>)
    requires Run(cfg, s, actions)
    ensures var t := Exec(cfg, s, actions);
            && s.now <= t.now == ClockAfter(s.now, actions)
            && t.revoked == Revocations(s.now, s.revoked, actions)
            && t.created == Creations(s.now, s.created, actions)
    decreases |actions|
  {
    if actions != [] {
      StepHistories(cfg, s, actions[0]);
      HistoriesAreTheActions(cfg, Step(cfg, s, actions[0]), actions[1..]);
    }
  }

  lemma {:induction false} RowsAreTheActions(cfg: Config, s: State, actions: seq<Action>, keys: map<int, string>)
    requires Run(cfg, s, actions) && HoldsKeys(s, keys)
    ensures HoldsKeys(Exec(cfg, s, actions), Keys(keys, actions))
    decreases |actions|
  {
    if actions != [] {
      StepKeys(cfg, s, actions[0], keys);
      RowsAreTheActions(cfg, Step(cfg, s, actions[0]), actions[1..],
                        if actions[0].CreateKey? then keys[actions[0].id := actions[0].raw] else keys);
    }
  }

  lemma {:induction false} CallsAreTheActions(cfg: Config, s: State, actions: seq<Action>, asked: map<nat, (string, int)>)
    requires Run(cfg, s, actions) && HoldsCalls(s, asked)
    ensures HoldsCalls(Exec(cfg, s, actions), Asked(s.now, asked, actions))
    decreases |actions|
  {
    if actions != [] {
      var a := actions[0];
      StepHistories(cfg, s, a);
      StepCalls(cfg, s, a, asked);
      CallsAreTheActions(cfg, Step(cfg, s, a), actions[1..], if a.ReadClock? then asked[a.call := (a.key, s.now)] else asked);
    }
  }

  /** The state of a run from the empty system, in terms of its actions. */
  lemma StateIsTheActions(cfg: Config, began: int, actions: seq<Action>)
    requires Run(cfg, Init(began), actions)
    ensures var s := Exec(cfg, Init(began), actions);
            && s.now == ClockAfter(began, actions)
            && (forall id :: id in s.table <==> id in Creations(began, map[], actions))
            && (forall id, raw :: Verifies(s.table, id, raw) <==> id in Keys(map[], actions) && Keys(map[], actions)[id] == raw)
            && (forall id | id in s.table :: s.table[id].status == Revoked <==> id in Revocations(began, map[], actions))
            && HoldsCalls(s, Asked(began, map[], actions))
  {
    HistoriesAreTheActions(cfg, Init(began), actions);
    RowsAreTheActions(cfg, Init(began), actions, map[]);
    CallsAreTheActions(cfg, Init(began), actions, map[]);
    TableRun(cfg, Init(began), actions);
  }

  lemma {:induction false} TableRun(cfg: Config, s: State, actions: seq<Action>)
    requires TableInv(cfg, s) && HistoryInv(s) && Run(cfg, s, actions)
    ensures TableInv(cfg, Exec(cfg, s, actions)) && HistoryInv(Exec(cfg, s, actions))
    decreases |actions|
  {
    if actions != [] {
      TableStep(cfg, s, actions[0]);
      HistoryStep(cfg, s, actions[0]);
      TableRun(cfg, Step(cfg, s, actions[0]), actions[1..]);
    }
  }

  // ---------- After a step of a run ----------

  lemma {:induction false} Split(cfg: Config, s: State, actions: seq<Action>, n: nat)
    requires Run(cfg, s, actions) && n <= |actions|
    ensures Run(cfg, s, actions[..n]) && Run(cfg, Exec(cfg, s, actions[..n]), actions[n..])
    ensures Exec(cfg, s, actions) == Exec(cfg, Exec(cfg, s, actions[..n]), actions[n..])
    decreases n
  {
    if n > 0 {
      Split(cfg, Step(cfg, s, actions[0]), actions[1..], n - 1);
      assert actions[..n][1..] == actions[1..][..n - 1] && actions[1..][n - 1..] == actions[n..];
    } else {
      assert actions[..0] == [] && actions[0..] == actions;
    }
  }

  /** The state that step `n` of a run leaves, and the rest of the run. */
  lemma AfterStep(cfg: Config, began: int, actions: seq<Action>, n: nat) returns (s: State, t: State)
    requires Run(cfg, Init(began), actions) && n < |actions|
    ensures s.now == ClockAfter(began, actions[..n]) && TableInv(cfg, s) && HistoryInv(s)
    ensures Enabled(s, actions[n]) && t == Step(cfg, s, actions[n]) && TableInv(cfg, t) && HistoryInv(t)
    ensures Run(cfg, t, actions[n + 1..]) && Exec(cfg, Init(began), actions) == Exec(cfg, t, actions[n + 1..])
  {
    Split(cfg, Init(began), actions, n);
    s := Exec(cfg, Init(began), actions[..n]);
    HistoriesAreTheActions(cfg, Init(began), actions[..n]);
    TableRun(cfg, Init(began), actions[..n]);
    assert actions[n..][0] == actions[n] && actions[n..][1..] == actions[n + 1..];
    t := Step(cfg, s, actions[n]);
    TableStep(cfg, s, actions[n]);
    HistoryStep(cfg, s, actions[n]);
  }

  /** Revoking marks the row as it is and no other, from now on. */
  lemma RevokeTakesEffect(cfg: Config, s: State, id: int)
    requires TableInv(cfg, s) && id in s.table
    ensures Enabled(s, RevokeKey(id))
    ensures var t := Step(cfg, s, RevokeKey(id));
            && t.table == s.table[id := s.table[id].(status := Revoked)]
            && id in t.revoked && t.revoked[id] <= s.now
            && t.created == s.created && t.entries == s.entries && t.calls == s.calls && t.now == s.now
  {
  }

  /** An edit sets what it supplies, keeps the rest of the row, and touches no other. */
  lemma EditTakesEffect(cfg: Config, s: State, id: int, name: Option<string>, scopes: Option<seq<string>>)
    requires id in s.table
    ensures Enabled(s, EditKey(id, name, scopes))
    ensures var t := Step(cfg, s, EditKey(id, name, scopes));
            && id in t.table && t.table == s.table[id := t.table[id]]
            && (name.Some? ==> t.table[id].name == name.value) && (name.None? ==> t.table[id].name == s.table[id].name)
            && (scopes.Some? ==> t.table[id].scopes == scopes.value) && (scopes.None? ==> t.table[id].scopes == s.table[id].scopes)
            && t.table[id].(name := "", scopes := []) == s.table[id].(name := "", scopes := [])
            && t.entries == s.entries && t.calls == s.calls && t.now == s.now
  {
  }

  /** From a revocation at T on the row stays revoked, and no call that reads its clock at or
      after T + positiveTtl is accepted for its key. */
  lemma RevokedKeysAreRefused(cfg: Config, began: int, actions: seq<Action>, n: nat, id: int)
    requires Sound(cfg) && Run(cfg, Init(began), actions) && n < |actions| && actions[n] == RevokeKey(id)
    ensures var at := ClockAfter(began, actions[..n]);
            var s := Exec(cfg, Init(began), actions);
            && id in s.table && s.table[id].status == Revoked && id in s.revoked && s.revoked[id] <= at
            && forall call | call in s.calls && s.calls[call].phase.Answered? && Verifies(s.table, id, s.calls[call].key)
                             && s.calls[call].asked >= at + cfg.positiveTtl ::
                 !s.calls[call].phase.verdict.Accepted?
  {
    var s := Exec(cfg, Init(began), actions);
    var before, after := AfterStep(cfg, began, actions, n);
    RevokeTakesEffect(cfg, before, id);
    RevocationIsFinal(cfg, after, actions[n + 1..], id);
    TableRun(cfg, Init(began), actions);
    forall call | call in s.calls && s.calls[call].phase.Answered? && Verifies(s.table, id, s.calls[call].key)
                  && s.calls[call].asked >= before.now + cfg.positiveTtl
      ensures !s.calls[call].phase.verdict.Accepted?
    {
      if s.calls[call].phase.verdict.Accepted? {
        StaleAcceptanceBound(cfg, began, actions, call);
      }
    }
  }

  /** What never changes of a row. */
  ghost predicate SameKey(row: Row, other: Row) {
    row.hash == other.hash && row.prefix == other.prefix && row.owner == other.owner && row.expiresAt == other.expiresAt
  }

  lemma {:induction false} RowsStay(cfg: Config, s: State, actions: seq<Action>, id: int)
    requires Run(cfg, s, actions) && id in s.table && id in s.created
    ensures var t := Exec(cfg, s, actions);
            && id in t.table && SameKey(t.table[id], s.table[id]) && id in t.created && t.created[id] == s.created[id]
    decreases |actions|
  {
    if actions != [] {
      RowStays(cfg, s, actions[0], id);
      RowsStay(cfg, Step(cfg, s, actions[0]), actions[1..], id);
    }
  }

  lemma RowStays(cfg: Config, s: State, a: Action, id: int)
    requires Enabled(s, a) && id in s.table && id in s.created
    ensures var t := Step(cfg, s, a);
            id in t.table && SameKey(t.table[id], s.table[id]) && id in t.created && t.created[id] == s.created[id]
  {
    if !Writes(a) {
      CallStepFrame(cfg, s, a);
    }
  }

  /** From a creation at T on the row is there, as it was asked for, and no call that reads its
      clock at or after T + negativeTtl is told that its key is unknown. */
  lemma CreatedKeysAreKnown(cfg: Config, began: int, actions: seq<Action>, n: nat)
    requires Sound(cfg) && Run(cfg, Init(began), actions) && n < |actions| && actions[n].CreateKey?
    ensures var at := ClockAfter(began, actions[..n]);
            var a := actions[n];
            var s := Exec(cfg, Init(began), actions);
            && Verifies(s.table, a.id, a.raw) && a.id in s.created && s.created[a.id] == at
            && s.table[a.id].owner == a.owner && s.table[a.id].expiresAt == a.expiresAt
            && s.table[a.id].prefix == PrefixOf(a.raw, cfg.prefixLength)
            && (s.table[a.id].status == Active <==> a.id !in s.revoked)
            && forall call | call in s.calls && s.calls[call].phase.Answered? && s.calls[call].key == a.raw
                             && s.calls[call].asked >= at + cfg.negativeTtl ::
                 !s.calls[call].phase.verdict.KeyNotFound?
  {
    var s, a := Exec(cfg, Init(began), actions), actions[n];
    var before, after := AfterStep(cfg, began, actions, n);
    RowsStay(cfg, after, actions[n + 1..], a.id);
    TableRun(cfg, Init(began), actions);
    forall call | call in s.calls && s.calls[call].phase.Answered? && s.calls[call].key == a.raw
                  && s.calls[call].asked >= before.now + cfg.negativeTtl
      ensures !s.calls[call].phase.verdict.KeyNotFound?
    {
      if s.calls[call].phase.verdict.KeyNotFound? {
        StaleAbsenceBound(cfg, began, actions, call, a.id);
      }
    }
  }

  // ---------- Edited scopes ----------

  /** Every value the row has had since the instant has these scopes. */
  ghost predicate ScopesSince(s: State, id: int, scopes: seq<string>, at: int) {
    && id in s.history && s.history[id] != []
    && forall v | 0 <= v < |s.history[id]| ::
         s.history[id][v].row.scopes == scopes || (v + 1 < |s.history[id]| && s.history[id][v + 1].since <= at)
  }

  lemma ScopesStay(cfg: Config, s: State, a: Action, id: int, scopes: seq<string>, at: int)
    requires HistoryInv(s) && Enabled(s, a) && ScopesSince(s, id, scopes, at)
    requires !(a.EditKey? && a.id == id && a.newScopes.Some?)
    ensures ScopesSince(Step(cfg, s, a), id, scopes, at)
  {
    if !Writes(a) {
      CallStepFrame(cfg, s, a);
    } else {
      assert id in s.table && s.table[id].scopes == scopes;
    }
  }

  lemma {:induction false} ScopesStayAll(cfg: Config, s: State, actions: seq<Action>, id: int, scopes: seq<string>, at: int)
    requires HistoryInv(s) && Run(cfg, s, actions) && ScopesSince(s, id, scopes, at)
    requires forall a | a in actions :: !(a.EditKey? && a.id == id && a.newScopes.Some?)
    ensures ScopesSince(Exec(cfg, s, actions), id, scopes, at)
    decreases |actions|
  {
    if actions != [] {
      ScopesStay(cfg, s, actions[0], id, scopes, at);
      HistoryStep(cfg, s, actions[0]);
      ScopesStayAll(cfg, Step(cfg, s, actions[0]), actions[1..], id, scopes, at);
    }
  }

  lemma EditBeginsScopes(cfg: Config, s: State, id: int, name: Option<string>, scopes: seq<string>)
    requires HistoryInv(s) && id in s.table
    ensures ScopesSince(Step(cfg, s, EditKey(id, name, Some(scopes))), id, scopes, s.now)
  {
  }

  lemma ScopesInForce(s: State, id: int, scopes: seq<string>, since: int, at: int, info: KeyInfo)
    requires ScopesSince(s, id, scopes, since) && since < at && info.id == id && InfoAt(s, info, at)
    ensures info.scopes == scopes
  {
    var v :| 0 <= v < |s.history[id]| && InForce(s.history[id], v, at, info);
  }

  lemma SameKeySameRow(cfg: Config, s: State, id: int, other: int, key: string)
    requires TableInv(cfg, s) && Verifies(s.table, id, key) && Verifies(s.table, other, key)
    ensures id == other
  {
    assert s.table[other].hash == s.table[id].hash;
  }

  lemma EditedScopesHold(cfg: Config, began: int, actions: seq<Action>, n: nat, id: int)
    requires Run(cfg, Init(began), actions) && n < |actions|
    requires actions[n].EditKey? && actions[n].id == id && actions[n].newScopes.Some?
    requires forall a | a in actions[n + 1..] :: !(a.EditKey? && a.id == id && a.newScopes.Some?)
    ensures ScopesSince(Exec(cfg, Init(began), actions), id, actions[n].newScopes.value, ClockAfter(began, actions[..n]))
  {
    var before, after := AfterStep(cfg, began, actions, n);
    EditBeginsScopes(cfg, before, id, actions[n].newName, actions[n].newScopes.value);
    ScopesStayAll(cfg, after, actions[n + 1..], id, actions[n].newScopes.value, before.now);
  }

  /** Scopes set at T, and not set again, are the ones that every call is served that reads its
      clock at or after T + positiveTtl and is accepted for the row's key. */
  lemma EditedScopesAreServed(cfg: Config, began: int, actions: seq<Action>, n: nat, id: int, call: nat)
    requires Sound(cfg) && Run(cfg, Init(began), actions) && n < |actions|
    requires actions[n].EditKey? && actions[n].id == id && actions[n].newScopes.Some?
    requires forall a | a in actions[n + 1..] :: !(a.EditKey? && a.id == id && a.newScopes.Some?)
    requires var s := Exec(cfg, Init(began), actions);
             && call in s.calls && s.calls[call].phase.Answered? && s.calls[call].phase.verdict.Accepted?
             && Verifies(s.table, id, s.calls[call].key)
             && s.calls[call].asked >= ClockAfter(began, actions[..n]) + cfg.positiveTtl
    ensures Exec(cfg, Init(began), actions).calls[call].phase.verdict.info.scopes == actions[n].newScopes.value
  {
    var s := Exec(cfg, Init(began), actions);
    var c := s.calls[call];
    EditedScopesHold(cfg, began, actions, n, id);
    StaleAcceptanceBound(cfg, began, actions, call);
    TableRun(cfg, Init(began), actions);
    SameKeySameRow(cfg, s, id, c.phase.verdict.info.id, c.key);
    var at :| c.asked - cfg.positiveTtl < at <= s.now && InfoAt(s, c.phase.verdict.info, at);
    ScopesInForce(s, id, actions[n].newScopes.value, ClockAfter(began, actions[..n]), at, c.phase.verdict.info);
  }

  // ---------- One call with nothing in between ----------

  /** Alone, a call is told what is cached, or asks, is told the verdict on the table as it is,
      and caches it for its TTL; an outage is told and not cached. */
  lemma UndisturbedCall(cfg: Config, s: State, call: nat) returns (actions: seq<Action>)
    requires call in s.calls && s.calls[call].phase.Started?
    ensures Run(cfg, s, actions)
    ensures var c, t := s.calls[call], Exec(cfg, s, actions);
            var slot := cfg.digest(c.key);
            && call in t.calls && t.calls[call].phase.Answered?
            && (slot in s.entries && c.asked < s.entries[slot].expiresAt ==>
                  && t.calls[call].phase.verdict == s.entries[slot].verdict
                  && t.entries == s.entries && t.table == s.table)
            && (!(slot in s.entries && c.asked < s.entries[slot].expiresAt) ==>
                  var (table, reply) := AfterValidation(s.table, c.key, s.now);
                  var verdict := Decode(reply, s.now);
                  && t.calls[call].phase.verdict == verdict && t.table == table
                  && (verdict.ValidatorUnavailable? ==> t.entries == s.entries)
                  && (!verdict.ValidatorUnavailable? ==>
                        slot in t.entries && t.entries == s.entries[slot := t.entries[slot]]
                        && t.entries[slot].verdict == verdict
                        && t.entries[slot].expiresAt ==
                             c.asked + (if verdict.Accepted? then cfg.positiveTtl else cfg.negativeTtl)))
  {
    var looked := Step(cfg, s, LookInCache(call));
    Once(cfg, s, LookInCache(call));
    if looked.calls[call].phase.Answered? {
      return [LookInCache(call)];
    }
    var validation := UndisturbedValidation(cfg, looked, call);
    var replied := Exec(cfg, looked, validation);
    var received := Step(cfg, replied, Receive(call));
    Once(cfg, received, Finish(call));
    Prepend(cfg, replied, Receive(call), [Finish(call)]);
    Join(cfg, looked, validation, [Receive(call)] + [Finish(call)]);
    Prepend(cfg, s, LookInCache(call), validation + ([Receive(call)] + [Finish(call)]));
    return [LookInCache(call)] + (validation + ([Receive(call)] + [Finish(call)]));
  }

  lemma {:induction false} Join(cfg: Config, s: State, xs: seq<Action>, ys: seq<Action>)
    requires Run(cfg, s, xs) && Run(cfg, Exec(cfg, s, xs), ys)
    ensures Run(cfg, s, xs + ys) && Exec(cfg, s, xs + ys) == Exec(cfg, Exec(cfg, s, xs), ys)
    decreases |xs|
  {
    if xs == [] {
      assert xs + ys == ys;
    } else {
      Join(cfg, Step(cfg, s, xs[0]), xs[1..], ys);
      assert (xs + ys)[1..] == xs[1..] + ys;
    }
  }

  /** A fault on the way is an outage for the call, and leaves rows and cache alone. */
  lemma FaultIsAnOutage(cfg: Config, s: State, call: nat)
    requires call in s.calls && s.calls[call].phase.Asking?
    ensures Run(cfg, s, [Fault(call)] + ([Receive(call)] + [Finish(call)]))
    ensures var t := Exec(cfg, s, [Fault(call)] + ([Receive(call)] + [Finish(call)]));
            && call in t.calls && t.calls[call].phase.Answered? && t.calls[call].phase.verdict.ValidatorUnavailable?
            && t.table == s.table && t.entries == s.entries
  {
    var failed := Step(cfg, s, Fault(call));
    var received := Step(cfg, failed, Receive(call));
    Once(cfg, received, Finish(call));
    Prepend(cfg, failed, Receive(call), [Finish(call)]);
    Prepend(cfg, s, Fault(call), [Receive(call)] + [Finish(call)]);
  }

  /** What can always happen: new calls, time, keys drawn at random, changes to existing rows. */
  lemma TheWorldIsFree(s: State, call: nat, key: string, to: int, id: int, raw: string, name: string, scopes: seq<string>)
    ensures call !in s.calls ==> Enabled(s, ReadClock(call, key))
    ensures s.now <= to ==> Enabled(s, Tick(to))
    ensures id in s.table ==> Enabled(s, RevokeKey(id)) && Enabled(s, EditKey(id, Some(name), Some(scopes)))
    ensures id !in s.table && (forall other :: !Verifies(s.table, other, raw)) ==> Enabled(s, CreateKey(id, raw, 0, name, scopes, None))
  {
  }
}
