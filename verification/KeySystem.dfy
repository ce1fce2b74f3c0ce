/**
  API-key validation end to end: the proxy's verdict cache
  (reverse-proxy/internal/controlplane/cache.go) over HTTP calls to the control plane
  (aegis-backend/app/services/api_key_service.py).

  Every call is cut where another one can run: the cache drops its lock while it asks, and
  the control plane's validation is several database statements. Calls, key creations,
  updates and revocations interleave in any order.
*/
module KeySystem {
  import opened Common
  import opened ApiKeys

  datatype Config = Config(positiveTtl: int, negativeTtl: int, prefixLength: nat, digest: string -> int)

  /** SHA-256 is taken to be collision-free. */
  ghost predicate Sound(cfg: Config) {
    && cfg.positiveTtl > 0 && cfg.negativeTtl > 0
    && forall k, k' :: cfg.digest(k) == cfg.digest(k') ==> k == k'
  }

  // ---------- The cache's decisions ----------

  /** `asked` and `decidedAt` are history: when the storing call read its clock, and when the
      control plane's data was in the state that the verdict reports. */
  datatype Entry = Entry(key: string, verdict: Verdict, expiresAt: int, asked: int, decidedAt: int)

  function Ttl(cfg: Config, v: Verdict): int {
    if v.Accepted? then cfg.positiveTtl else cfg.negativeTtl
  }

  predicate Hit(cfg: Config, entries: map<int, Entry>, key: string, asked: int) {
    cfg.digest(key) in entries && asked < entries[cfg.digest(key)].expiresAt
  }

  /** The expiry counts from the clock read before the control plane was asked. */
  function EntryFor(cfg: Config, key: string, v: Verdict, asked: int, decidedAt: int): Entry {
    Entry(key, v, asked + Ttl(cfg, v), asked, decidedAt)
  }

  // ---------- The interleaved system ----------

  datatype Phase =
    | Started                                         // clock read
    | Asking                                          // cache missed, request sent
    | Matched(id: int)                                // active row read and verified
    | Unexpired(id: int, checkedAt: int)              // expiry checked against a clock reading
    | Touched(id: int)                                // last_used_at committed
    | Replied(response: Response, decidedAt: int)
    | Decoded(verdict: Verdict, decidedAt: int)
    | Answered(verdict: Verdict, origin: int, decidedAt: int)

  datatype Call = Call(key: string, asked: int, phase: Phase)

  datatype Version = Version(since: int, row: Row)

  /** `created` and `revoked` record when each row was created and revoked, `history` all
      the values it has had and since when. */
  datatype State = State(
    now: int, table: Table, created: map<int, int>, revoked: map<int, int>, history: map<int, seq<Version>>,
    entries: map<int, Entry>, calls: map<nat, Call>)

  datatype Action =
    | Tick(to: int)
    | CreateKey(id: int, raw: string, owner: int, name: string, scopes: seq<string>, expiresAt: Option<int>)
    | EditKey(id: int, newName: Option<string>, newScopes: Option<seq<string>>)
    | RevokeKey(id: int)
    | ReadClock(call: nat, key: string)
    | LookInCache(call: nat)
    | SelectRow(call: nat)
    | CheckExpiry(call: nat)
    | Touch(call: nat)
    | Refresh(call: nat)
    | Fault(call: nat)
    | Receive(call: nat)
    | Finish(call: nat)

  function Init(now: int): State { State(now, map[], map[], map[], map[], map[], map[]) }

  /** The row a running validation has read and verified; rows are never deleted. */
  predicate Holds(s: State, phase: Phase) {
    (phase.Matched? || phase.Unexpired? || phase.Touched?) && phase.id in s.table
  }

  /** CreateKey draws a random key, so one that no row was made from. */
  ghost predicate Enabled(s: State, a: Action) {
    match a
    case Tick(to) => s.now <= to
    case CreateKey(id, raw, _, _, _, _) => id !in s.table && forall other :: !Verifies(s.table, other, raw)
    case EditKey(id, _, _) => id in s.table
    case RevokeKey(id) => id in s.table
    case ReadClock(call, _) => call !in s.calls
    case LookInCache(call) => call in s.calls && s.calls[call].phase.Started?
    case SelectRow(call) => call in s.calls && s.calls[call].phase.Asking?
    case CheckExpiry(call) => call in s.calls && s.calls[call].phase.Matched? && Holds(s, s.calls[call].phase)
    case Touch(call) => call in s.calls && s.calls[call].phase.Unexpired? && Holds(s, s.calls[call].phase)
    case Refresh(call) => call in s.calls && s.calls[call].phase.Touched? && Holds(s, s.calls[call].phase)
    case Fault(call) => call in s.calls && (s.calls[call].phase.Asking? || s.calls[call].phase.Replied? || Holds(s, s.calls[call].phase))
    case Receive(call) => call in s.calls && s.calls[call].phase.Replied?
    case Finish(call) => call in s.calls && s.calls[call].phase.Decoded?
  }

  function Goto(s: State, call: nat, phase: Phase): State
    requires call in s.calls
  {
    s.(calls := s.calls[call := s.calls[call].(phase := phase)])
  }

  function Reply(s: State, response: Response): Phase {
    Replied(response, s.now)
  }

  /** A write changes only the columns it supplies of the row as it is now. */
  function Write(s: State, id: int, u: Update): State
    requires id in s.table
  {
    s.(table := s.table[id := Written(s.table[id], u)],
       history := s.history[id := (if id in s.history then s.history[id] else []) + [Version(s.now, Written(s.table[id], u))]])
  }

  function Revoke(s: State, id: int): State
    requires id in s.table
  {
    Write(s, id, Update(None, None, Some(Revoked), None))
    .(revoked := if id in s.revoked then s.revoked else s.revoked[id := s.now])
  }

  function CacheRead(cfg: Config, s: State, c: Call): Phase {
    if Hit(cfg, s.entries, c.key, c.asked) then
      var e := s.entries[cfg.digest(c.key)];
      Answered(e.verdict, e.asked, e.decidedAt)
    else Asking
  }

  /** SELECT by prefix, the candidate loop, and the status check on the row read. */
  ghost function Selected(s: State, key: string): Phase {
    var found := FullScan(s.table, key);
    if found.None? then Reply(s, NOT_FOUND_REPLY)
    else if s.table[found.value].status == Revoked then Reply(s, REVOKED_REPLY)
    else Matched(found.value)
  }

  function ExpiryChecked(s: State, id: int): Phase
    requires id in s.table
  {
    if s.table[id].expiresAt.Some? && s.table[id].expiresAt.value <= s.now then Reply(s, EXPIRED_REPLY)
    else Unexpired(id, s.now)
  }

  function LastUseWritten(s: State, id: int, checkedAt: int): State
    requires id in s.table
  {
    Write(s, id, Update(None, None, None, Some(checkedAt)))
  }

  /** The reply is built from the row as read back after the commit. */
  function Refreshed(s: State, id: int): Phase
    requires id in s.table
  {
    Reply(s, FoundReply(InfoOf(id, s.table[id])))
  }

  /** An unavailable validator is returned without being stored. */
  function Stored(cfg: Config, s: State, c: Call): State
    requires c.phase.Decoded?
  {
    if Cacheable(c.phase.verdict) then
      s.(entries := s.entries[cfg.digest(c.key) := EntryFor(cfg, c.key, c.phase.verdict, c.asked, c.phase.decidedAt)])
    else s
  }

  ghost function Step(cfg: Config, s: State, a: Action): State
    requires Enabled(s, a)
  {
    match a
    case Tick(to) => s.(now := to)
    case CreateKey(id, raw, owner, name, scopes, expiresAt) =>
      var row := Created(raw, cfg.prefixLength, owner, name, scopes, expiresAt);
      s.(table := s.table[id := row], created := s.created[id := s.now], history := s.history[id := [Version(s.now, row)]])
    case EditKey(id, name, scopes) => Write(s, id, Update(name, scopes, None, None))
    case RevokeKey(id) => Revoke(s, id)
    case ReadClock(call, key) => s.(calls := s.calls[call := Call(key, s.now, Started)])
    case LookInCache(call) => Goto(s, call, CacheRead(cfg, s, s.calls[call]))
    case SelectRow(call) => Goto(s, call, Selected(s, s.calls[call].key))
    case CheckExpiry(call) => Goto(s, call, ExpiryChecked(s, s.calls[call].phase.id))
    case Touch(call) =>
      var p := s.calls[call].phase;
      Goto(LastUseWritten(s, p.id, p.checkedAt), call, Touched(p.id))
    case Refresh(call) => Goto(s, call, Refreshed(s, s.calls[call].phase.id))
    case Fault(call) => Goto(s, call, Reply(s, TransportError))
    case Receive(call) =>
      Goto(s, call, Decoded(Decode(s.calls[call].phase.response, s.now), s.calls[call].phase.decidedAt))
    case Finish(call) =>
      var c := s.calls[call];
      Goto(Stored(cfg, s, c), call, Answered(c.phase.verdict, c.asked, c.phase.decidedAt))
  }

  ghost predicate Run(cfg: Config, s: State, actions: seq<Action>)
    decreases |actions|
  {
    actions != [] ==> Enabled(s, actions[0]) && Run(cfg, Step(cfg, s, actions[0]), actions[1..])
  }

  ghost function Exec(cfg: Config, s: State, actions: seq<Action>): State
    requires Run(cfg, s, actions)
    decreases |actions|
  {
    if actions == [] then s else Exec(cfg, Step(cfg, s, actions[0]), actions[1..])
  }

  // ---------- What a verdict is worth ----------

  /** The rows the system holds, and when they came and were revoked. */
  ghost predicate TableInv(cfg: Config, s: State) {
    && WellKeyed(s.table, cfg.prefixLength)
    && s.created.Keys == s.table.Keys && s.revoked.Keys <= s.table.Keys
    && (forall id | id in s.table :: s.table[id].hash.HashOf? && (s.table[id].status == Revoked <==> id in s.revoked))
    && (forall id | id in s.created :: s.created[id] <= s.now)
    && (forall id | id in s.revoked :: s.revoked[id] <= s.now)
  }

  /** Every row's history ends with the row as it is now. */
  ghost predicate HistoryInv(s: State) {
    && s.history.Keys == s.table.Keys
    && forall id | id in s.table :: HistoryOf(s.history[id], s.table[id], s.now)
  }

  ghost predicate HistoryOf(versions: seq<Version>, row: Row, now: int) {
    && versions != [] && versions[|versions| - 1].row == row
    && forall v | 0 <= v < |versions| :: versions[v].since <= now
  }

  /** The key info is the one of the value that the row had at an instant. */
  ghost predicate InfoAt(s: State, info: KeyInfo, at: int) {
    info.id in s.history && exists v | 0 <= v < |s.history[info.id]| :: InForce(s.history[info.id], v, at, info)
  }

  ghost predicate InForce(versions: seq<Version>, v: nat, at: int, info: KeyInfo)
    requires v < |versions|
  {
    && versions[v].since <= at && (v + 1 < |versions| ==> at <= versions[v + 1].since)
    && info == InfoOf(info.id, versions[v].row)
  }

  ghost predicate Unrevoked(s: State, id: int, at: int) {
    id in s.revoked ==> at <= s.revoked[id]
  }

  ghost predicate IsRevoked(s: State, key: string) {
    exists id :: Verifies(s.table, id, key) && id in s.revoked
  }

  ghost predicate IsExpired(s: State, key: string) {
    exists id :: Verifies(s.table, id, key) && s.table[id].expiresAt.Some? && s.table[id].expiresAt.value <= s.now
  }

  /** What an acceptance decided at `at` by a call begun at `asked` says about the table. */
  ghost predicate AcceptanceHolds(s: State, key: string, info: KeyInfo, asked: int, at: int) {
    && Verifies(s.table, info.id, key) && s.table[info.id].expiresAt == info.expiresAt
    && Unrevoked(s, info.id, at) && InfoAt(s, info, at)
    && (info.expiresAt.Some? ==> asked < info.expiresAt.value)
  }

  ghost predicate AbsenceHolds(s: State, key: string, at: int) {
    forall id | Verifies(s.table, id, key) && id in s.created :: at <= s.created[id]
  }

  /** A verdict reports the table as it was at `at`, an instant not before `asked`. */
  ghost predicate Justified(s: State, key: string, v: Verdict, asked: int, at: int) {
    && asked <= at <= s.now
    && match v {
         case Accepted(info) => AcceptanceHolds(s, key, info, asked, at)
         case KeyNotFound => AbsenceHolds(s, key, at)
         case KeyRevoked => IsRevoked(s, key)
         case KeyExpired => IsExpired(s, key)
         case ValidatorUnavailable => true
       }
  }

  ghost predicate ReplyJustified(s: State, key: string, r: Response, asked: int, at: int) {
    && asked <= at <= s.now
    && (r == NOT_FOUND_REPLY ==> AbsenceHolds(s, key, at))
    && (r == REVOKED_REPLY ==> IsRevoked(s, key))
    && (r == EXPIRED_REPLY ==> IsExpired(s, key))
    && (r == TransportError || r == NOT_FOUND_REPLY || r == REVOKED_REPLY || r == EXPIRED_REPLY
        || (r.Response? && r.data.Some? && r == FoundReply(r.data.value) && InfoHolds(s, key, r.data.value, at)))
  }

  ghost predicate InfoHolds(s: State, key: string, info: KeyInfo, at: int) {
    && Verifies(s.table, info.id, key) && s.table[info.id].expiresAt == info.expiresAt && InfoAt(s, info, at)
    && (info.status == "active" || info.status == "revoked")
    && (info.status == "active" ==> Unrevoked(s, info.id, at))
    && (info.status == "revoked" ==> info.id in s.revoked)
  }

  ghost predicate CallJustified(cfg: Config, s: State, c: Call) {
    && c.asked <= s.now
    && match c.phase {
         case Started => true
         case Asking => true
         case Matched(id) => Verifies(s.table, id, c.key)
         case Unexpired(id, _) => Verifies(s.table, id, c.key)
         case Touched(id) => Verifies(s.table, id, c.key)
         case Replied(r, at) => ReplyJustified(s, c.key, r, c.asked, at)
         case Decoded(v, at) => Justified(s, c.key, v, c.asked, at)
         case Answered(v, origin, at) =>
           Justified(s, c.key, v, origin, at) && c.asked < origin + Ttl(cfg, v)
       }
  }

  ghost predicate EntryJustified(cfg: Config, s: State, slot: int, e: Entry) {
    && cfg.digest(e.key) == slot && Cacheable(e.verdict)
    && e == EntryFor(cfg, e.key, e.verdict, e.asked, e.decidedAt)
    && Justified(s, e.key, e.verdict, e.asked, e.decidedAt)
  }

  ghost predicate CallsInv(cfg: Config, s: State) {
    forall call | call in s.calls :: CallJustified(cfg, s, s.calls[call])
  }

  ghost predicate EntriesInv(cfg: Config, s: State) {
    forall slot | slot in s.entries :: EntryJustified(cfg, s, slot, s.entries[slot])
  }

  ghost predicate Inv(cfg: Config, s: State) {
    TableInv(cfg, s) && HistoryInv(s) && CallsInv(cfg, s) && EntriesInv(cfg, s)
  }

  // ---------- What every step keeps ----------

  /** Time goes on; rows keep their hash and expiry; creations and revocations are recorded
      once, no earlier than now. */
  ghost predicate Extends(s: State, t: State) {
    && s.now <= t.now
    && (forall id | id in s.table ::
          id in t.table && t.table[id].hash == s.table[id].hash && t.table[id].expiresAt == s.table[id].expiresAt)
    && (forall id | id in s.created :: id in t.created && t.created[id] == s.created[id])
    && (forall id | id in t.created && id !in s.created :: s.now <= t.created[id])
    && (forall id | id in s.revoked :: id in t.revoked && t.revoked[id] == s.revoked[id])
    && (forall id | id in t.revoked && id !in s.revoked :: s.now <= t.revoked[id])
    && HistoryGrows(s, t)
  }

  /** Histories only get longer, by values that hold from now on. */
  ghost predicate HistoryGrows(s: State, t: State) {
    forall id | id in s.history :: id in t.history && LaterVersions(s.history[id], t.history[id], s.now)
  }

  ghost predicate LaterVersions(before: seq<Version>, after: seq<Version>, now: int) {
    before <= after && forall v | |before| <= v < |after| :: now <= after[v].since
  }

  ghost predicate SameRows(s: State, t: State) {
    t.now == s.now && t.table == s.table && t.created == s.created && t.revoked == s.revoked && t.history == s.history
  }

  predicate Writes(a: Action) {
    a.Tick? || a.CreateKey? || a.EditKey? || a.RevokeKey? || a.Touch?
  }

  lemma CallStepFrame(cfg: Config, s: State, a: Action)
    requires Enabled(s, a) && !Writes(a)
    ensures SameRows(s, Step(cfg, s, a))
  {
  }

  lemma WriteExtends(s: State, id: int, u: Update)
    requires id in s.table
    ensures Extends(s, Write(s, id, u))
  {
  }

  lemma RevokeExtends(s: State, id: int)
    requires id in s.table
    ensures Extends(s, Revoke(s, id))
  {
  }

  lemma CreateExtends(cfg: Config, s: State, a: Action)
    requires TableInv(cfg, s) && HistoryInv(s) && Enabled(s, a) && a.CreateKey?
    ensures Extends(s, Step(cfg, s, a))
  {
  }

  lemma TickExtends(cfg: Config, s: State, a: Action)
    requires Enabled(s, a) && a.Tick?
    ensures Extends(s, Step(cfg, s, a))
  {
  }

  lemma TouchExtends(cfg: Config, s: State, a: Action)
    requires Enabled(s, a) && a.Touch?
    ensures Extends(s, Step(cfg, s, a))
  {
  }

  lemma StepExtends(cfg: Config, s: State, a: Action)
    requires TableInv(cfg, s) && HistoryInv(s) && Enabled(s, a)
    ensures Extends(s, Step(cfg, s, a))
  {
    match a
    case EditKey(id, name, scopes) => WriteExtends(s, id, Update(name, scopes, None, None));
    case RevokeKey(id) => RevokeExtends(s, id);
    case Touch(_) => TouchExtends(cfg, s, a);
    case Tick(_) => TickExtends(cfg, s, a);
    case CreateKey(_, _, _, _, _, _) => CreateExtends(cfg, s, a);
    case _ =>
      CallStepFrame(cfg, s, a);
      SameRowsExtend(s, Step(cfg, s, a));
  }

  lemma SameRowsExtend(s: State, t: State)
    requires SameRows(s, t)
    ensures Extends(s, t)
  {
  }

  lemma CreateInv(cfg: Config, s: State, a: Action)
    requires TableInv(cfg, s) && Enabled(s, a) && a.CreateKey?
    ensures TableInv(cfg, Step(cfg, s, a))
  {
    CreateKeepsKeyed(s.table, cfg.prefixLength, a.id,
                     Created(a.raw, cfg.prefixLength, a.owner, a.name, a.scopes, a.expiresAt), a.raw);
  }

  lemma WriteInv(cfg: Config, s: State, id: int, u: Update)
    requires TableInv(cfg, s) && id in s.table && u.status.None?
    ensures TableInv(cfg, Write(s, id, u))
  {
  }

  lemma RevokeInv(cfg: Config, s: State, id: int)
    requires TableInv(cfg, s) && id in s.table
    ensures TableInv(cfg, Revoke(s, id))
  {
  }

  lemma TableStep(cfg: Config, s: State, a: Action)
    requires TableInv(cfg, s) && Enabled(s, a)
    ensures TableInv(cfg, Step(cfg, s, a))
  {
    match a
    case CreateKey(_, _, _, _, _, _) => CreateInv(cfg, s, a);
    case EditKey(id, name, scopes) => WriteInv(cfg, s, id, Update(name, scopes, None, None));
    case RevokeKey(id) => RevokeInv(cfg, s, id);
    case Touch(call) => WriteInv(cfg, s, s.calls[call].phase.id, Update(None, None, None, Some(s.calls[call].phase.checkedAt)));
    case Tick(_) =>
    case _ => CallStepFrame(cfg, s, a);
  }

  lemma WriteHistory(s: State, id: int, u: Update)
    requires HistoryInv(s) && id in s.table
    ensures HistoryInv(Write(s, id, u))
  {
  }

  lemma HistoryStep(cfg: Config, s: State, a: Action)
    requires HistoryInv(s) && Enabled(s, a)
    ensures HistoryInv(Step(cfg, s, a))
  {
    match a
    case EditKey(id, name, scopes) => WriteHistory(s, id, Update(name, scopes, None, None));
    case RevokeKey(id) => WriteHistory(s, id, Update(None, None, Some(Revoked), None));
    case Touch(call) => WriteHistory(s, s.calls[call].phase.id, Update(None, None, None, Some(s.calls[call].phase.checkedAt)));
    case Tick(_) =>
    case CreateKey(_, _, _, _, _, _) =>
    case _ => CallStepFrame(cfg, s, a);
  }

  lemma JustifiedStays(s: State, t: State, key: string, v: Verdict, asked: int, at: int)
    requires Extends(s, t) && s.table.Keys == s.created.Keys && t.table.Keys == t.created.Keys
    requires Justified(s, key, v, asked, at)
    ensures Justified(t, key, v, asked, at)
  {
    match v
    case KeyRevoked =>
      var id :| Verifies(s.table, id, key) && id in s.revoked;
      assert Verifies(t.table, id, key);
    case KeyExpired =>
      var id :| Verifies(s.table, id, key) && s.table[id].expiresAt.Some? && s.table[id].expiresAt.value <= s.now;
      assert Verifies(t.table, id, key);
    case KeyNotFound =>
      AbsenceStays(s, t, key, at);
    case Accepted(info) =>
      InfoAtStays(s, t, info, at);
    case _ =>
  }

  lemma InfoAtStays(s: State, t: State, info: KeyInfo, at: int)
    requires HistoryGrows(s, t) && InfoAt(s, info, at) && at <= s.now
    ensures InfoAt(t, info, at)
  {
    var v :| 0 <= v < |s.history[info.id]| && InForce(s.history[info.id], v, at, info);
    assert LaterVersions(s.history[info.id], t.history[info.id], s.now);
    assert InForce(t.history[info.id], v, at, info);
  }

  lemma AbsenceStays(s: State, t: State, key: string, at: int)
    requires Extends(s, t) && s.table.Keys == s.created.Keys && t.table.Keys == t.created.Keys
    requires AbsenceHolds(s, key, at) && at <= s.now
    ensures AbsenceHolds(t, key, at)
  {
  }

  lemma ReplyStays(s: State, t: State, key: string, r: Response, asked: int, at: int)
    requires Extends(s, t) && s.table.Keys == s.created.Keys && t.table.Keys == t.created.Keys
    requires ReplyJustified(s, key, r, asked, at)
    ensures ReplyJustified(t, key, r, asked, at)
  {
    if r == NOT_FOUND_REPLY {
      AbsenceStays(s, t, key, at);
    } else if r == REVOKED_REPLY {
      JustifiedStays(s, t, key, KeyRevoked, asked, at);
    } else if r == EXPIRED_REPLY {
      JustifiedStays(s, t, key, KeyExpired, asked, at);
    } else if r != TransportError {
      InfoAtStays(s, t, r.data.value, at);
    }
  }

  /** A call that did not move is as justified as before. */
  lemma CallStays(cfg: Config, s: State, t: State, c: Call)
    requires Extends(s, t) && s.table.Keys == s.created.Keys && t.table.Keys == t.created.Keys
    requires CallJustified(cfg, s, c)
    ensures CallJustified(cfg, t, c)
  {
    match c.phase
    case Replied(r, at) => ReplyStays(s, t, c.key, r, c.asked, at);
    case Decoded(v, at) => JustifiedStays(s, t, c.key, v, c.asked, at);
    case Answered(v, origin, at) => JustifiedStays(s, t, c.key, v, origin, at);
    case _ =>
  }

  lemma SelectedJustified(cfg: Config, s: State, c: Call)
    requires TableInv(cfg, s) && CallJustified(cfg, s, c)
    ensures CallJustified(cfg, s, c.(phase := Selected(s, c.key)))
  {
  }

  /** A hit hands out a verdict younger than its TTL, whichever call stored it. */
  lemma CacheReadJustified(cfg: Config, s: State, c: Call)
    requires Sound(cfg) && EntriesInv(cfg, s) && CallJustified(cfg, s, c)
    ensures CallJustified(cfg, s, c.(phase := CacheRead(cfg, s, c)))
  {
    if Hit(cfg, s.entries, c.key, c.asked) {
      assert EntryJustified(cfg, s, cfg.digest(c.key), s.entries[cfg.digest(c.key)]);
    }
  }

  lemma RefreshedJustified(cfg: Config, s: State, c: Call, id: int)
    requires TableInv(cfg, s) && HistoryInv(s) && CallJustified(cfg, s, c) && Verifies(s.table, id, c.key)
    ensures CallJustified(cfg, s, c.(phase := Refreshed(s, id)))
  {
    var versions := s.history[id];
    assert InForce(versions, |versions| - 1, s.now, InfoOf(id, s.table[id]));
  }

  lemma ReceivedJustified(cfg: Config, s: State, c: Call)
    requires CallJustified(cfg, s, c) && c.phase.Replied?
    ensures CallJustified(cfg, s, c.(phase := Decoded(Decode(c.phase.response, s.now), c.phase.decidedAt)))
  {
  }

  predicate MovesCall(a: Action) {
    || a.ReadClock? || a.LookInCache? || a.SelectRow? || a.CheckExpiry? || a.Touch? || a.Refresh? || a.Fault?
    || a.Receive? || a.Finish?
  }

  lemma FinishJustified(cfg: Config, s: State, c: Call)
    requires Sound(cfg) && CallJustified(cfg, s, c) && c.phase.Decoded?
    ensures CallJustified(cfg, s, c.(phase := Answered(c.phase.verdict, c.asked, c.phase.decidedAt)))
  {
  }

  lemma ExpiryCheckJustified(cfg: Config, s: State, c: Call)
    requires CallJustified(cfg, s, c) && c.phase.Matched?
    ensures c.phase.id in s.table && CallJustified(cfg, s, c.(phase := ExpiryChecked(s, c.phase.id)))
  {
  }

  lemma PlainMoveJustified(cfg: Config, s: State, a: Action)
    requires Enabled(s, a) && (a.ReadClock? || a.Touch? || a.Fault?)
    requires a.ReadClock? || CallJustified(cfg, s, s.calls[a.call])
    ensures a.call in Step(cfg, s, a).calls && CallJustified(cfg, s, Step(cfg, s, a).calls[a.call])
  {
  }

  /** The call that moves has grounds, in the state it moves in, for where it arrives. */
  lemma MoveJustified(cfg: Config, s: State, a: Action, call: nat)
    requires Sound(cfg) && Inv(cfg, s) && Enabled(s, a) && MovesCall(a) && a.call == call
    ensures call in Step(cfg, s, a).calls && CallJustified(cfg, s, Step(cfg, s, a).calls[call])
  {
    assert !a.ReadClock? ==> CallJustified(cfg, s, s.calls[call]);
    match a
    case LookInCache(_) => CacheReadJustified(cfg, s, s.calls[call]);
    case SelectRow(_) => SelectedJustified(cfg, s, s.calls[call]);
    case Refresh(_) => RefreshedJustified(cfg, s, s.calls[call], s.calls[call].phase.id);
    case Receive(_) => ReceivedJustified(cfg, s, s.calls[call]);
    case CheckExpiry(_) => ExpiryCheckJustified(cfg, s, s.calls[call]);
    case Finish(_) => FinishJustified(cfg, s, s.calls[call]);
    case _ => PlainMoveJustified(cfg, s, a);
  }

  /** No call is ever stuck: until it is answered, one of its own steps can run. */
  lemma CallsNeverStick(cfg: Config, s: State, call: nat) returns (a: Action)
    requires CallsInv(cfg, s) && call in s.calls && !s.calls[call].phase.Answered?
    ensures MovesCall(a) && a.call == call && !a.Fault? && Enabled(s, a)
  {
    assert CallJustified(cfg, s, s.calls[call]);
    match s.calls[call].phase
    case Started => a := LookInCache(call);
    case Asking => a := SelectRow(call);
    case Matched(id) => a := CheckExpiry(call);
    case Unexpired(id, _) => a := Touch(call);
    case Touched(id) => a := Refresh(call);
    case Replied(_, _) => a := Receive(call);
    case Decoded(_, _) => a := Finish(call);
  }

  /** A step moves at most the call it names. */
  lemma OthersStay(cfg: Config, s: State, a: Action, call: nat)
    requires Enabled(s, a) && call in Step(cfg, s, a).calls
    ensures || (call in s.calls && Step(cfg, s, a).calls[call] == s.calls[call])
            || (MovesCall(a) && a.call == call && (a.ReadClock? || call in s.calls))
  {
  }

  lemma CallsStep(cfg: Config, s: State, a: Action)
    requires Sound(cfg) && Inv(cfg, s) && Enabled(s, a)
    ensures CallsInv(cfg, Step(cfg, s, a))
  {
    var t := Step(cfg, s, a);
    StepExtends(cfg, s, a);
    TableStep(cfg, s, a);
    forall call | call in t.calls
      ensures CallJustified(cfg, t, t.calls[call])
    {
      OthersStay(cfg, s, a, call);
      if call in s.calls && t.calls[call] == s.calls[call] {
        CallStays(cfg, s, t, s.calls[call]);
      } else {
        MoveJustified(cfg, s, a, call);
        CallStays(cfg, s, t, t.calls[call]);
      }
    }
  }

  /** Only a finishing call stores an entry: the one for the verdict it returns. */
  lemma EntriesChange(cfg: Config, s: State, a: Action)
    requires Enabled(s, a)
    ensures Step(cfg, s, a).entries == if a.Finish? then Stored(cfg, s, s.calls[a.call]).entries else s.entries
  {
  }

  lemma EntriesStep(cfg: Config, s: State, a: Action)
    requires Sound(cfg) && Inv(cfg, s) && Enabled(s, a)
    ensures EntriesInv(cfg, Step(cfg, s, a))
  {
    var t := Step(cfg, s, a);
    StepExtends(cfg, s, a);
    TableStep(cfg, s, a);
    EntriesChange(cfg, s, a);
    forall slot | slot in t.entries
      ensures EntryJustified(cfg, t, slot, t.entries[slot])
    {
      if slot in s.entries && t.entries[slot] == s.entries[slot] {
        EntryStays(cfg, s, t, slot, s.entries[slot]);
      } else {
        var c := s.calls[a.call];
        assert CallJustified(cfg, s, c);
        EntryStays(cfg, s, t, slot, EntryFor(cfg, c.key, c.phase.verdict, c.asked, c.phase.decidedAt));
      }
    }
  }

  lemma EntryStays(cfg: Config, s: State, t: State, slot: int, e: Entry)
    requires Extends(s, t) && s.table.Keys == s.created.Keys && t.table.Keys == t.created.Keys
    requires EntryJustified(cfg, s, slot, e)
    ensures EntryJustified(cfg, t, slot, e)
  {
    JustifiedStays(s, t, e.key, e.verdict, e.asked, e.decidedAt);
  }

  lemma {:induction false} RunInv(cfg: Config, s: State, actions: seq<Action>)
    requires Sound(cfg) && Inv(cfg, s) && Run(cfg, s, actions)
    ensures Inv(cfg, Exec(cfg, s, actions))
    decreases |actions|
  {
    if actions != [] {
      TableStep(cfg, s, actions[0]);
      HistoryStep(cfg, s, actions[0]);
      CallsStep(cfg, s, actions[0]);
      EntriesStep(cfg, s, actions[0]);
      RunInv(cfg, Step(cfg, s, actions[0]), actions[1..]);
    }
  }

  // ---------- One validation with nothing in between ----------

  /** Started alone, the control plane's part of a call does to the table, and replies, what
      the service's validation does as one operation. */
  lemma UndisturbedValidation(cfg: Config, s: State, call: nat) returns (actions: seq<Action>)
    requires call in s.calls && s.calls[call].phase.Asking?
    ensures Run(cfg, s, actions)
    ensures var t := Exec(cfg, s, actions);
            var (table, reply) := AfterValidation(s.table, s.calls[call].key, s.now);
            && t.table == table && t.calls == s.calls[call := s.calls[call].(phase := Replied(reply, s.now))]
            && t.now == s.now && t.entries == s.entries
  {
    var s1 := Step(cfg, s, SelectRow(call));
    Once(cfg, s, SelectRow(call));
    if !s1.calls[call].phase.Matched? {
      return [SelectRow(call)];
    }
    var s2 := Step(cfg, s1, CheckExpiry(call));
    Once(cfg, s1, CheckExpiry(call));
    if !s2.calls[call].phase.Unexpired? {
      Prepend(cfg, s, SelectRow(call), [CheckExpiry(call)]);
      return [SelectRow(call)] + [CheckExpiry(call)];
    }
    var s3 := Step(cfg, s2, Touch(call));
    Once(cfg, s3, Refresh(call));
    Prepend(cfg, s2, Touch(call), [Refresh(call)]);
    Prepend(cfg, s1, CheckExpiry(call), [Touch(call)] + [Refresh(call)]);
    Prepend(cfg, s, SelectRow(call), [CheckExpiry(call)] + ([Touch(call)] + [Refresh(call)]));
    return [SelectRow(call)] + ([CheckExpiry(call)] + ([Touch(call)] + [Refresh(call)]));
  }

  lemma Once(cfg: Config, s: State, a: Action)
    requires Enabled(s, a)
    ensures Run(cfg, s, [a]) && Exec(cfg, s, [a]) == Step(cfg, s, a)
  {
  }

  lemma Prepend(cfg: Config, s: State, a: Action, rest: seq<Action>)
    requires Enabled(s, a) && Run(cfg, Step(cfg, s, a), rest)
    ensures Run(cfg, s, [a] + rest) && Exec(cfg, s, [a] + rest) == Exec(cfg, Step(cfg, s, a), rest)
  {
  }

  // ---------- Results about every run ----------

  /** Bounded staleness of acceptances: a key revoked at T is accepted by no call that read
      its clock at or after T + positiveTtl, and a key that expires at T likewise. The info
      that comes with an acceptance (owner, scopes and all) is that of the key's row as it
      was at some instant less than positiveTtl before the call read its clock. */
  lemma StaleAcceptanceBound(cfg: Config, began: int, actions: seq<Action>, call: nat)
    requires Sound(cfg) && Run(cfg, Init(began), actions)
    requires var s := Exec(cfg, Init(began), actions);
             call in s.calls && s.calls[call].phase.Answered? && s.calls[call].phase.verdict.Accepted?
    ensures var s := Exec(cfg, Init(began), actions);
            var c := s.calls[call];
            var id := c.phase.verdict.info.id;
            && Verifies(s.table, id, c.key)
            && (id in s.revoked ==> c.asked < s.revoked[id] + cfg.positiveTtl)
            && (s.table[id].expiresAt.Some? ==> c.asked < s.table[id].expiresAt.value + cfg.positiveTtl)
            && exists at :: c.asked - cfg.positiveTtl < at <= s.now && InfoAt(s, c.phase.verdict.info, at)
  {
    RunInv(cfg, Init(began), actions);
    var s := Exec(cfg, Init(began), actions);
    assert CallJustified(cfg, s, s.calls[call]);
  }

  /** Bounded staleness of absences: a key created at T is called unknown by no call that
      read its clock at or after T + negativeTtl. */
  lemma StaleAbsenceBound(cfg: Config, began: int, actions: seq<Action>, call: nat, id: int)
    requires Sound(cfg) && Run(cfg, Init(began), actions)
    requires var s := Exec(cfg, Init(began), actions);
             && call in s.calls && s.calls[call].phase.Answered? && s.calls[call].phase.verdict.KeyNotFound?
             && Verifies(s.table, id, s.calls[call].key)
    ensures var s := Exec(cfg, Init(began), actions);
            id in s.created && s.calls[call].asked < s.created[id] + cfg.negativeTtl
  {
    RunInv(cfg, Init(began), actions);
    var s := Exec(cfg, Init(began), actions);
    assert CallJustified(cfg, s, s.calls[call]);
  }

  /** A refusal as revoked or expired is never wrong, however late it is served: both are
      for good. */
  lemma RefusalsAreTrue(cfg: Config, began: int, actions: seq<Action>, call: nat)
    requires Sound(cfg) && Run(cfg, Init(began), actions)
    requires var s := Exec(cfg, Init(began), actions); call in s.calls && s.calls[call].phase.Answered?
    ensures var s := Exec(cfg, Init(began), actions);
            && (s.calls[call].phase.verdict.KeyRevoked? ==> IsRevoked(s, s.calls[call].key))
            && (s.calls[call].phase.verdict.KeyExpired? ==> IsExpired(s, s.calls[call].key))
  {
    RunInv(cfg, Init(began), actions);
    var s := Exec(cfg, Init(began), actions);
    assert CallJustified(cfg, s, s.calls[call]);
  }

  /** A failure to reach a verdict is never cached: whenever a call looks in the cache, it is
      answered with a verdict on its key or goes on to ask. */
  lemma OutagesAreNotCached(cfg: Config, began: int, actions: seq<Action>, call: nat)
    requires Sound(cfg) && Run(cfg, Init(began), actions)
    requires Enabled(Exec(cfg, Init(began), actions), LookInCache(call))
    ensures var s := Exec(cfg, Init(began), actions);
            var phase := Step(cfg, s, LookInCache(call)).calls[call].phase;
            phase == Asking || (phase.Answered? && !phase.verdict.ValidatorUnavailable?)
  {
    RunInv(cfg, Init(began), actions);
    var s := Exec(cfg, Init(began), actions);
    var slot := cfg.digest(s.calls[call].key);
    assert slot in s.entries ==> EntryJustified(cfg, s, slot, s.entries[slot]);
  }

  /** Revocation is final: no interleaving of validations, edits and revocations brings a
      revoked row back or moves the instant it was revoked. */
  lemma {:induction false} RevocationIsFinal(cfg: Config, s: State, actions: seq<Action>, id: int)
    requires TableInv(cfg, s) && HistoryInv(s) && Run(cfg, s, actions) && id in s.table && s.table[id].status == Revoked
    ensures var t := Exec(cfg, s, actions);
            && id in t.table && t.table[id].status == Revoked
            && id in s.revoked && id in t.revoked && t.revoked[id] == s.revoked[id]
    decreases |actions|
  {
    if actions != [] {
      StepExtends(cfg, s, actions[0]);
      TableStep(cfg, s, actions[0]);
      HistoryStep(cfg, s, actions[0]);
      RevocationIsFinal(cfg, Step(cfg, s, actions[0]), actions[1..], id);
    }
  }
}
