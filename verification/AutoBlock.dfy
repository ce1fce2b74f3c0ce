/**
  Automatic IP blocking (aegis-backend/app/services/analytics_service.py): every ingest
  commits its event, counts recent violations, looks for an active block and inserts one.
  Ingests race with each other and with administrators; the partial unique index on active
  addresses (app/models/ip_block.py) is what stops two active blocks.
*/
module AutoBlock {
  import opened Common

  datatype Config = Config(enabled: bool, threshold: int, window: nat)

  datatype Event = Event(kind: string, ip: string, statusCode: int, createdAt: int)

  predicate Violation(e: Event) {
    e.kind == "threat_detected" || e.kind == "rate_limited"
  }

  /** The ingests that go on to count. */
  predicate Counts(cfg: Config, e: Event) {
    cfg.enabled && Violation(e) && e.ip != "unknown"
  }

  predicate InWindow(e: Event, ip: string, since: int) {
    e.ip == ip && e.createdAt >= since && Violation(e)
  }

  /** Positions in the log of the violations of one address since an instant. */
  function Violations(log: seq<Event>, ip: string, since: int): set<int> {
    set k | 0 <= k < |log| && InWindow(log[k], ip, since)
  }

  /** An automatic block's reason names a number of `violations`. History are the instant of the
      insert and, behind an automatic block, the start of the window and the length of the log
      when those violations were counted. */
  datatype Block = Block(ip: string, active: bool, source: Source, insertedAt: int)
  datatype Source = Manual | Auto(violations: nat, since: int, seen: nat)

  type Blocks = map<int, Block>

  predicate ActiveAt(blocks: Blocks, id: int, ip: string) {
    id in blocks && blocks[id].active && blocks[id].ip == ip
  }

  predicate HasActive(blocks: Blocks, ip: string) {
    exists id | id in blocks :: ActiveAt(blocks, id, ip)
  }

  /** uq_ip_blocks_active_ip_address */
  ghost predicate UniqueActive(blocks: Blocks) {
    forall id, id', ip | ActiveAt(blocks, id, ip) && ActiveAt(blocks, id', ip) :: id == id'
  }

  /** INSERT under the index: refused when it would make a second active block. */
  predicate InsertRefused(blocks: Blocks, b: Block) {
    b.active && HasActive(blocks, b.ip)
  }

  function Insert(blocks: Blocks, id: int, b: Block): Blocks {
    if InsertRefused(blocks, b) then blocks else blocks[id := b]
  }

  /** UPDATE of one row's status under the index. */
  function SetStatus(blocks: Blocks, id: int, active: bool): Blocks
    requires id in blocks
  {
    if active && exists other | other in blocks :: other != id && ActiveAt(blocks, other, blocks[id].ip) then blocks
    else blocks[id := blocks[id].(active := active)]
  }

  // ---------- The interleaved system ----------

  datatype Phase =
    | Inserting                                  // transaction open, created_at fixed
    | Committed(index: nat)
    | Windowed(index: nat, since: int)           // clock read
    | AboveThreshold(index: nat, violations: nat, since: int, seen: nat)
    | NoneActive(index: nat, violations: nat, since: int, seen: nat)
    | Finished(index: nat, judged: Option<Judgement>)
    | Failed                                     // the request died on an infrastructure error

  datatype Judgement = Judgement(since: int, seen: nat)

  datatype Ingest = Ingest(event: Event, phase: Phase)

  datatype State = State(now: int, log: seq<Event>, blocks: Blocks, ingests: map<nat, Ingest>)

  datatype Action =
    | Tick(to: int)
    | Begin(i: nat, kind: string, ip: string, statusCode: int)
    | Commit(i: nat)
    | ReadClock(i: nat)
    | Count(i: nat)
    | CheckActive(i: nat)
    | InsertAuto(i: nat, id: int)
    | Fail(i: nat)
    | AdminInsert(id: int, ip: string, active: bool)
    | AdminSetStatus(id: int, active: bool)

  function Init(now: int): State { State(now, [], map[], map[]) }

  predicate Enabled(s: State, a: Action) {
    match a
    case Tick(to) => s.now <= to
    case Begin(i, _, _, _) => i !in s.ingests
    case Commit(i) => i in s.ingests && s.ingests[i].phase.Inserting?
    case ReadClock(i) => i in s.ingests && s.ingests[i].phase.Committed?
    case Count(i) => i in s.ingests && s.ingests[i].phase.Windowed?
    case CheckActive(i) => i in s.ingests && s.ingests[i].phase.AboveThreshold?
    case InsertAuto(i, id) => i in s.ingests && s.ingests[i].phase.NoneActive? && id !in s.blocks
    case Fail(i) => i in s.ingests && !s.ingests[i].phase.Finished?
    case AdminInsert(id, _, _) => id !in s.blocks
    case AdminSetStatus(id, _) => id in s.blocks
  }

  function Goto(s: State, i: nat, phase: Phase): State
    requires i in s.ingests
  {
    s.(ingests := s.ingests[i := s.ingests[i].(phase := phase)])
  }

  function Commits(s: State, i: nat): State
    requires i in s.ingests
  {
    Goto(s.(log := s.log + [s.ingests[i].event]), i, Committed(|s.log|))
  }

  /** Events that do not count finish here; the others fix the window's start. */
  function ReadsClock(cfg: Config, s: State, i: nat, index: nat): State
    requires i in s.ingests
  {
    if Counts(cfg, s.ingests[i].event) then Goto(s, i, Windowed(index, s.now - cfg.window))
    else Goto(s, i, Finished(index, None))
  }

  function Counted(cfg: Config, s: State, i: nat, index: nat, since: int): State
    requires i in s.ingests
  {
    var violations := |Violations(s.log, s.ingests[i].event.ip, since)|;
    if violations < cfg.threshold then Goto(s, i, Finished(index, Some(Judgement(since, |s.log|))))
    else Goto(s, i, AboveThreshold(index, violations, since, |s.log|))
  }

  function Checked(s: State, i: nat, index: nat, violations: nat, since: int, seen: nat): State
    requires i in s.ingests
  {
    if HasActive(s.blocks, s.ingests[i].event.ip) then Goto(s, i, Finished(index, Some(Judgement(since, seen))))
    else Goto(s, i, NoneActive(index, violations, since, seen))
  }

  /** The insert, or the IntegrityError and the rollback: the event row stays either way. */
  function Inserted(s: State, i: nat, id: int, index: nat, violations: nat, since: int, seen: nat): State
    requires i in s.ingests
  {
    Goto(s.(blocks := Insert(s.blocks, id, Block(s.ingests[i].event.ip, true, Auto(violations, since, seen), s.now))),
         i, Finished(index, Some(Judgement(since, seen))))
  }

  function Step(cfg: Config, s: State, a: Action): State
    requires Enabled(s, a)
  {
    match a
    case Tick(to) => s.(now := to)
    case Begin(i, kind, ip, code) => s.(ingests := s.ingests[i := Ingest(Event(kind, ip, code, s.now), Inserting)])
    case Commit(i) => Commits(s, i)
    case ReadClock(i) => ReadsClock(cfg, s, i, s.ingests[i].phase.index)
    case Count(i) => Counted(cfg, s, i, s.ingests[i].phase.index, s.ingests[i].phase.since)
    case CheckActive(i) => var p := s.ingests[i].phase; Checked(s, i, p.index, p.violations, p.since, p.seen)
    case InsertAuto(i, id) => var p := s.ingests[i].phase; Inserted(s, i, id, p.index, p.violations, p.since, p.seen)
    case Fail(i) => Goto(s, i, Failed)
    case AdminInsert(id, ip, active) => s.(blocks := Insert(s.blocks, id, Block(ip, active, Manual, s.now)))
    case AdminSetStatus(id, active) => s.(blocks := SetStatus(s.blocks, id, active))
  }

  /** The states of one run, in order. */
  ghost predicate Trace(cfg: Config, states: seq<State>, actions: seq<Action>) {
    && |states| == |actions| + 1
    && (exists began :: states[0] == Init(began))
    && forall n {:trigger Follows(cfg, states, actions, n)} | 0 <= n < |actions| :: Follows(cfg, states, actions, n)
  }

  ghost predicate Follows(cfg: Config, states: seq<State>, actions: seq<Action>, n: nat)
    requires n < |actions| && n + 1 < |states|
  {
    Enabled(states[n], actions[n]) && states[n + 1] == Step(cfg, states[n], actions[n])
  }

  // ---------- Invariants ----------

  predicate HasIndex(p: Phase) {
    !p.Inserting? && !p.Failed?
  }

  /** A committed ingest's event is in the log where it was put; what was counted was counted
      at or after the commit, over a window that ends no later than now. */
  ghost predicate GoodIngest(cfg: Config, s: State, g: Ingest) {
    && g.event.createdAt <= s.now
    && (HasIndex(g.phase) ==> g.phase.index < |s.log| && s.log[g.phase.index] == g.event)
    && (g.phase.Windowed? ==> Counts(cfg, g.event) && g.event.createdAt <= g.phase.since + cfg.window <= s.now)
    && (g.phase.AboveThreshold? || g.phase.NoneActive? ==>
          && GoodCount(cfg, s, g.event, g.phase.index, Judgement(g.phase.since, g.phase.seen))
          && g.phase.violations == |Violations(s.log[..g.phase.seen], g.event.ip, g.phase.since)|
          && g.phase.violations >= cfg.threshold)
    && (g.phase.Finished? && g.phase.judged.Some? ==> GoodCount(cfg, s, g.event, g.phase.index, g.phase.judged.value))
    && (g.phase.Finished? ==> (g.phase.judged.Some? <==> Counts(cfg, g.event)))
    && (g.phase.AboveThreshold? || g.phase.NoneActive? ==> Counts(cfg, g.event))
  }

  /** The window that was counted ends at an instant between the event's creation and now. */
  ghost predicate GoodCount(cfg: Config, s: State, e: Event, index: nat, j: Judgement) {
    index < j.seen <= |s.log| && e.createdAt <= j.since + cfg.window <= s.now
  }

  /** A violation of the address that was there by the end of the window. */
  predicate Triggers(e: Event, ip: string, windowEnd: int) {
    Violation(e) && e.ip == ip && e.createdAt <= windowEnd
  }

  /** What an automatic block records of its count: as many violations of its address as its
      reason names, at least `threshold`, all logged by the time it was inserted, counted since
      the start of a window that ends no later than the insert and no earlier than some logged violation of the address. The
      count has no upper bound, so not all of them need lie in that window; BlockProvenance
      says when they do, and ties the record to the steps of the run. */
  ghost predicate Earned(cfg: Config, log: seq<Event>, b: Block)
    requires b.source.Auto?
  {
    var windowEnd := b.source.since + cfg.window;
    && b.source.seen <= |log|
    && windowEnd <= b.insertedAt
    && (exists k | 0 <= k < b.source.seen :: Triggers(log[k], b.ip, windowEnd))
    && b.source.violations == |Violations(log[..b.source.seen], b.ip, b.source.since)|
    && b.source.violations >= cfg.threshold
    && forall k | 0 <= k < b.source.seen :: log[k].createdAt <= b.insertedAt
  }

  ghost predicate LogInv(s: State) {
    forall k | 0 <= k < |s.log| :: s.log[k].createdAt <= s.now
  }

  ghost predicate IngestsInv(cfg: Config, s: State) {
    forall i | i in s.ingests :: GoodIngest(cfg, s, s.ingests[i])
  }

  ghost predicate EarnedInv(cfg: Config, s: State) {
    forall id | id in s.blocks && s.blocks[id].source.Auto? :: Earned(cfg, s.log, s.blocks[id])
  }

  ghost predicate Inv(cfg: Config, s: State) {
    LogInv(s) && IngestsInv(cfg, s) && EarnedInv(cfg, s) && UniqueActive(s.blocks)
  }

  lemma LogGrows(cfg: Config, s: State, a: Action)
    requires Enabled(s, a)
    ensures s.log <= Step(cfg, s, a).log && s.now <= Step(cfg, s, a).now
  {
  }

  lemma LogStep(cfg: Config, s: State, a: Action)
    requires LogInv(s) && IngestsInv(cfg, s) && Enabled(s, a)
    ensures LogInv(Step(cfg, s, a))
  {
  }

  lemma IngestStays(cfg: Config, s: State, t: State, g: Ingest)
    requires s.log <= t.log && s.now <= t.now && GoodIngest(cfg, s, g)
    ensures GoodIngest(cfg, t, g)
  {
    if g.phase.AboveThreshold? || g.phase.NoneActive? {
      assert s.log[..g.phase.seen] == t.log[..g.phase.seen];
    }
  }

  predicate Moves(a: Action) {
    a.Begin? || a.Commit? || a.ReadClock? || a.Count? || a.CheckActive? || a.InsertAuto? || a.Fail?
  }

  lemma MovedIngest(cfg: Config, s: State, a: Action)
    requires IngestsInv(cfg, s) && Enabled(s, a) && Moves(a)
    ensures GoodIngest(cfg, Step(cfg, s, a), Step(cfg, s, a).ingests[a.i])
  {
    if !a.Begin? {
      assert GoodIngest(cfg, s, s.ingests[a.i]);
    }
    assert s.log[..|s.log|] == s.log;
  }

  lemma IngestsStep(cfg: Config, s: State, a: Action)
    requires IngestsInv(cfg, s) && Enabled(s, a)
    ensures IngestsInv(cfg, Step(cfg, s, a))
  {
    var t := Step(cfg, s, a);
    LogGrows(cfg, s, a);
    forall i | i in t.ingests
      ensures GoodIngest(cfg, t, t.ingests[i])
    {
      if Moves(a) && a.i == i {
        MovedIngest(cfg, s, a);
      } else {
        IngestStays(cfg, s, t, s.ingests[i]);
      }
    }
  }

  lemma EarnedStays(cfg: Config, log: seq<Event>, longer: seq<Event>, b: Block)
    requires log <= longer && b.source.Auto? && Earned(cfg, log, b)
    ensures Earned(cfg, longer, b)
  {
    assert log[..b.source.seen] == longer[..b.source.seen];
  }

  lemma AutoIsEarned(cfg: Config, s: State, i: nat, id: int)
    requires LogInv(s) && IngestsInv(cfg, s) && Enabled(s, InsertAuto(i, id))
    ensures var p := s.ingests[i].phase;
            Earned(cfg, s.log, Block(s.ingests[i].event.ip, true, Auto(p.violations, p.since, p.seen), s.now))
  {
    var p := s.ingests[i].phase;
    assert GoodIngest(cfg, s, s.ingests[i]);
    assert Triggers(s.log[p.index], s.ingests[i].event.ip, p.since + cfg.window);
  }

  lemma EarnedStep(cfg: Config, s: State, a: Action)
    requires LogInv(s) && IngestsInv(cfg, s) && EarnedInv(cfg, s) && Enabled(s, a)
    ensures EarnedInv(cfg, Step(cfg, s, a))
  {
    var t := Step(cfg, s, a);
    LogGrows(cfg, s, a);
    if a.InsertAuto? {
      AutoIsEarned(cfg, s, a.i, a.id);
    }
    forall id | id in t.blocks && t.blocks[id].source.Auto?
      ensures Earned(cfg, t.log, t.blocks[id])
    {
      if id in s.blocks {
        EarnedStays(cfg, s.log, t.log, s.blocks[id]);
      }
    }
  }

  lemma InsertUnique(blocks: Blocks, id: int, b: Block)
    requires UniqueActive(blocks) && id !in blocks
    ensures UniqueActive(Insert(blocks, id, b))
    ensures b.active ==> HasActive(Insert(blocks, id, b), b.ip)
  {
    var after := Insert(blocks, id, b);
    if !InsertRefused(blocks, b) {
      assert ActiveAt(after, id, b.ip) <==> b.active;
      forall x, y, ip | ActiveAt(after, x, ip) && ActiveAt(after, y, ip)
        ensures x == y
      {
        assert x != id ==> ActiveAt(blocks, x, ip);
        assert y != id ==> ActiveAt(blocks, y, ip);
      }
    }
  }

  lemma SetStatusUnique(blocks: Blocks, id: int, active: bool)
    requires UniqueActive(blocks) && id in blocks
    ensures UniqueActive(SetStatus(blocks, id, active))
  {
    var after := SetStatus(blocks, id, active);
    forall x, y, ip | ActiveAt(after, x, ip) && ActiveAt(after, y, ip)
      ensures x == y
    {
      assert x != id ==> ActiveAt(blocks, x, ip);
      assert y != id ==> ActiveAt(blocks, y, ip);
    }
  }

  lemma UniqueStep(cfg: Config, s: State, a: Action)
    requires UniqueActive(s.blocks) && Enabled(s, a)
    ensures UniqueActive(Step(cfg, s, a).blocks)
  {
    match a
    case InsertAuto(i, id) =>
      var p := s.ingests[i].phase;
      InsertUnique(s.blocks, id, Block(s.ingests[i].event.ip, true, Auto(p.violations, p.since, p.seen), s.now));
    case AdminInsert(id, ip, active) => InsertUnique(s.blocks, id, Block(ip, active, Manual, s.now));
    case AdminSetStatus(id, active) => SetStatusUnique(s.blocks, id, active);
    case _ =>
  }

  lemma StepInv(cfg: Config, s: State, a: Action)
    requires Inv(cfg, s) && Enabled(s, a)
    ensures Inv(cfg, Step(cfg, s, a))
  {
    LogStep(cfg, s, a);
    IngestsStep(cfg, s, a);
    EarnedStep(cfg, s, a);
    UniqueStep(cfg, s, a);
  }

  lemma {:induction false} TraceInv(cfg: Config, states: seq<State>, actions: seq<Action>, n: nat)
    requires Trace(cfg, states, actions) && n < |states|
    ensures Inv(cfg, states[n])
  {
    if n > 0 {
      TraceInv(cfg, states, actions, n - 1);
      assert Follows(cfg, states, actions, n - 1);
      StepInv(cfg, states[n - 1], actions[n - 1]);
    }
  }

  // ---------- Results about every run ----------

  /** At most one active block per address, and no automatic block without at least
      `threshold` violations of its address, as many as its reason names, counted since the
      recorded start of a window. */
  lemma BlocksAreEarnedAndUnique(cfg: Config, states: seq<State>, actions: seq<Action>, n: nat)
    requires Trace(cfg, states, actions) && n < |states|
    ensures UniqueActive(states[n].blocks)
    ensures forall id | id in states[n].blocks && states[n].blocks[id].source.Auto? ::
              Earned(cfg, states[n].log, states[n].blocks[id])
  {
    TraceInv(cfg, states, actions, n);
  }

  /** A committed event stays in the log for good, also when its ingest loses the race for
      the block and is rolled back. */
  lemma {:induction false} CommittedEventsSurvive(cfg: Config, states: seq<State>, actions: seq<Action>, n: nat, m: nat)
    requires Trace(cfg, states, actions) && n <= m < |states|
    ensures states[n].log <= states[m].log
    decreases m - n
  {
    if n < m {
      CommittedEventsSurvive(cfg, states, actions, n, m - 1);
      assert Follows(cfg, states, actions, m - 1);
      LogGrows(cfg, states[m - 1], actions[m - 1]);
    }
  }

  ghost predicate PastCommit(s: State, i: nat) {
    i in s.ingests && HasIndex(s.ingests[i].phase)
  }

  /** At some moment up to `n`, after ingest `i` had committed, the address was blocked. */
  ghost predicate BlockedDuring(states: seq<State>, n: nat, i: nat, ip: string)
    requires n < |states|
  {
    exists m | 0 <= m <= n :: PastCommit(states[m], i) && HasActive(states[m].blocks, ip)
  }

  ghost predicate Judged(s: State, i: nat) {
    i in s.ingests && s.ingests[i].phase.Finished? && s.ingests[i].phase.judged.Some?
  }

  /** A finished ingest that had counted enough violations. */
  ghost predicate OverThreshold(cfg: Config, s: State, i: nat) {
    && Judged(s, i)
    && var g := s.ingests[i];
       var j := g.phase.judged.value;
       j.seen <= |s.log| && |Violations(s.log[..j.seen], g.event.ip, j.since)| >= cfg.threshold
  }

  /** The step on which such an ingest finishes leaves from, or arrives at, an active block. */
  lemma FinishingStep(cfg: Config, s: State, a: Action, i: nat)
    requires Inv(cfg, s) && Enabled(s, a)
    requires OverThreshold(cfg, Step(cfg, s, a), i) && !Judged(s, i)
    ensures var t := Step(cfg, s, a);
            var ip := t.ingests[i].event.ip;
            (PastCommit(s, i) && HasActive(s.blocks, ip)) || (PastCommit(t, i) && HasActive(t.blocks, ip))
  {
    assert s.log[..|s.log|] == s.log;
    if a.InsertAuto? {
      var p := s.ingests[i].phase;
      InsertUnique(s.blocks, a.id, Block(s.ingests[i].event.ip, true, Auto(p.violations, p.since, p.seen), s.now));
    }
  }

  lemma JudgedStays(cfg: Config, s: State, a: Action, i: nat)
    requires Inv(cfg, s) && Enabled(s, a) && Judged(s, i)
    ensures Judged(Step(cfg, s, a), i) && Step(cfg, s, a).ingests[i] == s.ingests[i]
    ensures OverThreshold(cfg, Step(cfg, s, a), i) ==> OverThreshold(cfg, s, i)
  {
    assert GoodIngest(cfg, s, s.ingests[i]);
    LogGrows(cfg, s, a);
    var seen := s.ingests[i].phase.judged.value.seen;
    assert s.log[..seen] == Step(cfg, s, a).log[..seen];
  }

  /** An ingest that finishes over the threshold has seen, or made, an active block. */
  lemma {:induction false} FinishingMeansBlocked(cfg: Config, states: seq<State>, actions: seq<Action>, n: nat, i: nat)
    requires Trace(cfg, states, actions) && n < |states| && OverThreshold(cfg, states[n], i)
    ensures BlockedDuring(states, n, i, states[n].ingests[i].event.ip)
  {
    assert n > 0;
    var s, a := states[n - 1], actions[n - 1];
    assert Follows(cfg, states, actions, n - 1);
    TraceInv(cfg, states, actions, n - 1);
    if Judged(s, i) {
      JudgedStays(cfg, s, a, i);
      FinishingMeansBlocked(cfg, states, actions, n - 1, i);
      var ip := s.ingests[i].event.ip;
      var m :| 0 <= m <= n - 1 && PastCommit(states[m], i) && HasActive(states[m].blocks, ip);
    } else {
      FinishingStep(cfg, s, a, i);
    }
  }

  /** No block is lost. Take any `threshold` or more logged violations of one address, the
      last of them committed by ingest `i`, none older than a window when `i` reads its
      clock. If `i` runs to its end, the address had an active block at some moment after
      `i` committed: found, inserted by `i`, or inserted by whoever beat it to the index. */
  lemma NoBlockIsLost(cfg: Config, states: seq<State>, actions: seq<Action>, n: nat, i: nat, events: set<int>)
    requires Trace(cfg, states, actions) && n < |states| && Judged(states[n], i)
    requires |events| >= cfg.threshold
    requires var g := states[n].ingests[i];
             forall k | k in events ::
               && 0 <= k <= g.phase.index && k < |states[n].log|
               && InWindow(states[n].log[k], g.event.ip, g.phase.judged.value.since)
    ensures BlockedDuring(states, n, i, states[n].ingests[i].event.ip)
  {
    var s := states[n];
    var g := s.ingests[i];
    TraceInv(cfg, states, actions, n);
    assert GoodIngest(cfg, s, g);
    SubsetBound(events, Violations(s.log[..g.phase.judged.value.seen], g.event.ip, g.phase.judged.value.since));
    FinishingMeansBlocked(cfg, states, actions, n, i);
  }

  /** Exactly the ingests that count are judged, each over a window that ends at an instant
      between its event's creation and now. */
  lemma JudgedIff(cfg: Config, states: seq<State>, actions: seq<Action>, n: nat, i: nat)
    requires Trace(cfg, states, actions) && n < |states|
    requires i in states[n].ingests && states[n].ingests[i].phase.Finished?
    ensures var g := states[n].ingests[i];
            && (g.phase.judged.Some? <==>
                  && cfg.enabled && g.event.ip != "unknown"
                  && (g.event.kind == "threat_detected" || g.event.kind == "rate_limited"))
            && (g.phase.judged.Some? ==>
                  g.event.createdAt <= g.phase.judged.value.since + cfg.window <= states[n].now)
  {
    TraceInv(cfg, states, actions, n);
    assert GoodIngest(cfg, states[n], states[n].ingests[i]);
  }

  // ---------- One ingest at a time ----------

  class AnalyticsService {
    const cfg: Config
    var log: seq<Event>
    var blocks: Blocks
    var nextId: int

    ghost predicate Valid()
      reads this
    {
      UniqueActive(blocks) && forall id | id in blocks :: id < nextId
    }

    constructor (cfg: Config)
      ensures Valid() && this.cfg == cfg && log == [] && blocks == map[]
    {
      this.cfg := cfg;
      log, blocks, nextId := [], map[], 1;
    }

    /** INSERT; false is IntegrityError. The id is spent either way. */
    method CreateBlock(b: Block) returns (ok: bool)
      requires Valid()
      modifies this
      ensures Valid() && log == old(log)
      ensures ok == !InsertRefused(old(blocks), b)
      ensures blocks == Insert(old(blocks), old(nextId), b)
      ensures b.active ==> HasActive(blocks, b.ip)
    {
      InsertUnique(blocks, nextId, b);
      ok := !InsertRefused(blocks, b);
      blocks := Insert(blocks, nextId, b);
      nextId := nextId + 1;
    }

    /** After an ingest the event is logged, and its address is blocked exactly when it was
        already, or when the event counts and the window then holds enough violations. */
    method Ingest(kind: string, ip: string, statusCode: int, now: int)
      requires Valid()
      modifies this
      ensures Valid()
      ensures log == old(log) + [Event(kind, ip, statusCode, now)]
      ensures HasActive(blocks, ip) <==>
              || old(HasActive(blocks, ip))
              || (Counts(cfg, Event(kind, ip, statusCode, now)) && |Violations(log, ip, now - cfg.window)| >= cfg.threshold)
      ensures forall other :: other != ip ==> (HasActive(blocks, other) <==> old(HasActive(blocks, other)))
      ensures forall id | id in old(blocks) :: id in blocks && blocks[id] == old(blocks[id])
      ensures forall id | id in blocks && id !in old(blocks) ::
                && blocks[id] == Block(ip, true, Auto(|Violations(log, ip, now - cfg.window)|, now - cfg.window, |log|), now)
                && ((forall k | 0 <= k < |log| :: log[k].createdAt <= now) ==> Earned(cfg, log, blocks[id]))
    {
      var event := Event(kind, ip, statusCode, now);
      log := log + [event];
      AutoBlockIfNeeded(event, now);
    }

    method AutoBlockIfNeeded(event: Event, now: int)
      requires Valid()
      modifies this
      ensures Valid() && log == old(log)
      ensures HasActive(blocks, event.ip) <==>
              || old(HasActive(blocks, event.ip))
              || (Counts(cfg, event) && |Violations(log, event.ip, now - cfg.window)| >= cfg.threshold)
      ensures forall other :: other != event.ip ==> (HasActive(blocks, other) <==> old(HasActive(blocks, other)))
      ensures forall id | id in old(blocks) :: id in blocks && blocks[id] == old(blocks[id])
      ensures forall id | id in blocks && id !in old(blocks) ::
                && blocks[id] == Block(event.ip, true, Auto(|Violations(log, event.ip, now - cfg.window)|, now - cfg.window, |log|), now)
                && (event in log && (forall k | 0 <= k < |log| :: log[k].createdAt <= now) ==> Earned(cfg, log, blocks[id]))
    {
      if !Counts(cfg, event) {
        return;
      }
      var since := now - cfg.window;
      assert log[..|log|] == log;
      var violations := |Violations(log, event.ip, since)|;
      if violations < cfg.threshold {
        return;
      }
      if HasActive(blocks, event.ip) {
        return;
      }
      ghost var before := blocks;
      var _ := CreateBlock(Block(event.ip, true, Auto(violations, since, |log|), now));
      forall other | other != event.ip
        ensures HasActive(blocks, other) <==> HasActive(before, other)
      {
        forall id ensures ActiveAt(blocks, id, other) <==> ActiveAt(before, id, other) {}
      }
    }
  }
}
