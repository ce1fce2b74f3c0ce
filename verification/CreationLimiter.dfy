/**
  The API-key creation limiter (app/core/rate_limit.py): a fixed window kept in one
  Redis counter per owner by two separate commands, INCR and then EXPIRE.

  `Step` interleaves the commands of any number of callers on one owner's counter.
  A reply can be lost after Redis applied the command, and a command can fail without
  being applied; both raise RedisError in the caller.
*/
module CreationLimiter {
  import opened Common

  datatype Settings = Settings(limit: int, window: int)

  // ---------- Redis ----------

  datatype Counter = Absent | Present(count: nat, deadline: Option<int>)

  /** What Redis sees at an instant: a key whose deadline has come is gone. */
  function Live(c: Counter, now: int): Counter {
    if c.Present? && c.deadline.Some? && c.deadline.value <= now then Absent else c
  }

  /** INCR creates the key at 1 without a deadline, and keeps the deadline of a live key. */
  function Incr(c: Counter, now: int): Counter {
    match Live(c, now)
    case Absent => Present(1, None)
    case Present(n, d) => Present(n + 1, d)
  }

  /** EXPIRE does nothing to a missing key. */
  function Expire(c: Counter, now: int, window: int): Counter {
    match Live(c, now)
    case Absent => Absent
    case Present(n, _) => Present(n, Some(now + window))
  }

  // ---------- Callers ----------

  datatype Outcome = Admitted | LimitExceeded | Unavailable

  /** One INCR as Redis executed it: the value it returned, when, and in which generation
      of the counter (generation g is the g-th time the key was created). */
  datatype Hit = Hit(count: nat, at: int, generation: int)

  datatype Phase = Incremented | ExpirySet | Finished(outcome: Outcome, doneAt: int)

  /** `replies` holds the INCR reply each caller received, `phases` how far it has come,
      `starts` the instants at which the counter's generations began. */
  datatype State = State(
    now: int, counter: Counter, replies: map<nat, Hit>, phases: map<nat, Phase>, starts: seq<int>)

  datatype Fault = Delivered | ReplyLost | NotApplied

  datatype Action =
    | Tick(to: int)
    | SendIncr(id: nat, fault: Fault)
    | SendExpire(id: nat, fault: Fault)
    | Decide(id: nat)

  function Init(now: int): State { State(now, Absent, map[], map[], []) }

  predicate At(s: State, id: nat, phase: Phase) {
    id in s.phases && s.phases[id] == phase && id in s.replies
  }

  predicate Enabled(s: State, a: Action) {
    match a
    case Tick(to) => s.now <= to
    case SendIncr(id, _) => id !in s.phases && id !in s.replies
    case SendExpire(id, _) => At(s, id, Incremented) && s.replies[id].count == 1
    case Decide(id) => At(s, id, ExpirySet) || (At(s, id, Incremented) && s.replies[id].count != 1)
  }

  function Failed(s: State, id: nat): State {
    s.(phases := s.phases[id := Finished(Unavailable, s.now)])
  }

  /** Redis executes one INCR; a new key opens a new generation. */
  function IncrApplied(s: State): State {
    s.(counter := Incr(s.counter, s.now),
       starts := if Live(s.counter, s.now).Absent? then s.starts + [s.now] else s.starts)
  }

  function Received(s: State, id: nat, hit: Hit): State {
    s.(replies := s.replies[id := hit], phases := s.phases[id := Incremented])
  }

  function Verdict(cfg: Settings, count: nat): Outcome {
    if count > cfg.limit then LimitExceeded else Admitted
  }

  function Step(cfg: Settings, s: State, a: Action): State
    requires Enabled(s, a)
  {
    match a
    case Tick(to) => s.(now := to)
    case SendIncr(id, fault) =>
      if fault.NotApplied? then Failed(s, id)
      else
        var t := IncrApplied(s);
        if fault.ReplyLost? then Failed(t, id) else Received(t, id, Hit(t.counter.count, s.now, |t.starts| - 1))
    case SendExpire(id, fault) =>
      if fault.NotApplied? then Failed(s, id)
      else
        var t := s.(counter := Expire(s.counter, s.now, cfg.window));
        if fault.ReplyLost? then Failed(t, id) else t.(phases := t.phases[id := ExpirySet])
    case Decide(id) => s.(phases := s.phases[id := Finished(Verdict(cfg, s.replies[id].count), s.now)])
  }

  ghost predicate Run(cfg: Settings, s: State, actions: seq<Action>)
    decreases |actions|
  {
    actions != [] ==> Enabled(s, actions[0]) && Run(cfg, Step(cfg, s, actions[0]), actions[1..])
  }

  ghost function Exec(cfg: Settings, s: State, actions: seq<Action>): State
    requires Run(cfg, s, actions)
    decreases |actions|
  {
    if actions == [] then s else Exec(cfg, Step(cfg, s, actions[0]), actions[1..])
  }

  // ---------- The inductive invariant ----------

  ghost predicate GoodHit(s: State, h: Hit) {
    && 0 <= h.generation < |s.starts|
    && 1 <= h.count
    && s.starts[h.generation] <= h.at <= s.now
    && (h.count == 1 ==> h.at == s.starts[h.generation])
    && (h.generation + 1 < |s.starts| ==> h.at < s.starts[h.generation + 1])
    && (h.generation + 1 == |s.starts| && s.counter.Present? ==>
        && h.count <= s.counter.count
        && (s.counter.deadline.Some? ==> h.at < s.counter.deadline.value))
  }

  ghost predicate CounterInv(cfg: Settings, s: State) {
    && Spaced(s.starts, cfg.window)
    && (s.counter.Absent? <==> s.starts == [])
    && (forall i :: 0 <= i < |s.starts| ==> s.starts[i] <= s.now)
    && (s.counter.Present? ==>
        && 1 <= s.counter.count
        && (s.counter.deadline.Some? ==> s.starts[|s.starts| - 1] + cfg.window <= s.counter.deadline.value))
  }

  /** Every reply received describes a real hit. */
  ghost predicate HitsInv(s: State) {
    forall id | id in s.replies :: GoodHit(s, s.replies[id])
  }

  ghost predicate SameSlot(h: Hit, h': Hit) {
    h.generation == h'.generation && h.count == h'.count
  }

  /** No two callers received the same reply. */
  ghost predicate DistinctInv(replies: map<nat, Hit>) {
    forall id, id' | id in replies && id' in replies && id != id' :: !SameSlot(replies[id], replies[id'])
  }

  /** While an EXPIRE is owed, its generation is the current one and has no deadline. */
  ghost predicate OwedInv(s: State) {
    forall id | At(s, id, Incremented) && s.replies[id].count == 1 ::
      s.replies[id].generation + 1 == |s.starts| && s.counter.Present? && s.counter.deadline.None?
  }

  ghost predicate VerdictInv(cfg: Settings, s: State) {
    forall id | AdmittedCall(s, id) ::
      id in s.replies && s.replies[id].count <= cfg.limit && s.replies[id].at <= s.phases[id].doneAt
  }

  ghost predicate AdmittedCall(s: State, id: nat) {
    id in s.phases && s.phases[id].Finished? && s.phases[id].outcome.Admitted?
  }

  ghost predicate Inv(cfg: Settings, s: State) {
    CounterInv(cfg, s) && HitsInv(s) && DistinctInv(s.replies) && OwedInv(s) && VerdictInv(cfg, s)
  }

  lemma IncrAppliedHits(cfg: Settings, s: State)
    requires cfg.window > 0 && CounterInv(cfg, s) && HitsInv(s)
    ensures HitsInv(IncrApplied(s))
    ensures var t := IncrApplied(s);
            var hit := Hit(t.counter.count, s.now, |t.starts| - 1);
            && GoodHit(t, hit)
            && (hit.count == 1 ==> t.counter.deadline.None?)
            && forall id | id in t.replies :: !SameSlot(t.replies[id], hit)
  {
  }

  lemma IncrAppliedRest(cfg: Settings, s: State)
    requires cfg.window > 0 && CounterInv(cfg, s) && DistinctInv(s.replies) && OwedInv(s) && VerdictInv(cfg, s)
    ensures var t := IncrApplied(s); CounterInv(cfg, t) && DistinctInv(t.replies) && OwedInv(t) && VerdictInv(cfg, t)
  {
  }

  /** An EXPIRE always lands on the generation that its own caller's INCR created. */
  lemma ExpireHitsOwnGeneration(cfg: Settings, s: State, id: nat, fault: Fault)
    requires Inv(cfg, s) && Enabled(s, SendExpire(id, fault))
    ensures s.replies[id].generation == |s.starts| - 1
    ensures Live(s.counter, s.now) == s.counter && s.counter.Present? && s.counter.deadline.None?
    ensures forall id' | id' != id && At(s, id', Incremented) :: s.replies[id'].count != 1
  {
    forall id' | id' != id && At(s, id', Incremented)
      ensures s.replies[id'].count != 1
    {
      assert !SameSlot(s.replies[id], s.replies[id']);
    }
  }

  lemma ExpireHits(cfg: Settings, s: State, id: nat, fault: Fault)
    requires cfg.window > 0 && Inv(cfg, s) && Enabled(s, SendExpire(id, fault))
    ensures HitsInv(Step(cfg, s, SendExpire(id, fault)))
  {
    ExpireHitsOwnGeneration(cfg, s, id, fault);
    var t := Step(cfg, s, SendExpire(id, fault));
    forall id' | id' in t.replies
      ensures GoodHit(t, t.replies[id'])
    {
      assert GoodHit(s, s.replies[id']);
    }
  }

  /** Redis executes an EXPIRE on a counter that has no deadline yet. */
  lemma ExpireApplied(cfg: Settings, s: State)
    requires CounterInv(cfg, s) && s.counter.Present? && Live(s.counter, s.now) == s.counter
    ensures CounterInv(cfg, s.(counter := Expire(s.counter, s.now, cfg.window)))
  {
  }

  /** The one caller that owed an EXPIRE owes it no more. */
  lemma ExpireSettles(s: State, t: State, id: nat)
    requires forall id' | id' != id && At(s, id', Incremented) :: s.replies[id'].count != 1
    requires t.replies == s.replies && id in t.phases && t.phases == s.phases[id := t.phases[id]] && !t.phases[id].Incremented?
    ensures OwedInv(t)
  {
    forall id' | At(t, id', Incremented)
      ensures t.replies[id'].count != 1
    {
      assert At(s, id', Incremented) && id' != id;
    }
  }

  lemma ExpireRest(cfg: Settings, s: State, id: nat, fault: Fault)
    requires cfg.window > 0 && Inv(cfg, s) && Enabled(s, SendExpire(id, fault))
    ensures var t := Step(cfg, s, SendExpire(id, fault)); CounterInv(cfg, t) && OwedInv(t) && VerdictInv(cfg, t)
  {
    if fault.NotApplied? {
      FailedRest(cfg, s, id);
    } else {
      ExpireHitsOwnGeneration(cfg, s, id, fault);
      ExpireSettles(s, Step(cfg, s, SendExpire(id, fault)), id);
      ExpireApplied(cfg, s);
      ExpiredVerdicts(cfg, s, id, fault);
    }
  }

  lemma ExpiredVerdicts(cfg: Settings, s: State, id: nat, fault: Fault)
    requires VerdictInv(cfg, s) && Enabled(s, SendExpire(id, fault))
    ensures VerdictInv(cfg, Step(cfg, s, SendExpire(id, fault)))
  {
  }

  /** Only time and phases moved, so every reply is still a real hit. */
  lemma HitsCarry(s: State, t: State)
    requires HitsInv(s) && s.now <= t.now
    requires t.counter == s.counter && t.starts == s.starts && t.replies == s.replies
    ensures HitsInv(t)
  {
  }

  lemma FailedRest(cfg: Settings, s: State, id: nat)
    requires CounterInv(cfg, s) && OwedInv(s) && VerdictInv(cfg, s)
    ensures var t := Failed(s, id); CounterInv(cfg, t) && OwedInv(t) && VerdictInv(cfg, t)
  {
  }

  /** Handing a fresh hit to the caller that made it. */
  lemma ReceivedHits(s: State, id: nat, hit: Hit)
    requires HitsInv(s) && GoodHit(s, hit)
    ensures HitsInv(Received(s, id, hit))
  {
  }

  lemma ReceivedRest(cfg: Settings, s: State, id: nat, hit: Hit)
    requires CounterInv(cfg, s) && DistinctInv(s.replies) && OwedInv(s) && VerdictInv(cfg, s)
    requires id !in s.replies && id !in s.phases && hit.generation == |s.starts| - 1 && s.counter.Present?
    requires hit.count == 1 ==> s.counter.deadline.None?
    requires forall id' | id' in s.replies :: !SameSlot(s.replies[id'], hit)
    ensures var t := Received(s, id, hit); CounterInv(cfg, t) && DistinctInv(t.replies) && OwedInv(t) && VerdictInv(cfg, t)
  {
  }

  lemma IncrAppliedInv(cfg: Settings, s: State)
    requires cfg.window > 0 && Inv(cfg, s)
    ensures Inv(cfg, IncrApplied(s))
  {
    IncrAppliedHits(cfg, s);
    IncrAppliedRest(cfg, s);
  }

  lemma FailedInv(cfg: Settings, s: State, id: nat)
    requires Inv(cfg, s)
    ensures Inv(cfg, Failed(s, id))
  {
    HitsCarry(s, Failed(s, id));
    FailedRest(cfg, s, id);
  }

  lemma DeliveredInv(cfg: Settings, s: State, id: nat)
    requires cfg.window > 0 && Inv(cfg, s) && Enabled(s, SendIncr(id, Delivered))
    ensures var t := IncrApplied(s); Inv(cfg, Received(t, id, Hit(t.counter.count, s.now, |t.starts| - 1)))
  {
    var t := IncrApplied(s);
    var hit := Hit(t.counter.count, s.now, |t.starts| - 1);
    assert HitsInv(Received(t, id, hit)) by {
      IncrAppliedHits(cfg, s);
      ReceivedHits(t, id, hit);
    }
    IncrAppliedHits(cfg, s);
    IncrAppliedRest(cfg, s);
    ReceivedRest(cfg, t, id, hit);
  }

  lemma DecideRest(cfg: Settings, s: State, id: nat)
    requires CounterInv(cfg, s) && OwedInv(s) && VerdictInv(cfg, s) && Enabled(s, Decide(id))
    requires s.replies[id].at <= s.now
    ensures var t := Step(cfg, s, Decide(id)); CounterInv(cfg, t) && OwedInv(t) && VerdictInv(cfg, t)
  {
  }

  lemma TickRest(cfg: Settings, s: State, to: int)
    requires CounterInv(cfg, s) && OwedInv(s) && VerdictInv(cfg, s) && s.now <= to
    ensures var t := s.(now := to); CounterInv(cfg, t) && OwedInv(t) && VerdictInv(cfg, t)
  {
  }

  lemma IncrStepInv(cfg: Settings, s: State, id: nat, fault: Fault)
    requires cfg.window > 0 && Inv(cfg, s) && Enabled(s, SendIncr(id, fault))
    ensures Inv(cfg, Step(cfg, s, SendIncr(id, fault)))
  {
    match fault
    case Delivered => DeliveredInv(cfg, s, id);
    case ReplyLost => IncrAppliedInv(cfg, s); FailedInv(cfg, IncrApplied(s), id);
    case NotApplied => FailedInv(cfg, s, id);
  }

  lemma DecideStepInv(cfg: Settings, s: State, id: nat)
    requires Inv(cfg, s) && Enabled(s, Decide(id))
    ensures Inv(cfg, Step(cfg, s, Decide(id)))
  {
    assert GoodHit(s, s.replies[id]);
    HitsCarry(s, Step(cfg, s, Decide(id)));
    DecideRest(cfg, s, id);
  }

  lemma StepInv(cfg: Settings, s: State, a: Action)
    requires cfg.window > 0 && Inv(cfg, s) && Enabled(s, a)
    ensures Inv(cfg, Step(cfg, s, a))
  {
    match a
    case Tick(to) =>
      HitsCarry(s, Step(cfg, s, a));
      TickRest(cfg, s, to);
    case SendIncr(id, fault) => IncrStepInv(cfg, s, id, fault);
    case SendExpire(id, fault) =>
      ExpireHits(cfg, s, id, fault);
      ExpireRest(cfg, s, id, fault);
    case Decide(id) => DecideStepInv(cfg, s, id);
  }

  lemma {:induction false} RunInv(cfg: Settings, s: State, actions: seq<Action>)
    requires cfg.window > 0 && Inv(cfg, s) && Run(cfg, s, actions)
    ensures Inv(cfg, Exec(cfg, s, actions))
    decreases |actions|
  {
    if actions != [] {
      StepInv(cfg, s, actions[0]);
      RunInv(cfg, Step(cfg, s, actions[0]), actions[1..]);
    }
  }

  // ---------- How many creations an interval of real time can admit ----------

  /** The callers admitted by an INCR that Redis executed in [from, to). */
  ghost function AdmittedIn(s: State, from: int, to: int): set<nat> {
    set id | id in s.phases && AdmittedCall(s, id) && id in s.replies && from <= s.replies[id].at < to
  }

  ghost function Row(g: int, limit: nat): set<(int, int)> {
    set r | 1 <= r <= limit :: (g, r)
  }

  lemma {:induction false} RowSize(g: int, limit: nat)
    ensures |Row(g, limit)| == limit
  {
    if limit > 0 {
      RowSize(g, limit - 1);
      assert Row(g, limit) == Row(g, limit - 1) + {(g, limit)};
    }
  }

  ghost function Slots(lo: int, generations: nat, limit: nat): (slots: set<(int, int)>)
    ensures forall slot :: slot in slots <==> lo <= slot.0 < lo + generations && 1 <= slot.1 <= limit
  {
    if generations == 0 then {}
    else Slots(lo, generations - 1, limit) + Row(lo + generations - 1, limit)
  }

  lemma {:induction false} SlotsSize(lo: int, generations: nat, limit: nat)
    ensures |Slots(lo, generations, limit)| == generations * limit
  {
    if generations > 0 {
      var fewer, last := Slots(lo, generations - 1, limit), Row(lo + generations - 1, limit);
      assert |fewer + last| == |fewer| + |last| by {
        assert fewer !! last;
      }
      assert |fewer| == (generations - 1) * limit by {
        SlotsSize(lo, generations - 1, limit);
      }
      RowSize(lo + generations - 1, limit);
    }
  }

  ghost function SlotOf(s: State, id: nat): (int, int)
    requires id in s.replies
  {
    (s.replies[id].generation, s.replies[id].count)
  }

  /** Which generation an instant of the interval can fall in. `lo` is the one open at `from`. */
  lemma GenerationRange(starts: seq<int>, window: int, from: int, k: nat, generation: nat, at: int)
    requires window > 0 && Spaced(starts, window) && generation < |starts|
    requires starts[generation] <= at && (generation + 1 < |starts| ==> at < starts[generation + 1])
    requires from <= at < from + k * window
    ensures var lo := FirstOpen(starts, from);
            && lo <= generation <= lo + k && lo < |starts|
            && (generation == lo + k ==> starts[lo] < from)
  {
    var lo := FirstOpen(starts, from);
    var first := if starts[lo] >= from then lo else lo + 1;
    if first <= generation {
      assert starts[generation] - starts[first] < k * window;
      GapBound(starts, window, first, generation, k);
    }
  }

  /** Where one admitted caller's hit can lie. */
  lemma SlotRange(cfg: Settings, s: State, from: int, k: nat, hit: Hit)
    requires cfg.window > 0 && CounterInv(cfg, s) && GoodHit(s, hit)
    requires from <= hit.at < from + k * cfg.window
    ensures var lo := FirstOpen(s.starts, from);
            && lo <= hit.generation <= lo + k
            && (hit.generation == lo + k ==> s.starts[lo] < from)
            && (hit.generation == lo && s.starts[lo] < from ==> hit.count != 1)
  {
    GenerationRange(s.starts, cfg.window, from, k, hit.generation, hit.at);
  }

  /** The slots open to the callers admitted in [from, from + k * window): those of k + 1
      consecutive generations without the first slot of the one already open at `from`,
      or those of k generations when none was. */
  ghost function OpenSlots(starts: seq<int>, from: int, k: nat, limit: nat): set<(int, int)> {
    var lo := FirstOpen(starts, from);
    if lo < |starts| && starts[lo] < from then Slots(lo, k + 1, limit) - {(lo as int, 1)}
    else Slots(lo, k, limit)
  }

  lemma OpenSlotsSize(starts: seq<int>, from: int, k: nat, limit: nat)
    requires limit > 0
    ensures |OpenSlots(starts, from, k, limit)| <= (k + 1) * limit - 1
  {
    var lo := FirstOpen(starts, from);
    SlotsSize(lo, k + 1, limit);
    SlotsSize(lo, k, limit);
    assert (lo as int, 1) in Slots(lo, k + 1, limit);
    assert (k + 1) * limit == k * limit + limit;
  }

  /** The generation open at `from`, or the first one opened afterwards when there is none. */
  ghost function FirstOpen(starts: seq<int>, from: int): (lo: nat)
    ensures lo <= |starts|
    ensures lo + 1 < |starts| ==> starts[lo + 1] >= from
    ensures 0 < lo ==> lo < |starts| && starts[lo] < from
    ensures lo == |starts| ==> lo == 0
    decreases |starts|
  {
    if |starts| <= 1 || starts[|starts| - 1] < from then (if starts == [] then 0 else |starts| - 1)
    else
      FirstOpen(starts[..|starts| - 1], from)
  }

  lemma SlotsDistinct(s: State, ids: set<nat>)
    requires DistinctInv(s.replies) && ids <= s.replies.Keys
    ensures forall id, id' | id in ids && id' in ids && SlotOf(s, id) == SlotOf(s, id') :: id == id'
  {
  }

  lemma AdmittedSlots(cfg: Settings, s: State, from: int, k: nat)
    requires cfg.window > 0 && cfg.limit > 0 && CounterInv(cfg, s) && HitsInv(s) && VerdictInv(cfg, s)
    ensures forall id | id in AdmittedIn(s, from, from + k * cfg.window) ::
              SlotOf(s, id) in OpenSlots(s.starts, from, k, cfg.limit)
  {
    forall id | id in AdmittedIn(s, from, from + k * cfg.window)
      ensures SlotOf(s, id) in OpenSlots(s.starts, from, k, cfg.limit)
    {
      assert GoodHit(s, s.replies[id]);
      SlotRange(cfg, s, from, k, s.replies[id]);
    }
  }

  lemma AdmissionBoundAt(cfg: Settings, s: State, from: int, k: nat)
    requires cfg.window > 0 && Inv(cfg, s)
    ensures |AdmittedIn(s, from, from + k * cfg.window)| <= if cfg.limit > 0 then (k + 1) * cfg.limit - 1 else 0
  {
    var admitted := AdmittedIn(s, from, from + k * cfg.window);
    if cfg.limit > 0 {
      var slots := OpenSlots(s.starts, from, k, cfg.limit);
      assert |slots| <= (k + 1) * cfg.limit - 1 by {
        OpenSlotsSize(s.starts, from, k, cfg.limit);
      }
      AdmittedSlots(cfg, s, from, k);
      SlotsDistinct(s, admitted);
      InjectionBound(admitted, id requires id in s.replies => SlotOf(s, id), slots);
    } else {
      NoneAdmitted(cfg, s, from, from + k * cfg.window);
    }
  }

  lemma NoneAdmitted(cfg: Settings, s: State, from: int, to: int)
    requires cfg.limit <= 0 && HitsInv(s) && VerdictInv(cfg, s)
    ensures AdmittedIn(s, from, to) == {}
  {
  }

  /** In every run and every interleaving, any half-open interval of k windows admits at
      most (k + 1) * limit - 1 creations (none at all when the limit is not positive). */
  lemma AdmissionBound(cfg: Settings, began: int, actions: seq<Action>, from: int, k: nat)
    requires cfg.window > 0 && Run(cfg, Init(began), actions)
    ensures var admitted := AdmittedIn(Exec(cfg, Init(began), actions), from, from + k * cfg.window);
            |admitted| <= if cfg.limit > 0 then (k + 1) * cfg.limit - 1 else 0
  {
    RunInv(cfg, Init(began), actions);
    AdmissionBoundAt(cfg, Exec(cfg, Init(began), actions), from, k);
  }

  // ---------- The bound is the right one ----------

  ghost predicate Leads(cfg: Settings, s: State, actions: seq<Action>, t: State) {
    Run(cfg, s, actions) && Exec(cfg, s, actions) == t
  }

  lemma One(cfg: Settings, s: State, a: Action)
    requires Enabled(s, a)
    ensures Leads(cfg, s, [a], Step(cfg, s, a))
  {
    var t := Step(cfg, s, a);
    assert [a][1..] == [];
    assert Run(cfg, t, []) && Exec(cfg, t, []) == t;
  }

  lemma {:induction false} Then(cfg: Settings, s: State, xs: seq<Action>, t: State, ys: seq<Action>, u: State)
    requires Leads(cfg, s, xs, t) && Leads(cfg, t, ys, u)
    ensures Leads(cfg, s, xs + ys, u)
    decreases |xs|
  {
    if xs == [] {
      assert xs + ys == ys;
    } else {
      Then(cfg, Step(cfg, s, xs[0]), xs[1..], t, ys, u);
      assert (xs + ys)[1..] == xs[1..] + ys;
    }
  }

  lemma Two(cfg: Settings, s: State, a: Action, b: Action)
    requires Enabled(s, a) && Enabled(Step(cfg, s, a), b)
    ensures Leads(cfg, s, [a] + [b], Step(cfg, Step(cfg, s, a), b))
  {
    One(cfg, s, a);
    One(cfg, Step(cfg, s, a), b);
    Then(cfg, s, [a], Step(cfg, s, a), [b], Step(cfg, Step(cfg, s, a), b));
  }

  /** One caller alone, from INCR to verdict, at one instant, when there is no counter. */
  lemma Admit(cfg: Settings, s: State, id: nat) returns (t: State, actions: seq<Action>)
    requires cfg.limit > 0 && cfg.window > 0 && id !in s.replies && id !in s.phases && Live(s.counter, s.now).Absent?
    ensures Leads(cfg, s, actions, t)
    ensures t == State(s.now, Present(1, Some(s.now + cfg.window)), s.replies[id := Hit(1, s.now, |s.starts|)],
                       s.phases[id := Finished(Admitted, s.now)], s.starts + [s.now])
  {
    var created := Step(cfg, s, SendIncr(id, Delivered));
    Two(cfg, s, SendIncr(id, Delivered), SendExpire(id, Delivered));
    var dated := Step(cfg, created, SendExpire(id, Delivered));
    assert dated.phases[id] == ExpirySet;
    One(cfg, dated, Decide(id));
    t := Step(cfg, dated, Decide(id));
    actions := [SendIncr(id, Delivered)] + [SendExpire(id, Delivered)] + [Decide(id)];
    Then(cfg, s, [SendIncr(id, Delivered)] + [SendExpire(id, Delivered)], dated, [Decide(id)], t);
  }

  /** One more caller on a live counter with room. */
  lemma AdmitNext(cfg: Settings, s: State, id: nat) returns (t: State, actions: seq<Action>)
    requires id !in s.replies && id !in s.phases && s.counter.Present? && Live(s.counter, s.now) == s.counter
    requires 1 <= s.counter.count < cfg.limit
    ensures Leads(cfg, s, actions, t)
    ensures t == State(s.now, s.counter.(count := s.counter.count + 1),
                       s.replies[id := Hit(s.counter.count + 1, s.now, |s.starts| - 1)],
                       s.phases[id := Finished(Admitted, s.now)], s.starts)
  {
    Two(cfg, s, SendIncr(id, Delivered), Decide(id));
    t, actions := Step(cfg, Step(cfg, s, SendIncr(id, Delivered)), Decide(id)), [SendIncr(id, Delivered)] + [Decide(id)];
  }

  /** The callers so far are 0 to n - 1, all done; from number `lo` on they were admitted at
      or after `from`, and the ones before `lo` came earlier. */
  ghost predicate Numbered(s: State, n: nat, lo: nat, from: int) {
    && (forall id: nat :: id in s.phases <==> id < n) && (forall id: nat :: id in s.replies <==> id < n)
    && (forall id: nat | id < n :: s.phases[id].Finished?)
    && (forall id: nat | lo <= id < n :: AdmittedCall(s, id) && from <= s.replies[id].at <= s.now)
    && (forall id: nat | id < lo && id < n :: s.replies[id].at < from)
  }

  lemma NumberedNext(s: State, t: State, n: nat, lo: nat, from: int, hit: Hit)
    requires Numbered(s, n, lo, from) && lo <= n && s.now <= t.now && from <= hit.at <= t.now
    requires t.replies == s.replies[n := hit] && t.phases == s.phases[n := Finished(Admitted, t.now)]
    ensures Numbered(t, n + 1, lo, from)
  {
  }

  /** Callers n to n + more - 1 at the present instant fill a live counter further. */
  lemma {:induction false} AdmitMore(cfg: Settings, s: State, n: nat, lo: nat, from: int, more: nat)
    returns (t: State, actions: seq<Action>)
    requires Numbered(s, n, lo, from) && lo <= n && from <= s.now
    requires s.counter.Present? && Live(s.counter, s.now) == s.counter
    requires 1 <= s.counter.count && s.counter.count + more <= cfg.limit
    ensures Leads(cfg, s, actions, t) && Numbered(t, n + more, lo, from)
    ensures t.now == s.now && t.counter == s.counter.(count := s.counter.count + more)
    decreases more
  {
    if more == 0 {
      t, actions := s, [];
    } else {
      var u, first := AdmitNext(cfg, s, n);
      NumberedNext(s, u, n, lo, from, u.replies[n]);
      var rest;
      t, rest := AdmitMore(cfg, u, n + 1, lo, from, more - 1);
      Then(cfg, s, first, u, rest, t);
      actions := first + rest;
    }
  }

  /** A counter's deadline comes, and the next `limit` callers are admitted at that instant. */
  lemma FillWindow(cfg: Settings, s: State, n: nat, lo: nat, from: int) returns (t: State, actions: seq<Action>)
    requires cfg.limit > 0 && cfg.window > 0 && Numbered(s, n, lo, from) && lo <= n && from <= s.now
    requires s.counter.Present? && s.counter.deadline.Some? && s.now <= s.counter.deadline.value
    ensures Leads(cfg, s, actions, t) && Numbered(t, n + cfg.limit, lo, from)
    ensures t.now == s.counter.deadline.value && t.counter == Present(cfg.limit, Some(t.now + cfg.window))
  {
    var expired := Step(cfg, s, Tick(s.counter.deadline.value));
    One(cfg, s, Tick(s.counter.deadline.value));
    assert Numbered(expired, n, lo, from);
    var open, first := Admit(cfg, expired, n);
    NumberedNext(expired, open, n, lo, from, open.replies[n]);
    Then(cfg, s, [Tick(s.counter.deadline.value)], expired, first, open);
    var rest;
    t, rest := AdmitMore(cfg, open, n + 1, lo, from, cfg.limit - 1);
    actions := [Tick(s.counter.deadline.value)] + first + rest;
    Then(cfg, s, [Tick(s.counter.deadline.value)] + first, open, rest, t);
  }

  lemma OneMore(k: nat, x: int)
    requires k > 0
    ensures k * x == x + (k - 1) * x
  {
  }

  lemma {:induction false} FillWindows(cfg: Settings, s: State, n: nat, lo: nat, from: int, k: nat)
    returns (t: State, actions: seq<Action>, last: nat)
    requires cfg.limit > 0 && cfg.window > 0 && Numbered(s, n, lo, from) && lo <= n && from <= s.now
    requires s.counter.Present? && s.counter.deadline.Some? && s.now < s.counter.deadline.value
    ensures Leads(cfg, s, actions, t) && Numbered(t, last, lo, from) && last == n + k * cfg.limit
    ensures t.counter.Present? && t.counter.deadline == Some(s.counter.deadline.value + k * cfg.window)
    ensures if k == 0 then t == s else t.now + cfg.window == t.counter.deadline.value
    decreases k
  {
    if k == 0 {
      t, actions, last := s, [], n;
    } else {
      var u, first := FillWindow(cfg, s, n, lo, from);
      OneMore(k, cfg.limit);
      OneMore(k, cfg.window);
      var rest;
      t, rest, last := FillWindows(cfg, u, n + cfg.limit, lo, from, k - 1);
      Then(cfg, s, first, u, rest, t);
      actions := first + rest;
    }
  }

  /** One caller at 0, and `limit - 1` more at the last instant before its window ends. */
  lemma LateCrowd(cfg: Settings) returns (t: State, actions: seq<Action>)
    requires cfg.limit > 0 && cfg.window > 1
    ensures Leads(cfg, Init(0), actions, t) && Numbered(t, cfg.limit, 1, cfg.window - 1)
    ensures t.now == cfg.window - 1 && t.counter == Present(cfg.limit, Some(cfg.window))
  {
    var open, first := Admit(cfg, Init(0), 0);
    var late := Step(cfg, open, Tick(cfg.window - 1));
    One(cfg, open, Tick(cfg.window - 1));
    Then(cfg, Init(0), first, open, [Tick(cfg.window - 1)], late);
    assert Numbered(late, 1, 1, cfg.window - 1);
    var rest;
    t, rest := AdmitMore(cfg, late, 1, 1, cfg.window - 1, cfg.limit - 1);
    actions := first + [Tick(cfg.window - 1)] + rest;
    Then(cfg, Init(0), first + [Tick(cfg.window - 1)], late, rest, t);
  }

  lemma {:induction false} RangeOfSize(lo: nat, size: nat) returns (ids: set<nat>)
    ensures |ids| == size && forall id: nat :: id in ids <==> lo <= id < lo + size
  {
    if size == 0 {
      ids := {};
    } else {
      var fewer := RangeOfSize(lo, size - 1);
      ids := fewer + {lo + size - 1};
    }
  }

  /** The bound is attained by every limit, every window of more than one instant, and every
      number of windows. */
  lemma BoundIsAttained(cfg: Settings, k: nat) returns (actions: seq<Action>)
    requires cfg.limit > 0 && cfg.window > 1 && k > 0
    ensures Run(cfg, Init(0), actions)
    ensures var from := cfg.window - 1;
            |AdmittedIn(Exec(cfg, Init(0), actions), from, from + k * cfg.window)| == (k + 1) * cfg.limit - 1
  {
    var s, first := LateCrowd(cfg);
    var t, rest, last := FillWindows(cfg, s, cfg.limit, 1, cfg.window - 1, k);
    actions := first + rest;
    Then(cfg, Init(0), first, s, rest, t);
    OneMore(k + 1, cfg.limit);
    OneMore(k, cfg.window);
    var ids := RangeOfSize(1, last - 1);
    assert AdmittedIn(t, cfg.window - 1, cfg.window - 1 + k * cfg.window) == ids;
  }

  // ---------- When the limit really is one per window ----------

  /** At one instant only one generation of the counter can be hit. */
  lemma InstantBound(cfg: Settings, s: State, at: int)
    requires cfg.window > 0 && cfg.limit > 0 && Inv(cfg, s)
    ensures |AdmittedIn(s, at, at + 1)| <= cfg.limit
  {
    var admitted := AdmittedIn(s, at, at + 1);
    if admitted != {} {
      var some := Choose(admitted);
      var generation := s.replies[some].generation;
      forall id | id in admitted
        ensures SlotOf(s, id) in Row(generation, cfg.limit)
      {
        SameInstant(cfg, s, s.replies[some], s.replies[id]);
      }
      SlotsDistinct(s, admitted);
      InjectionBound(admitted, id requires id in s.replies => SlotOf(s, id), Row(generation, cfg.limit));
      RowSize(generation, cfg.limit);
    }
  }

  lemma SameInstant(cfg: Settings, s: State, h: Hit, h': Hit)
    requires cfg.window > 0 && CounterInv(cfg, s) && GoodHit(s, h) && GoodHit(s, h') && h.at == h'.at
    ensures h.generation == h'.generation
  {
  }

  ghost predicate LimitHoldsFrom(cfg: Settings, s: State, from: int) {
    |AdmittedIn(s, from, from + cfg.window)| <= cfg.limit
  }

  /** What the limit's name promises: no interval as long as a window ever admits more. */
  ghost predicate LimitHolds(cfg: Settings) {
    forall began, actions, from | Run(cfg, Init(began), actions) ::
      LimitHoldsFrom(cfg, Exec(cfg, Init(began), actions), from)
  }

  /** It holds exactly when the limit is at most one or a window is a single instant. */
  lemma LimitHoldsIff(cfg: Settings)
    requires cfg.limit >= 0 && cfg.window > 0
    ensures LimitHolds(cfg) <==> cfg.limit <= 1 || cfg.window == 1
  {
    if cfg.limit <= 1 || cfg.window == 1 {
      forall began, actions, from | Run(cfg, Init(began), actions)
        ensures LimitHoldsFrom(cfg, Exec(cfg, Init(began), actions), from)
      {
        LimitHoldsThen(cfg, began, actions, from);
      }
    } else {
      var actions := BoundIsAttained(cfg, 1);
      assert !LimitHoldsFrom(cfg, Exec(cfg, Init(0), actions), cfg.window - 1);
    }
  }

  lemma LimitHoldsThen(cfg: Settings, began: int, actions: seq<Action>, from: int)
    requires cfg.limit >= 0 && cfg.window > 0 && (cfg.limit <= 1 || cfg.window == 1) && Run(cfg, Init(began), actions)
    ensures LimitHoldsFrom(cfg, Exec(cfg, Init(began), actions), from)
  {
    if cfg.limit <= 1 {
      AdmissionBound(cfg, began, actions, from, 1);
    } else {
      RunInv(cfg, Init(began), actions);
      InstantBound(cfg, Exec(cfg, Init(began), actions), from);
    }
  }

  /** The callers that came out admitted, by the instant they came out. */
  ghost function ReturnedIn(s: State, from: int, to: int): set<nat> {
    set id | id in s.phases && AdmittedCall(s, id) && from <= s.phases[id].doneAt < to
  }

  lemma ReturnedWereAdmitted(cfg: Settings, s: State, from: int, to: int, slack: nat)
    requires VerdictInv(cfg, s)
    requires forall id | id in ReturnedIn(s, from, to) && id in s.replies :: s.phases[id].doneAt <= s.replies[id].at + slack
    ensures ReturnedIn(s, from, to) <= AdmittedIn(s, from - slack, to)
  {
  }

  lemma Spread(k: nat, delay: nat, window: int)
    ensures (k + delay) * window == k * window + delay * window
    ensures window > 0 ==> delay * window >= 0
  {
  }

  lemma ReturnBoundAt(cfg: Settings, s: State, from: int, k: nat, delay: nat)
    requires cfg.window > 0 && cfg.limit > 0 && Inv(cfg, s)
    requires forall id | id in ReturnedIn(s, from, from + k * cfg.window) && id in s.replies ::
               s.phases[id].doneAt <= s.replies[id].at + delay * cfg.window
    ensures |ReturnedIn(s, from, from + k * cfg.window)| <= (k + delay + 1) * cfg.limit - 1
  {
    Spread(k, delay, cfg.window);
    var slack, to := delay * cfg.window, from + k * cfg.window;
    ReturnedWereAdmitted(cfg, s, from, to, slack);
    SubsetBound(ReturnedIn(s, from, to), AdmittedIn(s, from - slack, to));
    AdmissionBoundAt(cfg, s, from - slack, k + delay);
  }

  /** Measured at the instant the caller comes out, the bound holds with one more window
      for each window that a caller may spend between its INCR and its verdict. */
  lemma ReturnBound(cfg: Settings, began: int, actions: seq<Action>, from: int, k: nat, delay: nat)
    requires cfg.window > 0 && cfg.limit > 0 && Run(cfg, Init(began), actions)
    requires var s := Exec(cfg, Init(began), actions);
             forall id | id in ReturnedIn(s, from, from + k * cfg.window) && id in s.replies ::
               s.phases[id].doneAt <= s.replies[id].at + delay * cfg.window
    ensures |ReturnedIn(Exec(cfg, Init(began), actions), from, from + k * cfg.window)| <= (k + delay + 1) * cfg.limit - 1
  {
    RunInv(cfg, Init(began), actions);
    ReturnBoundAt(cfg, Exec(cfg, Init(began), actions), from, k, delay);
  }

  // ---------- A lost EXPIRE ----------

  /** The counter is there, has no deadline, and nobody is going to give it one. */
  ghost predicate Stuck(s: State) {
    && s.counter.Present? && s.counter.deadline.None?
    && forall id | At(s, id, Incremented) :: s.replies[id].count != 1
  }

  ghost predicate Admits(cfg: Settings, s: State, actions: seq<Action>, id: nat) {
    Run(cfg, s, actions) && AdmittedCall(Exec(cfg, s, actions), id)
  }

  /** Calls begun at or after a locked-out state hold ranks above the limit. */
  ghost predicate LockedOut(cfg: Settings, before: State, s: State) {
    && Stuck(s) && s.counter.count >= cfg.limit
    && before.phases.Keys <= s.phases.Keys && before.replies.Keys <= s.replies.Keys
    && forall id | id in s.replies && id !in before.replies :: s.replies[id].count > cfg.limit
  }

  lemma LockoutIncr(cfg: Settings, before: State, s: State, id: nat, fault: Fault)
    requires LockedOut(cfg, before, s) && Enabled(s, SendIncr(id, fault)) && s.counter.count >= 1
    ensures LockedOut(cfg, before, Step(cfg, s, SendIncr(id, fault)))
  {
    var t := IncrApplied(s);
    assert t.counter == Present(s.counter.count + 1, None) && t.replies == s.replies && t.phases == s.phases;
  }

  lemma LockoutStep(cfg: Settings, before: State, s: State, a: Action)
    requires Inv(cfg, s) && LockedOut(cfg, before, s) && Enabled(s, a)
    ensures LockedOut(cfg, before, Step(cfg, s, a))
  {
    if a.SendIncr? {
      LockoutIncr(cfg, before, s, a.id, a.fault);
    }
  }

  lemma {:induction false} LockoutIsPermanent(cfg: Settings, before: State, s: State, actions: seq<Action>)
    requires cfg.window > 0 && Inv(cfg, s) && LockedOut(cfg, before, s) && Run(cfg, s, actions)
    ensures forall id | id !in before.replies :: !AdmittedCall(Exec(cfg, s, actions), id)
    decreases |actions|
  {
    if actions == [] {
      forall id | id !in before.replies
        ensures !AdmittedCall(s, id)
      {
        assert id in s.replies ==> s.replies[id].count > cfg.limit;
      }
    } else {
      StepInv(cfg, s, actions[0]);
      LockoutStep(cfg, before, s, actions[0]);
      LockoutIsPermanent(cfg, before, Step(cfg, s, actions[0]), actions[1..]);
    }
  }

  /** From any other state some run admits a new caller: there is room in the window, or
      its deadline is waited out, or the owed EXPIRE is delivered first. */
  lemma SomeRunAdmits(cfg: Settings, s: State, id: nat) returns (actions: seq<Action>)
    requires cfg.window > 0 && cfg.limit > 0 && Inv(cfg, s) && id !in s.replies && id !in s.phases
    requires !(Stuck(s) && s.counter.count >= cfg.limit)
    ensures Admits(cfg, s, actions, id)
  {
    if Stuck(s) {
      actions := RoomAdmits(cfg, s, id);
    } else if s.counter.Present? && s.counter.deadline.None? {
      var owing :| At(s, owing, Incremented) && s.replies[owing].count == 1;
      ExpireHitsOwnGeneration(cfg, s, owing, Delivered);
      actions := OwedExpiryAdmits(cfg, s, owing, id);
    } else {
      actions := DeadlineAdmits(cfg, s, id);
    }
  }

  lemma RoomAdmits(cfg: Settings, s: State, id: nat) returns (actions: seq<Action>)
    requires s.counter.Present? && s.counter.deadline.None? && 1 <= s.counter.count < cfg.limit
    requires id !in s.replies && id !in s.phases
    ensures Admits(cfg, s, actions, id)
  {
    var t;
    t, actions := AdmitNext(cfg, s, id);
  }

  lemma OwedExpiryAdmits(cfg: Settings, s: State, owing: nat, id: nat) returns (actions: seq<Action>)
    requires cfg.window > 0 && cfg.limit > 0 && id !in s.replies && id !in s.phases
    requires Enabled(s, SendExpire(owing, Delivered)) && Live(s.counter, s.now) == s.counter && s.counter.Present?
    ensures Admits(cfg, s, actions, id)
  {
    var dated := Step(cfg, s, SendExpire(owing, Delivered));
    var t := Step(cfg, dated, Tick(s.now + cfg.window));
    Two(cfg, s, SendExpire(owing, Delivered), Tick(s.now + cfg.window));
    var u, rest := Admit(cfg, t, id);
    actions := [SendExpire(owing, Delivered)] + [Tick(s.now + cfg.window)] + rest;
    Then(cfg, s, [SendExpire(owing, Delivered)] + [Tick(s.now + cfg.window)], t, rest, u);
  }

  lemma DeadlineAdmits(cfg: Settings, s: State, id: nat) returns (actions: seq<Action>)
    requires cfg.window > 0 && cfg.limit > 0 && id !in s.replies && id !in s.phases
    requires s.counter.Present? ==> s.counter.deadline.Some?
    ensures Admits(cfg, s, actions, id)
  {
    var to := if s.counter.Present? && s.counter.deadline.value > s.now then s.counter.deadline.value else s.now;
    var t := Step(cfg, s, Tick(to));
    One(cfg, s, Tick(to));
    var u, rest := Admit(cfg, t, id);
    actions := [Tick(to)] + rest;
    Then(cfg, s, [Tick(to)], t, rest, u);
  }

  /** Exactly when a new caller can still be admitted: the current counter has room, has a
      deadline, or somebody still owes it one. */
  lemma AdmissionPossibleIff(cfg: Settings, s: State, id: nat)
    requires cfg.window > 0 && cfg.limit > 0 && Inv(cfg, s) && id !in s.replies && id !in s.phases
    ensures (exists actions :: Admits(cfg, s, actions, id)) <==> !(Stuck(s) && s.counter.count >= cfg.limit)
  {
    if Stuck(s) && s.counter.count >= cfg.limit {
      forall actions | Run(cfg, s, actions)
        ensures !Admits(cfg, s, actions, id)
      {
        LockoutIsPermanent(cfg, s, s, actions);
      }
    } else {
      var actions := SomeRunAdmits(cfg, s, id);
      assert Admits(cfg, s, actions, id);
    }
  }

  /** The lock-out is real, for every limit: one EXPIRE is lost, the window fills up, and from
      then on no new caller is admitted in any run, however long one waits. */
  lemma LockoutHappens(cfg: Settings, began: int) returns (s: State, actions: seq<Action>)
    requires cfg.limit > 0 && cfg.window > 0
    ensures Leads(cfg, Init(began), actions, s) && Stuck(s) && s.counter.count >= cfg.limit
    ensures forall more, id | Run(cfg, s, more) && id !in s.replies :: !AdmittedCall(Exec(cfg, s, more), id)
  {
    var created := Step(cfg, Init(began), SendIncr(0, Delivered));
    var lost := Step(cfg, created, SendExpire(0, NotApplied));
    Two(cfg, Init(began), SendIncr(0, Delivered), SendExpire(0, NotApplied));
    var later := Step(cfg, lost, Tick(began + 1));
    One(cfg, lost, Tick(began + 1));
    Then(cfg, Init(began), [SendIncr(0, Delivered)] + [SendExpire(0, NotApplied)], lost, [Tick(began + 1)], later);
    assert Numbered(later, 1, 1, began + 1);
    var rest;
    s, rest := AdmitMore(cfg, later, 1, 1, began + 1, cfg.limit - 1);
    actions := [SendIncr(0, Delivered)] + [SendExpire(0, NotApplied)] + [Tick(began + 1)] + rest;
    Then(cfg, Init(began), [SendIncr(0, Delivered)] + [SendExpire(0, NotApplied)] + [Tick(began + 1)], later, rest, s);
    RunInv(cfg, Init(began), actions);
    forall more, id | Run(cfg, s, more) && id !in s.replies
      ensures !AdmittedCall(Exec(cfg, s, more), id)
    {
      LockoutIsPermanent(cfg, s, s, more);
    }
  }

  // ---------- What the actions of a run come to ----------

  function ClockAfter(now: int, actions: seq<Action>): int
    decreases |actions|
  {
    if actions == [] then now else ClockAfter(if actions[0].Tick? then actions[0].to else now, actions[1..])
  }

  /** When each caller's INCR was executed and answered. */
  function Answered(now: int, known: map<nat, int>, actions: seq<Action>): map<nat, int>
    decreases |actions|
  {
    if actions == [] then known
    else
      var a := actions[0];
      Answered(if a.Tick? then a.to else now, if a.SendIncr? && a.fault.Delivered? then known[a.id := now] else known, actions[1..])
  }

  predicate Faulty(a: Action, id: nat) {
    (a.SendIncr? || a.SendExpire?) && a.id == id && !a.fault.Delivered?
  }

  /** How a caller has come out: as unavailable exactly after a fault of its own, and otherwise,
      once it has decided, by its rank. */
  ghost predicate CameOut(cfg: Settings, s: State, id: nat, faulty: bool, decided: bool) {
    && (id in s.phases && s.phases[id].Finished? <==> faulty || decided) && !(faulty && decided)
    && (faulty ==> s.phases[id].outcome == Unavailable)
    && (decided ==> id in s.replies && s.phases[id].outcome == if s.replies[id].count > cfg.limit then LimitExceeded else Admitted)
  }

  ghost predicate AnsweredInv(s: State, answered: map<nat, int>) {
    s.replies.Keys == answered.Keys && forall id | id in answered :: s.replies[id].at == answered[id]
  }

  lemma StepHistories(cfg: Settings, s: State, a: Action, answered: map<nat, int>)
    requires Enabled(s, a) && AnsweredInv(s, answered)
    ensures var t := Step(cfg, s, a);
            && s.now <= t.now == (if a.Tick? then a.to else s.now)
            && AnsweredInv(t, if a.SendIncr? && a.fault.Delivered? then answered[a.id := s.now] else answered)
  {
  }

  lemma StepOutcome(cfg: Settings, s: State, a: Action, id: nat, faulty: bool, decided: bool)
    requires Enabled(s, a) && CameOut(cfg, s, id, faulty, decided)
    ensures CameOut(cfg, Step(cfg, s, a), id, faulty || Faulty(a, id), decided || a == Decide(id))
  {
  }

  /** The clock stands where the last tick put it, and the callers with a reply are those whose
      INCR was delivered, dated at that instant. */
  lemma {:induction false} HistoriesAreTheActions(cfg: Settings, s: State, actions: seq<Action>, answered: map<nat, int>)
    requires Run(cfg, s, actions) && AnsweredInv(s, answered)
    ensures Exec(cfg, s, actions).now == ClockAfter(s.now, actions)
    ensures AnsweredInv(Exec(cfg, s, actions), Answered(s.now, answered, actions))
    decreases |actions|
  {
    if actions != [] {
      var a := actions[0];
      StepHistories(cfg, s, a, answered);
      HistoriesAreTheActions(cfg, Step(cfg, s, a), actions[1..],
                             if a.SendIncr? && a.fault.Delivered? then answered[a.id := s.now] else answered);
    }
  }

  lemma {:induction false} OutcomesFrom(cfg: Settings, s: State, actions: seq<Action>, id: nat, faulty: bool, decided: bool)
    requires Run(cfg, s, actions) && CameOut(cfg, s, id, faulty, decided)
    ensures CameOut(cfg, Exec(cfg, s, actions), id, faulty || exists a | a in actions :: Faulty(a, id), decided || Decide(id) in actions)
    decreases |actions|
  {
    if actions != [] {
      StepOutcome(cfg, s, actions[0], id, faulty, decided);
      OutcomesFrom(cfg, Step(cfg, s, actions[0]), actions[1..], id, faulty || Faulty(actions[0], id), decided || actions[0] == Decide(id));
      assert forall a :: a in actions <==> a == actions[0] || a in actions[1..];
    }
  }

  /** Every caller of every run: unavailable exactly when one of its commands failed, refused as
      over the limit exactly when its rank is, admitted otherwise. */
  lemma OutcomesAreTheActions(cfg: Settings, began: int, actions: seq<Action>, id: nat)
    requires Run(cfg, Init(began), actions)
    ensures CameOut(cfg, Exec(cfg, Init(began), actions), id, exists a | a in actions :: Faulty(a, id), Decide(id) in actions)
    ensures AnsweredInv(Exec(cfg, Init(began), actions), Answered(began, map[], actions))
    ensures Exec(cfg, Init(began), actions).now == ClockAfter(began, actions)
  {
    OutcomesFrom(cfg, Init(began), actions, id, false, false);
    HistoriesAreTheActions(cfg, Init(began), actions, map[]);
  }

  // ---------- The function itself, uninterrupted ----------

  /** The counters Redis holds, by owner (the key embeds the owner's id). */
  class Redis {
    var counters: map<int, Counter>

    function At(owner: int): Counter
      reads this
    {
      if owner in counters then counters[owner] else Absent
    }

    /** None is RedisError. */
    method SendIncr(owner: int, now: int, fault: Fault) returns (reply: Option<nat>)
      modifies this
      ensures fault.NotApplied? ==> reply == None && counters == old(counters)
      ensures !fault.NotApplied? ==> counters == old(counters[owner := Incr(At(owner), now)])
      ensures fault.ReplyLost? ==> reply == None
      ensures fault.Delivered? ==> reply == Some(Incr(old(At(owner)), now).count)
    {
      reply := None;
      if !fault.NotApplied? {
        var next := Incr(At(owner), now);
        counters := counters[owner := next];
        if fault.Delivered? {
          reply := Some(next.count);
        }
      }
    }

    method SendExpire(owner: int, now: int, window: int, fault: Fault) returns (ok: bool)
      modifies this
      ensures ok == fault.Delivered?
      ensures fault.NotApplied? ==> counters == old(counters)
      ensures !fault.NotApplied? ==> counters == old(counters[owner := Expire(At(owner), now, window)])
    {
      ok := fault.Delivered?;
      if !fault.NotApplied? {
        counters := counters[owner := Expire(At(owner), now, window)];
      }
    }
  }

  /** One call that nobody interleaves with, as a run of the interleaved system. */
  function CallActions(c: Counter, id: nat, incrAt: int, incr: Fault, expireAt: int, expire: Fault): seq<Action> {
    if !incr.Delivered? then [SendIncr(id, incr)] + [Tick(expireAt)]
    else if Incr(c, incrAt).count != 1 then [SendIncr(id, incr)] + [Decide(id)]
    else if !expire.Delivered? then [SendIncr(id, incr)] + [Tick(expireAt)] + [SendExpire(id, expire)]
    else [SendIncr(id, incr)] + [Tick(expireAt)] + [SendExpire(id, expire)] + [Decide(id)]
  }

  /** The outcome and the counter left by such a call. */
  function CallEffect(cfg: Settings, c: Counter, incrAt: int, incr: Fault, expireAt: int, expire: Fault): (Outcome, Counter) {
    var counted := if incr.NotApplied? then c else Incr(c, incrAt);
    if !incr.Delivered? then (Unavailable, counted)
    else if counted.count != 1 then (Verdict(cfg, counted.count), counted)
    else
      var dated := if expire.NotApplied? then counted else Expire(counted, expireAt, cfg.window);
      (if expire.Delivered? then Verdict(cfg, 1) else Unavailable, dated)
  }

  /** The rank that an INCR gives: one more than the live counter's, or one. */
  function RankAt(c: Counter, now: int): nat {
    if c.Present? && (c.deadline.None? || now < c.deadline.value) then c.count + 1 else 1
  }

  /** What such a call comes to: unavailable when a command that it needed failed, refused when
      its rank exceeds the limit, admitted otherwise. The counter is counted up unless the
      INCR was not applied, keeps its deadline if it was live, and, new, gets one a window
      after the EXPIRE if that was applied. */
  lemma CallEffectMeans(cfg: Settings, c: Counter, incrAt: int, incr: Fault, expireAt: int, expire: Fault)
    ensures var (outcome, after) := CallEffect(cfg, c, incrAt, incr, expireAt, expire);
            var rank := RankAt(c, incrAt);
            var failed := !incr.Delivered? || (rank == 1 && !expire.Delivered?);
            && (outcome == Unavailable <==> failed)
            && (outcome == LimitExceeded <==> !failed && rank > cfg.limit)
            && (outcome == Admitted <==> !failed && rank <= cfg.limit)
    ensures var after := CallEffect(cfg, c, incrAt, incr, expireAt, expire).1;
            var live := c.Present? && (c.deadline.None? || incrAt < c.deadline.value);
            && (incr.NotApplied? ==> after == c)
            && (!incr.NotApplied? && live && c.count > 0 ==> after == Present(c.count + 1, c.deadline))
            && (!incr.NotApplied? && !live ==>
                  after == Present(1, if incr.Delivered? && !expire.NotApplied? then Some(expireAt + cfg.window) else None))
  {
  }

  /** Started in any state the system can be in, such a call is a run of it with that outcome
      and that counter, so it ends in a state that the bounds hold of. */
  lemma CallEffectIsARun(cfg: Settings, s: State, id: nat, incr: Fault, expireAt: int, expire: Fault)
    requires cfg.window > 0 && Inv(cfg, s) && id !in s.phases && id !in s.replies && s.now <= expireAt
    ensures var actions := CallActions(s.counter, id, s.now, incr, expireAt, expire);
            var (outcome, after) := CallEffect(cfg, s.counter, s.now, incr, expireAt, expire);
            && Run(cfg, s, actions)
            && var t := Exec(cfg, s, actions);
            && t.counter == after && id in t.phases && t.phases[id].Finished? && t.phases[id].outcome == outcome
            && Inv(cfg, t)
  {
    var actions := CallActions(s.counter, id, s.now, incr, expireAt, expire);
    var t := CallIsARun(cfg, s, id, incr, expireAt, expire);
    RunInv(cfg, s, actions);
  }

  lemma CallIsARun(cfg: Settings, s: State, id: nat, incr: Fault, expireAt: int, expire: Fault) returns (t: State)
    requires id !in s.phases && id !in s.replies && s.now <= expireAt
    ensures Leads(cfg, s, CallActions(s.counter, id, s.now, incr, expireAt, expire), t)
    ensures var (outcome, after) := CallEffect(cfg, s.counter, s.now, incr, expireAt, expire);
            t.counter == after && id in t.phases && t.phases[id].Finished? && t.phases[id].outcome == outcome
  {
    var counted := Step(cfg, s, SendIncr(id, incr));
    if incr.Delivered? && Incr(s.counter, s.now).count != 1 {
      Two(cfg, s, SendIncr(id, incr), Decide(id));
      return Step(cfg, counted, Decide(id));
    }
    var waited := Step(cfg, counted, Tick(expireAt));
    Two(cfg, s, SendIncr(id, incr), Tick(expireAt));
    if !incr.Delivered? {
      return waited;
    }
    var dated := Step(cfg, waited, SendExpire(id, expire));
    One(cfg, waited, SendExpire(id, expire));
    Then(cfg, s, [SendIncr(id, incr)] + [Tick(expireAt)], waited, [SendExpire(id, expire)], dated);
    if !expire.Delivered? {
      return dated;
    }
    t := Step(cfg, dated, Decide(id));
    One(cfg, dated, Decide(id));
    Then(cfg, s, [SendIncr(id, incr)] + [Tick(expireAt)] + [SendExpire(id, expire)], dated, [Decide(id)], t);
  }

  method EnforceApiKeyCreationRateLimit(
      redis: Redis?, cfg: Settings, owner: int, incrAt: int, incr: Fault, expireAt: int, expire: Fault)
    returns (outcome: Outcome)
    modifies redis
    ensures redis == null ==> outcome == Unavailable
    ensures redis != null ==>
              && outcome == CallEffect(cfg, old(redis.At(owner)), incrAt, incr, expireAt, expire).0
              && redis.At(owner) == CallEffect(cfg, old(redis.At(owner)), incrAt, incr, expireAt, expire).1
              && forall other :: other != owner ==> redis.At(other) == old(redis.At(other))
  {
    if redis == null {
      return Unavailable;
    }
    var current := redis.SendIncr(owner, incrAt, incr);
    if current.None? {
      return Unavailable;
    }
    if current.value == 1 {
      var ok := redis.SendExpire(owner, expireAt, cfg.window, expire);
      if !ok {
        return Unavailable;
      }
    }
    if current.value > cfg.limit {
      return LimitExceeded;
    }
    return Admitted;
  }
}
