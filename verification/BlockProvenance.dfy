/**
  What stands behind an automatic block, told in terms of the steps of the run it was made in:
  the ingest's clock reading, its count and its insert.

  The window's start is fixed by the clock reading, but the count comes later and has no
  upper bound, so violations committed in between are counted as well. Blocks are therefore
  earned within a window and the delay from the reading to the insert, and within one window
  whenever nothing overtakes the count.
*/
module BlockProvenance {
  import opened Common
  import opened AutoBlock

  predicate IsAuto(s: State, id: int) {
    id in s.blocks && s.blocks[id].source.Auto?
  }

  // ---------- The steps behind a phase ----------

  predicate HasWindow(p: Phase) {
    p.Windowed? || HasCount(p)
  }

  predicate HasCount(p: Phase) {
    p.AboveThreshold? || p.NoneActive? || (p.Finished? && p.judged.Some?)
  }

  function SinceOf(p: Phase): int
    requires HasWindow(p)
  {
    if p.Finished? then p.judged.value.since else p.since
  }

  function SeenOf(p: Phase): nat
    requires HasCount(p)
  {
    if p.Finished? then p.judged.value.seen else p.seen
  }

  lemma {:induction false} TimeGrows(cfg: Config, states: seq<State>, actions: seq<Action>, n: nat, m: nat)
    requires Trace(cfg, states, actions) && n <= m < |states|
    ensures states[n].now <= states[m].now
    decreases m - n
  {
    if n < m {
      TimeGrows(cfg, states, actions, n, m - 1);
      assert Follows(cfg, states, actions, m - 1);
      LogGrows(cfg, states[m - 1], actions[m - 1]);
    }
  }

  /** An ingest stays, and its event never changes. */
  lemma {:induction false} EventsStay(cfg: Config, states: seq<State>, actions: seq<Action>, n: nat, m: nat, i: nat)
    requires Trace(cfg, states, actions) && n <= m < |states| && i in states[n].ingests
    ensures i in states[m].ingests && states[m].ingests[i].event == states[n].ingests[i].event
    decreases m - n
  {
    if n < m {
      EventsStay(cfg, states, actions, n, m - 1, i);
      assert Follows(cfg, states, actions, m - 1);
    }
  }

  /** The window of an ingest starts one window before its clock reading. */
  lemma {:induction false} WindowHistory(cfg: Config, states: seq<State>, actions: seq<Action>, n: nat, i: nat) returns (read: nat)
    requires Trace(cfg, states, actions) && n < |states|
    requires i in states[n].ingests && HasWindow(states[n].ingests[i].phase)
    ensures read < n && actions[read] == ReadClock(i)
    ensures SinceOf(states[n].ingests[i].phase) == states[read].now - cfg.window
  {
    assert Follows(cfg, states, actions, n - 1);
    if actions[n - 1] == ReadClock(i) {
      read := n - 1;
    } else {
      read := WindowHistory(cfg, states, actions, n - 1, i);
    }
  }

  /** What it has seen is the log as it was at its count. */
  lemma {:induction false} CountHistory(cfg: Config, states: seq<State>, actions: seq<Action>, n: nat, i: nat) returns (count: nat)
    requires Trace(cfg, states, actions) && n < |states|
    requires i in states[n].ingests && HasCount(states[n].ingests[i].phase)
    ensures count < n && actions[count] == Count(i) && SeenOf(states[n].ingests[i].phase) == |states[count].log|
    ensures i in states[count].ingests && states[count].ingests[i].phase.Windowed?
    ensures SinceOf(states[n].ingests[i].phase) == states[count].ingests[i].phase.since
  {
    assert Follows(cfg, states, actions, n - 1);
    if actions[n - 1] == Count(i) {
      count := n - 1;
    } else {
      count := CountHistory(cfg, states, actions, n - 1, i);
    }
  }

  /** An automatic block was inserted by an ingest, at its creation. */
  lemma {:induction false} InsertHistory(cfg: Config, states: seq<State>, actions: seq<Action>, n: nat, id: int)
    returns (i: nat, insert: nat)
    requires Trace(cfg, states, actions) && n < |states| && IsAuto(states[n], id)
    ensures insert < n && actions[insert] == InsertAuto(i, id)
    ensures i in states[insert].ingests && states[insert].ingests[i].phase.NoneActive?
    ensures var b, g := states[n].blocks[id], states[insert].ingests[i];
            b.ip == g.event.ip && b.source == Auto(g.phase.violations, g.phase.since, g.phase.seen) && b.insertedAt == states[insert].now
  {
    assert Follows(cfg, states, actions, n - 1);
    if id in states[n - 1].blocks {
      i, insert := InsertHistory(cfg, states, actions, n - 1, id);
    } else {
      i, insert := actions[n - 1].i, n - 1;
    }
  }

  // ---------- What every automatic block has behind it ----------

  /** Ingest `i`, whose own event is a violation of the address, read its clock, later counted
      the violations that the block's reason names, at least `threshold`, since one window
      before that reading, and later still inserted the block. */
  ghost predicate Behind(cfg: Config, states: seq<State>, actions: seq<Action>, b: Block, i: nat, read: nat, count: nat, insert: nat) {
    && read < count < insert < |actions| && |states| == |actions| + 1
    && actions[read] == ReadClock(i) && actions[count] == Count(i) && actions[insert].InsertAuto? && actions[insert].i == i
    && b.insertedAt == states[insert].now
    && i in states[insert].ingests && Counts(cfg, states[insert].ingests[i].event) && states[insert].ingests[i].event.ip == b.ip
    && states[insert].ingests[i].event in states[count].log
    && b.source.Auto? && b.source.violations == |Violations(states[count].log, b.ip, states[read].now - cfg.window)|
    && b.source.violations >= cfg.threshold
  }

  lemma BlocksHaveACause(cfg: Config, states: seq<State>, actions: seq<Action>, n: nat, id: int)
    returns (i: nat, read: nat, count: nat, insert: nat)
    requires Trace(cfg, states, actions) && n < |states| && IsAuto(states[n], id)
    ensures Behind(cfg, states, actions, states[n].blocks[id], i, read, count, insert)
    ensures insert < n && actions[insert] == InsertAuto(i, id)
  {
    i, insert := InsertHistory(cfg, states, actions, n, id);
    count := CountHistory(cfg, states, actions, insert, i);
    read := WindowHistory(cfg, states, actions, count, i);
    TraceInv(cfg, states, actions, insert);
    var g := states[insert].ingests[i];
    assert GoodIngest(cfg, states[insert], g);
    CommittedEventsSurvive(cfg, states, actions, count, insert);
    assert states[insert].log[..g.phase.seen] == states[count].log;
    assert states[count].log[g.phase.index] == g.event;
  }

  /** Positions of the violations of an address that were created between two instants. */
  function Between(log: seq<Event>, ip: string, from: int, to: int): set<int> {
    set k | 0 <= k < |log| && InWindow(log[k], ip, from) && log[k].createdAt <= to
  }

  /** No block is inserted more than `delay` after its ingest's clock reading. */
  ghost predicate Prompt(states: seq<State>, actions: seq<Action>, delay: nat)
    requires |actions| < |states|
  {
    forall read, insert | 0 <= read < insert < |actions| && actions[read].ReadClock? && actions[insert].InsertAuto?
                          && actions[insert].i == actions[read].i ::
      states[insert].now <= states[read].now + delay
  }

  /** When ingests take at most `delay` from reading the clock to inserting, no block is
      forged: each has as many violations of its address as its reason names, at least
      `threshold`, within the window and the delay before its insert. */
  lemma BlocksAreEarnedWithin(cfg: Config, states: seq<State>, actions: seq<Action>, n: nat, id: int, delay: nat)
    requires Trace(cfg, states, actions) && n < |states| && IsAuto(states[n], id)
    requires Prompt(states, actions, delay)
    ensures var b := states[n].blocks[id];
            |Between(states[n].log, b.ip, b.insertedAt - cfg.window - delay, b.insertedAt)| >= b.source.violations >= cfg.threshold
  {
    var b := states[n].blocks[id];
    var i, read, count, insert := BlocksHaveACause(cfg, states, actions, n, id);
    TraceInv(cfg, states, actions, count);
    TimeGrows(cfg, states, actions, count, insert);
    CommittedEventsSurvive(cfg, states, actions, count, n);
    SubsetBound(Violations(states[count].log, b.ip, states[read].now - cfg.window),
                Between(states[n].log, b.ip, b.insertedAt - cfg.window - delay, b.insertedAt));
  }

  // ---------- When the counted violations lie in the window ----------

  /** A violation of the address that began after the instant of step `read` was committed
      before step `count`. */
  ghost predicate Overtaken(states: seq<State>, actions: seq<Action>, ip: string, read: nat, count: nat)
    requires read < count <= |actions| < |states|
  {
    exists begin, commit | 0 <= begin < commit < count :: Overtakes(states, actions, ip, read, begin, commit)
  }

  ghost predicate Overtakes(states: seq<State>, actions: seq<Action>, ip: string, read: nat, begin: nat, commit: nat)
    requires read < |states| && begin < |actions| && commit < |actions| && |actions| < |states|
  {
    && actions[begin].Begin? && actions[commit] == Commit(actions[begin].i)
    && Violation(Event(actions[begin].kind, ip, 0, 0)) && actions[begin].ip == ip
    && states[begin].now > states[read].now
  }

  lemma {:induction false} BeginHistory(cfg: Config, states: seq<State>, actions: seq<Action>, n: nat, i: nat) returns (begin: nat)
    requires Trace(cfg, states, actions) && n < |states| && i in states[n].ingests
    ensures begin < n && actions[begin].Begin? && actions[begin].i == i
    ensures var a := actions[begin]; states[n].ingests[i].event == Event(a.kind, a.ip, a.statusCode, states[begin].now)
  {
    assert Follows(cfg, states, actions, n - 1);
    if i in states[n - 1].ingests {
      begin := BeginHistory(cfg, states, actions, n - 1, i);
    } else {
      begin := n - 1;
    }
  }

  /** Every logged event was begun and then committed. */
  lemma {:induction false} LogHistory(cfg: Config, states: seq<State>, actions: seq<Action>, n: nat, k: nat)
    returns (begin: nat, commit: nat)
    requires Trace(cfg, states, actions) && n < |states| && k < |states[n].log|
    ensures begin < commit < n && actions[begin].Begin? && actions[commit] == Commit(actions[begin].i)
    ensures var a := actions[begin]; states[n].log[k] == Event(a.kind, a.ip, a.statusCode, states[begin].now)
  {
    assert Follows(cfg, states, actions, n - 1);
    if k < |states[n - 1].log| {
      LogGrows(cfg, states[n - 1], actions[n - 1]);
      begin, commit := LogHistory(cfg, states, actions, n - 1, k);
    } else {
      commit := n - 1;
      begin := BeginHistory(cfg, states, actions, n - 1, actions[n - 1].i);
    }
  }

  lemma CommittedIsLogged(cfg: Config, states: seq<State>, actions: seq<Action>, begin: nat, commit: nat, n: nat) returns (k: nat)
    requires Trace(cfg, states, actions) && begin < commit < n < |states|
    requires actions[begin].Begin? && actions[commit] == Commit(actions[begin].i)
    ensures var a := actions[begin];
            k < |states[n].log| && states[n].log[k] == Event(a.kind, a.ip, a.statusCode, states[begin].now)
  {
    assert Follows(cfg, states, actions, begin) && Follows(cfg, states, actions, commit);
    EventsStay(cfg, states, actions, begin + 1, commit, actions[begin].i);
    CommittedEventsSurvive(cfg, states, actions, commit + 1, n);
    k := |states[commit].log|;
  }

  /** The violations counted at step `count` all lie in the window that ends at the clock
      reading exactly when none overtook the count. */
  lemma CountIsInWindowIff(cfg: Config, states: seq<State>, actions: seq<Action>, ip: string, read: nat, count: nat)
    requires Trace(cfg, states, actions) && read < count < |actions|
    ensures var since := states[read].now - cfg.window;
            Violations(states[count].log, ip, since) == Between(states[count].log, ip, since, states[read].now)
            <==> !Overtaken(states, actions, ip, read, count)
  {
    var log, since := states[count].log, states[read].now - cfg.window;
    if begin, commit :| 0 <= begin < commit < count && Overtakes(states, actions, ip, read, begin, commit) {
      var k := CommittedIsLogged(cfg, states, actions, begin, commit, count);
      assert k in Violations(log, ip, since) && k !in Between(log, ip, since, states[read].now);
    }
    if k: int :| k in Violations(log, ip, since) && log[k].createdAt > states[read].now {
      var begin, commit := LogHistory(cfg, states, actions, count, k);
      assert Overtakes(states, actions, ip, read, begin, commit);
    } else {
      assert forall k | k in Violations(log, ip, since) :: k in Between(log, ip, since, states[read].now);
    }
  }

  // ---------- What the reason of a block claims ----------

  /** Some stretch as long as a window holds `number` violations of the address. */
  ghost predicate InOneWindow(cfg: Config, log: seq<Event>, ip: string, number: int) {
    exists from :: EnoughFrom(cfg, log, ip, number, from)
  }

  ghost predicate EnoughFrom(cfg: Config, log: seq<Event>, ip: string, number: int, from: int) {
    |Between(log, ip, from, from + cfg.window)| >= number
  }

  /** "After so many violations within the window", of every automatic block of every run: the
      number of violations that the reason names came within one window's length. */
  ghost predicate ReasonsHold(cfg: Config) {
    forall states: seq<State>, actions: seq<Action>, n, id | Trace(cfg, states, actions) && 0 <= n < |states|
                                                                  && IsAuto(states[n], id) ::
      var b := states[n].blocks[id]; InOneWindow(cfg, states[n].log, b.ip, b.source.violations)
  }

  /** The weaker claim that `threshold` of them did, whatever number the reason names. */
  ghost predicate ThresholdsHold(cfg: Config) {
    forall states: seq<State>, actions: seq<Action>, n, id | Trace(cfg, states, actions) && 0 <= n < |states|
                                                                  && IsAuto(states[n], id) ::
      InOneWindow(cfg, states[n].log, states[n].blocks[id].ip, cfg.threshold)
  }

  /** Of a single block: its reason is right whenever nothing overtook the count behind it. */
  lemma ReasonHoldsUnlessOvertaken(cfg: Config, states: seq<State>, actions: seq<Action>, n: nat, id: int)
    returns (i: nat, read: nat, count: nat, insert: nat)
    requires Trace(cfg, states, actions) && n < |states| && IsAuto(states[n], id)
    ensures Behind(cfg, states, actions, states[n].blocks[id], i, read, count, insert)
    ensures var b := states[n].blocks[id];
            !Overtaken(states, actions, b.ip, read, count) ==> InOneWindow(cfg, states[n].log, b.ip, b.source.violations)
  {
    var b := states[n].blocks[id];
    i, read, count, insert := BlocksHaveACause(cfg, states, actions, n, id);
    CountIsInWindowIff(cfg, states, actions, b.ip, read, count);
    CommittedEventsSurvive(cfg, states, actions, count, n);
    if !Overtaken(states, actions, b.ip, read, count) {
      var from := states[read].now - cfg.window;
      SubsetBound(Between(states[count].log, b.ip, from, from + cfg.window), Between(states[n].log, b.ip, from, from + cfg.window));
      assert EnoughFrom(cfg, states[n].log, b.ip, b.source.violations, from);
    }
  }

  lemma Extend(cfg: Config, states: seq<State>, actions: seq<Action>, a: Action) returns (longer: seq<State>, more: seq<Action>)
    requires Trace(cfg, states, actions) && Enabled(states[|actions|], a)
    ensures longer == states + [Step(cfg, states[|actions|], a)] && more == actions + [a]
    ensures Trace(cfg, longer, more) && longer[|more|] == Step(cfg, states[|actions|], a)
  {
    longer, more := states + [Step(cfg, states[|actions|], a)], actions + [a];
    forall n | 0 <= n < |more|
      ensures Follows(cfg, longer, more, n)
    {
      assert n < |actions| ==> Follows(cfg, states, actions, n);
    }
  }

  ghost predicate Apart(log: seq<Event>, gap: nat) {
    forall j, k | 0 <= j < k < |log| :: log[j].createdAt + gap <= log[k].createdAt
  }

  /** Ingest 0 read its clock at once and has yet to count; n violations of one address, each
      `gap` after the one before, have been committed. */
  ghost predicate SpreadOut(cfg: Config, s: State, n: nat, gap: nat) {
    && n >= 1 && |s.log| == n && s.blocks == map[] && Apart(s.log, gap)
    && (forall i: nat :: i in s.ingests <==> i < n)
    && (forall k | 0 <= k < n :: InWindow(s.log[k], "a", s.log[0].createdAt - cfg.window) && s.log[k].createdAt <= s.now)
    && s.ingests[0] == Ingest(s.log[0], Windowed(0, s.log[0].createdAt - cfg.window))
  }

  lemma FirstViolation(cfg: Config, gap: nat) returns (states: seq<State>, actions: seq<Action>)
    requires cfg.enabled
    ensures Trace(cfg, states, actions) && SpreadOut(cfg, states[|actions|], 1, gap)
  {
    states, actions := [Init(0)], [];
    assert Trace(cfg, states, actions);
    states, actions := Extend(cfg, states, actions, Begin(0, "rate_limited", "a", 429));
    states, actions := Extend(cfg, states, actions, Commit(0));
    states, actions := Extend(cfg, states, actions, ReadClock(0));
  }

  lemma NextViolation(cfg: Config, states: seq<State>, actions: seq<Action>, n: nat, gap: nat)
    returns (longer: seq<State>, more: seq<Action>)
    requires Trace(cfg, states, actions) && SpreadOut(cfg, states[|actions|], n, gap)
    ensures Trace(cfg, longer, more) && SpreadOut(cfg, longer[|more|], n + 1, gap)
  {
    ghost var s := states[|actions|];
    longer, more := Extend(cfg, states, actions, Tick(s.now + gap));
    longer, more := Extend(cfg, longer, more, Begin(n, "rate_limited", "a", 429));
    longer, more := Extend(cfg, longer, more, Commit(n));
    ghost var t := longer[|more|];
    assert t.log == s.log + [Event("rate_limited", "a", 429, s.now + gap)];
  }

  lemma {:induction false} SpreadViolations(cfg: Config, n: nat, gap: nat) returns (states: seq<State>, actions: seq<Action>)
    requires cfg.enabled && n >= 1
    ensures Trace(cfg, states, actions) && SpreadOut(cfg, states[|actions|], n, gap)
    decreases n
  {
    if n == 1 {
      states, actions := FirstViolation(cfg, gap);
    } else {
      states, actions := SpreadViolations(cfg, n - 1, gap);
      states, actions := NextViolation(cfg, states, actions, n - 1, gap);
    }
  }

  /** However long the gap, and for any number from the threshold up: an address is blocked for
      that many violations, each of which came that long after the one before. */
  lemma SpreadOutBlock(cfg: Config, number: nat, gap: nat) returns (states: seq<State>, actions: seq<Action>)
    requires cfg.enabled && number >= 1 && number >= cfg.threshold
    ensures Trace(cfg, states, actions)
    ensures var s := states[|actions|];
            && IsAuto(s, 0) && s.blocks[0].ip == "a" && s.blocks[0].source.violations == number
            && |s.log| == number && Apart(s.log, gap)
  {
    states, actions := SpreadViolations(cfg, number, gap);
    ghost var s := states[|actions|];
    RangeHasSize(Violations(s.log, "a", s.log[0].createdAt - cfg.window), number);
    states, actions := Extend(cfg, states, actions, Count(0));
    states, actions := Extend(cfg, states, actions, CheckActive(0));
    states, actions := Extend(cfg, states, actions, InsertAuto(0, 0));
  }

  lemma ApartMeansOne(log: seq<Event>, ip: string, from: int, to: int, gap: nat)
    requires Apart(log, gap) && to < from + gap
    ensures |Between(log, ip, from, to)| <= 1
  {
    var ks := Between(log, ip, from, to);
    if ks != {} {
      var k := Choose(ks);
      forall j | j in ks
        ensures j == k
      {
      }
      assert ks == {k};
    }
  }

  /** In such a log no stretch as long as a window holds two violations. */
  lemma ApartNotInOneWindow(cfg: Config, log: seq<Event>, ip: string, number: int)
    requires Apart(log, cfg.window + 1) && number > 1
    ensures !InOneWindow(cfg, log, ip, number)
  {
    forall from
      ensures !EnoughFrom(cfg, log, ip, number, from)
    {
      ApartMeansOne(log, ip, from, from + cfg.window, cfg.window + 1);
    }
  }

  lemma NoneWhenOff(cfg: Config, states: seq<State>, actions: seq<Action>, n: nat, id: int)
    requires Trace(cfg, states, actions) && n < |states| && !cfg.enabled
    ensures !IsAuto(states[n], id)
  {
    if IsAuto(states[n], id) {
      var i, read, count, insert := BlocksHaveACause(cfg, states, actions, n, id);
    }
  }

  /** The number that a reason names can be relied on exactly when automatic blocking is off:
      whatever the threshold and the window, some run blocks an address for two violations or
      more of which no two came within one window's length. */
  lemma ReasonsHoldIff(cfg: Config)
    ensures ReasonsHold(cfg) <==> !cfg.enabled
  {
    if cfg.enabled {
      var number: nat := if cfg.threshold > 2 then cfg.threshold else 2;
      var states, actions := SpreadOutBlock(cfg, number, cfg.window + 1);
      ApartNotInOneWindow(cfg, states[|actions|].log, "a", number);
      assert IsAuto(states[|actions|], 0);
    } else {
      forall states: seq<State>, actions: seq<Action>, n, id | Trace(cfg, states, actions) && 0 <= n < |states|
        ensures !IsAuto(states[n], id)
      {
        NoneWhenOff(cfg, states, actions, n, id);
      }
    }
  }

  /** That `threshold` violations of every blocked address came within one window's length holds
      exactly when one violation is enough, or when automatic blocking is off. */
  lemma ThresholdsHoldIff(cfg: Config)
    ensures ThresholdsHold(cfg) <==> !cfg.enabled || cfg.threshold <= 1
  {
    if cfg.enabled && cfg.threshold > 1 {
      var states, actions := SpreadOutBlock(cfg, cfg.threshold, cfg.window + 1);
      ApartNotInOneWindow(cfg, states[|actions|].log, "a", cfg.threshold);
      assert IsAuto(states[|actions|], 0);
    } else {
      forall states: seq<State>, actions: seq<Action>, n, id | Trace(cfg, states, actions) && 0 <= n < |states|
                                                                    && IsAuto(states[n], id)
        ensures InOneWindow(cfg, states[n].log, states[n].blocks[id].ip, cfg.threshold)
      {
        OneIsEnough(cfg, states, actions, n, id);
      }
    }
  }

  lemma OneIsEnough(cfg: Config, states: seq<State>, actions: seq<Action>, n: nat, id: int)
    requires Trace(cfg, states, actions) && n < |states| && IsAuto(states[n], id)
    requires !cfg.enabled || cfg.threshold <= 1
    ensures InOneWindow(cfg, states[n].log, states[n].blocks[id].ip, cfg.threshold)
  {
    var ip := states[n].blocks[id].ip;
    var i, read, count, insert := BlocksHaveACause(cfg, states, actions, n, id);
    var e := states[insert].ingests[i].event;
    CommittedEventsSurvive(cfg, states, actions, count, n);
    var k :| 0 <= k < |states[count].log| && states[count].log[k] == e;
    SubsetBound({k as int}, Between(states[n].log, ip, e.createdAt, e.createdAt + cfg.window));
    assert EnoughFrom(cfg, states[n].log, ip, cfg.threshold, e.createdAt);
  }

  // ---------- What the actions of a run come to ----------

  function ClockAfter(now: int, actions: seq<Action>): int
    decreases |actions|
  {
    if actions == [] then now else ClockAfter(if actions[0].Tick? then actions[0].to else now, actions[1..])
  }

  lemma {:induction false} ClockIsTheActions(cfg: Config, states: seq<State>, actions: seq<Action>, n: nat)
    requires Trace(cfg, states, actions) && n < |states|
    ensures states[n].now == ClockAfter(states[0].now, actions[..n])
  {
    if n > 0 {
      ClockIsTheActions(cfg, states, actions, n - 1);
      assert Follows(cfg, states, actions, n - 1);
      ClockSnoc(states[0].now, actions[..n - 1], actions[n - 1]);
      assert actions[..n] == actions[..n - 1] + [actions[n - 1]];
    }
  }

  lemma {:induction false} ClockSnoc(now: int, actions: seq<Action>, a: Action)
    ensures ClockAfter(now, actions + [a]) == if a.Tick? then a.to else ClockAfter(now, actions)
    decreases |actions|
  {
    if actions != [] {
      ClockSnoc(if actions[0].Tick? then actions[0].to else now, actions[1..], a);
      assert (actions + [a])[1..] == actions[1..] + [a];
    }
  }

  /** What is counted, literally: the logged threats and rate limitings of the address since the
      instant. */
  lemma ViolationsAre(log: seq<Event>, ip: string, since: int, k: int)
    ensures k in Violations(log, ip, since) <==>
            && 0 <= k < |log| && log[k].ip == ip && log[k].createdAt >= since
            && (log[k].kind == "threat_detected" || log[k].kind == "rate_limited")
  {
  }

  /** Nobody is blocked automatically when that is off, and the address "unknown" never. */
  lemma AutomaticBlocksAreAttributable(cfg: Config, states: seq<State>, actions: seq<Action>, n: nat, id: int)
    requires Trace(cfg, states, actions) && n < |states| && IsAuto(states[n], id)
    ensures cfg.enabled && states[n].blocks[id].ip != "unknown"
  {
    var i, read, count, insert := BlocksHaveACause(cfg, states, actions, n, id);
  }

  /** What administrators' writes do: an insert adds the row unless it would be a second active
      one of its address; switching off always works, switching on unless another row of the
      address is on; nothing else of the row and no other row changes. */
  lemma AdministratorsWrites(cfg: Config, s: State, id: int, ip: string, active: bool)
    ensures id !in s.blocks ==>
              && Enabled(s, AdminInsert(id, ip, active))
              && var t := Step(cfg, s, AdminInsert(id, ip, active));
                 t == s.(blocks := if active && HasActive(s.blocks, ip) then s.blocks
                                   else s.blocks[id := Block(ip, active, Manual, s.now)])
    ensures id in s.blocks ==>
              && Enabled(s, AdminSetStatus(id, active))
              && var t := Step(cfg, s, AdminSetStatus(id, active));
                 && t.log == s.log && t.ingests == s.ingests && t.now == s.now && t.blocks.Keys == s.blocks.Keys
                 && (forall other | other in s.blocks && other != id :: t.blocks[other] == s.blocks[other])
                 && t.blocks[id].(active := s.blocks[id].active) == s.blocks[id]
                 && (!active ==> !t.blocks[id].active)
                 && (active ==> (t.blocks[id].active <==>
                       s.blocks[id].active || !exists other | other in s.blocks :: other != id && s.blocks[other].active
                                                                              && s.blocks[other].ip == s.blocks[id].ip))
  {
  }

  /** An ingest that finds its address blocked is done; one that does not goes on to insert. */
  lemma CheckDecides(cfg: Config, s: State, i: nat)
    requires Enabled(s, CheckActive(i))
    ensures var t := Step(cfg, s, CheckActive(i));
            var blocked := exists id | id in s.blocks :: s.blocks[id].active && s.blocks[id].ip == s.ingests[i].event.ip;
            && t.log == s.log && t.blocks == s.blocks && i in t.ingests
            && (blocked <==> t.ingests[i].phase.Finished?) && (!blocked <==> t.ingests[i].phase.NoneActive?)
  {
    if id :| id in s.blocks && s.blocks[id].active && s.blocks[id].ip == s.ingests[i].event.ip {
      assert ActiveAt(s.blocks, id, s.ingests[i].event.ip);
    }
  }

  /** A request that dies is over, and leaves log and blocks as they were. */
  lemma FailuresHarmNothing(cfg: Config, s: State, i: nat)
    requires i in s.ingests && !s.ingests[i].phase.Finished?
    ensures Enabled(s, Fail(i))
    ensures var t := Step(cfg, s, Fail(i));
            && t.log == s.log && t.blocks == s.blocks && t.now == s.now
            && t.ingests == s.ingests[i := s.ingests[i].(phase := Failed)]
  {
  }

  /** New events can always arrive, and no ingest is stuck: until it has finished or died, one of
      its own steps can run. */
  lemma IngestsNeverStick(cfg: Config, s: State, i: nat, id: int) returns (a: Action)
    requires id !in s.blocks && (i in s.ingests ==> !s.ingests[i].phase.Finished? && !s.ingests[i].phase.Failed?)
    ensures Enabled(s, a) && !a.Fail? && Moves(a) && a.i == i
  {
    if i !in s.ingests {
      return Begin(i, "rate_limited", "a", 429);
    }
    match s.ingests[i].phase
    case Inserting => a := Commit(i);
    case Committed(_) => a := ReadClock(i);
    case Windowed(_, _) => a := Count(i);
    case AboveThreshold(_, _, _, _) => a := CheckActive(i);
    case NoneActive(_, _, _, _) => a := InsertAuto(i, id);
  }
}
