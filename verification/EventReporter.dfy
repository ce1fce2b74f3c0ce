/**
  The asynchronous event reporter (reverse-proxy/internal/controlplane/event_reporter.go):
  any number of non-blocking producers, one bounded channel, one worker, and a Close that
  closes the channel once and waits for the worker to drain it.
*/
module EventReporter {
  import opened Common

  datatype Config = Config(capacity: nat, timeout: nat)

  datatype Worker<E> = Idle | Sending(event: E, since: int) | Stopped

  /** `first` marks the caller that runs the function inside sync.Once. */
  datatype Closer = Waiting(first: bool) | Returned(first: bool)

  /** `reported`, `accepted`, `attempted`, `dropped` and `panicked` are histories. */
  datatype State<E> = State(
    now: int, queue: seq<E>, worker: Worker<E>, closedAt: Option<int>, closers: map<nat, Closer>,
    reported: seq<E>, accepted: seq<E>, attempted: seq<E>, dropped: seq<E>, panicked: seq<E>)

  datatype Action<E> =
    | Tick(to: int)
    | Report(event: E)
    | Take
    | Finish
    | Stop
    | Close(id: nat)
    | CloseReturns(id: nat)

  function Init<E>(now: int): State<E> {
    State(now, [], Idle, None, map[], [], [], [], [], [])
  }

  /** Time passes only while the worker cannot move by itself: while it waits for events on
      an open empty channel, while a send is within its timeout, or after it has stopped. */
  predicate Enabled<E>(cfg: Config, s: State<E>, a: Action<E>) {
    match a
    case Tick(to) =>
      && s.now <= to
      && (s.worker.Sending? ==> to <= s.worker.since + cfg.timeout)
      && (s.worker.Idle? && (s.queue != [] || s.closedAt.Some?) ==> to == s.now)
    case Report(_) => true
    case Take => s.worker.Idle? && s.queue != []
    case Finish => s.worker.Sending?
    case Stop => s.worker.Idle? && s.queue == [] && s.closedAt.Some?
    case Close(id) => id !in s.closers
    case CloseReturns(id) =>
      && id in s.closers && s.closers[id].Waiting?
      && if s.closers[id].first then s.worker.Stopped?
         else exists f | f in s.closers :: s.closers[f] == Returned(true)
  }

  /** The select in Report: enqueue if there is room, drop otherwise. A send on a closed
      channel panics instead. */
  function Offer<E>(cfg: Config, s: State<E>, e: E): State<E> {
    var t := s.(reported := s.reported + [e]);
    if s.closedAt.Some? then t.(panicked := s.panicked + [e])
    else if |s.queue| < cfg.capacity then t.(queue := s.queue + [e], accepted := s.accepted + [e])
    else t.(dropped := s.dropped + [e])
  }

  function CloseOnce<E>(s: State<E>, id: nat): State<E> {
    s.(closedAt := if s.closedAt.None? then Some(s.now) else s.closedAt,
       closers := s.closers[id := Waiting(s.closedAt.None?)])
  }

  function Step<E>(cfg: Config, s: State<E>, a: Action<E>): State<E>
    requires Enabled(cfg, s, a)
  {
    match a
    case Tick(to) => s.(now := to)
    case Report(e) => Offer(cfg, s, e)
    case Take => s.(queue := s.queue[1..], worker := Sending(s.queue[0], s.now))
    case Finish => s.(worker := Idle, attempted := s.attempted + [s.worker.event])
    case Stop => s.(worker := Stopped)
    case Close(id) => CloseOnce(s, id)
    case CloseReturns(id) => s.(closers := s.closers[id := Returned(s.closers[id].first)])
  }

  ghost predicate Run<E>(cfg: Config, s: State<E>, actions: seq<Action<E>>)
    decreases |actions|
  {
    actions != [] ==> Enabled(cfg, s, actions[0]) && Run(cfg, Step(cfg, s, actions[0]), actions[1..])
  }

  ghost function Exec<E>(cfg: Config, s: State<E>, actions: seq<Action<E>>): State<E>
    requires Run(cfg, s, actions)
    decreases |actions|
  {
    if actions == [] then s else Exec(cfg, Step(cfg, s, actions[0]), actions[1..])
  }

  // ---------- Invariant ----------

  function InFlight<E>(w: Worker<E>): seq<E> {
    if w.Sending? then [w.event] else []
  }

  /** Accepted events are the attempted ones, then the one being sent, then the queue. */
  ghost predicate Fifo<E>(s: State<E>) {
    s.accepted == s.attempted + InFlight(s.worker) + s.queue
  }

  ghost predicate Conserved<E>(s: State<E>) {
    multiset(s.reported) == multiset(s.accepted) + multiset(s.dropped) + multiset(s.panicked)
  }

  ghost predicate Shutdown<E>(s: State<E>) {
    && (s.worker.Stopped? ==> s.closedAt.Some? && s.queue == [])
    && (s.closers != map[] ==> s.closedAt.Some?)
    && (forall id | id in s.closers && s.closers[id].Returned? :: s.worker.Stopped?)
  }

  /** The time the worker can still need: a timeout for each queued event and what is left
      of the send in flight. */
  function Owed<E>(cfg: Config, s: State<E>): int {
    |s.queue| * cfg.timeout + if s.worker.Sending? then s.worker.since + cfg.timeout - s.now else 0
  }

  function Deadline(cfg: Config, closedAt: int): int {
    closedAt + (cfg.capacity + 1) * cfg.timeout
  }

  ghost predicate Timely<E>(cfg: Config, s: State<E>) {
    && |s.queue| <= cfg.capacity
    && (s.worker.Sending? ==> s.worker.since <= s.now <= s.worker.since + cfg.timeout)
    && (s.closedAt.Some? && !s.worker.Stopped? ==> s.now + Owed(cfg, s) <= Deadline(cfg, s.closedAt.value))
  }

  ghost predicate Inv<E>(cfg: Config, s: State<E>) {
    Fifo(s) && Conserved(s) && Shutdown(s) && Timely(cfg, s)
  }

  lemma FifoStep<E>(cfg: Config, s: State<E>, a: Action<E>)
    requires Fifo(s) && Enabled(cfg, s, a)
    ensures Fifo(Step(cfg, s, a))
  {
  }

  lemma ConservedStep<E>(cfg: Config, s: State<E>, a: Action<E>)
    requires Conserved(s) && Enabled(cfg, s, a)
    ensures Conserved(Step(cfg, s, a))
  {
  }

  lemma ShutdownStep<E>(cfg: Config, s: State<E>, a: Action<E>)
    requires Shutdown(s) && Enabled(cfg, s, a)
    ensures Shutdown(Step(cfg, s, a))
  {
  }

  lemma TimelyStep<E>(cfg: Config, s: State<E>, a: Action<E>)
    requires Timely(cfg, s) && Enabled(cfg, s, a)
    ensures Timely(cfg, Step(cfg, s, a))
  {
  }

  lemma {:induction false} RunInv<E>(cfg: Config, s: State<E>, actions: seq<Action<E>>)
    requires Inv(cfg, s) && Run(cfg, s, actions)
    ensures Inv(cfg, Exec(cfg, s, actions))
    decreases |actions|
  {
    if actions != [] {
      FifoStep(cfg, s, actions[0]);
      ConservedStep(cfg, s, actions[0]);
      ShutdownStep(cfg, s, actions[0]);
      TimelyStep(cfg, s, actions[0]);
      RunInv(cfg, Step(cfg, s, actions[0]), actions[1..]);
    }
  }

  // ---------- Results about every schedule ----------

  /** Whatever the schedule, every reported event is accepted, dropped or refused by a
      closed channel, once; accepted events are attempted in order, once; the channel
      never holds more than its capacity. */
  lemma NothingLostOrForged<E>(cfg: Config, began: int, actions: seq<Action<E>>)
    requires Run(cfg, Init(began), actions)
    ensures var s := Exec(cfg, Init(began), actions); Fifo(s) && Conserved(s) && |s.queue| <= cfg.capacity
  {
    RunInv(cfg, Init(began), actions);
  }

  /** Once any Close has returned, the worker has stopped and every event ever accepted has
      been attempted. */
  lemma CloseMeansDrained<E>(cfg: Config, began: int, actions: seq<Action<E>>, id: nat)
    requires Run(cfg, Init(began), actions)
    requires var s := Exec(cfg, Init(began), actions); id in s.closers && s.closers[id].Returned?
    ensures var s := Exec(cfg, Init(began), actions); s.worker.Stopped? && s.attempted == s.accepted
  {
    RunInv(cfg, Init(began), actions);
  }

  /** The worker has stopped by (capacity + 1) timeouts after the first Close. */
  lemma ShutdownBound<E>(cfg: Config, began: int, actions: seq<Action<E>>)
    requires Run(cfg, Init(began), actions)
    ensures var s := Exec(cfg, Init(began), actions);
            s.closedAt.Some? && s.now > Deadline(cfg, s.closedAt.value) ==> s.worker.Stopped? && s.attempted == s.accepted
  {
    RunInv(cfg, Init(began), actions);
    OwedNonnegative(cfg, Exec(cfg, Init(began), actions));
  }

  lemma OwedNonnegative<E>(cfg: Config, s: State<E>)
    requires Timely(cfg, s)
    ensures Owed(cfg, s) >= 0
  {
  }

  /** The worker's own steps still needed before it stops. */
  function Drain<E>(s: State<E>): nat {
    2 * |s.queue| + match s.worker { case Idle => 1 case Sending(_, _) => 2 case Stopped => 0 }
  }

  predicate WorkerStep<E>(a: Action<E>) { a.Take? || a.Finish? || a.Stop? }

  function WorkerSteps<E>(actions: seq<Action<E>>): nat {
    if actions == [] then 0 else (if WorkerStep(actions[0]) then 1 else 0) + WorkerSteps(actions[1..])
  }

  lemma DrainStep<E>(cfg: Config, s: State<E>, a: Action<E>)
    requires s.closedAt.Some? && Enabled(cfg, s, a)
    ensures Step(cfg, s, a).closedAt == s.closedAt && Step(cfg, s, a).accepted == s.accepted
    ensures Drain(Step(cfg, s, a)) == Drain(s) - if WorkerStep(a) then 1 else 0
  {
  }

  /** After Close nothing is accepted any more, and the number of worker steps left is
      exactly `Drain`: whatever else is interleaved, it only falls, by one each step. */
  lemma {:induction false} DrainCountsDown<E>(cfg: Config, s: State<E>, actions: seq<Action<E>>)
    requires s.closedAt.Some? && Run(cfg, s, actions)
    ensures Drain(Exec(cfg, s, actions)) + WorkerSteps(actions) == Drain(s)
    ensures Exec(cfg, s, actions).accepted == s.accepted
    decreases |actions|
  {
    if actions != [] {
      DrainStep(cfg, s, actions[0]);
      DrainCountsDown(cfg, Step(cfg, s, actions[0]), actions[1..]);
    }
  }

  /** And the worker is never stuck on the way: until it stops, one of its steps can run. */
  lemma DrainNeverStuck<E>(cfg: Config, s: State<E>) returns (a: Action<E>)
    requires s.closedAt.Some? && !s.worker.Stopped?
    ensures WorkerStep(a) && Enabled(cfg, s, a)
  {
    a := if s.worker.Sending? then Finish else if s.queue != [] then Take else Stop;
  }

  // ---------- The reporter object ----------

  /** The state left by a worker that runs to the end of a closed channel. */
  function Drained<E>(s: State<E>): State<E> {
    s.(queue := [], worker := Stopped, attempted := s.attempted + InFlight(s.worker) + s.queue)
  }

  function DrainActions<E>(s: State<E>): seq<Action<E>>
    decreases |s.queue|, if s.worker.Sending? then 1 else 0
  {
    if s.worker.Sending? then [Finish] + DrainActions(s.(worker := Idle))
    else if s.queue != [] then [Take] + DrainActions(s.(worker := Sending(s.queue[0], s.now), queue := s.queue[1..]))
    else [Stop]
  }

  /** Draining alone is a run of the interleaved system. */
  lemma {:induction false} DrainedIsARun<E>(cfg: Config, s: State<E>)
    requires s.closedAt.Some? && !s.worker.Stopped?
    ensures Run(cfg, s, DrainActions(s)) && Exec(cfg, s, DrainActions(s)) == Drained(s)
    decreases |s.queue|, if s.worker.Sending? then 1 else 0
  {
    var actions := DrainActions(s);
    if s.worker.Sending? {
      var t := Step(cfg, s, Finish);
      assert DrainActions(s.(worker := Idle)) == DrainActions(t) by {
        DrainIgnoresHistory(s.(worker := Idle), t);
      }
      DrainedIsARun(cfg, t);
      assert actions[1..] == DrainActions(t);
      assert s.attempted + InFlight(s.worker) + s.queue == t.attempted + InFlight(t.worker) + t.queue;
    } else if s.queue != [] {
      var t := Step(cfg, s, Take);
      DrainedIsARun(cfg, t);
      assert actions[1..] == DrainActions(t);
      assert s.attempted + InFlight(s.worker) + s.queue == t.attempted + InFlight(t.worker) + t.queue;
    } else {
      assert actions[1..] == [];
      assert s.attempted + InFlight(s.worker) + s.queue == s.attempted;
    }
  }

  lemma {:induction false} DrainIgnoresHistory<E>(s: State<E>, t: State<E>)
    requires s.queue == t.queue && s.worker == t.worker && s.now == t.now
    ensures DrainActions(s) == DrainActions(t)
    decreases |s.queue|, if s.worker.Sending? then 1 else 0
  {
    if s.worker.Sending? {
      DrainIgnoresHistory(s.(worker := Idle), t.(worker := Idle));
    } else if s.queue != [] {
      DrainIgnoresHistory(s.(worker := Sending(s.queue[0], s.now), queue := s.queue[1..]),
                          t.(worker := Sending(t.queue[0], t.now), queue := t.queue[1..]));
    }
  }

  /** What can happen around and inside the worker's loop, between two of its turns. */
  datatype Turn<E> = Reports(event: E) | Closes(id: nat) | Sends(delivered: bool)

  function TurnActions<E>(turn: Turn<E>): seq<Action<E>> {
    match turn
    case Reports(e) => [Report(e)]
    case Closes(id) => [Close(id)]
    case Sends(_) => [Take] + [Finish]
  }

  /** A life of the loop: these turns, and then the end of the closed and empty channel. */
  function LoopActions<E>(turns: seq<Turn<E>>): seq<Action<E>> {
    if turns == [] then [Stop] else TurnActions(turns[0]) + LoopActions(turns[1..])
  }

  function Failures<E>(turns: seq<Turn<E>>): nat {
    if turns == [] then 0 else (if turns[0] == Sends(false) then 1 else 0) + Failures(turns[1..])
  }

  ghost predicate Possible<E>(cfg: Config, s: State<E>, actions: seq<Action<E>>) {
    Run(cfg, s, actions)
  }

  lemma Head<E>(cfg: Config, s: State<E>, a: Action<E>, rest: seq<Action<E>>)
    requires Run(cfg, s, [a] + rest)
    ensures Enabled(cfg, s, a) && Run(cfg, Step(cfg, s, a), rest)
    ensures Exec(cfg, s, [a] + rest) == Exec(cfg, Step(cfg, s, a), rest)
  {
    assert ([a] + rest)[1..] == rest;
  }

  /** The state after one turn. */
  ghost function AfterTurn<E>(cfg: Config, s: State<E>, turn: Turn<E>): State<E>
    requires Possible(cfg, s, TurnActions(turn))
  {
    Exec(cfg, s, TurnActions(turn))
  }

  lemma TurnEffect<E>(cfg: Config, s: State<E>, turn: Turn<E>)
    requires Possible(cfg, s, TurnActions(turn))
    ensures turn.Reports? ==> AfterTurn(cfg, s, turn) == Step(cfg, s, Report(turn.event))
    ensures turn.Closes? ==> Enabled(cfg, s, Close(turn.id)) && AfterTurn(cfg, s, turn) == Step(cfg, s, Close(turn.id))
    ensures turn.Sends? ==>
              && Enabled(cfg, s, Take) && Enabled(cfg, Step(cfg, s, Take), Finish)
              && AfterTurn(cfg, s, turn) == Step(cfg, Step(cfg, s, Take), Finish)
  {
    if turn.Sends? {
      Head(cfg, s, Take, [Finish]);
      Head(cfg, Step(cfg, s, Take), Finish, []);
      assert TurnActions(turn)[1..] == [Finish] + [];
    } else {
      assert TurnActions(turn) == TurnActions(turn) + [];
      Head(cfg, s, TurnActions(turn)[0], []);
    }
  }

  lemma {:induction false} Prefix<E>(cfg: Config, s: State<E>, xs: seq<Action<E>>, ys: seq<Action<E>>)
    requires Run(cfg, s, xs + ys)
    ensures Run(cfg, s, xs) && Run(cfg, Exec(cfg, s, xs), ys) && Exec(cfg, s, xs + ys) == Exec(cfg, Exec(cfg, s, xs), ys)
    decreases |xs|
  {
    if xs == [] {
      assert xs + ys == ys;
    } else {
      assert xs + ys == [xs[0]] + (xs[1..] + ys) && (xs + ys)[0] == xs[0];
      Head(cfg, s, xs[0], xs[1..] + ys);
      Prefix(cfg, Step(cfg, s, xs[0]), xs[1..], ys);
    }
  }

  /** A worker that has stopped has attempted everything that was accepted. */
  lemma StoppedHasAttemptedAll<E>(cfg: Config, s: State<E>, actions: seq<Action<E>>)
    requires Inv(cfg, s) && Run(cfg, s, actions) && Exec(cfg, s, actions).worker.Stopped?
    ensures Exec(cfg, s, actions).attempted == Exec(cfg, s, actions).accepted
  {
    RunInv(cfg, s, actions);
  }

  class AsyncEventReporter<E> {
    const cfg: Config
    var queue: seq<E>
    var closed: bool
    var done: bool
    ghost var clock: int
    ghost var closedAt: int
    ghost var closers: map<nat, Closer>
    ghost var reported: seq<E>
    ghost var accepted: seq<E>
    ghost var attempted: seq<E>
    ghost var dropped: seq<E>
    ghost var panicked: seq<E>

    /** The object between two of its worker's sends, as a state of the system. */
    ghost function View(): State<E>
      reads this
    {
      State(clock, queue, if done then Stopped else Idle, if closed then Some(closedAt) else None, closers,
            reported, accepted, attempted, dropped, panicked)
    }

    constructor (cfg: Config, now: int)
      ensures this.cfg == cfg && View() == Init(now) && Inv(cfg, View())
    {
      this.cfg := cfg;
      queue, closed, done := [], false, false;
      clock, closedAt, closers := now, now, map[];
      reported, accepted, attempted, dropped, panicked := [], [], [], [], [];
    }

    /** Never blocks. `ok` is false when the send on the closed channel panics. */
    method Report(e: E) returns (ok: bool)
      modifies this
      ensures View() == Step(cfg, old(View()), Action.Report(e))
      ensures ok == !old(closed)
      ensures queue == if !old(closed) && |old(queue)| < cfg.capacity then old(queue) + [e] else old(queue)
      ensures accepted == if !old(closed) && |old(queue)| < cfg.capacity then old(accepted) + [e] else old(accepted)
      ensures dropped == if !old(closed) && |old(queue)| >= cfg.capacity then old(dropped) + [e] else old(dropped)
    {
      reported := reported + [e];
      if closed {
        panicked := panicked + [e];
        return false;
      }
      if |queue| < cfg.capacity {
        queue := queue + [e];
        accepted := accepted + [e];
      } else {
        dropped := dropped + [e];
      }
      return true;
    }

    /** One turn of the worker's loop, with the channel open or closed; `delivered` tells
        whether the send succeeded, and only the log sees it when it did not. */
    method SendNext(delivered: bool) returns (failed: bool)
      requires queue != [] && !done
      modifies this
      ensures View() == Step(cfg, Step(cfg, old(View()), Take), Finish)
      ensures failed == !delivered
    {
      var event := queue[0];
      queue := queue[1..];
      attempted := attempted + [event];
      failed := !delivered;
    }

    /** One turn. Closing is the channel's part of Close. */
    method TakeTurn(turn: Turn<E>) returns (failed: bool)
      requires !done && Possible(cfg, View(), TurnActions(turn))
      modifies this
      ensures View() == AfterTurn(cfg, old(View()), turn) && !done
      ensures failed <==> turn == Sends(false)
    {
      TurnEffect(cfg, View(), turn);
      failed := false;
      match turn {
        case Reports(e) =>
          var _ := this.Report(e);
        case Closes(id) =>
          closers := closers[id := Waiting(!closed)];
          if !closed {
            closed, closedAt := true, clock;
          }
        case Sends(delivered) =>
          failed := SendNext(delivered);
      }
    }

    /** The worker's whole life: its turns, among reports and closes in any order, until the
        channel is closed and empty. It is a run of the system, at the end of which every
        accepted event has been attempted. */
    method Run(turns: seq<Turn<E>>) returns (failures: nat)
      requires !done && Possible(cfg, View(), LoopActions(turns))
      modifies this
      ensures View() == Exec(cfg, old(View()), LoopActions(turns))
      ensures done && queue == [] && failures == Failures(turns)
      ensures old(Inv(cfg, View())) ==> attempted == accepted
    {
      failures := 0;
      assert turns[0..] == turns;
      for i := 0 to |turns|
        invariant !done && Possible(cfg, View(), LoopActions(turns[i..]))
        invariant Exec(cfg, View(), LoopActions(turns[i..])) == Exec(cfg, old(View()), LoopActions(turns))
        invariant failures + Failures(turns[i..]) == Failures(turns)
      {
        assert turns[i..][0] == turns[i] && turns[i..][1..] == turns[i + 1..];
        Prefix(cfg, View(), TurnActions(turns[i]), LoopActions(turns[i + 1..]));
        var failed := TakeTurn(turns[i]);
        if failed {
          failures := failures + 1;
        }
      }
      Head(cfg, View(), Stop, []);
      done := true;
      if old(Inv(cfg, View())) {
        StoppedHasAttemptedAll(cfg, old(View()), LoopActions(turns));
      }
    }

    /** The loop once the channel is closed: turn after turn until it is empty. */
    method DrainClosed(delivered: seq<bool>) returns (failures: nat)
      requires closed && !done && |delivered| == |queue|
      modifies this
      ensures View() == Drained(old(View()))
      ensures failures == multiset(delivered)[false]
    {
      failures := 0;
      for i := 0 to |delivered|
        invariant closed && !done && |queue| == |delivered| - i
        invariant Drained(View()) == Drained(old(View()))
        invariant failures == multiset(delivered[..i])[false]
      {
        ghost var before := View();
        assert delivered[..i + 1] == delivered[..i] + [delivered[i]];
        var failed := SendNext(delivered[i]);
        assert before.attempted + [] + before.queue == View().attempted + [] + View().queue;
        if failed {
          failures := failures + 1;
        }
      }
      done := true;
      assert delivered[..|delivered|] == delivered;
      assert attempted + [] + [] == attempted;
    }

    /** The first Close closes the channel, waits for the worker and returns; later ones find
        the sync.Once spent and change nothing. */
    method Close(ghost id: nat, delivered: seq<bool>)
      requires !closed ==> |delivered| == |queue|
      requires closed <==> done
      modifies this
      ensures !old(closed) ==>
                View() == Drained(CloseOnce(old(View()), id)).(closers := old(closers)[id := Returned(true)])
      ensures old(closed) ==> View() == old(View()).(closers := old(closers)[id := Returned(false)])
      ensures closed && done && queue == (if old(closed) then old(queue) else [])
      ensures attempted == old(attempted) + (if old(closed) then [] else old(queue))
      ensures reported == old(reported) && accepted == old(accepted) && dropped == old(dropped)
    {
      ghost var first := !closed;
      if !closed {
        closed, closedAt := true, clock;
        var _ := DrainClosed(delivered);
      }
      closers := closers[id := Returned(first)];
    }
  }
}
