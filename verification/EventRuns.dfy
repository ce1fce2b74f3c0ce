/**
  What the actions of a run of EventReporter come to: where the clock stands, what has been
  reported, when the channel was closed and by whom, told from the actions alone; and which
  reports are accepted and attempted.
*/
module EventRuns {
  import opened Common
  import opened EventReporter

  // ---------- The actions alone ----------

  function ClockAfter<E>(now: int, actions: seq<Action<E>>): int
    decreases |actions|
  {
    if actions == [] then now else ClockAfter(if actions[0].Tick? then actions[0].to else now, actions[1..])
  }

  function ReportsOf<E>(actions: seq<Action<E>>): seq<E> {
    if actions == [] then []
    else (if actions[0].Report? then [actions[0].event] else []) + ReportsOf(actions[1..])
  }

  /** The instant of the first Close. */
  function FirstClose<E>(now: int, closed: Option<int>, actions: seq<Action<E>>): Option<int>
    decreases |actions|
  {
    if actions == [] then closed
    else
      var a := actions[0];
      FirstClose(if a.Tick? then a.to else now, if a.Close? && closed.None? then Some(now) else closed, actions[1..])
  }

  lemma StepHistories<E>(cfg: Config, s: State<E>, a: Action<E>)
    requires Enabled(cfg, s, a)
    ensures var t := Step(cfg, s, a);
            && s.now <= t.now == (if a.Tick? then a.to else s.now)
            && t.reported == s.reported + (if a.Report? then [a.event] else [])
            && t.closedAt == (if a.Close? && s.closedAt.None? then Some(s.now) else s.closedAt)
            && t.closers.Keys == (if a.Close? then s.closers.Keys + {a.id} else s.closers.Keys)
  {
  }

  lemma {:induction false} HistoriesAreTheActions<E>(cfg: Config, s: State<E>, actions: seq<Action<E>>)
    requires Run(cfg, s, actions)
    ensures var t := Exec(cfg, s, actions);
            && s.now <= t.now == ClockAfter(s.now, actions)
            && t.reported == s.reported + ReportsOf(actions)
            && t.closedAt == FirstClose(s.now, s.closedAt, actions)
            && forall id :: id in t.closers <==> id in s.closers || Close(id) in actions
    decreases |actions|
  {
    if actions != [] {
      StepHistories(cfg, s, actions[0]);
      HistoriesAreTheActions(cfg, Step(cfg, s, actions[0]), actions[1..]);
      assert forall a :: a in actions <==> a == actions[0] || a in actions[1..];
    }
  }

  /** Over every run from the start: the events reported are those of the Report actions, in
      order, each accepted, dropped or refused; the channel is closed since the first Close. */
  lemma StateIsTheActions<E>(cfg: Config, began: int, actions: seq<Action<E>>)
    requires Run(cfg, Init(began), actions)
    ensures var s := Exec(cfg, Init(began), actions);
            && s.now == ClockAfter(began, actions) && s.reported == ReportsOf(actions)
            && multiset(s.accepted) + multiset(s.dropped) + multiset(s.panicked) == multiset(ReportsOf(actions))
            && s.closedAt == FirstClose(began, None, actions)
            && forall id :: id in s.closers <==> Close(id) in actions
  {
    var s := Init<E>(began);
    HistoriesAreTheActions(cfg, s, actions);
    assert Exec(cfg, s, actions).reported == ReportsOf(actions);
    assert multiset(ReportsOf(actions)) == multiset(Exec(cfg, s, actions).reported);
    NothingLostOrForged(cfg, began, actions);
  }

  // ---------- Which reports are accepted ----------

  /** Reporting is always possible. With the channel open and room in it the event is queued
      and accepted, without room it is dropped, and on a closed channel it is refused; nothing
      else changes. */
  lemma ReportIsAcceptedIff<E>(cfg: Config, s: State<E>, e: E)
    ensures Enabled(cfg, s, Report(e))
    ensures var t := Step(cfg, s, Report(e));
            var open := s.closedAt.None?;
            && t.queue == (if open && |s.queue| < cfg.capacity then s.queue + [e] else s.queue)
            && t.accepted == (if open && |s.queue| < cfg.capacity then s.accepted + [e] else s.accepted)
            && t.dropped == (if open && |s.queue| >= cfg.capacity then s.dropped + [e] else s.dropped)
            && t.panicked == (if open then s.panicked else s.panicked + [e])
            && t.attempted == s.attempted && t.worker == s.worker && t.closedAt == s.closedAt && t.closers == s.closers
  {
  }

  lemma {:induction false} AcceptedStays<E>(cfg: Config, s: State<E>, actions: seq<Action<E>>)
    requires Run(cfg, s, actions)
    ensures s.accepted <= Exec(cfg, s, actions).accepted
    decreases |actions|
  {
    if actions != [] {
      assert s.accepted <= Step(cfg, s, actions[0]).accepted;
      AcceptedStays(cfg, Step(cfg, s, actions[0]), actions[1..]);
    }
  }

  lemma {:induction false} Split<E>(cfg: Config, s: State<E>, actions: seq<Action<E>>, n: nat)
    requires Run(cfg, s, actions) && n <= |actions|
    ensures Run(cfg, s, actions[..n]) && Run(cfg, Exec(cfg, s, actions[..n]), actions[n..])
    ensures Exec(cfg, s, actions) == Exec(cfg, Exec(cfg, s, actions[..n]), actions[n..])
    decreases n
  {
    if n > 0 {
      Split(cfg, Step(cfg, s, actions[0]), actions[1..], n - 1);
      assert actions[..n][1..] == actions[1..][..n - 1] && actions[1..][n - 1..] == actions[n..];
    } else {
      assert actions[..0] == [] && actions[0..] == actions;
    }
  }

  /** An event reported while the channel is open and has room is attempted, in its place, by
      the time the worker has stopped. */
  lemma RoomMeansAttempted<E>(cfg: Config, began: int, actions: seq<Action<E>>, n: nat)
    requires Run(cfg, Init(began), actions) && n < |actions| && actions[n].Report? && Run(cfg, Init(began), actions[..n])
    requires var s := Exec(cfg, Init(began), actions[..n]); s.closedAt.None? && |s.queue| < cfg.capacity
    requires Exec(cfg, Init(began), actions).worker.Stopped?
    ensures var place := |Exec(cfg, Init(began), actions[..n]).accepted|;
            var attempted := Exec(cfg, Init(began), actions).attempted;
            place < |attempted| && attempted[place] == actions[n].event
  {
    Split(cfg, Init(began), actions, n);
    var s := Exec(cfg, Init(began), actions[..n]);
    assert actions[n..][0] == actions[n];
    AcceptedStays(cfg, Step(cfg, s, actions[n]), actions[n..][1..]);
    StoppedHasAttemptedAll(cfg, Init(began), actions);
  }

  // ---------- Closing ----------

  /** Anybody can close at any time and is then waiting; once the worker has stopped the
      closer that closed the channel can return, and after it all others. */
  lemma ClosersReturn<E>(cfg: Config, s: State<E>, id: nat)
    ensures id !in s.closers ==>
              && Enabled(cfg, s, Close(id))
              && var t := Step(cfg, s, Close(id));
                 t.closedAt.Some? && id in t.closers && t.closers[id] == Waiting(s.closedAt.None?) && t.queue == s.queue
    ensures id in s.closers && s.closers[id].Waiting?
            && (if s.closers[id].first then s.worker.Stopped? else exists f | f in s.closers :: s.closers[f] == Returned(true)) ==>
              && Enabled(cfg, s, CloseReturns(id))
              && Step(cfg, s, CloseReturns(id)).closers == s.closers[id := Returned(s.closers[id].first)]
    ensures id in s.closers && s.closers[id].Waiting? && s.closers[id].first && !s.worker.Stopped? ==>
              !Enabled(cfg, s, CloseReturns(id))
  {
  }

  /** Time can pass up to the end of a send, and freely while the worker waits or has stopped. */
  lemma TimePasses<E>(cfg: Config, s: State<E>, to: int)
    requires s.now <= to
    requires s.worker.Sending? ==> to <= s.worker.since + cfg.timeout
    requires s.worker.Idle? ==> s.queue == [] && s.closedAt.None?
    ensures Enabled(cfg, s, Action.Tick(to))
  {
  }
}
