/**
  What the actions of a run of PolicySystem come to: where the clock stands, which stream
  messages were decoded and which fetches succeeded, told from the actions alone; and what every
  read is answered with, in those terms.
*/
module PolicyRuns {
  import opened Common
  import opened PolicySystem

  // ---------- The actions alone ----------

  function ClockAfter<S>(now: int, actions: seq<Action<S>>): int
    decreases |actions|
  {
    if actions == [] then now else ClockAfter(if actions[0].Tick? then actions[0].to else now, actions[1..])
  }

  function ConnectedAfter<S>(connected: bool, actions: seq<Action<S>>): bool
    decreases |actions|
  {
    if actions == [] then connected
    else ConnectedAfter(if actions[0].Connect? then true else if actions[0].Disconnect? then false else connected, actions[1..])
  }

  /** The payloads of the stream messages that decode, in order. */
  function Decodable<S>(actions: seq<Action<S>>): seq<S> {
    if actions == [] then []
    else (if actions[0].Message? && actions[0].payload.Some? then [actions[0].payload.value] else []) + Decodable(actions[1..])
  }

  /** When each call last entered the cache. */
  function Entered<S>(now: int, known: map<nat, int>, actions: seq<Action<S>>): map<nat, int>
    decreases |actions|
  {
    if actions == [] then known
    else
      var a := actions[0];
      Entered(if a.Tick? then a.to else now, if a.Enter? then known[a.id := now] else known, actions[1..])
  }

  predicate Succeeded<S>(a: Action<S>, entered: map<nat, int>) {
    a.FetchReturns? && a.outcome.FetchedSnapshot? && a.id in entered
  }

  /** The fetches that succeeded, each with the instant at which its call entered the cache. */
  function FetchesOf<S>(now: int, entered: map<nat, int>, actions: seq<Action<S>>): seq<Fetch<S>>
    decreases |actions|
  {
    if actions == [] then []
    else
      var a := actions[0];
      (if Succeeded(a, entered) then [Fetch(entered[a.id], a.outcome.value)] else [])
      + FetchesOf(if a.Tick? then a.to else now, if a.Enter? then entered[a.id := now] else entered, actions[1..])
  }

  /** Calls at the source entered the cache when they say. */
  ghost predicate EnteredInv<S>(s: State<S>, entered: map<nat, int>) {
    forall id | id in s.calls && s.calls[id].Fetching? :: id in entered && entered[id] == s.calls[id].begun
  }

  lemma StepHistories<S>(ttl: int, s: State<S>, a: Action<S>, entered: map<nat, int>)
    requires Enabled(s, a) && EnteredInv(s, entered)
    ensures var t := Step(ttl, s, a);
            && s.now <= t.now == (if a.Tick? then a.to else s.now)
            && t.connected == (if a.Connect? then true else if a.Disconnect? then false else s.connected)
            && t.decoded == s.decoded + (if a.Message? && a.payload.Some? then [a.payload.value] else [])
            && t.fetches == s.fetches + (if Succeeded(a, entered) then [Fetch(entered[a.id], a.outcome.value)] else [])
            && EnteredInv(t, if a.Enter? then entered[a.id := s.now] else entered)
  {
  }

  lemma {:induction false} HistoriesAreTheActions<S>(ttl: int, s: State<S>, actions: seq<Action<S>>, entered: map<nat, int>)
    requires Run(ttl, s, actions) && EnteredInv(s, entered)
    ensures var t := Exec(ttl, s, actions);
            && s.now <= t.now == ClockAfter(s.now, actions)
            && t.connected == ConnectedAfter(s.connected, actions)
            && t.decoded == s.decoded + Decodable(actions)
            && t.fetches == s.fetches + FetchesOf(s.now, entered, actions)
            && EnteredInv(t, Entered(s.now, entered, actions))
    decreases |actions|
  {
    if actions != [] {
      var a := actions[0];
      StepHistories(ttl, s, a, entered);
      HistoriesAreTheActions(ttl, Step(ttl, s, a), actions[1..], if a.Enter? then entered[a.id := s.now] else entered);
    }
  }

  /** A state of a run from the start, in terms of the actions. */
  lemma StateIsTheActions<S>(ttl: int, began: int, actions: seq<Action<S>>)
    requires Run(ttl, Init(began), actions)
    ensures var s := Exec(ttl, Init(began), actions);
            && s.now == ClockAfter(began, actions) && s.connected == ConnectedAfter(false, actions)
            && s.decoded == Decodable(actions) && s.fetches == FetchesOf(began, map[], actions)
            && EnteredInv(s, Entered(began, map[], actions))
  {
    HistoriesAreTheActions(ttl, Init(began), actions, map[]);
  }

  // ---------- Steps of a run ----------

  lemma {:induction false} Split<S>(ttl: int, s: State<S>, actions: seq<Action<S>>, n: nat)
    requires Run(ttl, s, actions) && n <= |actions|
    ensures Run(ttl, s, actions[..n]) && Run(ttl, Exec(ttl, s, actions[..n]), actions[n..])
    ensures Exec(ttl, s, actions) == Exec(ttl, Exec(ttl, s, actions[..n]), actions[n..])
    decreases n
  {
    if n > 0 {
      Split(ttl, Step(ttl, s, actions[0]), actions[1..], n - 1);
      assert actions[..n][1..] == actions[1..][..n - 1] && actions[1..][n - 1..] == actions[n..];
    } else {
      assert actions[..0] == [] && actions[0..] == actions;
    }
  }

  ghost function StateAt<S>(ttl: int, began: int, actions: seq<Action<S>>, n: nat): State<S>
    requires n <= |actions| && Run(ttl, Init(began), actions[..n])
  {
    Exec(ttl, Init(began), actions[..n])
  }

  lemma AtStep<S>(ttl: int, began: int, actions: seq<Action<S>>, n: nat)
    requires ttl > 0 && Run(ttl, Init(began), actions) && n < |actions|
    ensures Run(ttl, Init(began), actions[..n]) && Run(ttl, Init(began), actions[..n + 1])
    ensures Enabled(StateAt(ttl, began, actions, n), actions[n]) && Inv(ttl, StateAt(ttl, began, actions, n))
    ensures StateAt(ttl, began, actions, n + 1) == Step(ttl, StateAt(ttl, began, actions, n), actions[n])
    ensures Run(ttl, StateAt(ttl, began, actions, n + 1), actions[n + 1..])
    ensures Exec(ttl, Init(began), actions) == Exec(ttl, StateAt(ttl, began, actions, n + 1), actions[n + 1..])
  {
    Split(ttl, Init(began), actions, n);
    Split(ttl, Init(began), actions, n + 1);
    Split(ttl, Init(began), actions[..n + 1], n);
    assert actions[..n + 1][..n] == actions[..n] && actions[..n + 1][n..] == [actions[n]];
    assert [actions[n]][1..] == [];
    RunInv(ttl, Init(began), actions[..n]);
  }

  /** What a read gets at once: the last message that decoded before it, or, when none had, a
      place in the queue for the fallback. Nothing changes that afterwards. */
  lemma ReadsAreCurrent<S>(ttl: int, began: int, actions: seq<Action<S>>, n: nat, id: nat)
    requires ttl > 0 && Run(ttl, Init(began), actions) && n < |actions| && actions[n] == Read(id)
    ensures var messages := Decodable(actions[..n]);
            && Run(ttl, Init(began), actions[..n + 1])
            && var t := StateAt(ttl, began, actions, n + 1);
            && id in t.calls
            && (messages == [] <==> t.calls[id].FallingBack?)
            && (messages != [] ==>
                  && t.calls[id].Answered? && t.calls[id].value == messages[|messages| - 1]
                  && id in Exec(ttl, Init(began), actions).calls && Exec(ttl, Init(began), actions).calls[id] == t.calls[id])
  {
    AtStep(ttl, began, actions, n);
    StateIsTheActions(ttl, began, actions[..n]);
    if Decodable(actions[..n]) != [] {
      AnswersAreFinal(ttl, StateAt(ttl, began, actions, n + 1), actions[n + 1..], id);
    }
  }

  /** The step at which a call was answered. */
  lemma {:induction false} AnswerStepOf<S>(ttl: int, began: int, actions: seq<Action<S>>, id: nat) returns (n: nat)
    requires ttl > 0 && Run(ttl, Init(began), actions)
    requires var s := Exec(ttl, Init(began), actions); id in s.calls && s.calls[id].Answered?
    ensures n < |actions| && Run(ttl, Init(began), actions[..n]) && Run(ttl, Init(began), actions[..n + 1])
    ensures var before, after := StateAt(ttl, began, actions, n), StateAt(ttl, began, actions, n + 1);
            && (id in before.calls ==> !before.calls[id].Answered?)
            && id in after.calls && after.calls[id] == Exec(ttl, Init(began), actions).calls[id]
    decreases |actions|
  {
    var last := |actions| - 1;
    AtStep(ttl, began, actions, last);
    assert actions[..last + 1] == actions;
    var before := StateAt(ttl, began, actions, last);
    if id in before.calls && before.calls[id].Answered? {
      AnswersAreFinal(ttl, before, [actions[last]], id);
      assert [actions[last]][1..] == [];
      n := AnswerStepOf(ttl, began, actions[..last], id);
      assert actions[..last][..n] == actions[..n] && actions[..last][..n + 1] == actions[..n + 1];
    } else {
      n := last;
    }
  }

  /** A call in the fallback got there by a read before which no message had decoded. */
  lemma {:induction false} ReadStepOf<S>(ttl: int, began: int, actions: seq<Action<S>>, id: nat) returns (r: nat)
    requires ttl > 0 && Run(ttl, Init(began), actions)
    requires var s := Exec(ttl, Init(began), actions); id in s.calls && (s.calls[id].FallingBack? || s.calls[id].Fetching?)
    ensures r < |actions| && actions[r] == Read(id) && Decodable(actions[..r]) == []
    decreases |actions|
  {
    var last := |actions| - 1;
    AtStep(ttl, began, actions, last);
    assert actions[..last + 1] == actions;
    var before := StateAt(ttl, began, actions, last);
    if id in before.calls {
      r := ReadStepOf(ttl, began, actions[..last], id);
      assert actions[..last][..r] == actions[..r];
    } else {
      r := last;
      StateIsTheActions(ttl, began, actions[..last]);
    }
  }

  /** A step that answers a call, in terms of the states around it. */
  ghost predicate AnsweredBy<S>(ttl: int, s: State<S>, a: Action<S>, id: nat, value: S, fetches: seq<Fetch<S>>) {
    if a == Read(id) then s.decoded != [] && value == s.decoded[|s.decoded| - 1]
    else
      && (a == Enter(id) || (a.FetchReturns? && a.id == id))
      && id in s.calls && (s.calls[id].FallingBack? || s.calls[id].Fetching?)
      && fetches != [] && value == fetches[|fetches| - 1].value
      && (a == Enter(id) ==> s.now < fetches[|fetches| - 1].begun + ttl)
  }

  lemma AnswerInTerms<S>(ttl: int, s: State<S>, a: Action<S>, id: nat)
    requires Inv(ttl, s) && Enabled(s, a) && id in Step(ttl, s, a).calls && Step(ttl, s, a).calls[id].Answered?
    requires id in s.calls ==> !s.calls[id].Answered?
    ensures AnsweredBy(ttl, s, a, id, Step(ttl, s, a).calls[id].value, Step(ttl, s, a).fetches)
  {
  }

  /** Every answer of every run, in terms of the actions: given by the read itself, it is the
      last message that decoded before the read; given later, no message had decoded before
      the read, and it is the last fetch that had succeeded by then; served without asking the
      source, that fetch began less than a TTL earlier. */
  lemma AnswersFollowTheActions<S>(ttl: int, began: int, actions: seq<Action<S>>, id: nat) returns (r: nat, n: nat)
    requires ttl > 0 && Run(ttl, Init(began), actions)
    requires var s := Exec(ttl, Init(began), actions); id in s.calls && s.calls[id].Answered?
    ensures r <= n < |actions| && actions[r] == Read(id)
    ensures var value := Exec(ttl, Init(began), actions).calls[id].value;
            var messages, fetches := Decodable(actions[..r]), FetchesOf(began, map[], actions[..n + 1]);
            && (messages != [] <==> r == n)
            && (messages != [] ==> value == messages[|messages| - 1])
            && (messages == [] ==>
                  && (actions[n] == Enter(id) || (actions[n].FetchReturns? && actions[n].id == id))
                  && fetches != [] && value == fetches[|fetches| - 1].value
                  && (actions[n] == Enter(id) ==> ClockAfter(began, actions[..n]) < fetches[|fetches| - 1].begun + ttl))
  {
    n := AnswerStepOf(ttl, began, actions, id);
    AtStep(ttl, began, actions, n);
    var before, after := StateAt(ttl, began, actions, n), StateAt(ttl, began, actions, n + 1);
    StateIsTheActions(ttl, began, actions[..n]);
    StateIsTheActions(ttl, began, actions[..n + 1]);
    AnswerInTerms(ttl, before, actions[n], id);
    if actions[n] == Read(id) {
      r := n;
    } else {
      r := ReadStepOf(ttl, began, actions[..n], id);
      assert actions[..n][..r] == actions[..r];
    }
  }

  /** What can always happen: time, a connection up or down, messages while it is up, reads by
      new callers, and the fallback for a waiting caller when the cache is free. */
  lemma TheWorldIsFree<S>(s: State<S>, to: int, payload: Option<S>, id: nat)
    ensures s.now <= to ==> Enabled(s, Action.Tick(to))
    ensures if s.connected then Enabled(s, Action.Disconnect) && Enabled(s, Message(payload)) else Enabled(s, Action.Connect)
    ensures id !in s.calls ==> Enabled(s, Action.Read(id))
    ensures id in s.calls && s.calls[id].FallingBack? && s.mutex.None? ==> Enabled(s, Action.Enter(id))
  {
  }

  /** The mutex is held exactly by a call at the source, which any outcome sets free. */
  lemma FetchesEnd<S>(ttl: int, s: State<S>, id: nat, outcome: Fetched<S>)
    requires id in s.calls && s.calls[id].Fetching? && s.mutex == Some(id)
    ensures Enabled(s, FetchReturns(id, outcome))
    ensures var t := Step(ttl, s, FetchReturns(id, outcome));
            t.mutex.None? && id in t.calls && (t.calls[id].Answered? || t.calls[id].Unavailable?)
  {
  }
}
