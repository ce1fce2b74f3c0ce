/**
  Policy distribution to the proxy: the TTL cache over the REST source
  (reverse-proxy/internal/controlplane/policy_cache.go), the live provider above it
  (streaming_policy.go) and the subscriber that feeds it (grpc_policy_subscriber.go).

  Any number of GetPolicy calls interleave with stream messages, disconnects, reconnects
  and failing fetches. Snapshots are values here; PolicyObjects has their heap form.
*/
module PolicySystem {
  import opened Common

  // ---------- The two providers' decisions ----------

  datatype Cache<S> = Cache(snapshot: Option<S>, expiresAt: int)

  /** What the REST source gives back: an error, a nil snapshot, or a snapshot. */
  datatype Fetched<S> = FetchFailed | FetchedNil | FetchedSnapshot(value: S)

  predicate ServesFromCache<S>(c: Cache<S>, now: int) {
    c.snapshot.Some? && now < c.expiresAt
  }

  /** The cache after a fetch begun at `begun`: only a snapshot replaces the content and the
      expiry, and the expiry counts from before the fetch. */
  function Refreshed<S>(c: Cache<S>, begun: int, ttl: int, outcome: Fetched<S>): Cache<S> {
    if outcome.FetchedSnapshot? then Cache(Some(outcome.value), begun + ttl) else c
  }

  /** The cache after one whole call; its content is also what the call answers with. */
  function AfterCall<S>(c: Cache<S>, now: int, ttl: int, outcome: Fetched<S>): Cache<S> {
    if ServesFromCache(c, now) then c else Refreshed(c, now, ttl, outcome)
  }

  // ---------- The interleaved system ----------

  /** How a call came by its answer. `at` is the clock read under the cache's mutex. */
  datatype Source = FromStream | FromFreshCache(at: int) | FromFetch(at: int) | FromLastGood(at: int)

  /** `seen` is how many stream messages had been decoded when the call looked at the live
      snapshot; `fetches` how many fetches had succeeded when it returned. */
  datatype Call<S> =
    | FallingBack
    | Fetching(begun: int)
    | Answered(value: S, source: Source, seen: nat, fetches: nat)
    | Unavailable

  datatype Fetch<S> = Fetch(begun: int, value: S)

  datatype State<S> = State(
    now: int, connected: bool, live: Option<S>, cache: Cache<S>, mutex: Option<nat>, calls: map<nat, Call<S>>,
    decoded: seq<S>, fetches: seq<Fetch<S>>)

  datatype Action<S> =
    | Tick(to: int)
    | Connect
    | Disconnect
    | Message(payload: Option<S>)
    | Read(id: nat)
    | Enter(id: nat)
    | FetchReturns(id: nat, outcome: Fetched<S>)

  function Init<S>(now: int): State<S> {
    State(now, false, None, Cache(None, now), None, map[], [], [])
  }

  predicate Enabled<S>(s: State<S>, a: Action<S>) {
    match a
    case Tick(to) => s.now <= to
    case Connect => !s.connected
    case Disconnect => s.connected
    case Message(_) => s.connected
    case Read(id) => id !in s.calls
    case Enter(id) => id in s.calls && s.calls[id].FallingBack? && s.mutex.None?
    case FetchReturns(id, _) => id in s.calls && s.calls[id].Fetching? && s.mutex == Some(id)
  }

  function Answer<S>(s: State<S>, id: nat, value: S, source: Source, seen: nat): State<S> {
    s.(calls := s.calls[id := Answered(value, source, seen, |s.fetches|)])
  }

  /** An undecodable message is skipped; a decoded one replaces the live snapshot. */
  function Receive<S>(s: State<S>, payload: Option<S>): State<S> {
    if payload.None? then s else s.(live := payload, decoded := s.decoded + [payload.value])
  }

  /** The live provider's read: its own snapshot if it has one, the fallback otherwise. */
  function ReadLive<S>(s: State<S>, id: nat): State<S> {
    if s.live.Some? then Answer(s, id, s.live.value, FromStream, |s.decoded|)
    else s.(calls := s.calls[id := FallingBack])
  }

  /** The cache's mutex is taken and held through a fetch when the content is not fresh. */
  function EnterCache<S>(s: State<S>, id: nat): State<S> {
    if ServesFromCache(s.cache, s.now) then Answer(s, id, s.cache.snapshot.value, FromFreshCache(s.now), 0)
    else s.(mutex := Some(id), calls := s.calls[id := Fetching(s.now)])
  }

  function LeaveCache<S>(ttl: int, s: State<S>, id: nat, begun: int, outcome: Fetched<S>): State<S> {
    var t := s.(mutex := None, cache := Refreshed(s.cache, begun, ttl, outcome),
                fetches := if outcome.FetchedSnapshot? then s.fetches + [Fetch(begun, outcome.value)] else s.fetches);
    if outcome.FetchedSnapshot? then Answer(t, id, outcome.value, FromFetch(begun), 0)
    else if s.cache.snapshot.Some? then Answer(t, id, s.cache.snapshot.value, FromLastGood(begun), 0)
    else t.(calls := t.calls[id := Unavailable])
  }

  function Step<S>(ttl: int, s: State<S>, a: Action<S>): State<S>
    requires Enabled(s, a)
  {
    match a
    case Tick(to) => s.(now := to)
    case Connect => s.(connected := true)
    case Disconnect => s.(connected := false)
    case Message(payload) => Receive(s, payload)
    case Read(id) => ReadLive(s, id)
    case Enter(id) => EnterCache(s, id)
    case FetchReturns(id, outcome) => LeaveCache(ttl, s, id, s.calls[id].begun, outcome)
  }

  ghost predicate Run<S>(ttl: int, s: State<S>, actions: seq<Action<S>>)
    decreases |actions|
  {
    actions != [] ==> Enabled(s, actions[0]) && Run(ttl, Step(ttl, s, actions[0]), actions[1..])
  }

  ghost function Exec<S>(ttl: int, s: State<S>, actions: seq<Action<S>>): State<S>
    requires Run(ttl, s, actions)
    decreases |actions|
  {
    if actions == [] then s else Exec(ttl, Step(ttl, s, actions[0]), actions[1..])
  }

  // ---------- Invariant ----------

  function Last<T>(xs: seq<T>): Option<T> {
    if xs == [] then None else Some(xs[|xs| - 1])
  }

  function Begun<S>(fetches: seq<Fetch<S>>): (starts: seq<int>)
    ensures |starts| == |fetches|
    ensures forall i :: 0 <= i < |fetches| ==> starts[i] == fetches[i].begun
  {
    seq(|fetches|, i requires 0 <= i < |fetches| => fetches[i].begun)
  }

  /** The live snapshot is the last decoded message, the cache the last successful fetch. */
  ghost predicate ContentInv<S>(ttl: int, s: State<S>) {
    && s.live == Last(s.decoded)
    && match Last(s.fetches) {
         case None => s.cache.snapshot == None
         case Some(fetch) => s.cache == Cache(Some(fetch.value), fetch.begun + ttl)
       }
  }

  ghost predicate FetchInv<S>(ttl: int, s: State<S>) {
    && Spaced(Begun(s.fetches), ttl)
    && (forall i :: 0 <= i < |s.fetches| ==> s.fetches[i].begun <= s.now)
  }

  ghost predicate MutexInv<S>(s: State<S>) {
    forall id | id in s.calls && s.calls[id].Fetching? ::
      s.mutex == Some(id) && s.calls[id].begun <= s.now && !ServesFromCache(s.cache, s.calls[id].begun)
  }

  /** What an answer is worth: the latest decoded message at the time of the read, or, when
      none had been decoded, the last successful fetch at the time of the return. */
  ghost predicate GoodAnswer<S>(ttl: int, s: State<S>, c: Call<S>)
    requires c.Answered?
  {
    && c.seen <= |s.decoded| && c.fetches <= |s.fetches|
    && (c.source.FromStream? <==> c.seen > 0)
    && if c.source.FromStream? then c.value == s.decoded[c.seen - 1]
       else
         && c.fetches > 0 && c.value == s.fetches[c.fetches - 1].value
         && (c.source.FromFetch? ==> c.source.at == s.fetches[c.fetches - 1].begun)
         && (c.source.FromFreshCache? ==> c.source.at < s.fetches[c.fetches - 1].begun + ttl)
         && (c.source.FromLastGood? ==> c.source.at >= s.fetches[c.fetches - 1].begun + ttl)
  }

  ghost predicate AnswerInv<S>(ttl: int, s: State<S>) {
    forall id | id in s.calls && s.calls[id].Answered? :: GoodAnswer(ttl, s, s.calls[id])
  }

  ghost predicate Inv<S>(ttl: int, s: State<S>) {
    ContentInv(ttl, s) && FetchInv(ttl, s) && MutexInv(s) && AnswerInv(ttl, s)
  }

  lemma ContentStep<S>(ttl: int, s: State<S>, a: Action<S>)
    requires Inv(ttl, s) && Enabled(s, a)
    ensures ContentInv(ttl, Step(ttl, s, a))
  {
  }

  lemma FetchStep<S>(ttl: int, s: State<S>, a: Action<S>)
    requires ttl > 0 && ContentInv(ttl, s) && FetchInv(ttl, s) && MutexInv(s) && Enabled(s, a)
    ensures FetchInv(ttl, Step(ttl, s, a))
  {
    if a.FetchReturns? && a.outcome.FetchedSnapshot? {
      var t := Step(ttl, s, a);
      var begun := s.calls[a.id].begun;
      SpacedSnoc(Begun(s.fetches), ttl, begun);
      assert Begun(t.fetches) == Begun(s.fetches) + [begun];
    }
  }

  lemma MutexStep<S>(ttl: int, s: State<S>, a: Action<S>)
    requires MutexInv(s) && Enabled(s, a)
    ensures MutexInv(Step(ttl, s, a))
  {
  }

  lemma GoodAnswerStays<S>(ttl: int, s: State<S>, t: State<S>, c: Call<S>)
    requires s.decoded <= t.decoded && s.fetches <= t.fetches
    requires c.Answered? && GoodAnswer(ttl, s, c)
    ensures GoodAnswer(ttl, t, c)
  {
  }

  lemma ReadAnswer<S>(ttl: int, s: State<S>, id: nat)
    requires ContentInv(ttl, s) && Enabled(s, Read(id))
    ensures var t := Step(ttl, s, Read(id));
            id in t.calls && (t.calls[id].Answered? ==> GoodAnswer(ttl, t, t.calls[id]))
  {
  }

  lemma CacheAnswer<S>(ttl: int, s: State<S>, id: nat)
    requires ContentInv(ttl, s) && Enabled(s, Enter(id))
    ensures var t := Step(ttl, s, Enter(id));
            id in t.calls && (t.calls[id].Answered? ==> GoodAnswer(ttl, t, t.calls[id]))
  {
  }

  lemma FetchAnswer<S>(ttl: int, s: State<S>, id: nat, outcome: Fetched<S>)
    requires ContentInv(ttl, s) && MutexInv(s) && Enabled(s, FetchReturns(id, outcome))
    ensures var t := Step(ttl, s, FetchReturns(id, outcome));
            id in t.calls && (t.calls[id].Answered? ==> GoodAnswer(ttl, t, t.calls[id]))
  {
  }

  lemma NewAnswer<S>(ttl: int, s: State<S>, a: Action<S>, id: nat)
    requires Inv(ttl, s) && Enabled(s, a)
    requires a == Read(id) || a == Enter(id) || (a.FetchReturns? && a.id == id)
    ensures var t := Step(ttl, s, a);
            id in t.calls && (t.calls[id].Answered? ==> GoodAnswer(ttl, t, t.calls[id]))
  {
    match a
    case Read(_) => ReadAnswer(ttl, s, id);
    case Enter(_) => CacheAnswer(ttl, s, id);
    case FetchReturns(_, outcome) => FetchAnswer(ttl, s, id, outcome);
  }

  lemma AnswerStep<S>(ttl: int, s: State<S>, a: Action<S>)
    requires Inv(ttl, s) && Enabled(s, a)
    ensures AnswerInv(ttl, Step(ttl, s, a))
  {
    var t := Step(ttl, s, a);
    assert s.decoded <= t.decoded && s.fetches <= t.fetches;
    forall id | id in t.calls && t.calls[id].Answered?
      ensures GoodAnswer(ttl, t, t.calls[id])
    {
      if (a.Read? || a.Enter? || a.FetchReturns?) && a.id == id {
        NewAnswer(ttl, s, a, id);
      } else {
        GoodAnswerStays(ttl, s, t, s.calls[id]);
      }
    }
  }

  lemma StepInv<S>(ttl: int, s: State<S>, a: Action<S>)
    requires ttl > 0 && Inv(ttl, s) && Enabled(s, a)
    ensures Inv(ttl, Step(ttl, s, a))
  {
    ContentStep(ttl, s, a);
    FetchStep(ttl, s, a);
    MutexStep(ttl, s, a);
    AnswerStep(ttl, s, a);
  }

  lemma {:induction false} RunInv<S>(ttl: int, s: State<S>, actions: seq<Action<S>>)
    requires ttl > 0 && Inv(ttl, s) && Run(ttl, s, actions)
    ensures Inv(ttl, Exec(ttl, s, actions))
    decreases |actions|
  {
    if actions != [] {
      StepInv(ttl, s, actions[0]);
      RunInv(ttl, Step(ttl, s, actions[0]), actions[1..]);
    }
  }

  // ---------- Results about every run ----------

  /** Every answer in every run is exactly the latest decoded message at its read, never an
      earlier one and never the fallback's; or, when nothing had been decoded by then, the
      last successful fetch. It is older than the TTL exactly when that call's own fetch
      failed. */
  lemma AnswersAreCurrent<S>(ttl: int, began: int, actions: seq<Action<S>>, id: nat)
    requires ttl > 0 && Run(ttl, Init(began), actions)
    requires var s := Exec(ttl, Init(began), actions); id in s.calls && s.calls[id].Answered?
    ensures var s := Exec(ttl, Init(began), actions);
            GoodAnswer(ttl, s, s.calls[id])
  {
    RunInv(ttl, Init(began), actions);
  }

  /** When the counts in an answer are taken: the messages decoded when the call reads, the
      successful fetches when it returns. */
  lemma AnswerTiming<S>(ttl: int, s: State<S>, a: Action<S>, id: nat)
    requires Inv(ttl, s) && Enabled(s, a)
    requires id in Step(ttl, s, a).calls && Step(ttl, s, a).calls[id].Answered?
    requires id in s.calls ==> !s.calls[id].Answered?
    ensures var t := Step(ttl, s, a);
            && t.calls[id].fetches == |t.fetches|
            && (a == Read(id) ==> t.calls[id].seen == |s.decoded| && t.calls[id].value == s.decoded[|s.decoded| - 1])
            && (a != Read(id) ==> t.calls[id].seen == 0 && t.calls[id].value == t.fetches[|t.fetches| - 1].value)
    ensures a == Read(id) ==> s.decoded != []
  {
  }

  /** A read falls back exactly when no message has been decoded. */
  lemma FallsBackIff<S>(ttl: int, s: State<S>, id: nat)
    requires Inv(ttl, s) && Enabled(s, Read(id))
    ensures Step(ttl, s, Read(id)).calls[id].FallingBack? <==> s.decoded == []
  {
  }

  /** An answer, once given, is final. */
  lemma {:induction false} AnswersAreFinal<S>(ttl: int, s: State<S>, actions: seq<Action<S>>, id: nat)
    requires Run(ttl, s, actions) && id in s.calls && (s.calls[id].Answered? || s.calls[id].Unavailable?)
    ensures var t := Exec(ttl, s, actions); id in t.calls && t.calls[id] == s.calls[id]
    decreases |actions|
  {
    if actions != [] {
      AnswersAreFinal(ttl, Step(ttl, s, actions[0]), actions[1..], id);
    }
  }

  /** Some snapshot has been obtained, and no call begun since then is without one. */
  ghost predicate Covered<S>(before: set<nat>, s: State<S>) {
    && (s.live.Some? || s.cache.snapshot.Some?)
    && before <= s.calls.Keys
    && forall id | id in s.calls && id !in before && !s.calls[id].Answered? ::
         s.cache.snapshot.Some? && !s.calls[id].Unavailable?
  }

  lemma CoveredStep<S>(ttl: int, before: set<nat>, s: State<S>, a: Action<S>)
    requires Covered(before, s) && Enabled(s, a)
    ensures Covered(before, Step(ttl, s, a))
  {
  }

  lemma {:induction false} CoveredRun<S>(ttl: int, before: set<nat>, s: State<S>, actions: seq<Action<S>>)
    requires Covered(before, s) && Run(ttl, s, actions)
    ensures Covered(before, Exec(ttl, s, actions))
    decreases |actions|
  {
    if actions != [] {
      CoveredStep(ttl, before, s, actions[0]);
      CoveredRun(ttl, before, Step(ttl, s, actions[0]), actions[1..]);
    }
  }

  /** Once any snapshot has been obtained, from the stream or by a fetch, no call begun
      afterwards ever fails, whatever happens to the stream and the source. */
  lemma NeverUnavailableAgain<S>(ttl: int, s: State<S>, actions: seq<Action<S>>, id: nat)
    requires Run(ttl, s, actions) && id !in s.calls
    requires s.live.Some? || s.cache.snapshot.Some?
    ensures var t := Exec(ttl, s, actions); id in t.calls ==> !t.calls[id].Unavailable?
  {
    CoveredRun(ttl, s.calls.Keys, s, actions);
  }

  /** An interval of k TTLs holds the beginnings of at most k successful fetches. */
  lemma FetchRate<S>(ttl: int, began: int, actions: seq<Action<S>>, from: int, k: nat)
    requires ttl > 0 && Run(ttl, Init(began), actions)
    ensures var starts := Begun(Exec(ttl, Init(began), actions).fetches);
            |set i | 0 <= i < |starts| && from <= starts[i] < from + k * ttl| <= k
  {
    RunInv(ttl, Init(began), actions);
    SpacedCount(Begun(Exec(ttl, Init(began), actions).fetches), ttl, from, k);
  }

  /** A failed refresh extends nothing: once the cache is not fresh, every call that enters
      it goes to the source, until a fetch succeeds. */
  lemma {:induction false} RetriesUntilSuccess<S>(ttl: int, s: State<S>, actions: seq<Action<S>>, id: nat)
    requires Run(ttl, s, actions) && !ServesFromCache(s.cache, s.now)
    requires forall a | a in actions :: !(a.FetchReturns? && a.outcome.FetchedSnapshot?)
    ensures var t := Exec(ttl, s, actions);
            && !ServesFromCache(t.cache, t.now)
            && t.cache == s.cache
            && (Enabled(t, Enter(id)) ==> Step(ttl, t, Enter(id)).calls[id] == Fetching(t.now))
    decreases |actions|
  {
    if actions != [] {
      assert actions[0] in actions;
      RetriesUntilSuccess(ttl, Step(ttl, s, actions[0]), actions[1..], id);
    }
  }

  /** A call that enters the cache is answered with the content `AfterCall` leaves there, and
      fails exactly when that is empty. */
  lemma CallThroughCache<S>(ttl: int, s: State<S>, id: nat, outcome: Fetched<S>)
    requires Enabled(s, Enter(id))
    ensures var t := Step(ttl, s, Enter(id));
            var after := AfterCall(s.cache, s.now, ttl, outcome);
            var u := if t.calls[id].Fetching? then Step(ttl, t, FetchReturns(id, outcome)) else t;
            && u.cache == after && u.mutex.None?
            && (after.snapshot.Some? ==> u.calls[id].Answered? && u.calls[id].value == after.snapshot.value)
            && (after.snapshot.None? ==> u.calls[id].Unavailable?)
  {
  }
}
