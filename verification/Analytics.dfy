/**
  The operator's summary over the event log (aegis-backend/app/repositories/
  security_event_repository.py, app/services/analytics_service.py).
*/
module Analytics {
  import opened Common
  import opened AutoBlock

  datatype Filter = All | OfKind(kind: string) | OfKinds(kinds: seq<string>) | ClientError | ServerError | AnyError

  predicate Passes(f: Filter, e: Event) {
    match f
    case All => true
    case OfKind(kind) => e.kind == kind
    case OfKinds(kinds) => e.kind in kinds
    case ClientError => 400 <= e.statusCode <= 499
    case ServerError => e.statusCode >= 500
    case AnyError => 400 <= e.statusCode <= 499 || e.statusCode >= 500
  }

  /** SELECT count(*) ... WHERE created_at >= since, over the events that pass. */
  function Count(log: seq<Event>, since: int, f: Filter): nat {
    if log == [] then 0
    else (if log[0].createdAt >= since && Passes(f, log[0]) then 1 else 0) + Count(log[1..], since, f)
  }

  datatype Totals = Totals(total: nat, forwarded: nat, blocked: nat, limited: nat, errors: nat)

  function Summary(log: seq<Event>, since: int): Totals {
    Totals(Count(log, since, All), Count(log, since, OfKind("request_forwarded")), Count(log, since, ClientError),
           Count(log, since, OfKind("rate_limited")), Count(log, since, ServerError))
  }

  /** GROUP BY event_type: one name per kind present in the window, in any order; the count
      beside each is Count(log, since, OfKind(name)). */
  ghost predicate GroupNames(log: seq<Event>, since: int, names: seq<string>) {
    && (forall i, j | 0 <= i < j < |names| :: names[i] != names[j])
    && (forall e | e in log && e.createdAt >= since :: e.kind in names)
  }

  function SumOfCounts(log: seq<Event>, since: int, names: seq<string>): nat {
    if names == [] then 0 else Count(log, since, OfKind(names[0])) + SumOfCounts(log, since, names[1..])
  }

  /** The events that a count is over, by position. */
  function Counted(log: seq<Event>, since: int, f: Filter): set<int> {
    set k | 0 <= k < |log| && log[k].createdAt >= since && Passes(f, log[k])
  }

  /** Moving every element of a set by the same distance keeps the size. */
  lemma ShiftInto(xs: set<int>, distance: int, ys: set<int>)
    requires forall k | k in xs :: k + distance in ys
    ensures |xs| <= |ys|
  {
    InjectionBound(xs, (k: int) => k + distance, ys);
  }

  lemma CountedTail(log: seq<Event>, since: int, f: Filter)
    requires log != []
    ensures |Counted(log[1..], since, f)| == |Counted(log, since, f) - {0}|
  {
    var low, high := Counted(log[1..], since, f), Counted(log, since, f) - {0};
    forall k | k in low ensures k + 1 in high {
      assert log[1..][k] == log[k + 1];
    }
    forall k | k in high ensures k + -1 in low {
      assert log[1..][k - 1] == log[k];
    }
    ShiftInto(low, 1, high);
    ShiftInto(high, -1, low);
  }

  lemma {:induction false} CountIsCardinality(log: seq<Event>, since: int, f: Filter)
    ensures Count(log, since, f) == |Counted(log, since, f)|
  {
    if log != [] {
      CountIsCardinality(log[1..], since, f);
      CountedTail(log, since, f);
    }
  }

  /** What each figure of the summary is the number of. */
  lemma SummaryMeans(log: seq<Event>, since: int)
    ensures var s := Summary(log, since);
            && s.total == |set k | 0 <= k < |log| && log[k].createdAt >= since|
            && s.forwarded == |set k | 0 <= k < |log| && log[k].createdAt >= since && log[k].kind == "request_forwarded"|
            && s.limited == |set k | 0 <= k < |log| && log[k].createdAt >= since && log[k].kind == "rate_limited"|
            && s.blocked == |set k | 0 <= k < |log| && log[k].createdAt >= since && 400 <= log[k].statusCode <= 499|
            && s.errors == |set k | 0 <= k < |log| && log[k].createdAt >= since && 500 <= log[k].statusCode|
  {
    CountIsCardinality(log, since, All);
    CountIsCardinality(log, since, OfKind("request_forwarded"));
    CountIsCardinality(log, since, OfKind("rate_limited"));
    CountIsCardinality(log, since, ClientError);
    CountIsCardinality(log, since, ServerError);
    assert Counted(log, since, All) == set k | 0 <= k < |log| && log[k].createdAt >= since;
    assert Counted(log, since, OfKind("request_forwarded"))
        == set k | 0 <= k < |log| && log[k].createdAt >= since && log[k].kind == "request_forwarded";
    assert Counted(log, since, OfKind("rate_limited"))
        == set k | 0 <= k < |log| && log[k].createdAt >= since && log[k].kind == "rate_limited";
    assert Counted(log, since, ClientError)
        == set k | 0 <= k < |log| && log[k].createdAt >= since && 400 <= log[k].statusCode <= 499;
    assert Counted(log, since, ServerError)
        == set k | 0 <= k < |log| && log[k].createdAt >= since && 500 <= log[k].statusCode;
  }

  lemma {:induction false} CountSame(log: seq<Event>, since: int, f: Filter, g: Filter)
    requires forall e | e in log && e.createdAt >= since :: Passes(f, e) == Passes(g, e)
    ensures Count(log, since, f) == Count(log, since, g)
  {
    if log != [] {
      CountSame(log[1..], since, f, g);
    }
  }

  lemma {:induction false} CountSplit(log: seq<Event>, since: int, part: Filter, other: Filter, whole: Filter)
    requires forall e | e in log :: (Passes(whole, e) <==> Passes(part, e) || Passes(other, e)) && !(Passes(part, e) && Passes(other, e))
    ensures Count(log, since, whole) == Count(log, since, part) + Count(log, since, other)
  {
    if log != [] {
      CountSplit(log[1..], since, part, other, whole);
    }
  }

  lemma {:induction false} CountMonotone(log: seq<Event>, since: int, later: int, f: Filter, g: Filter)
    requires since <= later && forall e | e in log :: Passes(f, e) ==> Passes(g, e)
    ensures Count(log, later, f) <= Count(log, since, g)
  {
    if log != [] {
      CountMonotone(log[1..], since, later, f, g);
    }
  }

  lemma {:induction false} CountNone(log: seq<Event>, since: int, f: Filter)
    requires forall e | e in log && e.createdAt >= since :: !Passes(f, e)
    ensures Count(log, since, f) == 0
  {
    if log != [] {
      CountNone(log[1..], since, f);
    }
  }

  lemma {:induction false} SumIsCount(log: seq<Event>, since: int, names: seq<string>)
    requires forall i, j | 0 <= i < j < |names| :: names[i] != names[j]
    ensures SumOfCounts(log, since, names) == Count(log, since, OfKinds(names))
  {
    if names == [] {
      CountNone(log, since, OfKinds(names));
    } else {
      SumIsCount(log, since, names[1..]);
      CountSplit(log, since, OfKind(names[0]), OfKinds(names[1..]), OfKinds(names));
    }
  }

  /** Over one state of the log, the per-kind counts add up to the total, and a kind without
      a group counts for nothing. */
  lemma GroupsAddUp(log: seq<Event>, since: int, names: seq<string>, kind: string)
    requires GroupNames(log, since, names)
    ensures SumOfCounts(log, since, names) == Summary(log, since).total
    ensures kind !in names ==> Count(log, since, OfKind(kind)) == 0
    ensures kind == "request_forwarded" ==> Summary(log, since).forwarded == Count(log, since, OfKind(kind))
    ensures kind == "rate_limited" ==> Summary(log, since).limited == Count(log, since, OfKind(kind))
  {
    SumIsCount(log, since, names);
    CountSame(log, since, OfKinds(names), All);
    if kind !in names {
      CountNone(log, since, OfKind(kind));
    }
  }

  /** Client and server errors are disjoint parts of the total, and every figure only grows
      when the window reaches further back. */
  lemma TotalsAreConsistent(log: seq<Event>, since: int, later: int)
    requires since <= later
    ensures Summary(log, since).blocked + Summary(log, since).errors <= Summary(log, since).total
    ensures var wide, narrow := Summary(log, since), Summary(log, later);
            && narrow.total <= wide.total && narrow.forwarded <= wide.forwarded && narrow.blocked <= wide.blocked
            && narrow.limited <= wide.limited && narrow.errors <= wide.errors
  {
    CountSplit(log, since, ClientError, ServerError, AnyError);
    CountMonotone(log, since, since, AnyError, All);
    CountMonotone(log, since, later, All, All);
    CountMonotone(log, since, later, OfKind("request_forwarded"), OfKind("request_forwarded"));
    CountMonotone(log, since, later, OfKind("rate_limited"), OfKind("rate_limited"));
    CountMonotone(log, since, later, ClientError, ClientError);
    CountMonotone(log, since, later, ServerError, ServerError);
  }
}
