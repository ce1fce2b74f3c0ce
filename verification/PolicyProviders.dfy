/**
  The two policy providers as objects (reverse-proxy/internal/controlplane/policy_cache.go,
  streaming_policy.go). Their methods are proved against the decisions of PolicySystem, and
  against the claim that nothing a caller does to the snapshots it gave or got can change
  what a provider answers later.
*/
module PolicyProviders {
  import opened Common
  import opened PolicyObjects
  import P = PolicySystem

  /** What a call to the REST source came back with. */
  ghost function OutcomeOf(failed: bool, fetched: PolicySnapshot?): P.Fetched<SnapshotValue>
    requires ValidOrNil(fetched)
    reads fetched, if fetched == null then {} else fetched.Repr
  {
    if failed then P.FetchFailed
    else if fetched == null then P.FetchedNil
    else P.FetchedSnapshot(fetched.Value())
  }

  class CachedPolicyProvider {
    const ttl: int
    var snapshot: PolicySnapshot?
    var expiresAt: int
    ghost var Repr: set<object>

    ghost predicate Valid()
      reads this, Repr
    {
      && this in Repr
      && (snapshot != null ==>
            && snapshot in Repr && snapshot.Repr <= Repr && this !in snapshot.Repr && snapshot.Valid())
    }

    ghost function View(): P.Cache<SnapshotValue>
      requires Valid()
      reads this, Repr
    {
      P.Cache(Content(snapshot), expiresAt)
    }

    constructor (ttl: int, now: int)
      ensures Valid() && fresh(Repr) && this.ttl == ttl
      ensures View() == P.Cache(None, now)
    {
      this.ttl := ttl;
      snapshot, expiresAt := null, now;
      Repr := {this};
    }

    /** Replaces the content with a copy of what the source returned. */
    method Store(fetched: PolicySnapshot, now: int)
      requires Valid() && fetched.Valid()
      modifies this
      ensures Valid() && fresh(Repr - old(Repr))
      ensures View() == P.Cache(Some(old(fetched.Value())), now + ttl)
    {
      snapshot := ClonePolicySnapshot(fetched);
      expiresAt := now + ttl;
      Repr := {this} + snapshot.Repr;
    }

    method Answer() returns (result: PolicySnapshot?)
      requires Valid()
      ensures Valid() && ValidOrNil(result) && Content(result) == View().snapshot
      ensures result != null ==> fresh(result.Repr)
    {
      result := ClonePolicySnapshot(snapshot);
    }

    /** `result` is null when the call fails. */
    method GetPolicy(now: int, sourceFailed: bool, fetched: PolicySnapshot?) returns (result: PolicySnapshot?)
      requires Valid() && ValidOrNil(fetched)
      modifies this
      ensures Valid() && fresh(Repr - old(Repr))
      ensures View() == P.AfterCall(old(View()), now, ttl, old(OutcomeOf(sourceFailed, fetched)))
      ensures ValidOrNil(result) && Content(result) == View().snapshot
      ensures result != null ==> fresh(result.Repr) && result.Repr !! Repr
    {
      if snapshot != null && now < expiresAt {
        result := Answer();
        return;
      }
      if sourceFailed || fetched == null {
        result := Answer();
        return;
      }
      Store(fetched, now);
      result := Answer();
    }
  }

  class StreamingPolicyProvider {
    const fallback: CachedPolicyProvider
    var snapshot: PolicySnapshot?
    ghost var Repr: set<object>

    ghost predicate Valid()
      reads this, Repr, fallback, fallback.Repr
    {
      && this in Repr && this !in fallback.Repr && fallback.Valid() && Repr !! fallback.Repr
      && (snapshot != null ==>
            && snapshot in Repr && snapshot.Repr <= Repr && this !in snapshot.Repr && snapshot.Valid())
    }

    ghost function Live(): Option<SnapshotValue>
      requires Valid()
      reads this, Repr, fallback, fallback.Repr
    {
      Content(snapshot)
    }

    constructor (fallback: CachedPolicyProvider)
      requires fallback.Valid()
      ensures Valid() && fresh(Repr) && this.fallback == fallback && Live() == None
    {
      this.fallback := fallback;
      snapshot := null;
      Repr := {this};
    }

    method Update(given: PolicySnapshot?)
      requires Valid() && ValidOrNil(given)
      modifies this
      ensures Valid() && fresh(Repr - old(Repr))
      ensures Live() == old(Content(given))
      ensures fallback.View() == old(fallback.View())
    {
      snapshot := ClonePolicySnapshot(given);
      Repr := {this} + if snapshot == null then {} else snapshot.Repr;
    }

    method GetPolicy(now: int, sourceFailed: bool, fetched: PolicySnapshot?) returns (result: PolicySnapshot?)
      requires Valid() && ValidOrNil(fetched)
      modifies fallback
      ensures ValidOrNil(result) && Valid() && Live() == old(Live()) && Repr == old(Repr)
      ensures fresh(fallback.Repr - old(fallback.Repr))
      ensures Live().Some? ==> Content(result) == Live() && fallback.View() == old(fallback.View())
      ensures Live().None? ==>
                && fallback.View() == P.AfterCall(old(fallback.View()), now, fallback.ttl, old(OutcomeOf(sourceFailed, fetched)))
                && Content(result) == fallback.View().snapshot
      ensures result != null ==> fresh(result.Repr) && result.Repr !! Repr + fallback.Repr
    {
      result := ClonePolicySnapshot(snapshot);
      if result == null {
        result := fallback.GetPolicy(now, sourceFailed, fetched);
      }
    }
  }

  // ---------- The receive loop ----------

  /** The last message that decoded. */
  ghost function LastDecoded(payloads: seq<PolicySnapshot?>): Option<PolicySnapshot> {
    if payloads == [] then None
    else if payloads[|payloads| - 1] != null then Some(payloads[|payloads| - 1])
    else LastDecoded(payloads[..|payloads| - 1])
  }

  /** One connection of the subscriber: the messages up to the receive error, null standing
      for one that does not decode. The live snapshot ends as the last that did, or as it was. */
  method Subscribe(p: StreamingPolicyProvider, payloads: seq<PolicySnapshot?>)
    requires p.Valid()
    requires forall i | 0 <= i < |payloads| && payloads[i] != null :: payloads[i].Valid() && p !in payloads[i].Repr
    modifies p
    ensures p.Valid() && fresh(p.Repr - old(p.Repr)) && p.fallback.View() == old(p.fallback.View())
    ensures LastDecoded(payloads).None? ==> p.Live() == old(p.Live())
    ensures LastDecoded(payloads).Some? ==> LastDecoded(payloads).value in payloads
    ensures LastDecoded(payloads).Some? ==> p.Live() == Some(old(LastDecoded(payloads).value.Value()))
  {
    for i := 0 to |payloads|
      invariant p.Valid() && fresh(p.Repr - old(p.Repr)) && p.fallback.View() == old(p.fallback.View())
      invariant LastDecoded(payloads[..i]).None? ==> p.Live() == old(p.Live())
      invariant LastDecoded(payloads[..i]).Some? ==> LastDecoded(payloads[..i]).value in payloads
      invariant LastDecoded(payloads[..i]).Some? ==> p.Live() == Some(old(LastDecoded(payloads[..i]).value.Value()))
    {
      assert payloads[..i + 1][..i] == payloads[..i];
      if payloads[i] == null {
        continue;
      }
      p.Update(payloads[i]);
    }
    assert payloads[..|payloads|] == payloads;
  }

  // ---------- Isolation ----------

  /** Anything a caller may do to a snapshot it holds. The contract promises nothing about
      the values written. */
  method Scribble(s: PolicySnapshot)
    requires s.Valid()
    modifies s.Repr
  {
    if s.rateLimitRules.Length > 0 && s.rateLimitRules[0].burstAllowance != null {
      assert s.rateLimitRules[0].burstAllowance in s.rateLimitRules[..][0].Footprint();
      s.rateLimitRules[0].burstAllowance.value := *;
    }
    if s.jwt != null {
      s.jwt.fields := *;
    }
    forall i | 0 <= i < s.blockedIPAddresses.Length { s.blockedIPAddresses[i] := ""; }
    s.generatedAt := *;
  }

  /** Writing to an answer changes neither the provider nor its next answer. */
  method CachedAnswersAreIsolated(p: CachedPolicyProvider, now: int, failed: bool, fetched: PolicySnapshot?, later: int)
    returns (second: PolicySnapshot?, ghost served: Option<SnapshotValue>)
    requires p.Valid() && ValidOrNil(fetched)
    modifies p
    ensures p.Valid() && ValidOrNil(second) && p.View().snapshot == served && Content(second) == served
    ensures served == P.AfterCall(old(p.View()), now, p.ttl, old(OutcomeOf(failed, fetched))).snapshot
  {
    var first := p.GetPolicy(now, failed, fetched);
    served := Content(first);
    if first != null {
      Scribble(first);
    }
    second := p.GetPolicy(later, true, null);
  }

  /** Writing to the object handed to Update does not reach the provider. */
  method UpdatesAreIsolated(p: StreamingPolicyProvider, given: PolicySnapshot)
    requires p.Valid() && given.Valid() && given.Repr !! p.Repr + p.fallback.Repr
    modifies p, given.Repr
    ensures p.Valid() && p.Live() == Some(old(given.Value()))
  {
    p.Update(given);
    Scribble(given);
  }

  /** Writing to a live answer leaves the provider as it was. */
  method LiveAnswersAreIsolated(p: StreamingPolicyProvider, now: int)
    requires p.Valid() && p.Live().Some?
    modifies p.fallback
    ensures p.Valid() && p.Live() == old(p.Live()) && p.fallback.View() == old(p.fallback.View())
  {
    var answer := p.GetPolicy(now, true, null);
    if answer != null {
      Scribble(answer);
    }
  }
}
