/** What a simulation's answer means, and how it moves when the input does. */
module SimulatorLaws {
  import opened Prelude
  import opened Sorting
  import opened Graphs
  import opened Snapshots
  import opened Timing
  import opened Selection
  import opened Resolution
  import opened Simulator

  // ---- Shape and conservation ----

  function Unreachable(items: seq<ServiceEvidence>): nat {
    if items == [] then 0
    else Unreachable(items[..|items| - 1]) + if items[|items| - 1].reachable then 0 else 1
  }

  ghost function UnreachableRows(rows: seq<TimepointEvidence>): nat {
    if rows == [] then 0
    else UnreachableRows(rows[..|rows| - 1]) + Unreachable(rows[|rows| - 1].services)
  }

  function UnreachableHead(items: seq<ServiceEvidence>): nat {
    if items == [] then 0 else (if items[0].reachable then 0 else 1) + UnreachableHead(items[1..])
  }

  lemma {:induction false} UnreachableEitherWay(items: seq<ServiceEvidence>)
    ensures Unreachable(items) == UnreachableHead(items)
  {
    if |items| > 1 {
      var front, tail := items[..|items| - 1], items[1..];
      UnreachableEitherWay(front);
      UnreachableEitherWay(tail);
      UnreachableEitherWay(tail[..|tail| - 1]);
      assert front[1..] == tail[..|tail| - 1];
    }
  }

  lemma {:induction false} InsertKeepsUnreachable(x: ServiceEvidence, s: seq<ServiceEvidence>)
    ensures UnreachableHead(InsertBy(x, s, EvidenceId)) == UnreachableHead([x] + s)
  {
    assert ([x] + s)[1..] == s;
    if s != [] && EvidenceId(x) > EvidenceId(s[0]) {
      InsertKeepsUnreachable(x, s[1..]);
      assert ([x] + s[1..])[1..] == s[1..];
    }
  }

  lemma {:induction false} SortKeepsUnreachable(s: seq<ServiceEvidence>)
    ensures UnreachableHead(SortBy(s, EvidenceId)) == UnreachableHead(s)
  {
    if s != [] {
      SortKeepsUnreachable(s[1..]);
      InsertKeepsUnreachable(s[0], SortBy(s[1..], EvidenceId));
      assert ([s[0]] + SortBy(s[1..], EvidenceId))[1..] == SortBy(s[1..], EvidenceId);
    }
  }

  lemma {:induction false} FailuresPerRow(snapshot: Snapshot, at: Time, services: seq<ServiceSnapshot>)
    ensures |AffectedIn(snapshot, at, services)| == |BrokenIn(snapshot, at, services)| ==
      Unreachable(ItemsIn(snapshot, at, services))
  {
    if services != [] {
      FailuresPerRow(snapshot, at, services[..|services| - 1]);
      var front := ItemsIn(snapshot, at, services[..|services| - 1]);
      var item := OutcomeAt(snapshot, at, services[|services| - 1].id).item;
      assert (front + [item])[..|front|] == front;
    }
  }

  lemma {:induction false} FailuresOver(snapshot: Snapshot, times: seq<Time>)
    ensures |AffectedOver(snapshot, times)| == |BrokenOver(snapshot, times)| ==
      UnreachableRows(RowsOver(snapshot, times))
  {
    if times != [] {
      var front, at := times[..|times| - 1], times[|times| - 1];
      FailuresOver(snapshot, front);
      FailuresPerRow(snapshot, at, snapshot.services);
      var items := ItemsIn(snapshot, at, snapshot.services);
      SortKeepsUnreachable(items);
      UnreachableEitherWay(items);
      UnreachableEitherWay(SortBy(items, EvidenceId));
      var rows := RowsOver(snapshot, front);
      assert (rows + [RowAt(snapshot, at)])[..|rows|] == rows;
    }
  }

  /** Every failure is reported three times: as an affected service, a broken path and an evidence entry. */
  lemma FailuresConserved(snapshot: Snapshot)
    ensures var s := SimulationOf(snapshot);
      |s.affected| == |s.broken| == UnreachableRows(s.evidence)
  {
    FailuresOver(snapshot, TimesOf(snapshot));
  }

  lemma {:induction false} RowsFollowTimes(snapshot: Snapshot, times: seq<Time>)
    ensures |RowsOver(snapshot, times)| == |times|
    ensures forall k :: 0 <= k < |times| ==> RowsOver(snapshot, times)[k] == RowAt(snapshot, times[k])
  {
    if times != [] {
      RowsFollowTimes(snapshot, times[..|times| - 1]);
    }
  }

  function ActiveCount(services: seq<ServiceSnapshot>): nat {
    if services == [] then 0
    else ActiveCount(services[..|services| - 1]) + if services[|services| - 1].state == "active" then 1 else 0
  }

  lemma {:induction false} OneItemPerActive(snapshot: Snapshot, at: Time, services: seq<ServiceSnapshot>)
    ensures |ItemsIn(snapshot, at, services)| == ActiveCount(services)
  {
    if services != [] {
      OneItemPerActive(snapshot, at, services[..|services| - 1]);
    }
  }

  /** One row per critical instant, in time order; in each, one entry per active service, in id order. */
  lemma EvidenceShape(snapshot: Snapshot, k: nat)
    requires k < |TimesOf(snapshot)|
    ensures |SimulationOf(snapshot).evidence| == |TimesOf(snapshot)|
    ensures var row := SimulationOf(snapshot).evidence[k];
      && row.at == TimesOf(snapshot)[k]
      && |row.services| == ActiveCount(snapshot.services) && SortedBy(row.services, EvidenceId)
      && forall e :: e in row.services <==>
        exists s :: s in snapshot.services && s.state == "active" && e == OutcomeAt(snapshot, row.at, s.id).item
  {
    var at := TimesOf(snapshot)[k];
    RowsFollowTimes(snapshot, TimesOf(snapshot));
    var items := ItemsIn(snapshot, at, snapshot.services);
    SortBySorts(items, EvidenceId);
    OneItemPerActive(snapshot, at, snapshot.services);
    assert |multiset(items)| == |items|;
    assert |multiset(SortBy(items, EvidenceId))| == |SortBy(items, EvidenceId)|;
    forall e ensures e in SortBy(items, EvidenceId) <==>
      exists s :: s in snapshot.services && s.state == "active" && e == OutcomeAt(snapshot, at, s.id).item
    {
      assert e in SortBy(items, EvidenceId) <==> e in multiset(items);
      ItemsAreOutcomes(snapshot, at, snapshot.services, e);
    }
  }

  // ---- Which failures are reported ----

  ghost predicate ReportsFailure(affected: seq<AffectedService>, id: Id, at: Time) {
    exists a :: a in affected && a.serviceId == id && a.at == at
  }

  predicate IsActive(services: seq<ServiceSnapshot>, id: Id) {
    exists i :: 0 <= i < |services| && services[i].id == id && services[i].state == "active"
  }

  lemma {:induction false} AffectedInMeaning(snapshot: Snapshot, at: Time, services: seq<ServiceSnapshot>,
                                             a: AffectedService)
    ensures a in AffectedIn(snapshot, at, services) ==>
      a.at == at && IsActive(services, a.serviceId) && !Reachable(snapshot, at, a.serviceId)
  {
    if services != [] {
      var front := services[..|services| - 1];
      AffectedInMeaning(snapshot, at, front, a);
      assert IsActive(front, a.serviceId) ==> IsActive(services, a.serviceId) by {
        if i: nat :| i < |front| && front[i].id == a.serviceId && front[i].state == "active" {
          assert services[i] == front[i];
        }
      }
    }
  }

  lemma {:induction false} FailureListed(snapshot: Snapshot, at: Time, services: seq<ServiceSnapshot>, i: nat)
    requires i < |services| && services[i].state == "active" && !Reachable(snapshot, at, services[i].id)
    ensures ReportsFailure(AffectedIn(snapshot, at, services), services[i].id, at)
  {
    var n := |services| - 1;
    var front := AffectedIn(snapshot, at, services[..n]);
    if i < n {
      FailureListed(snapshot, at, services[..n], i);
      var a :| a in front && a.serviceId == services[i].id && a.at == at;
      assert a in AffectedIn(snapshot, at, services);
    } else {
      var all := AffectedIn(snapshot, at, services);
      assert all[|all| - 1] in all;
    }
  }

  lemma {:induction false} AffectedOverMember(snapshot: Snapshot, times: seq<Time>, a: AffectedService)
    ensures a in AffectedOver(snapshot, times) <==>
      exists t :: t in times && a in AffectedIn(snapshot, t, snapshot.services)
  {
    if times != [] {
      var front, at := times[..|times| - 1], times[|times| - 1];
      AffectedOverMember(snapshot, front, a);
      assert forall t :: t in times <==> t in front || t == at;
      if t :| t in times && a in AffectedIn(snapshot, t, snapshot.services) {
        assert t in front || t == at;
      }
    }
  }

  /** A failure is reported for exactly the active services unreachable at a critical instant. */
  lemma AffectedExactly(snapshot: Snapshot, id: Id, at: Time)
    ensures ReportsFailure(SimulationOf(snapshot).affected, id, at) <==>
      at in CriticalInstants(snapshot.config) && IsActive(snapshot.services, id) && !Reachable(snapshot, at, id)
  {
    var times := TimesOf(snapshot);
    if a :| a in AffectedOver(snapshot, times) && a.serviceId == id && a.at == at {
      AffectedOverMember(snapshot, times, a);
      var t :| t in times && a in AffectedIn(snapshot, t, snapshot.services);
      AffectedInMeaning(snapshot, t, snapshot.services, a);
    }
    if at in times && IsActive(snapshot.services, id) && !Reachable(snapshot, at, id) {
      var i :| 0 <= i < |snapshot.services| && snapshot.services[i].id == id && snapshot.services[i].state == "active";
      FailureListed(snapshot, at, snapshot.services, i);
      var a :| a in AffectedIn(snapshot, at, snapshot.services) && a.serviceId == id && a.at == at;
      AffectedOverMember(snapshot, times, a);
    }
  }

  /** "All … remain reachable" is said exactly when no active service fails at any critical instant. */
  lemma AllReachableMeaning(snapshot: Snapshot)
    ensures SimulationOf(snapshot).explanation.AllReachable? <==>
      forall id, at :: at in CriticalInstants(snapshot.config) && IsActive(snapshot.services, id) ==>
        Reachable(snapshot, at, id)
  {
    var affected := SimulationOf(snapshot).affected;
    forall id, at {
      AffectedExactly(snapshot, id, at);
    }
    if affected != [] {
      assert affected[0] in affected;
      assert ReportsFailure(affected, affected[0].serviceId, affected[0].at);
    }
  }

  /** The two warnings of the explanation: some failure before the overlap starts, some after it ends. */
  lemma WarningsMeaning(snapshot: Snapshot)
    requires SimulationOf(snapshot).explanation.Failures?
    ensures var e, affected := SimulationOf(snapshot).explanation, SimulationOf(snapshot).affected;
      && e.failures == |affected| == e.paths
      && (e.beforeOverlap <==> exists id, at :: ReportsFailure(affected, id, at) && at < snapshot.config.overlapStart)
      && (e.afterOverlap <==> exists id, at :: ReportsFailure(affected, id, at) && at > snapshot.config.overlapEnd)
  {
    var affected := SimulationOf(snapshot).affected;
    FailuresConserved(snapshot);
    forall a | a in affected ensures ReportsFailure(affected, a.serviceId, a.at) {
    }
  }

  // ---- Reachability of the closure, and broken paths ----

  /** A broken path and the affected service it goes with: same instant, same reason, that service's path. */
  ghost predicate Paired(snapshot: Snapshot, a: AffectedService, b: BrokenPath) {
    var outcome := OutcomeAt(snapshot, a.at, a.serviceId);
    b == BrokenPath(a.at, CodesOf(ServiceIndex(snapshot.services), outcome.path), outcome.item.reason)
    && a.reason == outcome.item.reason
  }

  ghost predicate AllPaired(snapshot: Snapshot, affected: seq<AffectedService>, broken: seq<BrokenPath>) {
    |affected| == |broken| && forall k :: 0 <= k < |affected| ==> Paired(snapshot, affected[k], broken[k])
  }

  lemma {:induction false} PairedIn(snapshot: Snapshot, at: Time, services: seq<ServiceSnapshot>)
    ensures AllPaired(snapshot, AffectedIn(snapshot, at, services), BrokenIn(snapshot, at, services))
  {
    if services != [] {
      PairedIn(snapshot, at, services[..|services| - 1]);
    }
  }

  lemma {:induction false} PairedOver(snapshot: Snapshot, times: seq<Time>)
    ensures AllPaired(snapshot, AffectedOver(snapshot, times), BrokenOver(snapshot, times))
  {
    if times != [] {
      PairedOver(snapshot, times[..|times| - 1]);
      PairedIn(snapshot, times[|times| - 1], snapshot.services);
    }
  }

  /** The k-th broken path is the path of the k-th affected service. */
  lemma BrokenPathsMatchAffected(snapshot: Snapshot)
    ensures AllPaired(snapshot, SimulationOf(snapshot).affected, SimulationOf(snapshot).broken)
  {
    PairedOver(snapshot, TimesOf(snapshot));
  }

  ghost predicate DependsOn(snapshot: Snapshot, id: Id, other: Id) {
    Depends(ServiceIndex(snapshot.services), id, other)
  }

  /** The service is active and an eligible chain serves it at this instant. */
  ghost predicate DirectlyServed(snapshot: Snapshot, at: Time, id: Id) {
    && id in ActiveIndex(snapshot.services)
    && SomeEligible(ActiveIndex(snapshot.services)[id], at, ActiveAnchors(snapshot.config, at),
                    snapshot.config.candidateChainIds, ChainIndex(snapshot.chains))
  }

  lemma ServedIsHealthy(snapshot: Snapshot, at: Time, id: Id)
    ensures DirectlyServed(snapshot, at, id) <==> Healthy(DirectAt(snapshot, at), id)
  {
  }

  /** On a validated snapshot: reachable exactly when everything the service depends on is directly served. */
  lemma ReachableOnValidated(snapshot: Snapshot, at: Time, id: Id)
    requires ValidSnapshot(snapshot)
    ensures Reachable(snapshot, at, id) <==>
      forall other :: DependsOn(snapshot, id, other) ==> DirectlyServed(snapshot, at, other)
  {
    IndexEdges(snapshot.services);
    ReachableIffClosureHealthy(id, DirectAt(snapshot, at), ServiceIndex(snapshot.services), []);
    forall other {
      ServedIsHealthy(snapshot, at, other);
    }
  }

  /**
   * On a validated snapshot every broken path is a true witness, and no run of the simulator takes
   * resolveService's cycle branch: the root cause is what is wrong with the path's last service.
   */
  lemma BrokenPathWitness(snapshot: Snapshot, at: Time, id: Id) returns (walk: seq<Id>)
    requires ValidSnapshot(snapshot) && !Reachable(snapshot, at, id)
    ensures OutcomeAt(snapshot, at, id).path == walk && walk != [] && walk[0] == id
    ensures IsPath(EdgesOf(snapshot.services), walk)
    ensures forall i :: 0 <= i < |walk| - 1 ==> DirectlyServed(snapshot, at, walk[i])
    ensures !DirectlyServed(snapshot, at, walk[|walk| - 1])
    ensures !RootCause(OutcomeAt(snapshot, at, id).item.reason).CycleEncountered?
  {
    IndexEdges(snapshot.services);
    walk := BrokenPathOnAcyclic(id, DirectAt(snapshot, at), ServiceIndex(snapshot.services));
    forall v {
      ServedIsHealthy(snapshot, at, v);
    }
  }

  // ---- Monotonicity ----

  predicate Trusts(less: ServiceSnapshot, more: ServiceSnapshot) {
    && more == less.(trustAnchorIds := more.trustAnchorIds)
    && forall x :: x in less.trustAnchorIds ==> x in more.trustAnchorIds
  }

  /** `more` differs from `less` only by larger trust sets and a larger candidate list. */
  ghost predicate Enlarges(less: Snapshot, more: Snapshot) {
    && more == less.(config := more.config, services := more.services)
    && more.config == less.config.(candidateChainIds := more.config.candidateChainIds)
    && (forall x :: x in less.config.candidateChainIds ==> x in more.config.candidateChainIds)
    && |more.services| == |less.services|
    && forall i :: 0 <= i < |less.services| ==> Trusts(less.services[i], more.services[i])
  }

  lemma {:induction false} EnlargedIndexes(less: seq<ServiceSnapshot>, more: seq<ServiceSnapshot>)
    requires |less| == |more| && forall i :: 0 <= i < |less| ==> Trusts(less[i], more[i])
    ensures EdgesOf(less) == EdgesOf(more)
    ensures ActiveIndex(less).Keys == ActiveIndex(more).Keys
    ensures forall id :: id in ActiveIndex(less) ==> Trusts(ActiveIndex(less)[id], ActiveIndex(more)[id])
  {
    if less != [] {
      EnlargedIndexes(less[..|less| - 1], more[..|more| - 1]);
      assert Trusts(less[|less| - 1], more[|more| - 1]);
    }
  }

  lemma EnlargedStaysEligible(less: ServiceSnapshot, more: ServiceSnapshot, at: Time, active: set<Id>,
                              few: seq<Id>, many: seq<Id>, chains: Chains)
    requires Trusts(less, more) && forall x :: x in few ==> x in many
    requires SomeEligible(less, at, active, few, chains)
    ensures SomeEligible(more, at, active, many, chains)
  {
    var id :| Eligible(less, at, active, few, chains, id);
    assert Eligible(more, at, active, many, chains, id);
  }

  /** More trust or more candidates never breaks a service, at any instant. */
  lemma ReachableMonotone(less: Snapshot, more: Snapshot, at: Time, id: Id)
    requires Enlarges(less, more) && Reachable(less, at, id)
    ensures Reachable(more, at, id)
  {
    EnlargedIndexes(less.services, more.services);
    IndexEdges(less.services);
    IndexEdges(more.services);
    var before, after := DirectAt(less, at), DirectAt(more, at);
    forall v | Healthy(before, v) ensures Healthy(after, v) {
      EnlargedStaysEligible(ActiveIndex(less.services)[v], ActiveIndex(more.services)[v], at,
                            ActiveAnchors(less.config, at),
                            less.config.candidateChainIds, more.config.candidateChainIds, ChainIndex(less.chains));
    }
    ReachableIff(id, before, ServiceIndex(less.services), {}, []);
    ReachableIff(id, after, ServiceIndex(more.services), {}, []);
    forall p: seq<Id> | IsPath(Dependencies(ServiceIndex(more.services)), p) && p[0] == id
      ensures HealthyWalk(after, p, {})
    {
      assert HealthyWalk(before, p, {});
    }
  }

  lemma EnlargedValid(less: Snapshot, more: Snapshot)
    requires Enlarges(less, more) && ValidSnapshot(less)
    requires forall x :: x in more.config.candidateChainIds ==> KnownChain(less, x)
    ensures ValidSnapshot(more)
  {
    EnlargedIndexes(less.services, more.services);
    assert forall x :: KnownChain(less, x) ==> KnownChain(more, x);
    assert forall x :: KnownAnchor(less, x) ==> KnownAnchor(more, x);
  }

  lemma FailureOfLess(less: Snapshot, more: Snapshot, id: Id, at: Time)
    requires Enlarges(less, more) && IsActive(more.services, id) && !Reachable(more, at, id)
    ensures IsActive(less.services, id) && !Reachable(less, at, id)
  {
    SameActive(less, more, id);
    if Reachable(less, at, id) {
      ReachableMonotone(less, more, at, id);
      assert false;
    }
  }

  lemma SameInstants(less: Snapshot, more: Snapshot)
    requires Enlarges(less, more)
    ensures CriticalInstants(less.config) == CriticalInstants(more.config)
  {
  }

  /** So the reported failures can only shrink, whether or not the snapshot validates. */
  lemma FailuresShrink(less: Snapshot, more: Snapshot, id: Id, at: Time)
    requires Enlarges(less, more) && ReportsFailure(SimulationOf(more).affected, id, at)
    ensures ReportsFailure(SimulationOf(less).affected, id, at)
  {
    assert at in CriticalInstants(more.config) && IsActive(more.services, id) && !Reachable(more, at, id) by {
      AffectedExactly(more, id, at);
    }
    SameInstants(less, more);
    FailureOfLess(less, more, id, at);
    AffectedExactly(less, id, at);
  }

  lemma SameActive(less: Snapshot, more: Snapshot, id: Id)
    requires Enlarges(less, more) && IsActive(more.services, id)
    ensures IsActive(less.services, id)
  {
  }

  // ---- Between the samples ----

  /** The chain the service would be served by on its own. */
  ghost function SelectedChain(snapshot: Snapshot, at: Time, id: Id): Id
    requires id in DirectAt(snapshot, at)
  {
    DirectAt(snapshot, at)[id].selectedChainId
  }

  lemma ServedBetween(snapshot: Snapshot, t1: Time, t: Time, t2: Time, id: Id)
    requires t1 <= t <= t2 && ActiveAnchors(snapshot.config, t) == ActiveAnchors(snapshot.config, t1)
    requires ActiveAnchors(snapshot.config, t2) == ActiveAnchors(snapshot.config, t1)
    requires Healthy(DirectAt(snapshot, t1), id) && Healthy(DirectAt(snapshot, t2), id)
    requires SelectedChain(snapshot, t1, id) == SelectedChain(snapshot, t2, id)
    ensures Healthy(DirectAt(snapshot, t), id)
  {
    var service, active := ActiveIndex(snapshot.services)[id], ActiveAnchors(snapshot.config, t1);
    var candidates, chains := snapshot.config.candidateChainIds, ChainIndex(snapshot.chains);
    DirectMeaning(service, t1, active, candidates, chains);
    DirectMeaning(service, t2, active, candidates, chains);
    assert Eligible(service, t, active, candidates, chains, SelectedChain(snapshot, t1, id));
  }

  /**
   * Interpolation: reachable at two instants of one phase, with every service it depends on using the
   * same chain at both, a service is reachable at every instant between them.
   */
  lemma Interpolation(snapshot: Snapshot, id: Id, t1: Time, t: Time, t2: Time)
    requires snapshot.config.overlapStart <= snapshot.config.overlapEnd
    requires t1 <= t <= t2 && ActiveAnchors(snapshot.config, t1) == ActiveAnchors(snapshot.config, t2)
    requires Reachable(snapshot, t1, id) && Reachable(snapshot, t2, id)
    requires forall v :: v in DirectAt(snapshot, t1) && v in DirectAt(snapshot, t2) && DependsOn(snapshot, id, v) ==>
      SelectedChain(snapshot, t1, v) == SelectedChain(snapshot, t2, v)
    ensures Reachable(snapshot, t, id)
  {
    PhaseIsInterval(snapshot.config, t1, t, t2);
    var services := ServiceIndex(snapshot.services);
    var g := Dependencies(services);
    ReachableIff(id, DirectAt(snapshot, t1), services, {}, []);
    ReachableIff(id, DirectAt(snapshot, t2), services, {}, []);
    ReachableIff(id, DirectAt(snapshot, t), services, {}, []);
    forall p: seq<Id> | IsPath(g, p) && p[0] == id ensures HealthyWalk(DirectAt(snapshot, t), p, {}) {
      assert HealthyWalk(DirectAt(snapshot, t1), p, {});
      assert HealthyWalk(DirectAt(snapshot, t2), p, {});
      forall i | 0 <= i < |p| ensures Healthy(DirectAt(snapshot, t), p[i]) {
        OnWalk(services, p, i);
        ServedBetween(snapshot, t1, t, t2, p[i]);
      }
    }
  }

  // ---- What sampling can miss ----

  /** The only instants at which a service can stop being served: chain expiries, and the old anchor's removal. */
  function LossInstants(snapshot: Snapshot): seq<Time> {
    [snapshot.config.overlapEnd + 1] + MapSeq((c: ChainSnapshot) => c.validTo, snapshot.chains)
  }

  lemma {:induction false} ChainIndexed(chains: seq<ChainSnapshot>, id: Id)
    requires id in ChainIndex(chains)
    ensures ChainIndex(chains)[id] in chains
  {
    var n := |chains| - 1;
    if chains[n].id != id {
      ChainIndexed(chains[..n], id);
    }
  }

  lemma LossListed(snapshot: Snapshot, id: Id)
    requires id in ChainIndex(snapshot.chains)
    ensures ChainIndex(snapshot.chains)[id].validTo in LossInstants(snapshot)
  {
    ChainIndexed(snapshot.chains, id);
    var i :| 0 <= i < |snapshot.chains| && snapshot.chains[i] == ChainIndex(snapshot.chains)[id];
    var expiries := MapSeq((c: ChainSnapshot) => c.validTo, snapshot.chains);
    assert expiries[i] in expiries;
  }

  lemma ServedUntilLoss(snapshot: Snapshot, s: Time, t: Time, id: Id)
    requires snapshot.config.overlapStart <= snapshot.config.overlapEnd && s <= t
    requires forall x :: x in LossInstants(snapshot) ==> !(s < x <= t)
    requires Healthy(DirectAt(snapshot, s), id)
    ensures Healthy(DirectAt(snapshot, t), id)
  {
    var service := ActiveIndex(snapshot.services)[id];
    var candidates, chains := snapshot.config.candidateChainIds, ChainIndex(snapshot.chains);
    var chainId :| Eligible(service, s, ActiveAnchors(snapshot.config, s), candidates, chains, chainId);
    LossListed(snapshot, chainId);
    assert LossInstants(snapshot)[0] in LossInstants(snapshot);
    assert Eligible(service, t, ActiveAnchors(snapshot.config, t), candidates, chains, chainId);
  }

  lemma ReachableUntilLoss(snapshot: Snapshot, s: Time, t: Time, id: Id)
    requires snapshot.config.overlapStart <= snapshot.config.overlapEnd && s <= t
    requires forall x :: x in LossInstants(snapshot) ==> !(s < x <= t)
    requires Reachable(snapshot, s, id)
    ensures Reachable(snapshot, t, id)
  {
    var before, after, services := DirectAt(snapshot, s), DirectAt(snapshot, t), ServiceIndex(snapshot.services);
    forall v | Healthy(before, v) ensures Healthy(after, v) {
      ServedUntilLoss(snapshot, s, t, v);
    }
    ReachableIff(id, before, services, {}, []);
    ReachableIff(id, after, services, {}, []);
    forall p: seq<Id> | IsPath(Dependencies(services), p) && p[0] == id ensures HealthyWalk(after, p, {}) {
      assert HealthyWalk(before, p, {});
    }
  }

  /** The latest listed instant in (a, t], or `a` when there is none. */
  function LatestUpTo(instants: seq<Time>, a: Time, t: Time): (s: Time)
    requires a <= t
    ensures a <= s <= t && (s == a || s in instants)
    ensures forall x :: x in instants ==> !(s < x <= t)
  {
    if instants == [] then a
    else
      var front, last := LatestUpTo(instants[..|instants| - 1], a, t), instants[|instants| - 1];
      assert forall x :: x in instants <==> x in instants[..|instants| - 1] || x == last;
      if front < last <= t then last else front
  }

  /** Finitely many instants decide a whole interval: its start and the losses inside it. */
  lemma ReachableThroughout(snapshot: Snapshot, id: Id, a: Time, b: Time)
    requires snapshot.config.overlapStart <= snapshot.config.overlapEnd && a <= b
    ensures (forall t :: a <= t <= b ==> Reachable(snapshot, t, id)) <==>
      Reachable(snapshot, a, id) && forall s :: s in LossInstants(snapshot) && a < s <= b ==> Reachable(snapshot, s, id)
  {
    if Reachable(snapshot, a, id)
      && forall s :: s in LossInstants(snapshot) && a < s <= b ==> Reachable(snapshot, s, id) {
      forall t | a <= t <= b ensures Reachable(snapshot, t, id) {
        ReachableUntilLoss(snapshot, LatestUpTo(LossInstants(snapshot), a, t), t, id);
      }
    }
  }

  /** The instants from the least critical one to the greatest, whatever the simulation time. */
  ghost predicate SampledRange(snapshot: Snapshot, t: Time) {
    var times := TimesOf(snapshot);
    times != [] && times[0] <= t <= times[|times| - 1]
  }

  ghost predicate RemainsReachable(snapshot: Snapshot) {
    forall id, t | IsActive(snapshot.services, id) && SampledRange(snapshot, t) :: Reachable(snapshot, t, id)
  }

  ghost predicate SurvivesLosses(snapshot: Snapshot) {
    forall id, s | IsActive(snapshot.services, id) && s in LossInstants(snapshot) && SampledRange(snapshot, s) ::
      Reachable(snapshot, s, id)
  }

  /** The first instant is sampled, so an all-reachable answer vouches for it. */
  lemma FirstInstantReachable(snapshot: Snapshot, id: Id)
    requires SimulationOf(snapshot).explanation.AllReachable? && IsActive(snapshot.services, id)
    ensures TimesOf(snapshot) != [] && Reachable(snapshot, TimesOf(snapshot)[0], id)
  {
    var times := TimesOf(snapshot);
    assert CriticalInstants(snapshot.config)[0] in times;
    assert times[0] in times;
    AllReachableMeaning(snapshot);
  }

  lemma ActiveRemainsReachable(snapshot: Snapshot, id: Id, t: Time)
    requires ValidSnapshot(snapshot) && SimulationOf(snapshot).explanation.AllReachable?
    requires SurvivesLosses(snapshot) && IsActive(snapshot.services, id) && SampledRange(snapshot, t)
    ensures Reachable(snapshot, t, id)
  {
    FirstInstantReachable(snapshot, id);
    var times := TimesOf(snapshot);
    ReachableThroughout(snapshot, id, times[0], times[|times| - 1]);
  }

  /**
   * When the sentence "All active service trust paths remain reachable before, during, and after" is right of
   * the whole sampled range: the critical instants do not settle it, the loss instants inside the range do.
   */
  lemma AllReachableIsRightIff(snapshot: Snapshot)
    requires ValidSnapshot(snapshot) && SimulationOf(snapshot).explanation.AllReachable?
    ensures RemainsReachable(snapshot) <==> SurvivesLosses(snapshot)
  {
    if SurvivesLosses(snapshot) {
      forall id, t | IsActive(snapshot.services, id) && SampledRange(snapshot, t) ensures Reachable(snapshot, t, id) {
        ActiveRemainsReachable(snapshot, id, t);
      }
    }
  }

  // A snapshot whose two chains leave one nanosecond uncovered, one nanosecond after the overlap begins.

  const GAP_START: Time := 1_000_000_000_000
  const GAP_SERVICE := ServiceSnapshot(1, "api", 1, [1, 2], [], "critical", "active")
  const GAP_OLD := ChainSnapshot(1, "old", 1, "CN=api", 0, GAP_START + 1, "validated", true)
  const GAP_NEW := ChainSnapshot(2, "new", 2, "CN=api", GAP_START + 2, 2 * GAP_START, "validated", true)
  const GAP_CONFIG := ScenarioConfig("gap", 1, 2, GAP_START, GAP_START + 4, [2], GAP_START)
  const GAP := Snapshot(VERSION, GAP_CONFIG,
                        [AnchorSnapshot(1, "old", "valid", 0, 2 * GAP_START, false),
                         AnchorSnapshot(2, "new", "valid", 0, 2 * GAP_START, false)],
                        [GAP_OLD, GAP_NEW], [GAP_SERVICE])

  lemma GapIndexes()
    ensures ChainIndex(GAP.chains) == map[1 := GAP_OLD, 2 := GAP_NEW]
    ensures ServiceIndex(GAP.services) == map[1 := GAP_SERVICE] && ActiveIndex(GAP.services) == map[1 := GAP_SERVICE]
    ensures EdgesOf(GAP.services) == map[1 := []]
  {
    assert GAP.chains[..1] == [GAP_OLD] && GAP.chains[..1][..0] == [];
    assert ChainIndex([GAP_OLD]) == map[1 := GAP_OLD] by { assert [GAP_OLD][..0] == []; }
    assert GAP.services[..0] == [];
  }

  lemma GapReachable(t: Time)
    ensures Reachable(GAP, t, 1) <==> DirectlyServed(GAP, t, 1)
  {
    GapIndexes();
    var services := ServiceIndex(GAP.services);
    ReachableIff(1, DirectAt(GAP, t), services, {}, []);
    ServedIsHealthy(GAP, t, 1);
    assert IsPath(Dependencies(services), [1]) && [1][0] == 1;
    forall p: seq<Id> | IsPath(Dependencies(services), p) && p[0] == 1 ensures |p| == 1 {
      assert |p| > 1 ==> p[0 + 1] in Succ(Dependencies(services), p[0]);
    }
    if AllWalksHealthy(1, DirectAt(GAP, t), services, {}) {
      assert HealthyWalk(DirectAt(GAP, t), [1], {});
    }
  }

  lemma GapValid()
    ensures ValidSnapshot(GAP)
  {
    GapIndexes();
    assert GAP.anchors[0].id == 1 && GAP.anchors[1].id == 2 && GAP.chains[1].id == 2;
    RankedIsAcyclic(EdgesOf(GAP.services), map[1 := 0]);
  }

  /** The sentence can be wrong: every sampled instant is fine, an instant inside the overlap is not. */
  lemma SamplingGap()
    ensures ValidSnapshot(GAP) && SimulationOf(GAP).explanation.AllReachable?
    ensures GAP.config.overlapStart < GAP_START + 1 < GAP.config.overlapEnd && IsActive(GAP.services, 1)
    ensures !Reachable(GAP, GAP_START + 1, 1)
  {
    GapIndexes();
    GapValid();
    assert GAP.services[0].id == 1;
    forall id, at | at in CriticalInstants(GAP.config) && IsActive(GAP.services, id) ensures Reachable(GAP, at, id) {
      assert at == GAP_START - MINUTE || at == GAP_START || at == GAP_START + 2
        || at == GAP_START + 4 || at == GAP_START + 4 + MINUTE;
      var chainId := if at <= GAP_START then 1 else 2;
      assert Eligible(GAP_SERVICE, at, ActiveAnchors(GAP.config, at), GAP.config.candidateChainIds,
                      ChainIndex(GAP.chains), chainId);
      GapReachable(at);
    }
    AllReachableMeaning(GAP);
    GapReachable(GAP_START + 1);
  }
}
