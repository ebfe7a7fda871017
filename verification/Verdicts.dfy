/**
 * What a simulation's answer means for the records of the frozen input. Nothing here is said in terms of how the
 * answer is computed: trust windows, chain checks, dependency walks and sampled instants are written out, and
 * for a repeated id the last record counts.
 */
module Verdicts {
  import opened Prelude
  import opened Sorting
  import opened Graphs
  import opened Snapshots
  import opened Timing
  import opened Selection
  import opened Resolution
  import opened Simulator
  import opened SimulatorLaws

  // ---- The meaning, in terms of the frozen records ----

  predicate LastChain(chains: seq<ChainSnapshot>, c: nat) {
    c < |chains| && forall j :: c < j < |chains| ==> chains[j].id != chains[c].id
  }

  predicate LastService(services: seq<ServiceSnapshot>, s: nat) {
    s < |services| && forall j :: s < j < |services| ==> services[j].id != services[s].id
  }

  predicate LastActive(services: seq<ServiceSnapshot>, s: nat) {
    && s < |services| && services[s].state == "active"
    && forall j :: s < j < |services| && services[j].state == "active" ==> services[j].id != services[s].id
  }

  /** The old anchor is trusted until the overlap ends, the new one from when it starts, and no other ever is. */
  predicate Trusted(config: ScenarioConfig, at: Time, anchorId: Id) {
    || (anchorId == config.oldAnchorId && at <= config.overlapEnd)
    || (anchorId == config.newAnchorId && at >= config.overlapStart)
  }

  /** The chain is configured or a candidate, and carries the leaf of the configured chain. */
  predicate Considered(config: ScenarioConfig, service: ServiceSnapshot, configured: ChainSnapshot,
                       chain: ChainSnapshot)
  {
    && chain.id > 0 && (chain.id == service.chainId || chain.id in config.candidateChainIds)
    && configured.id == service.chainId && chain.leafSubject == configured.leafSubject
  }

  /** A considered chain that is in a usable state, in its window, validated, and trusted on both sides. */
  predicate CanServe(config: ScenarioConfig, at: Time, service: ServiceSnapshot, configured: ChainSnapshot,
                     chain: ChainSnapshot)
  {
    && Considered(config, service, configured, chain)
    && chain.state != "revoked" && chain.state != "deprecated"
    && chain.validFrom <= at < chain.validTo && chain.validationValid
    && Trusted(config, at, chain.anchorId) && chain.anchorId in service.trustAnchorIds
  }

  /** The s-th service, which is active, can be served by the c-th chain; the k-th is the one it is configured with. */
  predicate Serves(snapshot: Snapshot, at: Time, s: nat, k: nat, c: nat) {
    && LastActive(snapshot.services, s) && LastChain(snapshot.chains, k) && LastChain(snapshot.chains, c)
    && CanServe(snapshot.config, at, snapshot.services[s], snapshot.chains[k], snapshot.chains[c])
  }

  ghost predicate Served(snapshot: Snapshot, at: Time, id: Id) {
    exists s: nat, k: nat, c: nat :: Serves(snapshot, at, s, k, c) && snapshot.services[s].id == id
  }

  ghost predicate NeedsDirectly(services: seq<ServiceSnapshot>, v: Id, w: Id) {
    exists i: nat :: LastService(services, i) && services[i].id == v && w in services[i].dependencyIds
  }

  /** Each service on the walk depends on the next one. */
  ghost predicate Walk(services: seq<ServiceSnapshot>, p: seq<Id>) {
    |p| > 0 && forall i :: 0 <= i < |p| - 1 ==> NeedsDirectly(services, p[i], p[i + 1])
  }

  /** Something the service needs, itself included, is not served. */
  ghost predicate NeedsUnserved(snapshot: Snapshot, at: Time, id: Id) {
    exists p: seq<Id> :: Walk(snapshot.services, p) && p[0] == id && !Served(snapshot, at, p[|p| - 1])
  }

  predicate ActiveRecord(snapshot: Snapshot, id: Id) {
    exists s :: s in snapshot.services && s.id == id && s.state == "active"
  }

  predicate HasAnchor(snapshot: Snapshot, id: Id) {
    exists a :: a in snapshot.anchors && a.id == id
  }

  predicate HasChain(snapshot: Snapshot, id: Id) {
    exists c :: c in snapshot.chains && c.id == id
  }

  ghost predicate NoWalkReturns(services: seq<ServiceSnapshot>) {
    forall p: seq<Id> :: Walk(services, p) && |p| >= 2 ==> p[0] != p[|p| - 1]
  }

  /** Input the simulator accepts. */
  ghost predicate Acceptable(snapshot: Snapshot) {
    var config := snapshot.config;
    && config.oldAnchorId != 0 && config.newAnchorId != 0 && config.oldAnchorId != config.newAnchorId
    && config.overlapStart < config.overlapEnd && config.simulationTime != 0
    && HasAnchor(snapshot, config.oldAnchorId) && HasAnchor(snapshot, config.newAnchorId)
    && (forall id :: id in config.candidateChainIds ==> HasChain(snapshot, id))
    && NoWalkReturns(snapshot.services)
  }

  /** The instant halfway through the overlap, whose length in nanoseconds is a saturated 64-bit integer. */
  predicate Midway(config: ScenarioConfig, at: Time) {
    var length := config.overlapEnd - config.overlapStart;
    var shown := if length > 0x7FFF_FFFF_FFFF_FFFF then 0x7FFF_FFFF_FFFF_FFFF else length;
    0 <= shown - 2 * (at - config.overlapStart) <= 1
  }

  /** The instants simulated: a minute around the overlap, its two ends, its middle, and the time asked for. */
  predicate Sampled(config: ScenarioConfig, at: Time) {
    || at == config.overlapStart - 60_000_000_000 || at == config.overlapStart || Midway(config, at)
    || at == config.overlapEnd || at == config.overlapEnd + 60_000_000_000 || at == config.simulationTime
  }

  // ---- Indexes hold the records that count ----

  lemma {:induction false} LastChainIndexed(chains: seq<ChainSnapshot>, c: nat)
    requires LastChain(chains, c)
    ensures chains[c].id in ChainIndex(chains) && ChainIndex(chains)[chains[c].id] == chains[c]
  {
    var n := |chains| - 1;
    if c < n {
      LastChainIndexed(chains[..n], c);
    }
  }

  lemma {:induction false} IndexedLastChain(chains: seq<ChainSnapshot>, id: Id) returns (c: nat)
    requires id in ChainIndex(chains)
    ensures LastChain(chains, c) && chains[c].id == id && ChainIndex(chains)[id] == chains[c]
  {
    var n := |chains| - 1;
    if chains[n].id == id {
      c := n;
    } else {
      c := IndexedLastChain(chains[..n], id);
    }
  }

  lemma {:induction false} LastServiceIndexed(services: seq<ServiceSnapshot>, s: nat)
    requires LastService(services, s)
    ensures services[s].id in ServiceIndex(services) && ServiceIndex(services)[services[s].id] == services[s]
  {
    var n := |services| - 1;
    if s < n {
      LastServiceIndexed(services[..n], s);
    }
  }

  lemma {:induction false} IndexedLastService(services: seq<ServiceSnapshot>, id: Id) returns (s: nat)
    requires id in ServiceIndex(services)
    ensures LastService(services, s) && services[s].id == id && ServiceIndex(services)[id] == services[s]
  {
    var n := |services| - 1;
    if services[n].id == id {
      s := n;
    } else {
      s := IndexedLastService(services[..n], id);
    }
  }

  lemma {:induction false} LastActiveIndexed(services: seq<ServiceSnapshot>, s: nat)
    requires LastActive(services, s)
    ensures services[s].id in ActiveIndex(services) && ActiveIndex(services)[services[s].id] == services[s]
  {
    var n := |services| - 1;
    if s < n {
      LastActiveIndexed(services[..n], s);
    }
  }

  lemma {:induction false} IndexedLastActive(services: seq<ServiceSnapshot>, id: Id) returns (s: nat)
    requires id in ActiveIndex(services)
    ensures LastActive(services, s) && services[s].id == id && ActiveIndex(services)[id] == services[s]
  {
    var n := |services| - 1;
    if services[n].id == id && services[n].state == "active" {
      s := n;
    } else {
      s := IndexedLastActive(services[..n], id);
    }
  }

  // ---- Trust, service and reachability ----

  lemma TrustedIff(config: ScenarioConfig, at: Time, anchorId: Id)
    requires config.overlapStart <= config.overlapEnd
    ensures anchorId in ActiveAnchors(config, at) <==> Trusted(config, at, anchorId)
  {
  }

  lemma ServesIff(snapshot: Snapshot, at: Time, s: nat, k: nat, c: nat)
    requires snapshot.config.overlapStart <= snapshot.config.overlapEnd
    requires LastActive(snapshot.services, s) && LastChain(snapshot.chains, k) && LastChain(snapshot.chains, c)
    requires snapshot.chains[k].id == snapshot.services[s].chainId
    ensures Serves(snapshot, at, s, k, c) <==>
      Eligible(snapshot.services[s], at, ActiveAnchors(snapshot.config, at), snapshot.config.candidateChainIds,
               ChainIndex(snapshot.chains), snapshot.chains[c].id)
  {
    LastChainIndexed(snapshot.chains, k);
    LastChainIndexed(snapshot.chains, c);
    TrustedIff(snapshot.config, at, snapshot.chains[c].anchorId);
  }

  /** An eligible chain of an active service, as indices into the frozen records. */
  lemma EligibleRecords(snapshot: Snapshot, at: Time, s: nat, chainId: Id) returns (k: nat, c: nat)
    requires snapshot.config.overlapStart <= snapshot.config.overlapEnd && LastActive(snapshot.services, s)
    requires Eligible(snapshot.services[s], at, ActiveAnchors(snapshot.config, at), snapshot.config.candidateChainIds,
                      ChainIndex(snapshot.chains), chainId)
    ensures Serves(snapshot, at, s, k, c) && snapshot.chains[c].id == chainId
  {
    k := IndexedLastChain(snapshot.chains, snapshot.services[s].chainId);
    c := IndexedLastChain(snapshot.chains, chainId);
    ServesIff(snapshot, at, s, k, c);
  }

  /** The simulator's notion of being directly served is the written-out one. */
  lemma ServedIff(snapshot: Snapshot, at: Time, id: Id)
    requires snapshot.config.overlapStart <= snapshot.config.overlapEnd
    ensures DirectlyServed(snapshot, at, id) <==> Served(snapshot, at, id)
  {
    if DirectlyServed(snapshot, at, id) {
      var s := IndexedLastActive(snapshot.services, id);
      var chainId :| Eligible(snapshot.services[s], at, ActiveAnchors(snapshot.config, at),
                              snapshot.config.candidateChainIds, ChainIndex(snapshot.chains), chainId);
      var k, c := EligibleRecords(snapshot, at, s, chainId);
    }
    if Served(snapshot, at, id) {
      var s: nat, k: nat, c: nat :| Serves(snapshot, at, s, k, c) && snapshot.services[s].id == id;
      LastActiveIndexed(snapshot.services, s);
      ServesIff(snapshot, at, s, k, c);
    }
  }

  lemma NeedsIff(services: seq<ServiceSnapshot>, v: Id, w: Id)
    ensures w in Succ(Dependencies(ServiceIndex(services)), v) <==> NeedsDirectly(services, v, w)
  {
    if v in ServiceIndex(services) {
      var i := IndexedLastService(services, v);
    }
    if NeedsDirectly(services, v, w) {
      var i: nat :| LastService(services, i) && services[i].id == v && w in services[i].dependencyIds;
      LastServiceIndexed(services, i);
    }
  }

  lemma WalkIff(services: seq<ServiceSnapshot>, p: seq<Id>)
    ensures IsPath(Dependencies(ServiceIndex(services)), p) <==> Walk(services, p)
  {
    forall i | 0 <= i < |p| - 1
      ensures p[i + 1] in Succ(Dependencies(ServiceIndex(services)), p[i]) <==> NeedsDirectly(services, p[i], p[i + 1])
    {
      NeedsIff(services, p[i], p[i + 1]);
    }
  }

  lemma AcyclicIff(services: seq<ServiceSnapshot>)
    ensures Acyclic(EdgesOf(services)) <==> NoWalkReturns(services)
  {
    IndexEdges(services);
    var g := Dependencies(ServiceIndex(services));
    forall p: seq<Id> ensures IsCycle(g, p) <==> Walk(services, p) && |p| >= 2 && p[0] == p[|p| - 1] {
      WalkIff(services, p);
    }
  }

  /** The simulator accepts exactly the acceptable input. */
  lemma AcceptableIff(snapshot: Snapshot)
    ensures ValidSnapshot(snapshot) <==> Acceptable(snapshot)
  {
    AcyclicIff(snapshot.services);
    forall id ensures KnownAnchor(snapshot, id) <==> HasAnchor(snapshot, id) {
      if HasAnchor(snapshot, id) {
        var a :| a in snapshot.anchors && a.id == id;
        var i :| 0 <= i < |snapshot.anchors| && snapshot.anchors[i] == a;
      }
    }
    forall id ensures KnownChain(snapshot, id) <==> HasChain(snapshot, id) {
      if HasChain(snapshot, id) {
        var c :| c in snapshot.chains && c.id == id;
        var i :| 0 <= i < |snapshot.chains| && snapshot.chains[i] == c;
      }
    }
  }

  /** On acceptable input a service is found unreachable exactly when something it needs is not served. */
  lemma ReachableMeans(snapshot: Snapshot, at: Time, id: Id)
    requires Acceptable(snapshot)
    ensures Reachable(snapshot, at, id) <==> !NeedsUnserved(snapshot, at, id)
  {
    AcceptableIff(snapshot);
    ReachableOnValidated(snapshot, at, id);
    if !Reachable(snapshot, at, id) {
      var other :| DependsOn(snapshot, id, other) && !DirectlyServed(snapshot, at, other);
      var p: seq<Id> :| IsPath(Dependencies(ServiceIndex(snapshot.services)), p) && p[0] == id && p[|p| - 1] == other;
      WalkIff(snapshot.services, p);
      ServedIff(snapshot, at, other);
    }
    if NeedsUnserved(snapshot, at, id) {
      var p: seq<Id> :| Walk(snapshot.services, p) && p[0] == id && !Served(snapshot, at, p[|p| - 1]);
      WalkIff(snapshot.services, p);
      ServedIff(snapshot, at, p[|p| - 1]);
      assert DependsOn(snapshot, id, p[|p| - 1]);
    }
  }

  // ---- The answer ----

  lemma SampledIff(config: ScenarioConfig, at: Time)
    requires config.overlapStart < config.overlapEnd
    ensures at in CriticalInstants(config) <==> Sampled(config, at)
  {
  }

  /**
   * The reported failures: at every sampled instant and nowhere else, exactly the active services that need
   * something not served.
   */
  lemma FailuresMean(snapshot: Snapshot, id: Id, at: Time)
    requires Acceptable(snapshot)
    ensures ReportsFailure(SimulationOf(snapshot).affected, id, at) <==>
      Sampled(snapshot.config, at) && ActiveRecord(snapshot, id) && NeedsUnserved(snapshot, at, id)
  {
    AffectedExactly(snapshot, id, at);
    SampledIff(snapshot.config, at);
    ReachableMeans(snapshot, at, id);
    if s :| s in snapshot.services && s.id == id && s.state == "active" {
      var i :| 0 <= i < |snapshot.services| && snapshot.services[i] == s;
    }
  }

  /** A reported failure names its service by the code and criticality of an active record. */
  predicate Names(services: seq<ServiceSnapshot>, a: AffectedService) {
    exists s :: s in services && s.state == "active" && s.id == a.serviceId && s.code == a.serviceCode
      && s.criticality == a.criticality
  }

  lemma {:induction false} AffectedInNames(snapshot: Snapshot, at: Time, services: seq<ServiceSnapshot>,
                                           a: AffectedService)
    requires a in AffectedIn(snapshot, at, services)
    ensures Names(services, a)
  {
    var front, last := services[..|services| - 1], services[|services| - 1];
    if a in AffectedIn(snapshot, at, front) {
      AffectedInNames(snapshot, at, front, a);
      var s :| s in front && s.state == "active" && s.id == a.serviceId && s.code == a.serviceCode
        && s.criticality == a.criticality;
      assert s in services;
    } else {
      assert last in services;
    }
  }

  lemma FailuresAreNamed(snapshot: Snapshot, a: AffectedService)
    requires a in SimulationOf(snapshot).affected
    ensures Names(snapshot.services, a)
  {
    AffectedOverMember(snapshot, TimesOf(snapshot), a);
    var t :| t in TimesOf(snapshot) && a in AffectedIn(snapshot, t, snapshot.services);
    AffectedInNames(snapshot, t, snapshot.services, a);
  }

  /** Failures come in time order, and within an instant in the order of service ids, if the records do. */
  predicate InOrder(a: AffectedService, b: AffectedService) {
    a.at < b.at || (a.at == b.at && a.serviceId <= b.serviceId)
  }

  lemma {:induction false} AffectedInOrdered(snapshot: Snapshot, at: Time, services: seq<ServiceSnapshot>)
    requires SortedBy(services, ServiceId)
    ensures var affected := AffectedIn(snapshot, at, services);
      && (forall i, j :: 0 <= i < j < |affected| ==> InOrder(affected[i], affected[j]))
      && forall a :: a in affected ==> a.at == at && services != [] && a.serviceId <= services[|services| - 1].id
  {
    if services != [] {
      var front, last := services[..|services| - 1], services[|services| - 1];
      AffectedInOrdered(snapshot, at, front);
      assert front != [] ==> ServiceId(front[|front| - 1]) <= ServiceId(last);
    }
  }

  lemma {:induction false} AffectedOverOrdered(snapshot: Snapshot, times: seq<Time>)
    requires SortedBy(snapshot.services, ServiceId) && Ascending(times)
    ensures var affected := AffectedOver(snapshot, times);
      && (forall i, j :: 0 <= i < j < |affected| ==> InOrder(affected[i], affected[j]))
      && forall a :: a in affected ==> times != [] && a.at <= times[|times| - 1]
  {
    if times != [] {
      var front, last := times[..|times| - 1], times[|times| - 1];
      AffectedOverOrdered(snapshot, front);
      AffectedInOrdered(snapshot, last, snapshot.services);
      Ordered(AffectedOver(snapshot, front), AffectedIn(snapshot, last, snapshot.services), last);
    }
  }

  lemma Ordered(earlier: seq<AffectedService>, now: seq<AffectedService>, at: Time)
    requires forall i, j :: 0 <= i < j < |earlier| ==> InOrder(earlier[i], earlier[j])
    requires forall i, j :: 0 <= i < j < |now| ==> InOrder(now[i], now[j])
    requires (forall a :: a in earlier ==> a.at < at) && forall a :: a in now ==> a.at == at
    ensures forall i, j :: 0 <= i < j < |earlier + now| ==> InOrder((earlier + now)[i], (earlier + now)[j])
    ensures forall a :: a in earlier + now ==> a.at <= at
  {
    forall i, j | 0 <= i < j < |earlier + now| ensures InOrder((earlier + now)[i], (earlier + now)[j]) {
      if i < |earlier| <= j {
        assert earlier[i] in earlier && now[j - |earlier|] in now;
      }
    }
  }

  lemma FailuresInOrder(snapshot: Snapshot)
    requires SortedBy(snapshot.services, ServiceId)
    ensures var affected := SimulationOf(snapshot).affected;
      forall i, j :: 0 <= i < j < |affected| ==> InOrder(affected[i], affected[j])
  {
    AffectedOverOrdered(snapshot, TimesOf(snapshot));
  }

  /** There is exactly one row for each sampled instant, in time order. */
  lemma RowsAreSampled(snapshot: Snapshot)
    requires Acceptable(snapshot)
    ensures var rows := SimulationOf(snapshot).evidence;
      && (forall i, j :: 0 <= i < j < |rows| ==> rows[i].at < rows[j].at)
      && forall at :: Sampled(snapshot.config, at) <==> HasRow(rows, at)
  {
    RowsFollowTimes(snapshot, TimesOf(snapshot));
    forall at ensures Sampled(snapshot.config, at) <==> HasRow(SimulationOf(snapshot).evidence, at) {
      RowAtInstant(snapshot, at);
    }
  }

  predicate HasRow(rows: seq<TimepointEvidence>, at: Time) {
    exists row :: row in rows && row.at == at
  }

  lemma RowAtInstant(snapshot: Snapshot, at: Time)
    requires Acceptable(snapshot)
    ensures Sampled(snapshot.config, at) <==> HasRow(SimulationOf(snapshot).evidence, at)
  {
    var rows, times := SimulationOf(snapshot).evidence, TimesOf(snapshot);
    SampledIff(snapshot.config, at);
    RowsFollowTimes(snapshot, times);
    if at in times {
      var k :| 0 <= k < |times| && times[k] == at;
      assert rows[k] in rows && rows[k].at == at;
    }
    if row :| row in rows && row.at == at {
      var k := RowInRun(snapshot, row);
      assert times[k] in times;
    }
  }

  lemma RowInRun(snapshot: Snapshot, row: TimepointEvidence) returns (k: nat)
    requires row in SimulationOf(snapshot).evidence
    ensures k < |TimesOf(snapshot)| == |SimulationOf(snapshot).evidence|
    ensures SimulationOf(snapshot).evidence[k] == row == RowAt(snapshot, TimesOf(snapshot)[k])
  {
    RowsFollowTimes(snapshot, TimesOf(snapshot));
    k :| 0 <= k < |SimulationOf(snapshot).evidence| && SimulationOf(snapshot).evidence[k] == row;
  }

  /**
   * The anchors a row reports: the old one exactly until the overlap ends, the new one exactly from when it
   * starts, and no other.
   */
  lemma RowAnchors(snapshot: Snapshot, row: TimepointEvidence)
    requires Acceptable(snapshot) && row in SimulationOf(snapshot).evidence
    ensures snapshot.config.oldAnchorId in row.activeAnchorIds <==> row.at <= snapshot.config.overlapEnd
    ensures snapshot.config.newAnchorId in row.activeAnchorIds <==> row.at >= snapshot.config.overlapStart
    ensures forall x :: x in row.activeAnchorIds ==> x in {snapshot.config.oldAnchorId, snapshot.config.newAnchorId}
  {
    var k := RowInRun(snapshot, row);
    TrustedIff(snapshot.config, row.at, snapshot.config.oldAnchorId);
    TrustedIff(snapshot.config, row.at, snapshot.config.newAnchorId);
  }

  /** The s-th service's own chain choice: none when nothing can serve it, else the least chain that can. */
  ghost predicate Chosen(snapshot: Snapshot, at: Time, s: nat, e: ServiceEvidence)
    requires s < |snapshot.services|
  {
    if !Served(snapshot, at, snapshot.services[s].id) then e.selectedChainId == 0 && e.selectedAnchorId == 0
    else
      exists k: nat, c: nat :: Serves(snapshot, at, s, k, c)
        && e.selectedChainId == snapshot.chains[c].id && e.selectedAnchorId == snapshot.chains[c].anchorId
        && forall i: nat, j: nat :: Serves(snapshot, at, s, i, j) ==> snapshot.chains[c].id <= snapshot.chains[j].id
  }

  /** Before the overlap a served service uses the old anchor, after it the new one. */
  predicate AnchorOfPhase(config: ScenarioConfig, at: Time, e: ServiceEvidence) {
    && (at < config.overlapStart ==> e.selectedAnchorId == config.oldAnchorId)
    && (at > config.overlapEnd ==> e.selectedAnchorId == config.newAnchorId)
    && (e.selectedAnchorId == config.oldAnchorId || e.selectedAnchorId == config.newAnchorId)
  }

  lemma ChosenDirectly(snapshot: Snapshot, at: Time, s: nat)
    requires snapshot.config.overlapStart <= snapshot.config.overlapEnd && LastActive(snapshot.services, s)
    ensures var direct, id := DirectAt(snapshot, at), snapshot.services[s].id;
      && id in direct && Chosen(snapshot, at, s, direct[id]) && direct[id].serviceCode == snapshot.services[s].code
      && (Served(snapshot, at, id) ==>
            AnchorOfPhase(snapshot.config, at, direct[id]) && direct[id].reason == PathReachable)
  {
    var service, active := snapshot.services[s], ActiveAnchors(snapshot.config, at);
    var candidates, chains := snapshot.config.candidateChainIds, ChainIndex(snapshot.chains);
    LastActiveIndexed(snapshot.services, s);
    ServedIff(snapshot, at, service.id);
    DirectMeaning(service, at, active, candidates, chains);
    var e := DirectAt(snapshot, at)[service.id];
    if Served(snapshot, at, service.id) {
      var k, c := EligibleRecords(snapshot, at, s, e.selectedChainId);
      LastChainIndexed(snapshot.chains, c);
      forall i: nat, j: nat | Serves(snapshot, at, s, i, j) ensures snapshot.chains[c].id <= snapshot.chains[j].id {
        ServesIff(snapshot, at, s, i, j);
      }
    }
  }

  /**
   * A row's entries: one active record each, reachable exactly when nothing it needs is unserved, and the chain
   * and anchor that serve it.
   */
  lemma RowEntries(snapshot: Snapshot, row: TimepointEvidence, e: ServiceEvidence) returns (s: nat)
    requires Acceptable(snapshot) && row in SimulationOf(snapshot).evidence && e in row.services
    ensures LastActive(snapshot.services, s)
    ensures e.serviceId == snapshot.services[s].id && e.serviceCode == snapshot.services[s].code
    ensures e.reachable <==> !NeedsUnserved(snapshot, row.at, e.serviceId)
    ensures Chosen(snapshot, row.at, s, e)
    ensures e.reachable ==> AnchorOfPhase(snapshot.config, row.at, e) && e.reason == PathReachable
  {
    var k := RowInRun(snapshot, row);
    EvidenceShape(snapshot, k);
    var service :| service in snapshot.services && service.state == "active"
      && e == OutcomeAt(snapshot, row.at, service.id).item;
    ActiveIndexed(snapshot.services, service.id);
    s := IndexedLastActive(snapshot.services, service.id);
    ChosenDirectly(snapshot, row.at, s);
    ResolveKeepsChoice(service.id, DirectAt(snapshot, row.at), ServiceIndex(snapshot.services), {}, []);
    ReachableMeans(snapshot, row.at, service.id);
    if e.reachable {
      ReachableIsServed(snapshot, row.at, service.id);
    }
  }

  lemma ReachableIsServed(snapshot: Snapshot, at: Time, id: Id)
    requires !NeedsUnserved(snapshot, at, id)
    ensures Served(snapshot, at, id)
  {
    assert Walk(snapshot.services, [id]) && [id][0] == id;
  }

  /** Every active service has an entry in every row. */
  lemma RowsAreComplete(snapshot: Snapshot, row: TimepointEvidence, id: Id)
    requires row in SimulationOf(snapshot).evidence
    requires ActiveRecord(snapshot, id)
    ensures exists e :: e in row.services && e.serviceId == id
  {
    var k := RowInRun(snapshot, row);
    EvidenceShape(snapshot, k);
    ActiveIndexed(snapshot.services, id);
    ResolveKeepsChoice(id, DirectAt(snapshot, row.at), ServiceIndex(snapshot.services), {}, []);
    assert OutcomeAt(snapshot, row.at, id).item in row.services;
  }
}
