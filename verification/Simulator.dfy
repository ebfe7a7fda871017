/** ValidateSnapshot, Simulate and explain (simulator.go). */
module Simulator {
  import opened Prelude
  import opened Sorting
  import opened Graphs
  import opened CycleDetection
  import opened Snapshots
  import opened Timing
  import opened Selection
  import opened Resolution

  datatype ValidationError =
    | AnchorsNotDistinct | EmptyOverlap | NoSimulationTime | AnchorMissing
    | CandidateMissing(id: Id) | Cyclic(id: Id)

  datatype AffectedService = AffectedService(
    serviceId: Id, serviceCode: string, criticality: string, at: Time, reason: Reason)

  datatype BrokenPath = BrokenPath(at: Time, serviceCodes: seq<string>, reason: Reason)

  datatype TimepointEvidence = TimepointEvidence(
    at: Time, activeAnchorIds: seq<int>, services: seq<ServiceEvidence>)

  /** The source's sentences: nothing fails, or how much fails and on which sides of the overlap. */
  datatype Explanation =
    | AllReachable
    | Failures(failures: nat, paths: nat, beforeOverlap: bool, afterOverlap: bool)

  datatype Simulation = Simulation(
    affected: seq<AffectedService>, broken: seq<BrokenPath>, evidence: seq<TimepointEvidence>, explanation: Explanation)

  predicate KnownAnchor(snapshot: Snapshot, id: Id) {
    exists i :: 0 <= i < |snapshot.anchors| && snapshot.anchors[i].id == id
  }

  predicate KnownChain(snapshot: Snapshot, id: Id) {
    exists i :: 0 <= i < |snapshot.chains| && snapshot.chains[i].id == id
  }

  predicate DistinctAnchors(config: ScenarioConfig) {
    config.oldAnchorId != 0 && config.newAnchorId != 0 && config.oldAnchorId != config.newAnchorId
  }

  predicate AnchorsAndTimes(snapshot: Snapshot) {
    && DistinctAnchors(snapshot.config)
    && snapshot.config.overlapStart < snapshot.config.overlapEnd
    && snapshot.config.simulationTime != ZERO_TIME
    && KnownAnchor(snapshot, snapshot.config.oldAnchorId) && KnownAnchor(snapshot, snapshot.config.newAnchorId)
  }

  /** Every check but the one on the dependency graph. */
  predicate WellConfigured(snapshot: Snapshot) {
    && AnchorsAndTimes(snapshot)
    && forall id :: id in snapshot.config.candidateChainIds ==> KnownChain(snapshot, id)
  }

  ghost predicate ValidSnapshot(snapshot: Snapshot) {
    WellConfigured(snapshot) && Acyclic(EdgesOf(snapshot.services))
  }

  /** The error names a check that really fails, after every earlier check has passed. */
  ghost predicate RealError(snapshot: Snapshot, error: ValidationError) {
    var config := snapshot.config;
    match error
    case AnchorsNotDistinct => !DistinctAnchors(config)
    case EmptyOverlap => DistinctAnchors(config) && config.overlapStart >= config.overlapEnd
    case NoSimulationTime =>
      DistinctAnchors(config) && config.overlapStart < config.overlapEnd && config.simulationTime == ZERO_TIME
    case AnchorMissing =>
      && DistinctAnchors(config) && config.overlapStart < config.overlapEnd && config.simulationTime != ZERO_TIME
      && !(KnownAnchor(snapshot, config.oldAnchorId) && KnownAnchor(snapshot, config.newAnchorId))
    case CandidateMissing(id) =>
      AnchorsAndTimes(snapshot) && id in config.candidateChainIds && !KnownChain(snapshot, id)
    case Cyclic(id) => WellConfigured(snapshot) && OnCycle(EdgesOf(snapshot.services), id)
  }

  /** detectCycle. */
  method DetectCycle(services: seq<ServiceSnapshot>) returns (fault: Option<Fault>)
    ensures fault.None? <==> Acyclic(EdgesOf(services))
    ensures fault.Some? ==> fault.value.CycleAt? && OnCycle(EdgesOf(services), fault.value.id)
  {
    var edges: Edges := map[];
    for k := 0 to |services|
      invariant edges == EdgesOf(services[..k])
    {
      assert services[..k + 1][..k] == services[..k];
      edges := edges[services[k].id := services[k].dependencyIds];
    }
    assert services[..|services|] == services;
    fault := SearchAll(edges);
  }

  method ValidateSnapshot(snapshot: Snapshot) returns (error: Option<ValidationError>)
    ensures error.None? <==> ValidSnapshot(snapshot)
    ensures error.Some? ==> RealError(snapshot, error.value)
  {
    var config := snapshot.config;
    if config.oldAnchorId == 0 || config.newAnchorId == 0 || config.oldAnchorId == config.newAnchorId {
      return Some(AnchorsNotDistinct);
    }
    if !(config.overlapStart < config.overlapEnd) {
      return Some(EmptyOverlap);
    }
    if config.simulationTime == ZERO_TIME {
      return Some(NoSimulationTime);
    }
    var anchorSeen: set<Id> := {};
    for k := 0 to |snapshot.anchors|
      invariant forall id: Id :: id in anchorSeen <==> exists i :: 0 <= i < k && snapshot.anchors[i].id == id
    {
      anchorSeen := anchorSeen + {snapshot.anchors[k].id};
    }
    if config.oldAnchorId !in anchorSeen || config.newAnchorId !in anchorSeen {
      return Some(AnchorMissing);
    }
    var chainSeen: set<Id> := {};
    for k := 0 to |snapshot.chains|
      invariant forall id: Id :: id in chainSeen <==> exists i :: 0 <= i < k && snapshot.chains[i].id == id
    {
      chainSeen := chainSeen + {snapshot.chains[k].id};
    }
    for k := 0 to |config.candidateChainIds|
      invariant forall j :: 0 <= j < k ==> KnownChain(snapshot, config.candidateChainIds[j])
    {
      assert config.candidateChainIds[k] in config.candidateChainIds;
      if config.candidateChainIds[k] !in chainSeen {
        return Some(CandidateMissing(config.candidateChainIds[k]));
      }
    }
    var fault := DetectCycle(snapshot.services);
    if fault.Some? {
      return Some(Cyclic(fault.value.id));
    }
    return None;
  }

  /** `chainByID`: for a repeated id the last chain wins. */
  function ChainIndex(chains: seq<ChainSnapshot>): Chains {
    if chains == [] then map[]
    else
      var last := chains[|chains| - 1];
      ChainIndex(chains[..|chains| - 1])[last.id := last]
  }

  /** `serviceByID`. */
  function ServiceIndex(services: seq<ServiceSnapshot>): Services {
    if services == [] then map[]
    else
      var last := services[|services| - 1];
      ServiceIndex(services[..|services| - 1])[last.id := last]
  }

  /** The active services by id, again the last one for a repeated id. */
  function ActiveIndex(services: seq<ServiceSnapshot>): Services {
    if services == [] then map[]
    else
      var front, last := ActiveIndex(services[..|services| - 1]), services[|services| - 1];
      if last.state == "active" then front[last.id := last] else front
  }

  lemma {:induction false} IndexEdges(services: seq<ServiceSnapshot>)
    ensures Dependencies(ServiceIndex(services)) == EdgesOf(services)
  {
    if services != [] {
      IndexEdges(services[..|services| - 1]);
    }
  }

  lemma {:induction false} ActiveIndexed(services: seq<ServiceSnapshot>, id: Id)
    ensures id in ActiveIndex(services) ==> ActiveIndex(services)[id].id == id && ActiveIndex(services)[id] in services
    ensures id in ActiveIndex(services) <==> exists s :: s in services && s.id == id && s.state == "active"
  {
    if services != [] {
      var front, last := services[..|services| - 1], services[|services| - 1];
      ActiveIndexed(front, id);
      assert forall s :: s in services <==> s in front || s == last;
    }
  }

  /** The first inner loop's `direct` map. */
  ghost function DirectOf(snapshot: Snapshot, services: Services, at: Time): Direct {
    map id | id in services ::
      DirectEvidence(services[id], at, ActiveAnchors(snapshot.config, at), snapshot.config.candidateChainIds,
                     ChainIndex(snapshot.chains))
  }

  ghost function DirectAt(snapshot: Snapshot, at: Time): Direct {
    DirectOf(snapshot, ActiveIndex(snapshot.services), at)
  }

  /** What the simulator finds for one service at one instant. */
  ghost function OutcomeAt(snapshot: Snapshot, at: Time, id: Id): Outcome {
    Resolve(id, DirectAt(snapshot, at), ServiceIndex(snapshot.services), {}, [])
  }

  ghost predicate Reachable(snapshot: Snapshot, at: Time, id: Id) {
    OutcomeAt(snapshot, at, id).item.reachable
  }

  function EvidenceId(e: ServiceEvidence): int { e.serviceId }

  /** The codes of those services on a path that the snapshot knows. */
  function CodesOf(services: Services, path: seq<Id>): seq<string> {
    if path == [] then []
    else
      var front, id := CodesOf(services, path[..|path| - 1]), path[|path| - 1];
      if id in services then front + [services[id].code] else front
  }

  ghost function ItemsIn(snapshot: Snapshot, at: Time, services: seq<ServiceSnapshot>): seq<ServiceEvidence> {
    if services == [] then []
    else
      var front, last := ItemsIn(snapshot, at, services[..|services| - 1]), services[|services| - 1];
      if last.state == "active" then front + [OutcomeAt(snapshot, at, last.id).item] else front
  }

  predicate Fails(service: ServiceSnapshot, outcome: Outcome) {
    service.state == "active" && !outcome.item.reachable
  }

  ghost function AffectedIn(snapshot: Snapshot, at: Time, services: seq<ServiceSnapshot>): seq<AffectedService> {
    if services == [] then []
    else
      var front, last := AffectedIn(snapshot, at, services[..|services| - 1]), services[|services| - 1];
      var outcome := OutcomeAt(snapshot, at, last.id);
      if Fails(last, outcome) then
        front + [AffectedService(last.id, last.code, last.criticality, at, outcome.item.reason)]
      else front
  }

  ghost function BrokenIn(snapshot: Snapshot, at: Time, services: seq<ServiceSnapshot>): seq<BrokenPath> {
    if services == [] then []
    else
      var front, last := BrokenIn(snapshot, at, services[..|services| - 1]), services[|services| - 1];
      var outcome := OutcomeAt(snapshot, at, last.id);
      if Fails(last, outcome) then
        front + [BrokenPath(at, CodesOf(ServiceIndex(snapshot.services), outcome.path), outcome.item.reason)]
      else front
  }

  ghost function RowAt(snapshot: Snapshot, at: Time): TimepointEvidence {
    TimepointEvidence(at, ActiveAnchorIds(snapshot.config, at),
                      SortBy(ItemsIn(snapshot, at, snapshot.services), EvidenceId))
  }

  ghost function AffectedOver(snapshot: Snapshot, times: seq<Time>): seq<AffectedService> {
    if times == [] then []
    else AffectedOver(snapshot, times[..|times| - 1]) + AffectedIn(snapshot, times[|times| - 1], snapshot.services)
  }

  ghost function BrokenOver(snapshot: Snapshot, times: seq<Time>): seq<BrokenPath> {
    if times == [] then []
    else BrokenOver(snapshot, times[..|times| - 1]) + BrokenIn(snapshot, times[|times| - 1], snapshot.services)
  }

  ghost function RowsOver(snapshot: Snapshot, times: seq<Time>): seq<TimepointEvidence> {
    if times == [] then [] else RowsOver(snapshot, times[..|times| - 1]) + [RowAt(snapshot, times[|times| - 1])]
  }

  ghost function ExplanationOf(config: ScenarioConfig, affected: seq<AffectedService>, paths: nat): Explanation {
    if affected == [] then AllReachable
    else Failures(|affected|, paths,
                  exists a :: a in affected && a.at < config.overlapStart,
                  exists a :: a in affected && a.at > config.overlapEnd)
  }

  ghost function TimesOf(snapshot: Snapshot): seq<Time> {
    AscendingOf(CriticalInstants(snapshot.config))
  }

  /** The whole answer as a function of the snapshot alone. */
  ghost function SimulationOf(snapshot: Snapshot): Simulation {
    var times := TimesOf(snapshot);
    var affected, broken := AffectedOver(snapshot, times), BrokenOver(snapshot, times);
    Simulation(affected, broken, RowsOver(snapshot, times), ExplanationOf(snapshot.config, affected, |broken|))
  }

  method EvaluateAll(snapshot: Snapshot, at: Time, active: set<Id>, chainByID: Chains) returns (direct: Direct)
    requires active == ActiveAnchors(snapshot.config, at) && chainByID == ChainIndex(snapshot.chains)
    ensures direct == DirectAt(snapshot, at)
  {
    direct := map[];
    var services := snapshot.services;
    for k := 0 to |services|
      invariant direct == DirectOf(snapshot, ActiveIndex(services[..k]), at)
    {
      var service := services[k];
      assert services[..k + 1][..k] == services[..k];
      if service.state != "active" {
        continue;
      }
      var item := EvaluateDirect(service, at, active, snapshot.config.candidateChainIds, chainByID);
      direct := direct[service.id := item];
    }
    assert services[..|services|] == services;
  }

  method PathCodes(serviceByID: Services, path: seq<Id>) returns (codes: seq<string>)
    ensures codes == CodesOf(serviceByID, path)
  {
    codes := [];
    for k := 0 to |path|
      invariant codes == CodesOf(serviceByID, path[..k])
    {
      assert path[..k + 1][..k] == path[..k];
      if path[k] in serviceByID {
        codes := codes + [serviceByID[path[k]].code];
      }
    }
    assert path[..|path|] == path;
  }

  method ResolveEach(snapshot: Snapshot, at: Time, direct: Direct, serviceByID: Services)
    returns (items: seq<ServiceEvidence>, affected: seq<AffectedService>, broken: seq<BrokenPath>)
    requires direct == DirectAt(snapshot, at) && serviceByID == ServiceIndex(snapshot.services)
    ensures items == ItemsIn(snapshot, at, snapshot.services)
    ensures affected == AffectedIn(snapshot, at, snapshot.services)
    ensures broken == BrokenIn(snapshot, at, snapshot.services)
  {
    items, affected, broken := [], [], [];
    var services := snapshot.services;
    for k := 0 to |services|
      invariant items == ItemsIn(snapshot, at, services[..k])
      invariant affected == AffectedIn(snapshot, at, services[..k])
      invariant broken == BrokenIn(snapshot, at, services[..k])
    {
      var service := services[k];
      assert services[..k + 1][..k] == services[..k];
      if service.state != "active" {
        continue;
      }
      var visiting := new VisitingSet();
      var item, path := ResolveService(service.id, direct, serviceByID, visiting, []);
      assert Outcome(item, path) == OutcomeAt(snapshot, at, service.id);
      items := items + [item];
      if !item.reachable {
        affected := affected + [AffectedService(service.id, service.code, service.criticality, at, item.reason)];
        var codes := PathCodes(serviceByID, path);
        broken := broken + [BrokenPath(at, codes, item.reason)];
      }
    }
    assert services[..|services|] == services;
  }

  method Explain(config: ScenarioConfig, affected: seq<AffectedService>, paths: nat) returns (explanation: Explanation)
    ensures explanation == ExplanationOf(config, affected, paths)
  {
    if |affected| == 0 {
      return AllReachable;
    }
    var before, after := 0, 0;
    for k := 0 to |affected|
      invariant before >= 0 && after >= 0
      invariant before > 0 <==> exists a :: a in affected[..k] && a.at < config.overlapStart
      invariant after > 0 <==> exists a :: a in affected[..k] && a.at > config.overlapEnd
    {
      var item := affected[k];
      assert affected[..k + 1] == affected[..k] + [item];
      assert item in affected[..k + 1];
      if item.at < config.overlapStart {
        before := before + 1;
      }
      if item.at > config.overlapEnd {
        after := after + 1;
      }
    }
    assert affected[..|affected|] == affected;
    return Failures(|affected|, paths, before > 0, after > 0);
  }

  lemma OverNext(snapshot: Snapshot, times: seq<Time>, k: nat)
    requires k < |times|
    ensures AffectedOver(snapshot, times[..k + 1]) ==
      AffectedOver(snapshot, times[..k]) + AffectedIn(snapshot, times[k], snapshot.services)
    ensures BrokenOver(snapshot, times[..k + 1]) ==
      BrokenOver(snapshot, times[..k]) + BrokenIn(snapshot, times[k], snapshot.services)
    ensures RowsOver(snapshot, times[..k + 1]) == RowsOver(snapshot, times[..k]) + [RowAt(snapshot, times[k])]
  {
    assert times[..k + 1][..k] == times[..k];
  }

  /** `mapKeys(active)`, for the row of one instant. */
  method ReportedIds(config: ScenarioConfig, at: Time, active: set<Id>) returns (ids: seq<Id>)
    requires active == ActiveAnchors(config, at)
    ensures ids == ActiveAnchorIds(config, at)
  {
    ids := MapKeys(active);
    AscendingUnique(ids, ActiveAnchorIds(config, at));
  }

  method Simulate(snapshot: Snapshot) returns (result: Result<Simulation, ValidationError>)
    ensures result.Ok? <==> ValidSnapshot(snapshot)
    ensures result.Ok? ==> result.value == SimulationOf(snapshot)
    ensures result.Err? ==> RealError(snapshot, result.error)
  {
    var error := ValidateSnapshot(snapshot);
    if error.Some? {
      return Err(error.value);
    }
    var points := CriticalTimes(snapshot.config);
    var chainByID, serviceByID := IndexAll(snapshot);
    var affected: seq<AffectedService> := [];
    var broken: seq<BrokenPath> := [];
    var rows: seq<TimepointEvidence> := [];
    for k := 0 to |points|
      invariant affected == AffectedOver(snapshot, points[..k])
      invariant broken == BrokenOver(snapshot, points[..k])
      invariant rows == RowsOver(snapshot, points[..k])
    {
      var at := points[k];
      OverNext(snapshot, points, k);
      var active := ActiveAnchors(snapshot.config, at);
      var activeIds := ReportedIds(snapshot.config, at, active);
      var direct := EvaluateAll(snapshot, at, active, chainByID);
      var items, failing, paths := ResolveEach(snapshot, at, direct, serviceByID);
      var sorted := SortSeq(items, EvidenceId);
      EvidenceSortUnique(snapshot, at, sorted);
      affected := affected + failing;
      broken := broken + paths;
      rows := rows + [TimepointEvidence(at, activeIds, sorted)];
    }
    assert points[..|points|] == points;
    var explanation := Explain(snapshot.config, affected, |broken|);
    return Ok(Simulation(affected, broken, rows, explanation));
  }

  method IndexAll(snapshot: Snapshot) returns (chainByID: Chains, serviceByID: Services)
    ensures chainByID == ChainIndex(snapshot.chains) && serviceByID == ServiceIndex(snapshot.services)
  {
    chainByID, serviceByID := map[], map[];
    for k := 0 to |snapshot.chains|
      invariant chainByID == ChainIndex(snapshot.chains[..k])
    {
      assert snapshot.chains[..k + 1][..k] == snapshot.chains[..k];
      chainByID := chainByID[snapshot.chains[k].id := snapshot.chains[k]];
    }
    assert snapshot.chains[..|snapshot.chains|] == snapshot.chains;
    for k := 0 to |snapshot.services|
      invariant serviceByID == ServiceIndex(snapshot.services[..k])
    {
      assert snapshot.services[..k + 1][..k] == snapshot.services[..k];
      serviceByID := serviceByID[snapshot.services[k].id := snapshot.services[k]];
    }
    assert snapshot.services[..|snapshot.services|] == snapshot.services;
  }

  lemma OutcomeNamesService(snapshot: Snapshot, at: Time, id: Id)
    ensures OutcomeAt(snapshot, at, id).item.serviceId == id
  {
    ActiveIndexed(snapshot.services, id);
    ResolveKeepsChoice(id, DirectAt(snapshot, at), ServiceIndex(snapshot.services), {}, []);
  }

  lemma {:induction false} ItemsAreOutcomes(snapshot: Snapshot, at: Time, services: seq<ServiceSnapshot>,
                                            e: ServiceEvidence)
    ensures e in ItemsIn(snapshot, at, services) <==>
      exists s :: s in services && s.state == "active" && e == OutcomeAt(snapshot, at, s.id).item
  {
    if services != [] {
      var front, last := services[..|services| - 1], services[|services| - 1];
      ItemsAreOutcomes(snapshot, at, front, e);
      assert forall s :: s in services <==> s in front || s == last;
    }
  }

  /** Even when ids repeat, entries for the same id are identical, so the sort has one possible result. */
  lemma EvidenceSortUnique(snapshot: Snapshot, at: Time, sorted: seq<ServiceEvidence>)
    requires multiset(sorted) == multiset(ItemsIn(snapshot, at, snapshot.services)) && SortedBy(sorted, EvidenceId)
    ensures sorted == SortBy(ItemsIn(snapshot, at, snapshot.services), EvidenceId)
  {
    var items := ItemsIn(snapshot, at, snapshot.services);
    forall x, y | x in items && y in items && EvidenceId(x) == EvidenceId(y) ensures x == y {
      ItemIsOutcome(snapshot, at, x);
      ItemIsOutcome(snapshot, at, y);
    }
    SortBySorts(items, EvidenceId);
    PermutedKeyDetermines(items, sorted, EvidenceId);
    SortedPermutationUnique(sorted, SortBy(items, EvidenceId), EvidenceId);
  }

  lemma ItemIsOutcome(snapshot: Snapshot, at: Time, e: ServiceEvidence)
    requires e in ItemsIn(snapshot, at, snapshot.services)
    ensures e == OutcomeAt(snapshot, at, e.serviceId).item
  {
    ItemsAreOutcomes(snapshot, at, snapshot.services, e);
    var s :| s in snapshot.services && s.state == "active" && e == OutcomeAt(snapshot, at, s.id).item;
    OutcomeNamesService(snapshot, at, s.id);
  }
}
