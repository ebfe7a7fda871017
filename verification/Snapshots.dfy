/** Frozen simulator input (simulator.go) and its canonical form. */
module Snapshots {
  import opened Prelude
  import opened Sorting
  import opened Graphs

  const VERSION := "trust-path-window-v1.0.0"

  datatype AnchorSnapshot = AnchorSnapshot(
    id: Id, code: string, state: string, notBefore: Time, notAfter: Time, revoked: bool)

  datatype ChainSnapshot = ChainSnapshot(
    id: Id, code: string, anchorId: Id, leafSubject: string,
    validFrom: Time, validTo: Time, state: string, validationValid: bool)

  datatype ServiceSnapshot = ServiceSnapshot(
    id: Id, code: string, chainId: Id, trustAnchorIds: seq<Id>, dependencyIds: seq<Id>,
    criticality: string, state: string)

  datatype ScenarioConfig = ScenarioConfig(
    name: string, oldAnchorId: Id, newAnchorId: Id, overlapStart: Time, overlapEnd: Time,
    candidateChainIds: seq<Id>, simulationTime: Time)

  datatype Snapshot = Snapshot(
    algorithmVersion: string, config: ScenarioConfig, anchors: seq<AnchorSnapshot>,
    chains: seq<ChainSnapshot>, services: seq<ServiceSnapshot>)

  function AnchorId(a: AnchorSnapshot): int { a.id }

  function ChainId(c: ChainSnapshot): int { c.id }

  function ServiceId(s: ServiceSnapshot): int { s.id }

  function Normalize(s: ServiceSnapshot): ServiceSnapshot {
    s.(trustAnchorIds := UniqueIds(s.trustAnchorIds), dependencyIds := UniqueIds(s.dependencyIds))
  }

  function NormalizeAll(services: seq<ServiceSnapshot>): (r: seq<ServiceSnapshot>)
    ensures |r| == |services|
    ensures forall i :: 0 <= i < |r| ==> r[i] == Normalize(services[i])
  {
    MapSeq(Normalize, services)
  }

  /** What NewSnapshot promises about its result, for the inputs it was given. */
  ghost predicate CanonicalOf(snapshot: Snapshot, config: ScenarioConfig, anchors: seq<AnchorSnapshot>,
                              chains: seq<ChainSnapshot>, services: seq<ServiceSnapshot>)
  {
    && snapshot.algorithmVersion == VERSION
    && snapshot.config == config.(candidateChainIds := UniqueIds(config.candidateChainIds))
    && multiset(snapshot.anchors) == multiset(anchors) && SortedBy(snapshot.anchors, AnchorId)
    && multiset(snapshot.chains) == multiset(chains) && SortedBy(snapshot.chains, ChainId)
    && multiset(snapshot.services) == multiset(NormalizeAll(services)) && SortedBy(snapshot.services, ServiceId)
  }

  /** simulator.go's NewSnapshot: sorts and rewrites the caller's slices in place. */
  method NewSnapshot(config: ScenarioConfig, anchors: array<AnchorSnapshot>, chains: array<ChainSnapshot>,
                     services: array<ServiceSnapshot>)
    returns (snapshot: Snapshot)
    modifies anchors, chains, services
    ensures CanonicalOf(snapshot, config, old(anchors[..]), old(chains[..]), old(services[..]))
    ensures snapshot.anchors == anchors[..] && snapshot.chains == chains[..] && snapshot.services == services[..]
  {
    var candidates := SortedUnique(config.candidateChainIds);
    SortSlice(anchors, AnchorId);
    SortSlice(chains, ChainId);
    SortSlice(services, ServiceId);
    ghost var sorted := services[..];
    NormalizeInPlace(services);
    MapPermutation(Normalize, old(services[..]), sorted);
    SortedByNormalized(sorted);
    snapshot := Snapshot(VERSION, config.(candidateChainIds := candidates), anchors[..], chains[..], services[..]);
  }

  /** The last loop of NewSnapshot. */
  method NormalizeInPlace(services: array<ServiceSnapshot>)
    modifies services
    ensures services[..] == NormalizeAll(old(services[..]))
  {
    for index := 0 to services.Length
      invariant forall j :: 0 <= j < index ==> services[j] == Normalize(old(services[j]))
      invariant forall j :: index <= j < services.Length ==> services[j] == old(services[j])
    {
      var trust := SortedUnique(services[index].trustAnchorIds);
      var dependencies := SortedUnique(services[index].dependencyIds);
      services[index] := services[index].(trustAnchorIds := trust, dependencyIds := dependencies);
    }
  }

  lemma SortedByNormalized(services: seq<ServiceSnapshot>)
    requires SortedBy(services, ServiceId)
    ensures SortedBy(NormalizeAll(services), ServiceId)
  {
  }

  /** Two lists name the same identifiers, ignoring order, repetition and the zero identifier. */
  ghost predicate SameIds(a: seq<Id>, b: seq<Id>) {
    forall x: Id :: x > 0 ==> (x in a <==> x in b)
  }

  /** Two service records differ at most in how their trust and dependency lists are written down. */
  ghost predicate SameService(s: ServiceSnapshot, t: ServiceSnapshot) {
    && t == s.(trustAnchorIds := t.trustAnchorIds, dependencyIds := t.dependencyIds)
    && SameIds(s.trustAnchorIds, t.trustAnchorIds)
    && SameIds(s.dependencyIds, t.dependencyIds)
  }

  lemma SameIdsUnique(a: seq<Id>, b: seq<Id>)
    requires SameIds(a, b)
    ensures UniqueIds(a) == UniqueIds(b)
  {
    AscendingUnique(UniqueIds(a), UniqueIds(b));
  }

  lemma SameServicesNormalize(a: seq<ServiceSnapshot>, b: seq<ServiceSnapshot>)
    requires |a| == |b| && forall i :: 0 <= i < |a| ==> SameService(a[i], b[i])
    ensures NormalizeAll(a) == NormalizeAll(b)
  {
    forall i | 0 <= i < |a| ensures Normalize(a[i]) == Normalize(b[i]) {
      SameIdsUnique(a[i].trustAnchorIds, b[i].trustAnchorIds);
      SameIdsUnique(a[i].dependencyIds, b[i].dependencyIds);
    }
  }

  lemma SameKeySameElement(services: seq<ServiceSnapshot>, i: nat, j: nat)
    requires KeyDetermines(services, ServiceId) && i < |services| && j < |services|
    requires services[i].id == services[j].id
    ensures services[i] == services[j]
  {
    assert services[i] in services && services[j] in services;
    assert ServiceId(services[i]) == ServiceId(services[j]);
  }

  /**
   * Canonical form. Reordering the anchors, chains and services, and reordering or repeating the
   * identifiers inside the candidate, trust and dependency lists, cannot change the snapshot, provided
   * an identifier names one record. `aligned` is the second service list put in the order of the first.
   */
  lemma CanonicalFormUnique(
    config1: ScenarioConfig, anchors1: seq<AnchorSnapshot>, chains1: seq<ChainSnapshot>,
    services1: seq<ServiceSnapshot>,
    config2: ScenarioConfig, anchors2: seq<AnchorSnapshot>, chains2: seq<ChainSnapshot>,
    services2: seq<ServiceSnapshot>,
    aligned: seq<ServiceSnapshot>, snapshot1: Snapshot, snapshot2: Snapshot)
    requires KeyDetermines(anchors1, AnchorId) && KeyDetermines(chains1, ChainId) && KeyDetermines(services1, ServiceId)
    requires config2 == config1.(candidateChainIds := config2.candidateChainIds)
    requires SameIds(config1.candidateChainIds, config2.candidateChainIds)
    requires multiset(anchors1) == multiset(anchors2) && multiset(chains1) == multiset(chains2)
    requires multiset(aligned) == multiset(services2) && |aligned| == |services1|
    requires forall i :: 0 <= i < |aligned| ==> SameService(services1[i], aligned[i])
    requires CanonicalOf(snapshot1, config1, anchors1, chains1, services1)
    requires CanonicalOf(snapshot2, config2, anchors2, chains2, services2)
    ensures snapshot1 == snapshot2
  {
    SameIdsUnique(config1.candidateChainIds, config2.candidateChainIds);
    PermutedKeyDetermines(anchors1, snapshot1.anchors, AnchorId);
    SortedPermutationUnique(snapshot1.anchors, snapshot2.anchors, AnchorId);
    PermutedKeyDetermines(chains1, snapshot1.chains, ChainId);
    SortedPermutationUnique(snapshot1.chains, snapshot2.chains, ChainId);
    SameServicesNormalize(services1, aligned);
    MapPermutation(Normalize, aligned, services2);
    MapKeyDetermines(Normalize, services1, ServiceId, ServiceId);
    PermutedKeyDetermines(NormalizeAll(services1), snapshot1.services, ServiceId);
    SortedPermutationUnique(snapshot1.services, snapshot2.services, ServiceId);
  }

  /** The dependency edges the simulator follows; for a repeated id the last service wins. */
  function EdgesOf(services: seq<ServiceSnapshot>): Edges {
    if services == [] then map[]
    else
      var last := services[|services| - 1];
      EdgesOf(services[..|services| - 1])[last.id := last.dependencyIds]
  }

  lemma {:induction false} EdgesOfMember(services: seq<ServiceSnapshot>, i: nat)
    requires i < |services|
    ensures services[i].id in EdgesOf(services)
    ensures KeyDetermines(services, ServiceId) ==> EdgesOf(services)[services[i].id] == services[i].dependencyIds
  {
    var n := |services| - 1;
    var front := services[..n];
    if i < n {
      EdgesOfMember(front, i);
      assert front[i] == services[i];
      assert forall x :: x in front ==> x in services;
      if KeyDetermines(services, ServiceId) && services[n].id == services[i].id {
        SameKeySameElement(services, n, i);
      }
    }
  }

  lemma {:induction false} EdgesOfKey(services: seq<ServiceSnapshot>, id: Id) returns (i: nat)
    requires id in EdgesOf(services)
    ensures i < |services| && services[i].id == id && EdgesOf(services)[id] == services[i].dependencyIds
  {
    var n := |services| - 1;
    if services[n].id == id {
      i := n;
    } else {
      i := EdgesOfKey(services[..n], id);
    }
  }
}
