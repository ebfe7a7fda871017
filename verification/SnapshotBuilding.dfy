/** buildSnapshot (service/common.go): freezing table rows into simulator input. */
module SnapshotBuilding {
  import opened Prelude
  import opened Sorting
  import opened CycleDetection
  import opened Graphs
  import opened Snapshots
  import opened Simulator
  import opened ServiceGraph
  import opened ServiceGraphLaws

  datatype AnchorRow = AnchorRow(
    id: Id, code: string, state: string, notBefore: Time, notAfter: Time, revokedAt: Option<Time>)

  /** `validationValid` stands for the `valid` field of the stored validation evidence. */
  datatype ChainRow = ChainRow(
    id: Id, code: string, anchorId: Id, leafSubject: string,
    validFrom: Time, validTo: Time, validationValid: bool, state: string)

  datatype BuildError = BadIdList(text: string) | Invalid(error: ValidationError)

  function FreezeAnchor(row: AnchorRow): AnchorSnapshot {
    AnchorSnapshot(row.id, row.code, row.state, row.notBefore, row.notAfter, row.revokedAt.Some?)
  }

  function FreezeChain(row: ChainRow): ChainSnapshot {
    ChainSnapshot(row.id, row.code, row.anchorId, row.leafSubject, row.validFrom, row.validTo, row.state,
                  row.validationValid)
  }

  function FreezeService(row: ServiceRow): ServiceSnapshot {
    ServiceSnapshot(row.id, row.code, row.chainId, Decoded(row.trust), Decoded(row.edges), row.criticality, row.state)
  }

  predicate Decodable(row: ServiceRow) {
    row.trust.Encoded? && row.edges.Encoded?
  }

  predicate AllDecode(services: seq<ServiceRow>) {
    forall i :: 0 <= i < |services| ==> Decodable(services[i])
  }

  method FreezeOne(row: ServiceRow) returns (result: Result<ServiceSnapshot, string>)
    ensures result.Ok? <==> row.trust.Encoded? && row.edges.Encoded?
    ensures result.Ok? ==> result.value == FreezeService(row)
  {
    var trust := DecodeUintList(row.trust);
    if trust.Err? {
      return Err(trust.error);
    }
    var dependencies := DecodeUintList(row.edges);
    if dependencies.Err? {
      return Err(dependencies.error);
    }
    return Ok(ServiceSnapshot(row.id, row.code, row.chainId, trust.value, dependencies.value, row.criticality,
                              row.state));
  }

  method FreezeServices(services: seq<ServiceRow>) returns (result: Result<seq<ServiceSnapshot>, string>)
    ensures result.Ok? <==> AllDecode(services)
    ensures result.Ok? ==> result.value == MapSeq(FreezeService, services)
  {
    var frozen: seq<ServiceSnapshot> := [];
    for k := 0 to |services|
      invariant forall j :: 0 <= j < k ==> Decodable(services[j])
      invariant |frozen| == k && forall j :: 0 <= j < k ==> frozen[j] == FreezeService(services[j])
    {
      var one := FreezeOne(services[k]);
      if one.Err? {
        return Err(one.error);
      }
      frozen := frozen + [one.value];
    }
    return Ok(frozen);
  }

  method FreezeTables(anchors: seq<AnchorRow>, chains: seq<ChainRow>)
    returns (a: array<AnchorSnapshot>, c: array<ChainSnapshot>)
    ensures fresh(a) && a[..] == MapSeq(FreezeAnchor, anchors)
    ensures fresh(c) && c[..] == MapSeq(FreezeChain, chains)
  {
    a := new AnchorSnapshot[|anchors|](i requires 0 <= i < |anchors| => FreezeAnchor(anchors[i]));
    c := new ChainSnapshot[|chains|](i requires 0 <= i < |chains| => FreezeChain(chains[i]));
    assert a[..] == MapSeq(FreezeAnchor, anchors);
    assert c[..] == MapSeq(FreezeChain, chains);
  }

  /** The snapshot is the canonical form of these rows. */
  ghost predicate Freezes(snapshot: Snapshot, config: ScenarioConfig, anchors: seq<AnchorRow>, chains: seq<ChainRow>,
                          services: seq<ServiceRow>)
  {
    CanonicalOf(snapshot, config, MapSeq(FreezeAnchor, anchors), MapSeq(FreezeChain, chains),
                MapSeq(FreezeService, services))
  }

  /** The error is a real error of a canonical form of these rows. */
  ghost predicate RefusedFor(error: ValidationError, config: ScenarioConfig, anchors: seq<AnchorRow>,
                             chains: seq<ChainRow>, services: seq<ServiceRow>)
  {
    exists snapshot :: Freezes(snapshot, config, anchors, chains, services) && RealError(snapshot, error)
  }

  /**
   * The result is the canonical form of the frozen rows and validates; a refusal names a list that does not
   * decode or a real error of that form. Over a good service table it is never refused for a cycle: the
   * store's check and the simulator's check see the same graph.
   */
  method BuildSnapshot(config: ScenarioConfig, anchors: seq<AnchorRow>, chains: seq<ChainRow>,
                       services: seq<ServiceRow>)
    returns (result: Result<Snapshot, BuildError>)
    ensures result.Ok? ==> AllDecode(services) && ValidSnapshot(result.value)
    ensures result.Ok? ==> Freezes(result.value, config, anchors, chains, services)
    ensures result.Err? && result.error.BadIdList? <==> !AllDecode(services)
    ensures result.Err? && result.error.Invalid? ==> RefusedFor(result.error.error, config, anchors, chains, services)
    ensures Good(services) ==> !(result.Err? && result.error.Invalid? && result.error.error.Cyclic?)
  {
    var frozen := FreezeServices(services);
    if frozen.Err? {
      return Err(BadIdList(frozen.error));
    }
    var snapshot := FreezeAll(config, anchors, chains, services, frozen.value);
    var error := ValidateSnapshot(snapshot);
    if error.Some? {
      if Good(services) && error.value.Cyclic? {
        FrozenAcyclic(services, snapshot, error.value.id);
      }
      return Err(Invalid(error.value));
    }
    return Ok(snapshot);
  }

  /** The call of NewSnapshot on the freshly filled slices. */
  method FreezeAll(config: ScenarioConfig, anchors: seq<AnchorRow>, chains: seq<ChainRow>,
                   ghost services: seq<ServiceRow>,
                   frozen: seq<ServiceSnapshot>)
    returns (snapshot: Snapshot)
    requires frozen == MapSeq(FreezeService, services)
    ensures Freezes(snapshot, config, anchors, chains, services)
  {
    var a, c := FreezeTables(anchors, chains);
    var s := new ServiceSnapshot[|frozen|](i requires 0 <= i < |frozen| => frozen[i]);
    assert s[..] == frozen;
    snapshot := NewSnapshot(config, a, c, s);
  }

  lemma FrozenAcyclic(services: seq<ServiceRow>, snapshot: Snapshot, id: Id)
    requires Good(services)
    requires multiset(snapshot.services) == multiset(NormalizeAll(MapSeq(FreezeService, services)))
    ensures !OnCycle(EdgesOf(snapshot.services), id)
  {
    FrozenGraph(services, snapshot);
  }

  lemma FrozenMember(services: seq<ServiceRow>, snapshot: Snapshot, s: ServiceSnapshot) returns (i: nat)
    requires multiset(snapshot.services) == multiset(NormalizeAll(MapSeq(FreezeService, services)))
    requires s in snapshot.services
    ensures i < |services| && s == Normalize(FreezeService(services[i]))
  {
    var frozen := MapSeq(FreezeService, services);
    assert s in multiset(snapshot.services);
    i :| 0 <= i < |frozen| && NormalizeAll(frozen)[i] == s;
  }

  lemma FrozenRow(services: seq<ServiceRow>, snapshot: Snapshot, i: nat) returns (j: nat)
    requires multiset(snapshot.services) == multiset(NormalizeAll(MapSeq(FreezeService, services)))
    requires i < |services|
    ensures j < |snapshot.services| && snapshot.services[j] == Normalize(FreezeService(services[i]))
  {
    var frozen := NormalizeAll(MapSeq(FreezeService, services));
    assert frozen[i] in multiset(snapshot.services);
    j :| 0 <= j < |snapshot.services| && snapshot.services[j] == frozen[i];
  }

  function RowId(row: ServiceRow): int { row.id }

  lemma FrozenIdsDetermine(services: seq<ServiceRow>, snapshot: Snapshot)
    requires DistinctRows(services)
    requires multiset(snapshot.services) == multiset(NormalizeAll(MapSeq(FreezeService, services)))
    ensures KeyDetermines(snapshot.services, ServiceId)
  {
    assert KeyDetermines(services, RowId);
    MapKeyDetermines(FreezeService, services, RowId, ServiceId);
    var frozen := MapSeq(FreezeService, services);
    MapKeyDetermines(Normalize, frozen, ServiceId, ServiceId);
    PermutedKeyDetermines(NormalizeAll(frozen), snapshot.services, ServiceId);
  }

  lemma FrozenNode(services: seq<ServiceRow>, snapshot: Snapshot, id: Id)
    requires DistinctRows(services) && KeyDetermines(snapshot.services, ServiceId)
    requires multiset(snapshot.services) == multiset(NormalizeAll(MapSeq(FreezeService, services)))
    requires id in EdgesOf(snapshot.services)
    ensures id in GraphOf(services) && EdgesOf(snapshot.services)[id] == GraphOf(services)[id]
  {
    var k := EdgesOfKey(snapshot.services, id);
    var i := FrozenMember(services, snapshot, snapshot.services[k]);
    GraphAt(services, i);
    FrozenEdges(services[i]);
  }

  lemma FrozenKey(services: seq<ServiceRow>, snapshot: Snapshot, id: Id)
    requires multiset(snapshot.services) == multiset(NormalizeAll(MapSeq(FreezeService, services)))
    requires id in GraphOf(services)
    ensures id in EdgesOf(snapshot.services)
  {
    GraphKeys(services, id);
    var i :| 0 <= i < |services| && services[i].id == id;
    var j := FrozenRow(services, snapshot, i);
    EdgesOfMember(snapshot.services, j);
  }

  /** Freezing keeps the graph. */
  lemma FrozenGraph(services: seq<ServiceRow>, snapshot: Snapshot)
    requires DistinctRows(services)
    requires multiset(snapshot.services) == multiset(NormalizeAll(MapSeq(FreezeService, services)))
    ensures EdgesOf(snapshot.services) == GraphOf(services)
  {
    forall id | id in EdgesOf(snapshot.services)
      ensures id in GraphOf(services) && EdgesOf(snapshot.services)[id] == GraphOf(services)[id]
    {
      FrozenIdsDetermine(services, snapshot);
      FrozenNode(services, snapshot, id);
    }
    forall id | id in GraphOf(services) ensures id in EdgesOf(snapshot.services) {
      FrozenKey(services, snapshot, id);
    }
    SameGraph(EdgesOf(snapshot.services), GraphOf(services));
  }

  lemma SameGraph(a: Edges, b: Edges)
    requires forall id :: id in a ==> id in b && a[id] == b[id]
    requires forall id :: id in b ==> id in a
    ensures a == b
  {
  }

  lemma FrozenEdges(row: ServiceRow)
    ensures Normalize(FreezeService(row)).dependencyIds == Decoded(row.edges)
  {
    if row.edges.Encoded? {
      UniqueTwice(row.edges.ids);
    }
  }
}
