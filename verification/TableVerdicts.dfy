/**
 * What a scenario frozen from the tables contains and will report, in terms of the table rows. Freezing, sorting
 * and normalising do not occur in what is said here.
 */
module TableVerdicts {
  import opened Prelude
  import opened Sorting
  import opened Graphs
  import opened Snapshots
  import opened Simulator
  import opened SimulatorLaws
  import opened Verdicts
  import opened ServiceGraph
  import opened ServiceGraphLaws
  import opened SnapshotBuilding

  // ---- The meaning, in terms of rows ----

  /** The column decodes to a list in which the id stands; zero is no id. */
  predicate Lists(column: IdColumn, id: Id) {
    column.Encoded? && id in column.ids && id != 0
  }

  /** The chain can serve the active service, whose configured chain carries the same leaf. */
  predicate RowCanServe(config: ScenarioConfig, at: Time, service: ServiceRow, configured: ChainRow, chain: ChainRow) {
    && service.state == "active" && configured.id == service.chainId
    && chain.id > 0 && (chain.id == service.chainId || chain.id in config.candidateChainIds)
    && chain.leafSubject == configured.leafSubject
    && chain.state != "revoked" && chain.state != "deprecated"
    && chain.validFrom <= at < chain.validTo && chain.validationValid
    && Trusted(config, at, chain.anchorId) && Lists(service.trust, chain.anchorId)
  }

  /** The rows a scenario is frozen from. */
  datatype TableRows = TableRows(anchors: seq<AnchorRow>, chains: seq<ChainRow>, services: seq<ServiceRow>)

  ghost predicate RowServed(config: ScenarioConfig, tables: TableRows, at: Time, id: Id) {
    exists service, configured, chain :: RowCanServe(config, at, service, configured, chain)
      && service in tables.services && service.id == id && configured in tables.chains && chain in tables.chains
  }

  ghost predicate RowNeeds(services: seq<ServiceRow>, v: Id, w: Id) {
    exists service :: service in services && service.id == v && Lists(service.edges, w)
  }

  ghost predicate RowWalk(services: seq<ServiceRow>, p: seq<Id>) {
    |p| > 0 && forall i :: 0 <= i < |p| - 1 ==> RowNeeds(services, p[i], p[i + 1])
  }

  ghost predicate RowNeedsUnserved(config: ScenarioConfig, tables: TableRows, at: Time, id: Id) {
    exists p: seq<Id> :: RowWalk(tables.services, p) && p[0] == id && !RowServed(config, tables, at, p[|p| - 1])
  }

  predicate ActiveRow(tables: TableRows, id: Id) {
    exists row :: row in tables.services && row.id == id && row.state == "active"
  }

  predicate HasAnchorRow(tables: TableRows, id: Id) {
    exists row :: row in tables.anchors && row.id == id
  }

  predicate HasChainRow(tables: TableRows, id: Id) {
    exists row :: row in tables.chains && row.id == id
  }

  ghost predicate NoRowWalkReturns(services: seq<ServiceRow>) {
    forall p: seq<Id> :: RowWalk(services, p) && |p| >= 2 ==> p[0] != p[|p| - 1]
  }

  /** Rows and configuration from which a scenario can be frozen. */
  ghost predicate RowsAcceptable(config: ScenarioConfig, tables: TableRows) {
    && config.oldAnchorId != 0 && config.newAnchorId != 0 && config.oldAnchorId != config.newAnchorId
    && config.overlapStart < config.overlapEnd && config.simulationTime != 0
    && HasAnchorRow(tables, config.oldAnchorId) && HasAnchorRow(tables, config.newAnchorId)
    && (forall id :: id in config.candidateChainIds && id != 0 ==> HasChainRow(tables, id))
    && NoRowWalkReturns(tables.services)
  }

  predicate DistinctChains(chains: seq<ChainRow>) {
    forall i, j :: 0 <= i < j < |chains| ==> chains[i].id != chains[j].id
  }

  /** Primary keys. */
  predicate DistinctTables(tables: TableRows) {
    DistinctChains(tables.chains) && DistinctRows(tables.services)
  }

  ghost predicate FrozenFrom(snapshot: Snapshot, config: ScenarioConfig, tables: TableRows) {
    Freezes(snapshot, config, tables.anchors, tables.chains, tables.services)
  }

  // ---- What is frozen ----

  predicate AnchorColumns(row: AnchorRow, a: AnchorSnapshot) {
    && a.id == row.id && a.code == row.code && a.state == row.state && a.notBefore == row.notBefore
    && a.notAfter == row.notAfter && (a.revoked <==> row.revokedAt.Some?)
  }

  predicate ChainColumns(row: ChainRow, c: ChainSnapshot) {
    && c.id == row.id && c.code == row.code && c.anchorId == row.anchorId && c.leafSubject == row.leafSubject
    && c.validFrom == row.validFrom && c.validTo == row.validTo && c.state == row.state
    && c.validationValid == row.validationValid
  }

  ghost predicate ServiceColumns(row: ServiceRow, s: ServiceSnapshot) {
    && s.id == row.id && s.code == row.code && s.chainId == row.chainId
    && s.criticality == row.criticality && s.state == row.state
    && (forall x: Id :: x in s.trustAnchorIds <==> Lists(row.trust, x))
    && (forall x: Id :: x in s.dependencyIds <==> Lists(row.edges, x))
  }

  lemma {:induction false} Mapped<T, U>(f: T -> U, s: seq<T>, mapped: seq<U>)
    requires multiset(mapped) == multiset(MapSeq(f, s))
    ensures forall x :: x in s ==> f(x) in mapped
    ensures forall y :: y in mapped ==> exists x :: x in s && f(x) == y
  {
    var image := MapSeq(f, s);
    forall x | x in s ensures f(x) in mapped {
      var i :| 0 <= i < |s| && s[i] == x;
      assert image[i] in multiset(mapped);
    }
    forall y | y in mapped ensures exists x :: x in s && f(x) == y {
      assert y in multiset(image);
      var i :| 0 <= i < |image| && image[i] == y;
      assert s[i] in s;
    }
  }

  lemma FrozenServiceSame(row: ServiceRow)
    ensures ServiceColumns(row, Normalize(FreezeService(row)))
  {
  }

  lemma ServiceOfRow(snapshot: Snapshot, config: ScenarioConfig, tables: TableRows, row: ServiceRow)
    returns (s: ServiceSnapshot)
    requires FrozenFrom(snapshot, config, tables) && row in tables.services
    ensures s in snapshot.services && ServiceColumns(row, s)
  {
    var i :| 0 <= i < |tables.services| && tables.services[i] == row;
    var j := FrozenRow(tables.services, snapshot, i);
    s := snapshot.services[j];
    FrozenServiceSame(row);
  }

  lemma RowOfService(snapshot: Snapshot, config: ScenarioConfig, tables: TableRows, s: ServiceSnapshot)
    returns (row: ServiceRow)
    requires FrozenFrom(snapshot, config, tables) && s in snapshot.services
    ensures row in tables.services && ServiceColumns(row, s)
  {
    var i := FrozenMember(tables.services, snapshot, s);
    row := tables.services[i];
    FrozenServiceSame(row);
  }

  lemma ChainOfRow(snapshot: Snapshot, config: ScenarioConfig, tables: TableRows, row: ChainRow)
    returns (c: ChainSnapshot)
    requires FrozenFrom(snapshot, config, tables) && row in tables.chains
    ensures c in snapshot.chains && ChainColumns(row, c)
  {
    Mapped(FreezeChain, tables.chains, snapshot.chains);
    c := FreezeChain(row);
  }

  lemma RowOfChain(snapshot: Snapshot, config: ScenarioConfig, tables: TableRows, c: ChainSnapshot)
    returns (row: ChainRow)
    requires FrozenFrom(snapshot, config, tables) && c in snapshot.chains
    ensures row in tables.chains && ChainColumns(row, c)
  {
    Mapped(FreezeChain, tables.chains, snapshot.chains);
    row :| row in tables.chains && FreezeChain(row) == c;
  }

  lemma AnchorsFrozen(snapshot: Snapshot, config: ScenarioConfig, tables: TableRows)
    requires FrozenFrom(snapshot, config, tables)
    ensures forall row :: row in tables.anchors ==> exists a :: a in snapshot.anchors && AnchorColumns(row, a)
    ensures forall a :: a in snapshot.anchors ==> exists row :: row in tables.anchors && AnchorColumns(row, a)
  {
    Mapped(FreezeAnchor, tables.anchors, snapshot.anchors);
    forall row | row in tables.anchors ensures exists a :: a in snapshot.anchors && AnchorColumns(row, a) {
      assert AnchorColumns(row, FreezeAnchor(row));
    }
    forall a | a in snapshot.anchors ensures exists row :: row in tables.anchors && AnchorColumns(row, a) {
      var row :| row in tables.anchors && FreezeAnchor(row) == a;
      assert AnchorColumns(row, a);
    }
  }

  /** A frozen snapshot has one record for each row, with that row's columns, and no others. */
  lemma ContentsFrozen(snapshot: Snapshot, config: ScenarioConfig, tables: TableRows)
    requires FrozenFrom(snapshot, config, tables)
    ensures |snapshot.anchors| == |tables.anchors| && |snapshot.chains| == |tables.chains|
    ensures |snapshot.services| == |tables.services|
    ensures forall row :: row in tables.chains ==> exists c :: c in snapshot.chains && ChainColumns(row, c)
    ensures forall c :: c in snapshot.chains ==> exists row :: row in tables.chains && ChainColumns(row, c)
    ensures forall row :: row in tables.services ==> exists s :: s in snapshot.services && ServiceColumns(row, s)
    ensures forall s :: s in snapshot.services ==> exists row :: row in tables.services && ServiceColumns(row, s)
    ensures snapshot.algorithmVersion == "trust-path-window-v1.0.0"
    ensures snapshot.config == config.(candidateChainIds := snapshot.config.candidateChainIds)
    ensures forall x :: x in snapshot.config.candidateChainIds <==> x in config.candidateChainIds && x != 0
  {
    SameLength(snapshot.anchors, MapSeq(FreezeAnchor, tables.anchors));
    SameLength(snapshot.chains, MapSeq(FreezeChain, tables.chains));
    SameLength(snapshot.services, NormalizeAll(MapSeq(FreezeService, tables.services)));
    forall row | row in tables.chains ensures exists c :: c in snapshot.chains && ChainColumns(row, c) {
      var c := ChainOfRow(snapshot, config, tables, row);
    }
    forall c | c in snapshot.chains ensures exists row :: row in tables.chains && ChainColumns(row, c) {
      var row := RowOfChain(snapshot, config, tables, c);
    }
    forall row | row in tables.services ensures exists s :: s in snapshot.services && ServiceColumns(row, s) {
      var s := ServiceOfRow(snapshot, config, tables, row);
    }
    forall s | s in snapshot.services ensures exists row :: row in tables.services && ServiceColumns(row, s) {
      var row := RowOfService(snapshot, config, tables, s);
    }
  }

  // ---- With distinct ids, every record counts ----

  function ChainRowId(row: ChainRow): int { row.id }

  lemma ChainIdsDetermine(snapshot: Snapshot, config: ScenarioConfig, tables: TableRows)
    requires FrozenFrom(snapshot, config, tables) && DistinctTables(tables)
    ensures KeyDetermines(snapshot.chains, ChainId)
  {
    assert KeyDetermines(tables.chains, ChainRowId);
    MapKeyDetermines(FreezeChain, tables.chains, ChainRowId, ChainId);
    PermutedKeyDetermines(MapSeq(FreezeChain, tables.chains), snapshot.chains, ChainId);
  }

  lemma {:induction false} ChainPresent(chains: seq<ChainSnapshot>, c: ChainSnapshot) returns (i: nat)
    requires c in chains && KeyDetermines(chains, ChainId)
    ensures LastChain(chains, i) && chains[i] == c
  {
    i := LastIndexOfChain(chains, c.id);
    assert chains[i] in chains && ChainId(chains[i]) == ChainId(c);
  }

  lemma {:induction false} LastIndexOfChain(chains: seq<ChainSnapshot>, id: Id) returns (i: nat)
    requires exists c :: c in chains && c.id == id
    ensures LastChain(chains, i) && chains[i].id == id
  {
    var n := |chains| - 1;
    if chains[n].id == id {
      i := n;
    } else {
      var c :| c in chains && c.id == id;
      assert c in chains[..n];
      i := LastIndexOfChain(chains[..n], id);
    }
  }

  lemma {:induction false} LastIndexOfService(services: seq<ServiceSnapshot>, id: Id) returns (i: nat)
    requires exists s :: s in services && s.id == id
    ensures LastService(services, i) && services[i].id == id
  {
    var n := |services| - 1;
    if services[n].id == id {
      i := n;
    } else {
      var s :| s in services && s.id == id;
      assert s in services[..n];
      i := LastIndexOfService(services[..n], id);
    }
  }

  lemma ServicePresent(services: seq<ServiceSnapshot>, s: ServiceSnapshot) returns (i: nat)
    requires s in services && KeyDetermines(services, ServiceId)
    ensures LastService(services, i) && services[i] == s
    ensures s.state == "active" ==> LastActive(services, i)
  {
    i := LastIndexOfService(services, s.id);
    assert services[i] in services && ServiceId(services[i]) == ServiceId(s);
  }

  // ---- The rows decide ----

  lemma RowServesIff(snapshot: Snapshot, config: ScenarioConfig, tables: TableRows, at: Time, service: ServiceRow,
                     configured: ChainRow, chain: ChainRow, s: ServiceSnapshot, k: ChainSnapshot, c: ChainSnapshot)
    requires FrozenFrom(snapshot, config, tables)
    requires ServiceColumns(service, s) && ChainColumns(configured, k) && ChainColumns(chain, c)
    ensures RowCanServe(config, at, service, configured, chain) <==>
      s.state == "active" && CanServe(snapshot.config, at, s, k, c)
  {
  }

  lemma RowServedIsServed(snapshot: Snapshot, config: ScenarioConfig, tables: TableRows, at: Time, id: Id)
    requires FrozenFrom(snapshot, config, tables) && DistinctTables(tables) && RowServed(config, tables, at, id)
    ensures Served(snapshot, at, id)
  {
    var service, configured, chain :| RowCanServe(config, at, service, configured, chain)
      && service in tables.services && service.id == id && configured in tables.chains && chain in tables.chains;
    var s := ServiceOfRow(snapshot, config, tables, service);
    var k := ChainOfRow(snapshot, config, tables, configured);
    var c := ChainOfRow(snapshot, config, tables, chain);
    RowServesIff(snapshot, config, tables, at, service, configured, chain, s, k, c);
    FrozenIdsDetermine(tables.services, snapshot);
    ChainIdsDetermine(snapshot, config, tables);
    var i := ServicePresent(snapshot.services, s);
    var j := ChainPresent(snapshot.chains, k);
    var l := ChainPresent(snapshot.chains, c);
    assert Serves(snapshot, at, i, j, l);
  }

  lemma ServedIsRowServed(snapshot: Snapshot, config: ScenarioConfig, tables: TableRows, at: Time, id: Id)
    requires FrozenFrom(snapshot, config, tables) && Served(snapshot, at, id)
    ensures RowServed(config, tables, at, id)
  {
    var i: nat, j: nat, l: nat :| Serves(snapshot, at, i, j, l) && snapshot.services[i].id == id;
    var s, k, c := snapshot.services[i], snapshot.chains[j], snapshot.chains[l];
    var service := RowOfService(snapshot, config, tables, s);
    var configured := RowOfChain(snapshot, config, tables, k);
    var chain := RowOfChain(snapshot, config, tables, c);
    RowServesIff(snapshot, config, tables, at, service, configured, chain, s, k, c);
  }

  /** A frozen service is directly served exactly when some chain row can serve its row. */
  lemma ServedFromRows(snapshot: Snapshot, config: ScenarioConfig, tables: TableRows, at: Time, id: Id)
    requires FrozenFrom(snapshot, config, tables) && DistinctTables(tables)
    requires config.overlapStart <= config.overlapEnd
    ensures DirectlyServed(snapshot, at, id) <==> RowServed(config, tables, at, id)
  {
    ServedIff(snapshot, at, id);
    if RowServed(config, tables, at, id) {
      RowServedIsServed(snapshot, config, tables, at, id);
    } else if Served(snapshot, at, id) {
      ServedIsRowServed(snapshot, config, tables, at, id);
      assert false;
    }
  }

  lemma RowNeedsIff(snapshot: Snapshot, config: ScenarioConfig, tables: TableRows, v: Id, w: Id)
    requires FrozenFrom(snapshot, config, tables) && DistinctTables(tables)
    ensures NeedsDirectly(snapshot.services, v, w) <==> RowNeeds(tables.services, v, w)
  {
    if NeedsDirectly(snapshot.services, v, w) {
      var i: nat :| LastService(snapshot.services, i) && snapshot.services[i].id == v
        && w in snapshot.services[i].dependencyIds;
      var row := RowOfService(snapshot, config, tables, snapshot.services[i]);
    }
    if RowNeeds(tables.services, v, w) {
      var row :| row in tables.services && row.id == v && Lists(row.edges, w);
      var s := ServiceOfRow(snapshot, config, tables, row);
      FrozenIdsDetermine(tables.services, snapshot);
      var i := ServicePresent(snapshot.services, s);
    }
  }

  lemma RowWalkIff(snapshot: Snapshot, config: ScenarioConfig, tables: TableRows, p: seq<Id>)
    requires FrozenFrom(snapshot, config, tables) && DistinctTables(tables)
    ensures Walk(snapshot.services, p) <==> RowWalk(tables.services, p)
  {
    forall i | 0 <= i < |p| - 1
      ensures NeedsDirectly(snapshot.services, p[i], p[i + 1]) <==> RowNeeds(tables.services, p[i], p[i + 1])
    {
      RowNeedsIff(snapshot, config, tables, p[i], p[i + 1]);
    }
  }

  lemma RowNeedsUnservedIff(snapshot: Snapshot, config: ScenarioConfig, tables: TableRows, at: Time, id: Id)
    requires FrozenFrom(snapshot, config, tables) && DistinctTables(tables)
    ensures NeedsUnserved(snapshot, at, id) <==> RowNeedsUnserved(config, tables, at, id)
  {
    if NeedsUnserved(snapshot, at, id) {
      var p: seq<Id> :| Walk(snapshot.services, p) && p[0] == id && !Served(snapshot, at, p[|p| - 1]);
      RowWalkIff(snapshot, config, tables, p);
      if RowServed(config, tables, at, p[|p| - 1]) {
        RowServedIsServed(snapshot, config, tables, at, p[|p| - 1]);
        assert false;
      }
    }
    if RowNeedsUnserved(config, tables, at, id) {
      var p: seq<Id> :| RowWalk(tables.services, p) && p[0] == id && !RowServed(config, tables, at, p[|p| - 1]);
      RowWalkIff(snapshot, config, tables, p);
      if Served(snapshot, at, p[|p| - 1]) {
        ServedIsRowServed(snapshot, config, tables, at, p[|p| - 1]);
        assert false;
      }
    }
  }

  lemma NoReturnIff(snapshot: Snapshot, config: ScenarioConfig, tables: TableRows)
    requires FrozenFrom(snapshot, config, tables) && DistinctTables(tables)
    ensures NoWalkReturns(snapshot.services) <==> NoRowWalkReturns(tables.services)
  {
    forall p: seq<Id> {
      RowWalkIff(snapshot, config, tables, p);
    }
  }

  lemma HasAnchorIff(snapshot: Snapshot, config: ScenarioConfig, tables: TableRows, id: Id)
    requires FrozenFrom(snapshot, config, tables)
    ensures HasAnchor(snapshot, id) <==> HasAnchorRow(tables, id)
  {
    AnchorsFrozen(snapshot, config, tables);
    if HasAnchor(snapshot, id) {
      var a :| a in snapshot.anchors && a.id == id;
    }
  }

  lemma HasChainRowIff(snapshot: Snapshot, config: ScenarioConfig, tables: TableRows, id: Id)
    requires FrozenFrom(snapshot, config, tables)
    ensures HasChain(snapshot, id) <==> HasChainRow(tables, id)
  {
    if HasChain(snapshot, id) {
      var c :| c in snapshot.chains && c.id == id;
      var row := RowOfChain(snapshot, config, tables, c);
    }
    if row :| row in tables.chains && row.id == id {
      var c := ChainOfRow(snapshot, config, tables, row);
    }
  }

  /** Whether the frozen snapshot validates is decided by the rows. */
  lemma RowsAcceptableIff(snapshot: Snapshot, config: ScenarioConfig, tables: TableRows)
    requires FrozenFrom(snapshot, config, tables) && DistinctTables(tables)
    ensures ValidSnapshot(snapshot) <==> RowsAcceptable(config, tables)
  {
    AcceptableIff(snapshot);
    RowsAcceptableExactly(snapshot, config, tables);
  }

  lemma RowsAcceptableExactly(snapshot: Snapshot, config: ScenarioConfig, tables: TableRows)
    requires FrozenFrom(snapshot, config, tables) && DistinctTables(tables)
    ensures Acceptable(snapshot) <==> RowsAcceptable(config, tables)
  {
    NoReturnIff(snapshot, config, tables);
    HasAnchorIff(snapshot, config, tables, config.oldAnchorId);
    HasAnchorIff(snapshot, config, tables, config.newAnchorId);
    CandidatesIff(snapshot, config, tables);
  }

  lemma CandidatesIff(snapshot: Snapshot, config: ScenarioConfig, tables: TableRows)
    requires FrozenFrom(snapshot, config, tables)
    ensures (forall id :: id in snapshot.config.candidateChainIds ==> HasChain(snapshot, id)) <==>
      forall id :: id in config.candidateChainIds && id != 0 ==> HasChainRow(tables, id)
  {
    forall id {
      HasChainRowIff(snapshot, config, tables, id);
    }
  }

  /** A service of a frozen scenario is reachable exactly when every service its row leads to is served by the rows. */
  lemma ReachableFromRows(snapshot: Snapshot, config: ScenarioConfig, tables: TableRows, at: Time, id: Id)
    requires FrozenFrom(snapshot, config, tables) && DistinctTables(tables) && RowsAcceptable(config, tables)
    ensures Reachable(snapshot, at, id) <==> !RowNeedsUnserved(config, tables, at, id)
  {
    RowsAcceptableExactly(snapshot, config, tables);
    ReachableMeans(snapshot, at, id);
    RowNeedsUnservedIff(snapshot, config, tables, at, id);
  }

  /**
   * From tables to report: simulating what was frozen reports a failure at exactly the sampled instants, for
   * exactly the active rows that need a service no chain row can serve then.
   */
  lemma FailuresFromRows(snapshot: Snapshot, config: ScenarioConfig, tables: TableRows, id: Id, at: Time)
    requires FrozenFrom(snapshot, config, tables) && DistinctTables(tables) && RowsAcceptable(config, tables)
    ensures ReportsFailure(SimulationOf(snapshot).affected, id, at) <==>
      && Sampled(config, at) && ActiveRow(tables, id) && RowNeedsUnserved(config, tables, at, id)
  {
    RowsAcceptableExactly(snapshot, config, tables);
    FailuresMean(snapshot, id, at);
    RowNeedsUnservedIff(snapshot, config, tables, at, id);
    ActiveRowIff(snapshot, config, tables, id);
    SampledAlike(snapshot, config, tables, at);
  }

  lemma SampledAlike(snapshot: Snapshot, config: ScenarioConfig, tables: TableRows, at: Time)
    requires FrozenFrom(snapshot, config, tables)
    ensures Sampled(snapshot.config, at) <==> Sampled(config, at)
  {
  }

  lemma ActiveRowIff(snapshot: Snapshot, config: ScenarioConfig, tables: TableRows, id: Id)
    requires FrozenFrom(snapshot, config, tables)
    ensures ActiveRecord(snapshot, id) <==> ActiveRow(tables, id)
  {
    if s :| s in snapshot.services && s.id == id && s.state == "active" {
      var row := RowOfService(snapshot, config, tables, s);
    }
    if row :| row in tables.services && row.id == id && row.state == "active" {
      var s := ServiceOfRow(snapshot, config, tables, row);
    }
  }
}
