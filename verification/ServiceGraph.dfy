/**
 * The stored dependency graph: servicesContainCycle (service/common.go) and the operations of
 * DependentServiceService (service/dependent_service_service.go) on the service table.
 */
module ServiceGraph {
  import opened Prelude
  import opened Actors
  import opened Sorting
  import opened Graphs
  import opened CycleDetection

  /** A text column holding an identifier list; `Garbled` is text that does not decode. */
  datatype IdColumn = Encoded(ids: seq<Id>) | Garbled(text: string)

  datatype ServiceRow = ServiceRow(
    id: Id, code: string, ownerTeam: string, chainId: Id, trust: IdColumn, edges: IdColumn,
    criticality: string, state: string)

  datatype ServiceRequest = ServiceRequest(
    code: string, ownerTeam: string, chainId: Id, trustIds: seq<Id>, edgeIds: seq<Id>, criticality: string)

  datatype ServiceError =
    | ChainNotFound | TrustUnknown | ReadFailed | SelfDependency | DependencyUnknown
    | GraphRejected | DuplicateCode | ServiceNotFound | Forbidden | AlreadyInactive | CommitFailed

  /** `^uint(0)`: the id Create gives the new service while the candidate graph is checked. */
  const SENTINEL: Id := MAX_UINT

  function Encode(ids: seq<Id>): IdColumn {
    Encoded(ids)
  }

  function DecodeUintList(raw: IdColumn): Result<seq<Id>, string> {
    match raw
    case Encoded(ids) => Ok(UniqueIds(ids))
    case Garbled(text) => Err(text)
  }

  predicate Decodes(rows: seq<ServiceRow>) {
    forall i :: 0 <= i < |rows| ==> rows[i].edges.Encoded?
  }

  /** What decodeUintList gives for a column that decodes. */
  function Decoded(column: IdColumn): seq<Id> {
    if column.Encoded? then UniqueIds(column.ids) else []
  }

  /** The `edges` map the check builds. */
  function GraphOf(rows: seq<ServiceRow>): Edges {
    if rows == [] then map[]
    else
      var front, last := GraphOf(rows[..|rows| - 1]), rows[|rows| - 1];
      front[last.id := Decoded(last.edges)]
  }

  /** What the check accepts: every list decodes, every dependency exists, and there is no cycle. */
  ghost predicate Accepted(rows: seq<ServiceRow>) {
    Decodes(rows) && Closed(GraphOf(rows)) && Acyclic(GraphOf(rows))
  }

  datatype GraphError = Undecodable(text: string) | Faulty(fault: Fault)

  method ServicesContainCycle(rows: seq<ServiceRow>) returns (error: Option<GraphError>)
    ensures error.None? <==> Accepted(rows)
    ensures error.Some? && error.value.Faulty? ==> Decodes(rows) && RealFault(GraphOf(rows), error.value.fault)
    ensures error.Some? && error.value.Undecodable? ==> !Decodes(rows)
  {
    var edges := BuildEdges(rows);
    if edges.Err? {
      return Some(Undecodable(edges.error));
    }
    var fault := SearchAllKnown(edges.value);
    if fault.Some? {
      return Some(Faulty(fault.value));
    }
    return None;
  }

  lemma GraphNext(rows: seq<ServiceRow>, k: nat)
    requires k < |rows|
    ensures GraphOf(rows[..k + 1]) == GraphOf(rows[..k])[rows[k].id := Decoded(rows[k].edges)]
  {
    assert rows[..k + 1][..k] == rows[..k];
  }

  /** The check's first loop. */
  method BuildEdges(rows: seq<ServiceRow>) returns (edges: Result<Edges, string>)
    ensures edges.Ok? <==> Decodes(rows)
    ensures edges.Ok? ==> edges.value == GraphOf(rows)
  {
    var built: Edges := map[];
    for k := 0 to |rows|
      invariant built == GraphOf(rows[..k])
      invariant forall j :: 0 <= j < k ==> rows[j].edges.Encoded?
    {
      GraphNext(rows, k);
      var ids := DecodeUintList(rows[k].edges);
      if ids.Err? {
        assert !Decodes(rows);
        return Err(ids.error);
      }
      assert rows[k].edges.Encoded?;
      built := built[rows[k].id := ids.value];
    }
    assert rows[..|rows|] == rows;
    return Ok(built);
  }

  // ---- Ownership and reference checks ----

  /** requireServiceOwnership. */
  predicate MayWrite(actor: Actor, ownerTeam: string) {
    ManagesAll(actor) || (actor.role == ServiceOwner && actor.team == ownerTeam)
  }

  predicate KnownId(rows: seq<ServiceRow>, id: Id) {
    exists i :: 0 <= i < |rows| && rows[i].id == id
  }

  function RowById(rows: seq<ServiceRow>, id: Id): (row: ServiceRow)
    requires KnownId(rows, id)
    ensures row in rows && row.id == id
  {
    var last := |rows| - 1;
    if rows[last].id == id then rows[last]
    else
      assert KnownId(rows[..last], id) by {
        var i :| 0 <= i < |rows| && rows[i].id == id;
        assert rows[..last][i] == rows[i];
      }
      RowById(rows[..last], id)
  }

  /** The first dependency, in id order, that is refused. */
  function EdgeCheck(rows: seq<ServiceRow>, serviceId: Id, ids: seq<Id>): (e: Option<ServiceError>)
    ensures e.Some? ==> e.value.SelfDependency? || e.value.DependencyUnknown?
  {
    if ids == [] then None
    else
      var id := ids[|ids| - 1];
      var front := EdgeCheck(rows, serviceId, ids[..|ids| - 1]);
      if front.Some? then front
      else if id == serviceId && serviceId != 0 then Some(SelfDependency)
      else if KnownId(rows, id) then None
      else Some(DependencyUnknown)
  }

  /** The other tables a service refers to. */
  datatype Tables = Tables(chains: set<Id>, anchors: set<Id>)

  function ReferenceCheck(rows: seq<ServiceRow>, tables: Tables, serviceId: Id, request: ServiceRequest, readOk: bool)
    : Option<ServiceError>
  {
    if request.chainId !in tables.chains then Some(ChainNotFound)
    else if exists x :: x in request.trustIds && x > 0 && x !in tables.anchors then Some(TrustUnknown)
    else if !readOk then Some(ReadFailed)
    else EdgeCheck(rows, serviceId, UniqueIds(request.edgeIds))
  }

  lemma {:induction false} EdgeCheckMeaning(rows: seq<ServiceRow>, serviceId: Id, ids: seq<Id>)
    ensures EdgeCheck(rows, serviceId, ids).None? <==>
      forall id :: id in ids ==> (id != serviceId || serviceId == 0) && KnownId(rows, id)
  {
    if ids != [] {
      var front, last := ids[..|ids| - 1], ids[|ids| - 1];
      EdgeCheckMeaning(rows, serviceId, front);
      assert forall x: Id :: x in ids <==> x in front || x == last;
      if EdgeCheck(rows, serviceId, front).Some? {
        var x :| x in front && !((x != serviceId || serviceId == 0) && KnownId(rows, x));
        assert x in ids;
      }
    }
  }

  // ---- The operations, as functions of the stored rows ----

  /** What the environment decides: whether each read succeeds, the id the database assigns, whether the commit does. */
  datatype Environment = Environment(referenceRead: bool, graphRead: bool, newId: Id, commits: bool)

  function RowFor(request: ServiceRequest, id: Id): ServiceRow {
    ServiceRow(id, request.code, request.ownerTeam, request.chainId, Encode(UniqueIds(request.trustIds)),
               Encode(UniqueIds(request.edgeIds)),
               request.criticality, "active")
  }

  /** `all, _ := s.services.All(ctx)`: an error is dropped and leaves an empty list. */
  function ReadAll(rows: seq<ServiceRow>, graphRead: bool): seq<ServiceRow> {
    if graphRead then rows else []
  }

  /** Why Create refuses before its transaction, if it does. */
  ghost function CreateRefusal(rows: seq<ServiceRow>, tables: Tables, request: ServiceRequest, actor: Actor,
                               env: Environment): Option<ServiceError>
  {
    var refused := ReferenceCheck(rows, tables, 0, request, env.referenceRead);
    if !MayWrite(actor, request.ownerTeam) then Some(Forbidden)
    else if refused.Some? then refused
    else if !Accepted(ReadAll(rows, env.graphRead) + [RowFor(request, SENTINEL)]) then Some(GraphRejected)
    else if exists i :: 0 <= i < |rows| && rows[i].code == request.code then Some(DuplicateCode)
    else None
  }

  ghost function CreateResult(rows: seq<ServiceRow>, tables: Tables, request: ServiceRequest, actor: Actor,
                              env: Environment)
    : Result<seq<ServiceRow>, ServiceError>
  {
    var refusal := CreateRefusal(rows, tables, request, actor, env);
    if refusal.Some? then Err(refusal.value)
    else if !env.commits then Err(CommitFailed)
    else Ok(rows + [RowFor(request, env.newId)])
  }

  /** The in-memory overwrite that builds Update's candidate graph. */
  function Overwritten(row: ServiceRow, id: Id, request: ServiceRequest): ServiceRow {
    if row.id == id then
      row.(chainId := request.chainId, trust := Encode(UniqueIds(request.trustIds)),
           edges := Encode(UniqueIds(request.edgeIds)))
    else row
  }

  /** The columns the database update writes. */
  function Updated(row: ServiceRow, id: Id, request: ServiceRequest): ServiceRow {
    if row.id == id then
      Overwritten(row, id, request).(ownerTeam := request.ownerTeam, criticality := request.criticality)
    else row
  }

  function OverwriteAll(rows: seq<ServiceRow>, id: Id, request: ServiceRequest): seq<ServiceRow> {
    MapSeq((row: ServiceRow) => Overwritten(row, id, request), rows)
  }

  function UpdateAll(rows: seq<ServiceRow>, id: Id, request: ServiceRequest): seq<ServiceRow> {
    MapSeq((row: ServiceRow) => Updated(row, id, request), rows)
  }

  ghost function UpdateResult(rows: seq<ServiceRow>, tables: Tables, id: Id, request: ServiceRequest, actor: Actor,
                              env: Environment)
    : Result<seq<ServiceRow>, ServiceError>
  {
    var refused := ReferenceCheck(rows, tables, id, request, env.referenceRead);
    if !KnownId(rows, id) then Err(ServiceNotFound)
    else if !MayWrite(actor, RowById(rows, id).ownerTeam) then Err(Forbidden)
    else if actor.role == ServiceOwner && request.ownerTeam != actor.team then Err(Forbidden)
    else if refused.Some? then Err(refused.value)
    else if !Accepted(OverwriteAll(ReadAll(rows, env.graphRead), id, request)) then Err(GraphRejected)
    else if !env.commits then Err(CommitFailed)
    else Ok(UpdateAll(rows, id, request))
  }

  function Deactivated(row: ServiceRow, id: Id): ServiceRow {
    if row.id == id then row.(state := "inactive") else row
  }

  function DeactivateAll(rows: seq<ServiceRow>, id: Id): seq<ServiceRow> {
    MapSeq((row: ServiceRow) => Deactivated(row, id), rows)
  }

  predicate IsActiveRow(rows: seq<ServiceRow>, id: Id) {
    exists i :: 0 <= i < |rows| && rows[i].id == id && rows[i].state == "active"
  }

  function DeactivateResult(rows: seq<ServiceRow>, id: Id, actor: Actor, env: Environment)
    : Result<seq<ServiceRow>, ServiceError>
  {
    if !KnownId(rows, id) then Err(ServiceNotFound)
    else if !MayWrite(actor, RowById(rows, id).ownerTeam) then Err(Forbidden)
    else if !IsActiveRow(rows, id) then Err(AlreadyInactive)
    else if !env.commits then Err(CommitFailed)
    else Ok(DeactivateAll(rows, id))
  }

  // ---- The service object ----

  class DependentServiceService {
    var rows: seq<ServiceRow>
    const tables: Tables

    constructor (tables: Tables)
      ensures this.tables == tables && rows == []
    {
      this.tables := tables;
      rows := [];
    }

    method ValidateReferences(serviceId: Id, request: ServiceRequest, readOk: bool)
      returns (error: Option<ServiceError>)
      ensures error == ReferenceCheck(rows, tables, serviceId, request, readOk)
    {
      if request.chainId !in tables.chains {
        return Some(ChainNotFound);
      }
      if exists x :: x in request.trustIds && x > 0 && x !in tables.anchors {
        return Some(TrustUnknown);
      }
      if !readOk {
        return Some(ReadFailed);
      }
      var ids := SortedUnique(request.edgeIds);
      error := CheckEdges(serviceId, ids);
    }

    /** The last loop of validateReferences, over the sorted dependency ids. */
    method CheckEdges(serviceId: Id, ids: seq<Id>) returns (error: Option<ServiceError>)
      ensures error == EdgeCheck(rows, serviceId, ids)
    {
      var known: set<Id> := {};
      for k := 0 to |rows|
        invariant forall id: Id :: id in known <==> exists i :: 0 <= i < k && rows[i].id == id
      {
        known := known + {rows[k].id};
      }
      assert forall id: Id :: id in known <==> KnownId(rows, id);
      for k := 0 to |ids|
        invariant EdgeCheck(rows, serviceId, ids[..k]).None?
      {
        EdgeCheckNext(rows, serviceId, ids, k);
        if ids[k] == serviceId && serviceId != 0 {
          return Some(SelfDependency);
        }
        if ids[k] !in known {
          return Some(DependencyUnknown);
        }
      }
      assert ids[..|ids|] == ids;
      return None;
    }

    method Create(request: ServiceRequest, actor: Actor, env: Environment) returns (result: Result<Id, ServiceError>)
      modifies this`rows
      ensures var spec := CreateResult(old(rows), tables, request, actor, env);
        match result
        case Ok(id) => id == env.newId && spec == Ok(rows)
        case Err(e) => spec == Err(e) && rows == old(rows)
    {
      var service := NewRow(request);
      var refused := PrepareCreate(request, service, actor, env);
      if refused.Some? {
        return Err(refused.value);
      }
      if !env.commits {
        return Err(CommitFailed);
      }
      rows := rows + [service.(id := env.newId)];
      return Ok(env.newId);
    }

    /** Create up to its transaction: every check it makes, in order. */
    method PrepareCreate(request: ServiceRequest, service: ServiceRow, actor: Actor, env: Environment)
      returns (error: Option<ServiceError>)
      requires service == RowFor(request, 0)
      ensures error == CreateRefusal(rows, tables, request, actor, env)
    {
      if !MayWrite(actor, request.ownerTeam) {
        return Some(Forbidden);
      }
      error := ValidateReferences(0, request, env.referenceRead);
      if error.Some? {
        return;
      }
      var rejected := CheckNewRow(service, env);
      if rejected {
        return Some(GraphRejected);
      }
      if exists i :: 0 <= i < |rows| && rows[i].code == request.code {
        return Some(DuplicateCode);
      }
      return None;
    }

    method NewRow(request: ServiceRequest) returns (service: ServiceRow)
      ensures service == RowFor(request, 0)
    {
      var trust := SortedUnique(request.trustIds);
      var edges := SortedUnique(request.edgeIds);
      service := ServiceRow(0, request.code, request.ownerTeam, request.chainId, Encode(trust), Encode(edges),
                            request.criticality, "active");
    }

    /** Create's graph check: the new row is appended with id 0, which then becomes the sentinel. */
    method CheckNewRow(service: ServiceRow, env: Environment) returns (rejected: bool)
      ensures rejected <==> !Accepted(ReadAll(rows, env.graphRead) + [service.(id := SENTINEL)])
    {
      var all := if env.graphRead then rows else [];
      var candidate := all + [service];
      candidate := candidate[|candidate| - 1 := candidate[|candidate| - 1].(id := SENTINEL)];
      assert candidate == ReadAll(rows, env.graphRead) + [service.(id := SENTINEL)];
      var cyclic := ServicesContainCycle(candidate);
      rejected := cyclic.Some?;
    }

    method Update(id: Id, request: ServiceRequest, actor: Actor, env: Environment)
      returns (result: Result<Id, ServiceError>)
      modifies this`rows
      ensures var spec := UpdateResult(old(rows), tables, id, request, actor, env);
        match result
        case Ok(changed) => changed == id && spec == Ok(rows)
        case Err(e) => spec == Err(e) && rows == old(rows)
    {
      if !KnownId(rows, id) {
        return Err(ServiceNotFound);
      }
      if !MayWrite(actor, RowById(rows, id).ownerTeam) {
        return Err(Forbidden);
      }
      if actor.role == ServiceOwner && request.ownerTeam != actor.team {
        return Err(Forbidden);
      }
      var refused := ValidateReferences(id, request, env.referenceRead);
      if refused.Some? {
        return Err(refused.value);
      }
      var read := if env.graphRead then rows else [];
      var candidate := OverwriteRows(read, id, request);
      var cyclic := ServicesContainCycle(candidate);
      if cyclic.Some? {
        return Err(GraphRejected);
      }
      if !env.commits {
        return Err(CommitFailed);
      }
      rows := UpdateAll(rows, id, request);
      return Ok(id);
    }

    /** Update's loop over its own copy of the table. */
    method OverwriteRows(read: seq<ServiceRow>, id: Id, request: ServiceRequest) returns (candidate: seq<ServiceRow>)
      ensures candidate == OverwriteAll(read, id, request)
    {
      var all := new ServiceRow[|read|](i requires 0 <= i < |read| => read[i]);
      var trust := SortedUnique(request.trustIds);
      var edges := SortedUnique(request.edgeIds);
      for index := 0 to all.Length
        invariant forall j :: 0 <= j < index ==> all[j] == Overwritten(read[j], id, request)
        invariant forall j :: index <= j < all.Length ==> all[j] == read[j]
      {
        if all[index].id == id {
          all[index] := all[index].(chainId := request.chainId, trust := Encode(trust), edges := Encode(edges));
        }
      }
      candidate := all[..];
    }

    method Deactivate(id: Id, actor: Actor, env: Environment) returns (result: Result<Id, ServiceError>)
      modifies this`rows
      ensures var spec := DeactivateResult(old(rows), id, actor, env);
        match result
        case Ok(changed) => changed == id && spec == Ok(rows)
        case Err(e) => spec == Err(e) && rows == old(rows)
    {
      if !KnownId(rows, id) {
        return Err(ServiceNotFound);
      }
      if !MayWrite(actor, RowById(rows, id).ownerTeam) {
        return Err(Forbidden);
      }
      if !IsActiveRow(rows, id) {
        return Err(AlreadyInactive);
      }
      if !env.commits {
        return Err(CommitFailed);
      }
      rows := DeactivateAll(rows, id);
      return Ok(id);
    }
  }

  lemma EdgeCheckNext(rows: seq<ServiceRow>, serviceId: Id, ids: seq<Id>, k: nat)
    requires k < |ids| && EdgeCheck(rows, serviceId, ids[..k]).None?
    ensures var next := if ids[k] == serviceId && serviceId != 0 then Some(SelfDependency)
                        else if KnownId(rows, ids[k]) then None else Some(DependencyUnknown);
      && EdgeCheck(rows, serviceId, ids[..k + 1]) == next
      && (next.Some? ==> EdgeCheck(rows, serviceId, ids) == next)
  {
    assert ids[..k + 1][..k] == ids[..k];
    if EdgeCheck(rows, serviceId, ids[..k + 1]).Some? {
      EdgeCheckStops(rows, serviceId, ids, k);
    }
  }

  lemma {:induction false} EdgeCheckStops(rows: seq<ServiceRow>, serviceId: Id, ids: seq<Id>, k: nat)
    requires k < |ids| && EdgeCheck(rows, serviceId, ids[..k + 1]).Some?
    ensures EdgeCheck(rows, serviceId, ids) == EdgeCheck(rows, serviceId, ids[..k + 1])
    decreases |ids|
  {
    if k + 1 == |ids| {
      assert ids[..k + 1] == ids;
    } else {
      var front := ids[..|ids| - 1];
      assert front[..k + 1] == ids[..k + 1];
      EdgeCheckStops(rows, serviceId, front, k);
    }
  }
}
