/**
 * What the service operations store, and exactly when they go through, in terms of the rows before and after and of
 * the request.
 */
module ServiceRecords {
  import opened Prelude
  import opened Actors
  import opened Sorting
  import opened Graphs
  import opened ServiceGraph
  import opened ServiceGraphLaws

  // ---- What is stored ----

  /** The column decodes to exactly the requested identifiers, zero aside. */
  predicate Holds(column: IdColumn, requested: seq<Id>) {
    column.Encoded? && forall x: Id :: x in column.ids <==> x in requested && x != 0
  }

  /** The row has everything a request says about a service but its code. */
  predicate Stored(row: ServiceRow, request: ServiceRequest) {
    && row.ownerTeam == request.ownerTeam && row.chainId == request.chainId && row.criticality == request.criticality
    && Holds(row.trust, request.trustIds) && Holds(row.edges, request.edgeIds)
  }

  /** Create appends one active row with the assigned id and everything requested. */
  lemma CreateStores(rows: seq<ServiceRow>, tables: Tables, request: ServiceRequest, actor: Actor, env: Environment)
    requires CreateResult(rows, tables, request, actor, env).Ok?
    ensures var after := CreateResult(rows, tables, request, actor, env).value;
      && |after| == |rows| + 1 && after[..|rows|] == rows
      && var row := after[|rows|];
         row.id == env.newId && row.code == request.code && row.state == "active" && Stored(row, request)
  {
    AcceptedCreate(rows, tables, request, actor, env);
  }

  /** What Update makes of one row. */
  ghost predicate UpdatedRow(before: ServiceRow, after: ServiceRow, id: Id, request: ServiceRequest) {
    if before.id != id then after == before
    else after.id == id && after.code == before.code && after.state == before.state && Stored(after, request)
  }

  /**
   * Update writes everything requested to the row with that id, keeps its id, code and state, and no other row
   * changes.
   */
  lemma UpdateStores(rows: seq<ServiceRow>, tables: Tables, id: Id, request: ServiceRequest, actor: Actor,
                     env: Environment)
    requires UpdateResult(rows, tables, id, request, actor, env).Ok?
    ensures var after := UpdateResult(rows, tables, id, request, actor, env).value;
      && |after| == |rows|
      && forall i :: 0 <= i < |rows| ==> UpdatedRow(rows[i], after[i], id, request)
  {
    AcceptedUpdate(rows, tables, id, request, actor, env);
    forall i | 0 <= i < |rows| ensures UpdatedRow(rows[i], UpdateAll(rows, id, request)[i], id, request) {
      RowUpdated(rows[i], id, request);
    }
  }

  lemma RowUpdated(row: ServiceRow, id: Id, request: ServiceRequest)
    ensures UpdatedRow(row, Updated(row, id, request), id, request)
  {
  }

  /** Deactivate makes the row with that id inactive and changes nothing else. */
  lemma DeactivateStores(rows: seq<ServiceRow>, id: Id, actor: Actor, env: Environment)
    requires DeactivateResult(rows, id, actor, env).Ok?
    ensures var after := DeactivateResult(rows, id, actor, env).value;
      && |after| == |rows|
      && forall i :: 0 <= i < |rows| ==>
           after[i] == rows[i].(state := if rows[i].id == id then "inactive" else rows[i].state)
  {
  }

  // ---- When they go through ----

  /** Administrators and PKI operators write every service, a service owner those of their team, nobody else any. */
  predicate MayWriteFor(actor: Actor, team: string) {
    match actor.role
    case Admin => true
    case PkiOperator => true
    case ServiceOwner => actor.team == team
    case SecurityReviewer => false
    case Auditor => false
  }

  /** The chain exists, every anchor named exists, and every dependency named is another stored service. */
  predicate ReferencesExist(rows: seq<ServiceRow>, tables: Tables, selfId: Id, request: ServiceRequest) {
    && request.chainId in tables.chains
    && (forall x :: x in request.trustIds && x != 0 ==> x in tables.anchors)
    && forall x :: x in request.edgeIds && x != 0 ==> x != selfId && exists i :: 0 <= i < |rows| && rows[i].id == x
  }

  lemma ReferencesIff(rows: seq<ServiceRow>, tables: Tables, selfId: Id, request: ServiceRequest, readOk: bool)
    ensures ReferenceCheck(rows, tables, selfId, request, readOk).None? <==>
      readOk && ReferencesExist(rows, tables, selfId, request)
  {
    EdgeCheckMeaning(rows, selfId, UniqueIds(request.edgeIds));
  }

  /**
   * On a good table Create goes through exactly when all of this holds; with its graph unread it also needs no
   * dependencies.
   */
  lemma CreateGoesThroughIff(rows: seq<ServiceRow>, tables: Tables, request: ServiceRequest, actor: Actor,
                             env: Environment)
    requires Good(rows)
    ensures CreateResult(rows, tables, request, actor, env).Ok? <==>
      && MayWriteFor(actor, request.ownerTeam) && env.referenceRead && ReferencesExist(rows, tables, 0, request)
      && (env.graphRead || forall x :: x in request.edgeIds ==> x == 0)
      && (forall i :: 0 <= i < |rows| ==> rows[i].code != request.code) && env.commits
  {
    ReferencesIff(rows, tables, 0, request, env.referenceRead);
    if ReferenceCheck(rows, tables, 0, request, env.referenceRead).None? {
      if env.graphRead {
        assert !KnownId(rows, SENTINEL);
        AppendedAccepted(rows, tables, request, env.referenceRead, SENTINEL);
      } else {
        LonelyAccepted(rows, tables, request, env.referenceRead);
      }
    }
  }

  /** The sentinel row alone is an acceptable graph exactly when it depends on nothing. */
  lemma LonelyAccepted(rows: seq<ServiceRow>, tables: Tables, request: ServiceRequest, readOk: bool)
    requires Good(rows) && ReferenceCheck(rows, tables, 0, request, readOk).None?
    ensures Accepted([] + [RowFor(request, SENTINEL)]) <==> forall x :: x in request.edgeIds ==> x == 0
  {
    var row, edges := RowFor(request, SENTINEL), UniqueIds(request.edgeIds);
    CreateReferences(rows, tables, request, readOk, SENTINEL);
    GraphAppend([], row);
    assert GraphOf([] + [row]) == map[SENTINEL := edges];
    if edges == [] {
      RankedIsAcyclic(map[SENTINEL := edges], map[SENTINEL := 0]);
    } else {
      GraphKeys(rows, SENTINEL);
      NotClosed(edges, edges[0]);
    }
  }

  lemma NotClosed(edges: seq<Id>, w: Id)
    requires w in edges && w != SENTINEL
    ensures !Closed(map[SENTINEL := edges])
  {
    var g: Edges := map[SENTINEL := edges];
    assert SENTINEL in g && w in g[SENTINEL] && w !in g;
  }

  /** The stored row with this id. */
  predicate IsRow(rows: seq<ServiceRow>, row: ServiceRow, id: Id) {
    row in rows && row.id == id
  }

  /** Among the stored dependencies, a walk from `from` to `to`. */
  ghost predicate Reaches(rows: seq<ServiceRow>, from: Id, to: Id) {
    exists p: seq<Id> :: |p| > 0 && p[0] == from && p[|p| - 1] == to && StoredWalk(rows, p)
  }

  ghost predicate StoredWalk(rows: seq<ServiceRow>, p: seq<Id>) {
    forall i :: 0 <= i < |p| - 1 ==> StoredEdge(rows, p[i], p[i + 1])
  }

  ghost predicate StoredEdge(rows: seq<ServiceRow>, v: Id, w: Id) {
    exists row :: IsRow(rows, row, v) && row.edges.Encoded? && w in row.edges.ids && w != 0
  }

  lemma StoredEdgeIff(rows: seq<ServiceRow>, v: Id, w: Id)
    requires DistinctRows(rows)
    ensures w in Succ(GraphOf(rows), v) <==> StoredEdge(rows, v, w)
  {
    GraphKeys(rows, v);
    if v in GraphOf(rows) {
      var i :| 0 <= i < |rows| && rows[i].id == v;
      GraphAt(rows, i);
      assert IsRow(rows, rows[i], v);
      forall row | IsRow(rows, row, v) ensures row == rows[i] {
        var j :| 0 <= j < |rows| && rows[j] == row;
      }
    } else {
      forall row ensures !IsRow(rows, row, v) {
        if IsRow(rows, row, v) {
          KnownRow(rows, row);
          assert false;
        }
      }
    }
  }

  lemma KnownRow(rows: seq<ServiceRow>, row: ServiceRow)
    requires row in rows
    ensures KnownId(rows, row.id)
  {
    var j :| 0 <= j < |rows| && rows[j] == row;
  }

  lemma ReachesIff(rows: seq<ServiceRow>, from: Id, to: Id)
    requires DistinctRows(rows)
    ensures Leads(GraphOf(rows), from, to) <==> Reaches(rows, from, to)
  {
    forall p: seq<Id> | |p| > 0 ensures IsPath(GraphOf(rows), p) <==> StoredWalk(rows, p) {
      forall i | 0 <= i < |p| - 1 ensures p[i + 1] in Succ(GraphOf(rows), p[i]) <==> StoredEdge(rows, p[i], p[i + 1]) {
        StoredEdgeIff(rows, p[i], p[i + 1]);
      }
    }
  }

  /** No dependency requested already leads back to the service. */
  ghost predicate NoneLeadsBack(rows: seq<ServiceRow>, id: Id, request: ServiceRequest) {
    forall x :: x in request.edgeIds && x != 0 ==> !Reaches(rows, x, id)
  }

  lemma NoneLeadsBackIff(rows: seq<ServiceRow>, id: Id, request: ServiceRequest)
    requires DistinctRows(rows)
    ensures NoneLeadsBack(rows, id, request) <==>
      forall w :: w in UniqueIds(request.edgeIds) ==> !Leads(GraphOf(rows), w, id)
  {
    forall w: Id ensures Leads(GraphOf(rows), w, id) <==> Reaches(rows, w, id) {
      ReachesIff(rows, w, id);
    }
  }

  lemma CandidateAcceptedIff(rows: seq<ServiceRow>, tables: Tables, id: Id, request: ServiceRequest, readOk: bool)
    requires Good(rows) && KnownId(rows, id) && ReferenceCheck(rows, tables, id, request, readOk).None?
    ensures Accepted(OverwriteAll(rows, id, request)) <==> NoneLeadsBack(rows, id, request)
  {
    UpdatedGoodIff(rows, tables, id, request, readOk);
    UpdatedAccepted(rows, id, request);
    UpdatedRowsWellFormed(rows, id, request);
    NoneLeadsBackIff(rows, id, request);
  }

  lemma NothingAccepted(id: Id, request: ServiceRequest)
    ensures Accepted(OverwriteAll([], id, request))
  {
    RankedIsAcyclic(map[], map[]);
  }

  /**
   * On a good table Update goes through exactly when the row exists, the actor may write it and does not hand it to
   * another team as a service owner, everything referred to exists, and, if the graph was read, no dependency
   * requested already leads back to the service.
   */
  lemma UpdateGoesThroughIff(rows: seq<ServiceRow>, tables: Tables, id: Id, request: ServiceRequest, actor: Actor,
                             env: Environment)
    requires Good(rows)
    ensures UpdateResult(rows, tables, id, request, actor, env).Ok? <==>
      && MayUpdate(rows, id, request, actor) && env.referenceRead && ReferencesExist(rows, tables, id, request)
      && (env.graphRead ==> NoneLeadsBack(rows, id, request)) && env.commits
  {
    RowByIdIff(rows, id);
    if KnownId(rows, id) {
      UpdateAllowedIff(rows, id, request, actor);
      UpdateChecksIff(rows, tables, id, request, env);
    }
  }

  ghost predicate MayUpdate(rows: seq<ServiceRow>, id: Id, request: ServiceRequest, actor: Actor) {
    && (exists row :: IsRow(rows, row, id) && MayWriteFor(actor, row.ownerTeam))
    && (actor.role == ServiceOwner ==> request.ownerTeam == actor.team)
  }

  lemma UpdateAllowedIff(rows: seq<ServiceRow>, id: Id, request: ServiceRequest, actor: Actor)
    requires DistinctRows(rows) && KnownId(rows, id)
    ensures MayUpdate(rows, id, request, actor) <==>
      MayWrite(actor, RowById(rows, id).ownerTeam) && !(actor.role == ServiceOwner && request.ownerTeam != actor.team)
  {
    RowByIdIff(rows, id);
  }

  lemma UpdateChecksIff(rows: seq<ServiceRow>, tables: Tables, id: Id, request: ServiceRequest, env: Environment)
    requires Good(rows) && KnownId(rows, id)
    ensures
      (&& ReferenceCheck(rows, tables, id, request, env.referenceRead).None?
       && Accepted(OverwriteAll(ReadAll(rows, env.graphRead), id, request))) <==>
      (&& env.referenceRead && ReferencesExist(rows, tables, id, request)
       && (env.graphRead ==> NoneLeadsBack(rows, id, request)))
  {
    assert id != 0;
    ReferencesIff(rows, tables, id, request, env.referenceRead);
    NothingAccepted(id, request);
    if ReferenceCheck(rows, tables, id, request, env.referenceRead).None? {
      CandidateAcceptedIff(rows, tables, id, request, env.referenceRead);
    }
  }

  lemma RowByIdIff(rows: seq<ServiceRow>, id: Id)
    requires DistinctRows(rows)
    ensures KnownId(rows, id) <==> exists row :: IsRow(rows, row, id)
    ensures KnownId(rows, id) ==> forall row :: IsRow(rows, row, id) ==> row == RowById(rows, id)
  {
    forall row | IsRow(rows, row, id) ensures KnownId(rows, id) && row == RowById(rows, id) {
      var i :| 0 <= i < |rows| && rows[i] == row;
      TheRowById(rows, i);
    }
    if KnownId(rows, id) {
      assert IsRow(rows, RowById(rows, id), id);
    }
  }

  lemma DeactivateGoesThroughIff(rows: seq<ServiceRow>, id: Id, actor: Actor, env: Environment)
    requires DistinctRows(rows)
    ensures DeactivateResult(rows, id, actor, env).Ok? <==>
      && env.commits
      && exists row :: IsRow(rows, row, id) && MayWriteFor(actor, row.ownerTeam) && row.state == "active"
  {
    RowByIdIff(rows, id);
    if KnownId(rows, id) {
      ActiveRowIff(rows, id);
    }
  }

  // ---- What a refusal means ----

  predicate Stores(rows: seq<ServiceRow>, id: Id) {
    exists row :: row in rows && row.id == id
  }

  predicate AnchorsExist(tables: Tables, request: ServiceRequest) {
    forall x :: x in request.trustIds && x != 0 ==> x in tables.anchors
  }

  /** Every dependency requested below `x` is another stored service. */
  predicate FineBelow(rows: seq<ServiceRow>, selfId: Id, requested: seq<Id>, x: Id) {
    forall y :: y in requested && 0 < y < x ==> y != selfId && Stores(rows, y)
  }

  /** The reference check named fails, and every check before it passes; dependencies are checked in id order. */
  predicate FirstFault(rows: seq<ServiceRow>, tables: Tables, selfId: Id, request: ServiceRequest, readOk: bool,
                       error: ServiceError)
  {
    var wanted := request.edgeIds;
    match error
    case ChainNotFound => request.chainId !in tables.chains
    case TrustUnknown => request.chainId in tables.chains && !AnchorsExist(tables, request)
    case ReadFailed => request.chainId in tables.chains && AnchorsExist(tables, request) && !readOk
    case SelfDependency =>
      && request.chainId in tables.chains && AnchorsExist(tables, request) && readOk
      && selfId != 0 && selfId in wanted && FineBelow(rows, selfId, wanted, selfId)
    case DependencyUnknown =>
      && request.chainId in tables.chains && AnchorsExist(tables, request) && readOk
      && exists x :: x in wanted && x != 0 && x != selfId && !Stores(rows, x) && FineBelow(rows, selfId, wanted, x)
    case _ => false
  }

  lemma StoresIff(rows: seq<ServiceRow>, id: Id)
    ensures Stores(rows, id) <==> KnownId(rows, id)
  {
    if row :| row in rows && row.id == id {
      var i :| 0 <= i < |rows| && rows[i] == row;
    }
  }

  /** The scan over increasing ids stops at the first that is refused. */
  lemma {:induction false} FirstEdgeFault(rows: seq<ServiceRow>, selfId: Id, ids: seq<Id>)
    requires Ascending(ids) && EdgeCheck(rows, selfId, ids).Some?
    ensures exists x :: x in ids && EdgeFault(rows, selfId, ids, x, EdgeCheck(rows, selfId, ids).value)
  {
    var front, last := ids[..|ids| - 1], ids[|ids| - 1];
    assert forall x: Id :: x in ids <==> x in front || x == last;
    if EdgeCheck(rows, selfId, front).Some? {
      FirstEdgeFault(rows, selfId, front);
      var x :| x in front && EdgeFault(rows, selfId, front, x, EdgeCheck(rows, selfId, front).value);
      assert EdgeFault(rows, selfId, ids, x, EdgeCheck(rows, selfId, ids).value);
    } else {
      EdgeCheckMeaning(rows, selfId, front);
      StoresIff(rows, last);
      forall y | y in front ensures Stores(rows, y) {
        StoresIff(rows, y);
      }
      assert EdgeFault(rows, selfId, ids, last, EdgeCheck(rows, selfId, ids).value);
    }
  }

  predicate EdgeFault(rows: seq<ServiceRow>, selfId: Id, ids: seq<Id>, x: Id, error: ServiceError) {
    && (forall y :: y in ids && y < x ==> (y != selfId || selfId == 0) && Stores(rows, y))
    && if x == selfId && selfId != 0 then error == SelfDependency else error == DependencyUnknown && !Stores(rows, x)
  }

  lemma ReferenceFault(rows: seq<ServiceRow>, tables: Tables, selfId: Id, request: ServiceRequest, readOk: bool)
    requires ReferenceCheck(rows, tables, selfId, request, readOk).Some?
    ensures FirstFault(rows, tables, selfId, request, readOk,
                       ReferenceCheck(rows, tables, selfId, request, readOk).value)
  {
    var ids := UniqueIds(request.edgeIds);
    if EdgeCheck(rows, selfId, ids).Some? {
      FirstEdgeFault(rows, selfId, ids);
      var x :| x in ids && EdgeFault(rows, selfId, ids, x, EdgeCheck(rows, selfId, ids).value);
      assert FineBelow(rows, selfId, request.edgeIds, x);
    }
  }

  /** Why Create refuses, on a good table: the first of its checks that fails. */
  lemma CreateRefuses(rows: seq<ServiceRow>, tables: Tables, request: ServiceRequest, actor: Actor, env: Environment)
    requires Good(rows) && CreateResult(rows, tables, request, actor, env).Err?
    ensures var allowed := MayWriteFor(actor, request.ownerTeam);
      var exist := allowed && env.referenceRead && ReferencesExist(rows, tables, 0, request);
      var alone := env.graphRead || forall x :: x in request.edgeIds ==> x == 0;
      var taken := exists row :: row in rows && row.code == request.code;
      match CreateResult(rows, tables, request, actor, env).error
      case Forbidden => !allowed
      case GraphRejected => exist && !alone
      case DuplicateCode => exist && alone && taken
      case CommitFailed => exist && alone && !taken && !env.commits
      case fault => allowed && FirstFault(rows, tables, 0, request, env.referenceRead, fault)
  {
    ReferencesIff(rows, tables, 0, request, env.referenceRead);
    if ReferenceCheck(rows, tables, 0, request, env.referenceRead).Some? {
      ReferenceFault(rows, tables, 0, request, env.referenceRead);
    } else if env.graphRead {
      CreateCheckNeverRejects(rows, tables, request, actor, env);
    } else {
      LonelyAccepted(rows, tables, request, env.referenceRead);
    }
  }

  /** Why Update refuses, on a good table. */
  lemma UpdateRefuses(rows: seq<ServiceRow>, tables: Tables, id: Id, request: ServiceRequest, actor: Actor,
                      env: Environment)
    requires Good(rows) && UpdateResult(rows, tables, id, request, actor, env).Err?
    ensures var allowed := MayUpdate(rows, id, request, actor);
      var exist := allowed && env.referenceRead && ReferencesExist(rows, tables, id, request);
      var rejected := env.graphRead && !NoneLeadsBack(rows, id, request);
      match UpdateResult(rows, tables, id, request, actor, env).error
      case ServiceNotFound => !Stores(rows, id)
      case Forbidden => Stores(rows, id) && !allowed
      case GraphRejected => exist && rejected
      case CommitFailed => exist && !rejected && !env.commits
      case fault => allowed && FirstFault(rows, tables, id, request, env.referenceRead, fault)
  {
    StoresIff(rows, id);
    RowByIdIff(rows, id);
    if KnownId(rows, id) {
      ReferencesIff(rows, tables, id, request, env.referenceRead);
      if ReferenceCheck(rows, tables, id, request, env.referenceRead).Some? {
        ReferenceFault(rows, tables, id, request, env.referenceRead);
      } else {
        CandidateAcceptedIff(rows, tables, id, request, env.referenceRead);
        NothingAccepted(id, request);
      }
    }
  }

  /** Why Deactivate refuses. */
  lemma DeactivateRefuses(rows: seq<ServiceRow>, id: Id, actor: Actor, env: Environment)
    requires DistinctRows(rows) && DeactivateResult(rows, id, actor, env).Err?
    ensures var allowed := exists row :: IsRow(rows, row, id) && MayWriteFor(actor, row.ownerTeam);
      var active := exists row :: IsRow(rows, row, id) && row.state == "active";
      match DeactivateResult(rows, id, actor, env).error
      case ServiceNotFound => !Stores(rows, id)
      case Forbidden => Stores(rows, id) && !allowed
      case AlreadyInactive => allowed && !active
      case CommitFailed => allowed && active && !env.commits
      case _ => false
  {
    StoresIff(rows, id);
    RowByIdIff(rows, id);
    if KnownId(rows, id) {
      ActiveRowIff(rows, id);
    }
  }

  lemma ActiveRowIff(rows: seq<ServiceRow>, id: Id)
    ensures IsActiveRow(rows, id) <==> exists row :: IsRow(rows, row, id) && row.state == "active"
  {
    if row :| IsRow(rows, row, id) && row.state == "active" {
      var i :| 0 <= i < |rows| && rows[i] == row;
    }
  }
}
