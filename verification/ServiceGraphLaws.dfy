/** What every sequence of service operations keeps true of the stored dependency graph. */
module ServiceGraphLaws {
  import opened Prelude
  import opened Actors
  import opened Sorting
  import opened Graphs
  import opened ServiceGraph

  predicate DistinctRows(rows: seq<ServiceRow>) {
    forall i, j :: 0 <= i < j < |rows| ==> rows[i].id != rows[j].id
  }

  /** Row ids are distinct and below the sentinel; the graph decodes, is closed and has no cycle. */
  ghost predicate Good(rows: seq<ServiceRow>) {
    && DistinctRows(rows)
    && (forall i :: 0 <= i < |rows| ==> 0 < rows[i].id < SENTINEL)
    && Accepted(rows)
  }

  lemma {:induction false} GraphKeys(rows: seq<ServiceRow>, id: Id)
    ensures id in GraphOf(rows) <==> KnownId(rows, id)
  {
    if rows != [] {
      var front, n := rows[..|rows| - 1], |rows| - 1;
      GraphKeys(front, id);
      if i: nat :| i < |rows| && rows[i].id == id {
        assert i < n ==> front[i].id == id;
      }
      if KnownId(front, id) {
        var i :| 0 <= i < |front| && front[i].id == id;
        assert rows[i].id == id;
      }
      assert rows[n].id == id ==> KnownId(rows, id);
    }
  }

  lemma {:induction false} GraphAt(rows: seq<ServiceRow>, i: nat)
    requires DistinctRows(rows) && i < |rows|
    ensures rows[i].id in GraphOf(rows) && GraphOf(rows)[rows[i].id] == Decoded(rows[i].edges)
  {
    var n := |rows| - 1;
    if i < n {
      GraphAt(rows[..n], i);
      assert rows[..n][i] == rows[i];
    }
  }

  lemma GraphAppend(rows: seq<ServiceRow>, row: ServiceRow)
    ensures GraphOf(rows + [row]) == GraphOf(rows)[row.id := Decoded(row.edges)]
  {
  }

  lemma UniqueTwice(ids: seq<Id>)
    ensures UniqueIds(UniqueIds(ids)) == UniqueIds(ids)
  {
    AscendingUnique(UniqueIds(UniqueIds(ids)), UniqueIds(ids));
  }

  // ---- Create ----

  lemma CreateReferences(rows: seq<ServiceRow>, tables: Tables, request: ServiceRequest, readOk: bool, id: Id)
    requires ReferenceCheck(rows, tables, 0, request, readOk).None?
    ensures Decoded(RowFor(request, id).edges) == UniqueIds(request.edgeIds)
    ensures forall w :: w in UniqueIds(request.edgeIds) ==> w in GraphOf(rows)
  {
    UniqueTwice(request.edgeIds);
    EdgeCheckMeaning(rows, 0, UniqueIds(request.edgeIds));
    forall w | w in UniqueIds(request.edgeIds) ensures w in GraphOf(rows) {
      GraphKeys(rows, w);
    }
  }

  lemma AppendedAccepted(rows: seq<ServiceRow>, tables: Tables, request: ServiceRequest, readOk: bool, id: Id)
    requires Accepted(rows) && !KnownId(rows, id)
    requires ReferenceCheck(rows, tables, 0, request, readOk).None?
    ensures Accepted(rows + [RowFor(request, id)])
  {
    CreateReferences(rows, tables, request, readOk, id);
    GraphAppend(rows, RowFor(request, id));
    GraphKeys(rows, id);
    SourceKeepsAcyclic(GraphOf(rows), id, UniqueIds(request.edgeIds));
  }

  /**
   * Create's graph check is redundant: on a good store that can be read, once the references pass, the
   * candidate graph with the sentinel node is always accepted.
   */
  lemma CreateCheckNeverRejects(rows: seq<ServiceRow>, tables: Tables, request: ServiceRequest, actor: Actor,
                        env: Environment)
    requires Good(rows) && env.graphRead
    ensures CreateResult(rows, tables, request, actor, env) != Err(GraphRejected)
  {
    if ReferenceCheck(rows, tables, 0, request, env.referenceRead).None? {
      assert !KnownId(rows, SENTINEL);
      AppendedAccepted(rows, tables, request, env.referenceRead, SENTINEL);
    }
  }

  lemma AppendedGood(rows: seq<ServiceRow>, tables: Tables, request: ServiceRequest, readOk: bool, id: Id)
    requires Good(rows) && 0 < id < SENTINEL && !KnownId(rows, id)
    requires ReferenceCheck(rows, tables, 0, request, readOk).None?
    ensures Good(rows + [RowFor(request, id)])
  {
    AppendedAccepted(rows, tables, request, readOk, id);
    AppendedDistinct(rows, RowFor(request, id));
  }

  lemma AppendedDistinct(rows: seq<ServiceRow>, row: ServiceRow)
    requires DistinctRows(rows) && !KnownId(rows, row.id)
    ensures DistinctRows(rows + [row])
  {
  }

  lemma AcceptedCreate(rows: seq<ServiceRow>, tables: Tables, request: ServiceRequest, actor: Actor, env: Environment)
    requires CreateResult(rows, tables, request, actor, env).Ok?
    ensures CreateResult(rows, tables, request, actor, env).value == rows + [RowFor(request, env.newId)]
    ensures MayWrite(actor, request.ownerTeam) && ReferenceCheck(rows, tables, 0, request, env.referenceRead).None?
  {
  }

  /** Renaming the sentinel to the assigned id is safe, and so is a Create whose graph read failed. */
  lemma CreateKeepsGood(rows: seq<ServiceRow>, tables: Tables, request: ServiceRequest, actor: Actor,
                        env: Environment)
    requires Good(rows) && 0 < env.newId < SENTINEL && !KnownId(rows, env.newId)
    requires CreateResult(rows, tables, request, actor, env).Ok?
    ensures Good(CreateResult(rows, tables, request, actor, env).value)
  {
    AcceptedCreate(rows, tables, request, actor, env);
    AppendedGood(rows, tables, request, env.referenceRead, env.newId);
  }

  // ---- Update ----

  lemma {:induction false} GraphSameEdges(a: seq<ServiceRow>, b: seq<ServiceRow>)
    requires |a| == |b| && forall i :: 0 <= i < |a| ==> a[i].id == b[i].id && a[i].edges == b[i].edges
    ensures GraphOf(a) == GraphOf(b) && (Decodes(a) <==> Decodes(b))
  {
    if a != [] {
      GraphSameEdges(a[..|a| - 1], b[..|b| - 1]);
    }
  }

  lemma UpdateGraph(rows: seq<ServiceRow>, id: Id, request: ServiceRequest)
    ensures GraphOf(UpdateAll(rows, id, request)) == GraphOf(OverwriteAll(rows, id, request))
    ensures Decodes(UpdateAll(rows, id, request)) <==> Decodes(OverwriteAll(rows, id, request))
  {
    GraphSameEdges(UpdateAll(rows, id, request), OverwriteAll(rows, id, request));
  }

  lemma OverwrittenKeys(rows: seq<ServiceRow>, id: Id, request: ServiceRequest, v: Id)
    requires KnownId(rows, id)
    ensures v in GraphOf(OverwriteAll(rows, id, request)) <==> v in GraphOf(rows)
    ensures id in GraphOf(rows)
  {
    var after := OverwriteAll(rows, id, request);
    GraphKeys(after, v);
    GraphKeys(rows, v);
    GraphKeys(rows, id);
    SameKnownIds(rows, after, v);
  }

  lemma OverwrittenAt(rows: seq<ServiceRow>, id: Id, request: ServiceRequest, v: Id)
    requires DistinctRows(rows) && v in GraphOf(OverwriteAll(rows, id, request))
    ensures v in GraphOf(rows)
    ensures GraphOf(OverwriteAll(rows, id, request))[v] ==
      if v == id then UniqueIds(request.edgeIds) else GraphOf(rows)[v]
  {
    var after := OverwriteAll(rows, id, request);
    OverwrittenRow(rows, id, request);
    GraphKeys(after, v);
    var i :| 0 <= i < |after| && after[i].id == v;
    GraphAt(after, i);
    GraphAt(rows, i);
  }

  lemma OverwrittenRow(rows: seq<ServiceRow>, id: Id, request: ServiceRequest)
    requires DistinctRows(rows)
    ensures var after := OverwriteAll(rows, id, request);
      && |after| == |rows| && DistinctRows(after)
      && forall i :: 0 <= i < |rows| ==>
           && after[i].id == rows[i].id
           && Decoded(after[i].edges) == if rows[i].id == id then UniqueIds(request.edgeIds) else Decoded(rows[i].edges)
  {
    UniqueTwice(request.edgeIds);
  }

  /** The candidate graph is the stored one with the service's edges redefined. */
  lemma OverwrittenGraph(rows: seq<ServiceRow>, id: Id, request: ServiceRequest)
    requires DistinctRows(rows) && KnownId(rows, id)
    ensures GraphOf(OverwriteAll(rows, id, request)) == GraphOf(rows)[id := UniqueIds(request.edgeIds)]
  {
    var before, after := GraphOf(rows), GraphOf(OverwriteAll(rows, id, request));
    forall v ensures v in after <==> v in before[id := UniqueIds(request.edgeIds)] {
      OverwrittenKeys(rows, id, request, v);
    }
    forall v | v in after ensures after[v] == before[id := UniqueIds(request.edgeIds)][v] {
      OverwrittenAt(rows, id, request, v);
    }
  }

  lemma SameKnownIds(a: seq<ServiceRow>, b: seq<ServiceRow>, id: Id)
    requires |a| == |b| && forall i :: 0 <= i < |a| ==> a[i].id == b[i].id
    ensures KnownId(a, id) <==> KnownId(b, id)
  {
  }

  lemma OverwrittenClosed(rows: seq<ServiceRow>, tables: Tables, id: Id, request: ServiceRequest, readOk: bool)
    requires Good(rows) && KnownId(rows, id)
    requires ReferenceCheck(rows, tables, id, request, readOk).None?
    ensures Closed(GraphOf(rows)[id := UniqueIds(request.edgeIds)])
  {
    var edges := UniqueIds(request.edgeIds);
    EdgeCheckMeaning(rows, id, edges);
    forall w | w in edges ensures w in GraphOf(rows) {
      GraphKeys(rows, w);
    }
  }

  lemma UpdatedRowsWellFormed(rows: seq<ServiceRow>, id: Id, request: ServiceRequest)
    requires DistinctRows(rows) && Decodes(rows) && forall i :: 0 <= i < |rows| ==> 0 < rows[i].id < SENTINEL
    ensures var after := UpdateAll(rows, id, request);
      DistinctRows(after) && Decodes(after) && forall i :: 0 <= i < |after| ==> 0 < after[i].id < SENTINEL
  {
  }

  lemma AcceptedUpdate(rows: seq<ServiceRow>, tables: Tables, id: Id, request: ServiceRequest, actor: Actor,
                       env: Environment)
    requires UpdateResult(rows, tables, id, request, actor, env).Ok?
    ensures UpdateResult(rows, tables, id, request, actor, env).value == UpdateAll(rows, id, request)
    ensures KnownId(rows, id) && ReferenceCheck(rows, tables, id, request, env.referenceRead).None?
    ensures MayWrite(actor, RowById(rows, id).ownerTeam)
    ensures actor.role == ServiceOwner ==> request.ownerTeam == actor.team
    ensures env.graphRead ==> Accepted(OverwriteAll(rows, id, request))
  {
  }

  lemma UpdatedAccepted(rows: seq<ServiceRow>, id: Id, request: ServiceRequest)
    ensures Accepted(UpdateAll(rows, id, request)) <==> Accepted(OverwriteAll(rows, id, request))
  {
    UpdateGraph(rows, id, request);
  }

  lemma UpdatedGoodIff(rows: seq<ServiceRow>, tables: Tables, id: Id, request: ServiceRequest, readOk: bool)
    requires Good(rows) && KnownId(rows, id)
    requires ReferenceCheck(rows, tables, id, request, readOk).None?
    ensures Good(UpdateAll(rows, id, request)) <==>
      forall w :: w in UniqueIds(request.edgeIds) ==> !Leads(GraphOf(rows), w, id)
  {
    UpdatedRowsWellFormed(rows, id, request);
    UpdatedAccepted(rows, id, request);
    UpdateGraph(rows, id, request);
    OverwrittenGraph(rows, id, request);
    OverwrittenClosed(rows, tables, id, request, readOk);
    RedirectAcyclicIff(GraphOf(rows), id, UniqueIds(request.edgeIds));
  }

  /**
   * What an accepted Update leaves behind, whether or not its graph read succeeded: a closed graph that
   * is acyclic exactly when no new dependency already led back to the service.
   */
  lemma UpdateGoodIff(rows: seq<ServiceRow>, tables: Tables, id: Id, request: ServiceRequest, actor: Actor,
                      env: Environment)
    requires Good(rows) && UpdateResult(rows, tables, id, request, actor, env).Ok?
    ensures Good(UpdateResult(rows, tables, id, request, actor, env).value) <==>
      forall w :: w in UniqueIds(request.edgeIds) ==> !Leads(GraphOf(rows), w, id)
  {
    AcceptedUpdate(rows, tables, id, request, actor, env);
    UpdatedGoodIff(rows, tables, id, request, env.referenceRead);
  }

  /** With a graph read that succeeds, the check makes sure of it. */
  lemma UpdateKeepsGood(rows: seq<ServiceRow>, tables: Tables, id: Id, request: ServiceRequest, actor: Actor,
                        env: Environment)
    requires Good(rows) && env.graphRead && UpdateResult(rows, tables, id, request, actor, env).Ok?
    ensures Good(UpdateResult(rows, tables, id, request, actor, env).value)
  {
    AcceptedUpdate(rows, tables, id, request, actor, env);
    UpdatedAccepted(rows, id, request);
    UpdatedRowsWellFormed(rows, id, request);
  }

  const CALLER := ServiceRow(1, "caller", "pki", 1, Encoded([1]), Encoded([2]), "high", "active")
  const CALLEE := ServiceRow(2, "callee", "pki", 1, Encoded([1]), Encoded([]), "high", "active")
  const TWO_SERVICES := [CALLER, CALLEE]
  const TWO_TABLES := Tables({1}, {1})
  const BACK_EDGE := ServiceRequest("callee", "pki", 1, [1], [1], "high")
  const OWNER := Actor(7, ServiceOwner, "pki")
  const UNREAD := Environment(true, false, 3, true)

  lemma TwoServicesGood()
    ensures Good(TWO_SERVICES) && GraphOf(TWO_SERVICES) == map[1 := [2], 2 := []]
  {
    TwoRows(CALLER, CALLEE);
    RankedIsAcyclic(GraphOf(TWO_SERVICES), map[1 := 1, 2 := 0]);
  }

  lemma BackEdgePasses()
    ensures UpdateResult(TWO_SERVICES, TWO_TABLES, 2, BACK_EDGE, OWNER, UNREAD) ==
      Ok(UpdateAll(TWO_SERVICES, 2, BACK_EDGE))
  {
    OneId(1);
    assert TWO_SERVICES[0].id == 1 && TWO_SERVICES[1].id == 2;
    assert KnownId(TWO_SERVICES, 1) && KnownId(TWO_SERVICES, 2);
    EdgeCheckMeaning(TWO_SERVICES, 2, UniqueIds([1]));
    RankedIsAcyclic(map[], map[]);
  }

  /** Without it nothing does: a dropped read error lets Update store a cycle of two services. */
  lemma UpdateUnreadStoresCycle()
    ensures Good(TWO_SERVICES) && UNREAD.referenceRead && !UNREAD.graphRead
    ensures UpdateResult(TWO_SERVICES, TWO_TABLES, 2, BACK_EDGE, OWNER, UNREAD).Ok?
    ensures !Good(UpdateResult(TWO_SERVICES, TWO_TABLES, 2, BACK_EDGE, OWNER, UNREAD).value)
  {
    TwoServicesGood();
    BackEdgePasses();
    OneId(1);
    UpdateGoodIff(TWO_SERVICES, TWO_TABLES, 2, BACK_EDGE, OWNER, UNREAD);
    var p: seq<Id> := [1, 2];
    assert IsPath(GraphOf(TWO_SERVICES), p) && p[0] == 1 && p[|p| - 1] == 2;
    assert Leads(GraphOf(TWO_SERVICES), 1, 2);
  }

  lemma OneId(id: Id)
    requires id > 0
    ensures UniqueIds([id]) == [id] && UniqueIds([]) == []
  {
  }

  lemma TwoRows(a: ServiceRow, b: ServiceRow)
    requires a.id == 1 && b.id == 2 && a.edges == Encoded([2]) && b.edges == Encoded([])
    ensures GraphOf([a, b]) == map[1 := [2], 2 := []]
  {
    OneId(2);
    assert [a, b][..1] == [a] && [a][..0] == [];
    assert GraphOf([a]) == map[1 := [2]];
  }

  // ---- Runs ----

  datatype Operation =
    | Create(request: ServiceRequest)
    | Update(id: Id, request: ServiceRequest)
    | Deactivate(id: Id)

  datatype Step = Step(operation: Operation, actor: Actor, env: Environment)

  ghost function After(rows: seq<ServiceRow>, tables: Tables, step: Step): seq<ServiceRow> {
    var result := match step.operation
      case Create(request) => CreateResult(rows, tables, request, step.actor, step.env)
      case Update(id, request) => UpdateResult(rows, tables, id, request, step.actor, step.env)
      case Deactivate(id) => DeactivateResult(rows, id, step.actor, step.env);
    if result.Ok? then result.value else rows
  }

  ghost function RunFrom(rows: seq<ServiceRow>, tables: Tables, steps: seq<Step>): seq<ServiceRow> {
    if steps == [] then rows else After(RunFrom(rows, tables, steps[..|steps| - 1]), tables, steps[|steps| - 1])
  }

  /** The database hands out fresh ids below the sentinel, and Update's graph read succeeds. */
  ghost predicate Trustworthy(rows: seq<ServiceRow>, step: Step) {
    && (step.operation.Create? ==> 0 < step.env.newId < SENTINEL && !KnownId(rows, step.env.newId))
    && (step.operation.Update? ==> step.env.graphRead)
  }

  lemma DeactivateKeepsGood(rows: seq<ServiceRow>, id: Id)
    requires Good(rows)
    ensures Good(DeactivateAll(rows, id))
  {
    GraphSameEdges(rows, DeactivateAll(rows, id));
  }

  lemma StepKeepsGood(rows: seq<ServiceRow>, tables: Tables, step: Step)
    requires Good(rows) && Trustworthy(rows, step)
    ensures Good(After(rows, tables, step))
  {
    match step.operation {
      case Create(request) =>
        if CreateResult(rows, tables, request, step.actor, step.env).Ok? {
          CreateKeepsGood(rows, tables, request, step.actor, step.env);
        }
      case Update(id, request) =>
        if UpdateResult(rows, tables, id, request, step.actor, step.env).Ok? {
          UpdateKeepsGood(rows, tables, id, request, step.actor, step.env);
        }
      case Deactivate(id) =>
        DeactivateKeepsGood(rows, id);
    }
  }

  /** The run's steps are trustworthy where they are taken. */
  ghost predicate TrustworthyRun(rows: seq<ServiceRow>, tables: Tables, steps: seq<Step>) {
    forall k :: 0 <= k < |steps| ==> Trustworthy(RunFrom(rows, tables, steps[..k]), steps[k])
  }

  lemma TrustworthyFront(rows: seq<ServiceRow>, tables: Tables, steps: seq<Step>)
    requires steps != [] && TrustworthyRun(rows, tables, steps)
    ensures var n := |steps| - 1;
      TrustworthyRun(rows, tables, steps[..n]) && Trustworthy(RunFrom(rows, tables, steps[..n]), steps[n])
  {
    var front := steps[..|steps| - 1];
    forall k | 0 <= k < |front| ensures Trustworthy(RunFrom(rows, tables, front[..k]), front[k]) {
      assert front[..k] == steps[..k];
    }
  }

  /** Over every sequential run of operations the stored graph stays closed and acyclic. */
  lemma {:induction false} RunsStayGood(rows: seq<ServiceRow>, tables: Tables, steps: seq<Step>)
    requires Good(rows) && TrustworthyRun(rows, tables, steps)
    ensures Good(RunFrom(rows, tables, steps))
  {
    if steps != [] {
      var front := steps[..|steps| - 1];
      TrustworthyFront(rows, tables, steps);
      RunsStayGood(rows, tables, front);
      StepKeepsGood(RunFrom(rows, tables, front), tables, steps[|steps| - 1]);
    }
  }

  // ---- Ownership ----

  /** The database hands out an id no row has. */
  predicate FreshId(rows: seq<ServiceRow>, step: Step) {
    step.operation.Create? ==> !KnownId(rows, step.env.newId)
  }

  /** The step is a service owner's, of this team. */
  predicate ByOwnerOf(step: Step, team: string) {
    step.actor.role == ServiceOwner && step.actor.team == team
  }

  /** `after` keeps every row of `before`, and changes at most rows of the team, which stay with the team. */
  ghost predicate OnlyTeamChanged(before: seq<ServiceRow>, after: seq<ServiceRow>, team: string) {
    && |before| <= |after|
    && (forall i :: 0 <= i < |before| ==>
          after[i] == before[i] || (before[i].ownerTeam == team && after[i].ownerTeam == team))
    && forall i :: |before| <= i < |after| ==> after[i].ownerTeam == team
  }

  lemma TheRowById(rows: seq<ServiceRow>, i: nat)
    requires DistinctRows(rows) && i < |rows|
    ensures KnownId(rows, rows[i].id) && RowById(rows, rows[i].id) == rows[i]
  {
    var row := RowById(rows, rows[i].id);
    var j :| 0 <= j < |rows| && rows[j] == row;
    assert rows[j].id == rows[i].id;
  }

  lemma UpdatedInTeam(rows: seq<ServiceRow>, id: Id, request: ServiceRequest, team: string)
    requires DistinctRows(rows) && KnownId(rows, id)
    requires RowById(rows, id).ownerTeam == team && request.ownerTeam == team
    ensures OnlyTeamChanged(rows, UpdateAll(rows, id, request), team)
  {
    forall i | 0 <= i < |rows| && rows[i].id == id ensures rows[i].ownerTeam == team {
      TheRowById(rows, i);
    }
  }

  lemma DeactivatedInTeam(rows: seq<ServiceRow>, id: Id, team: string)
    requires DistinctRows(rows) && KnownId(rows, id) && RowById(rows, id).ownerTeam == team
    ensures OnlyTeamChanged(rows, DeactivateAll(rows, id), team)
  {
    forall i | 0 <= i < |rows| && rows[i].id == id ensures rows[i].ownerTeam == team {
      TheRowById(rows, i);
    }
  }

  lemma StepStaysInTeam(rows: seq<ServiceRow>, tables: Tables, step: Step, team: string)
    requires DistinctRows(rows) && ByOwnerOf(step, team)
    ensures OnlyTeamChanged(rows, After(rows, tables, step), team)
  {
    match step.operation {
      case Create(request) =>
        if CreateResult(rows, tables, request, step.actor, step.env).Ok? {
          AcceptedCreate(rows, tables, request, step.actor, step.env);
        }
      case Update(id, request) =>
        if UpdateResult(rows, tables, id, request, step.actor, step.env).Ok? {
          AcceptedUpdate(rows, tables, id, request, step.actor, step.env);
          UpdatedInTeam(rows, id, request, team);
        }
      case Deactivate(id) =>
        if DeactivateResult(rows, id, step.actor, step.env).Ok? {
          DeactivatedInTeam(rows, id, team);
        }
    }
  }

  lemma SameIdsDistinct(before: seq<ServiceRow>, after: seq<ServiceRow>)
    requires DistinctRows(before) && |before| == |after|
    requires forall i :: 0 <= i < |before| ==> after[i].id == before[i].id
    ensures DistinctRows(after)
  {
  }

  lemma StepKeepsDistinct(rows: seq<ServiceRow>, tables: Tables, step: Step)
    requires DistinctRows(rows) && FreshId(rows, step)
    ensures DistinctRows(After(rows, tables, step))
  {
    match step.operation {
      case Create(request) =>
        if CreateResult(rows, tables, request, step.actor, step.env).Ok? {
          AcceptedCreate(rows, tables, request, step.actor, step.env);
          AppendedDistinct(rows, RowFor(request, step.env.newId));
        }
      case Update(id, request) =>
        SameIdsDistinct(rows, UpdateAll(rows, id, request));
      case Deactivate(id) =>
        SameIdsDistinct(rows, DeactivateAll(rows, id));
    }
  }

  /** Whatever a team's service owners do, in any run, no other team's service changes and none is taken over. */
  lemma {:induction false} RunsStayInTeam(rows: seq<ServiceRow>, tables: Tables, steps: seq<Step>, team: string)
    requires DistinctRows(rows)
    requires forall k :: 0 <= k < |steps| ==>
      FreshId(RunFrom(rows, tables, steps[..k]), steps[k]) && ByOwnerOf(steps[k], team)
    ensures DistinctRows(RunFrom(rows, tables, steps))
    ensures OnlyTeamChanged(rows, RunFrom(rows, tables, steps), team)
  {
    if steps != [] {
      var n := |steps| - 1;
      var front := steps[..n];
      forall k | 0 <= k < n ensures FreshId(RunFrom(rows, tables, front[..k]), front[k]) && ByOwnerOf(front[k], team) {
        assert front[..k] == steps[..k];
      }
      RunsStayInTeam(rows, tables, front, team);
      StepStaysInTeam(RunFrom(rows, tables, front), tables, steps[n], team);
      StepKeepsDistinct(RunFrom(rows, tables, front), tables, steps[n]);
    }
  }
}
