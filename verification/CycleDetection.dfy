/**
 * The three-colour depth-first search that `detectCycle` and `servicesContainCycle` both run.
 * The recursive closures of the source share a `state` map; here it is a field.
 */
module CycleDetection {
  import opened Prelude
  import opened Graphs

  const VISITING := 1
  const DONE := 2

  datatype Fault = CycleAt(id: Id) | MissingDependency(id: Id)

  /** Every node a search can meet: the keys and all edge targets, listed or not. */
  ghost function Nodes(g: Edges): set<Id> {
    g.Keys + set v, w | v in g && w in g[v] :: w
  }

  ghost predicate OnCycle(g: Edges, id: Id) {
    exists p: seq<Id> :: IsCycle(g, p) && p[0] == id
  }

  /** The fault is real: a cycle through the named node, or an edge to a node that is not a key. */
  ghost predicate RealFault(g: Edges, fault: Fault) {
    match fault
    case CycleAt(id) => OnCycle(g, id)
    case MissingDependency(id) => id !in g && exists v :: v in g && id in g[v]
  }

  predicate AllFinished(deps: seq<Id>, finished: set<Id>) {
    forall w :: w in deps ==> w in finished
  }

  lemma OneMoreFinished(deps: seq<Id>, k: nat, before: set<Id>, after: set<Id>)
    requires k < |deps| && AllFinished(deps[..k], before) && before <= after && deps[k] in after
    ensures AllFinished(deps[..k + 1], after)
  {
    assert deps[..k + 1] == deps[..k] + [deps[k]];
  }

  class CycleSearch {
    const edges: Edges
    var state: map<Id, int>
    ghost var rank: map<Id, nat>

    constructor (edges: Edges)
      ensures this.edges == edges && rank == map[] && Valid([])
    {
      this.edges := edges;
      state := map[];
      rank := map[];
    }

    /** `stack` is the walk of nodes being visited, outermost first. */
    ghost predicate Valid(stack: seq<Id>)
      reads this
    {
      && (forall v :: v in state ==> state[v] == VISITING || state[v] == DONE)
      && (forall v :: v in state && state[v] == VISITING ==> v in stack)
      && (forall v :: v in stack ==> v in state && state[v] == VISITING)
      && (forall v :: v in rank <==> v in state && state[v] == DONE)
      && Ranked(edges, rank)
    }

    /** Nothing seen or finished is forgotten. */
    ghost predicate Keeps(seen: set<Id>, finished: set<Id>)
      reads this
    {
      seen <= state.Keys && finished <= rank.Keys
    }

    /** simulator.go's `visit`. */
    method Visit(id: Id, ghost stack: seq<Id>) returns (fault: Option<Fault>)
      requires Valid(stack) && IsPath(edges, stack + [id]) && id in Nodes(edges)
      modifies this
      ensures fault.Some? ==> RealFault(edges, fault.value) && fault.value.CycleAt?
      ensures fault.None? ==> Valid(stack) && id in rank && Keeps(old(state).Keys, old(rank).Keys)
      decreases Nodes(edges) - state.Keys, 0
    {
      if id in state && state[id] == VISITING {
        CycleOnStack(edges, stack, id);
        return Some(CycleAt(id));
      }
      if id in state && state[id] == DONE {
        return None;
      }
      Begin(id, stack);
      fault := VisitEach(Succ(edges, id), id, stack);
      if fault.Some? {
        return;
      }
      Finish(id, stack);
      return None;
    }

    /** The closure's loop over one node's dependencies. */
    method VisitEach(deps: seq<Id>, id: Id, ghost stack: seq<Id>) returns (fault: Option<Fault>)
      requires Valid(stack + [id]) && IsPath(edges, stack + [id]) && deps == Succ(edges, id)
      modifies this
      ensures fault.Some? ==> RealFault(edges, fault.value) && fault.value.CycleAt?
      ensures fault.None? ==> Valid(stack + [id]) && Keeps(old(state).Keys, old(rank).Keys)
      ensures fault.None? ==> AllFinished(deps, rank.Keys)
      decreases Nodes(edges) - state.Keys, 1
    {
      ghost var deeper := stack + [id];
      for k := 0 to |deps|
        invariant Valid(deeper)
        invariant Keeps(old(state).Keys, old(rank).Keys)
        invariant AllFinished(deps[..k], rank.Keys)
      {
        StackGrows(edges, stack, id, deps[k]);
        ghost var before := rank.Keys;
        fault := Visit(deps[k], deeper);
        if fault.Some? {
          return;
        }
        OneMoreFinished(deps, k, before, rank.Keys);
      }
      assert deps[..|deps|] == deps;
      return None;
    }

    /** common.go's `visit`, which also refuses a dependency that is not a known service. */
    method VisitKnown(id: Id, ghost stack: seq<Id>) returns (fault: Option<Fault>)
      requires Valid(stack) && IsPath(edges, stack + [id]) && id in edges
      requires rank.Keys <= edges.Keys
      modifies this
      ensures fault.Some? ==> RealFault(edges, fault.value)
      ensures fault.None? ==> Valid(stack) && id in rank && Keeps(old(state).Keys, old(rank).Keys)
      ensures fault.None? ==> rank.Keys <= edges.Keys
      decreases Nodes(edges) - state.Keys, 0
    {
      if id in state && state[id] == VISITING {
        CycleOnStack(edges, stack, id);
        return Some(CycleAt(id));
      }
      if id in state && state[id] == DONE {
        return None;
      }
      Begin(id, stack);
      fault := VisitEachKnown(Succ(edges, id), id, stack);
      if fault.Some? {
        return;
      }
      Finish(id, stack);
      return None;
    }

    method VisitEachKnown(deps: seq<Id>, id: Id, ghost stack: seq<Id>) returns (fault: Option<Fault>)
      requires Valid(stack + [id]) && IsPath(edges, stack + [id]) && id in edges && deps == Succ(edges, id)
      requires rank.Keys <= edges.Keys
      modifies this
      ensures fault.Some? ==> RealFault(edges, fault.value)
      ensures fault.None? ==> Valid(stack + [id]) && Keeps(old(state).Keys, old(rank).Keys)
      ensures fault.None? ==> rank.Keys <= edges.Keys && AllFinished(deps, rank.Keys)
      decreases Nodes(edges) - state.Keys, 1
    {
      ghost var deeper := stack + [id];
      for k := 0 to |deps|
        invariant Valid(deeper)
        invariant Keeps(old(state).Keys, old(rank).Keys) && rank.Keys <= edges.Keys
        invariant AllFinished(deps[..k], rank.Keys)
      {
        if deps[k] !in edges {
          MissingIsReal(edges, id, deps[k]);
          return Some(MissingDependency(deps[k]));
        }
        StackGrows(edges, stack, id, deps[k]);
        ghost var before := rank.Keys;
        fault := VisitKnown(deps[k], deeper);
        if fault.Some? {
          return;
        }
        OneMoreFinished(deps, k, before, rank.Keys);
      }
      assert deps[..|deps|] == deps;
      return None;
    }

    /** `state[id] = 1`. */
    method Begin(id: Id, ghost stack: seq<Id>)
      requires Valid(stack) && id !in state
      modifies this`state
      ensures Valid(stack + [id])
      ensures state == old(state)[id := VISITING]
    {
      state := state[id := VISITING];
      assert forall v :: v in stack + [id] <==> v in stack || v == id;
    }

    /** `state[id] = 2`, once every successor of `id` is done. */
    method Finish(id: Id, ghost stack: seq<Id>)
      requires Valid(stack + [id]) && id !in stack
      requires AllFinished(Succ(edges, id), rank.Keys)
      modifies this
      ensures Valid(stack)
      ensures state == old(state)[id := DONE] && rank.Keys == old(rank).Keys + {id}
    {
      ghost var top: nat := Above(rank, rank.Keys);
      assert id in stack + [id];
      RankExtends(edges, rank, id, top);
      assert forall v :: v in stack + [id] <==> v in stack || v == id;
      state := state[id := DONE];
      rank := rank[id := top];
    }
  }

  /** A number above every rank. */
  ghost function Above(rank: map<Id, nat>, keys: set<Id>): (top: nat)
    requires keys <= rank.Keys
    ensures forall v :: v in keys ==> rank[v] < top
  {
    if keys == {} then 0 else
      var v :| v in keys;
      var rest := Above(rank, keys - {v});
      if rank[v] < rest then rest else rank[v] + 1
  }

  lemma RankExtends(g: Edges, rank: map<Id, nat>, id: Id, top: nat)
    requires Ranked(g, rank) && id !in rank
    requires forall w :: w in Succ(g, id) ==> w in rank && rank[w] < top
    ensures Ranked(g, rank[id := top])
  {
  }

  lemma StackGrows(g: Edges, stack: seq<Id>, id: Id, next: Id)
    requires IsPath(g, stack + [id]) && next in Succ(g, id)
    ensures IsPath(g, stack + [id] + [next])
    ensures next in Nodes(g)
  {
  }

  lemma MissingIsReal(g: Edges, v: Id, w: Id)
    requires v in g && w in Succ(g, v) && w !in g
    ensures RealFault(g, MissingDependency(w))
  {
  }

  lemma CycleOnStack(g: Edges, stack: seq<Id>, id: Id)
    requires IsPath(g, stack + [id]) && id in stack
    ensures OnCycle(g, id)
  {
    var i :| 0 <= i < |stack| && stack[i] == id;
    var p := stack + [id];
    SubPath(g, p, i, |p|);
    assert IsCycle(g, p[i..|p|]);
  }

  /** The loop of `detectCycle` over the keys of `edges`, in any order. */
  method SearchAll(edges: Edges) returns (fault: Option<Fault>)
    ensures fault.None? <==> Acyclic(edges)
    ensures fault.Some? ==> fault.value.CycleAt? && OnCycle(edges, fault.value.id)
  {
    var search := new CycleSearch(edges);
    var pending := edges.Keys;
    while pending != {}
      invariant pending <= edges.Keys && search.edges == edges
      invariant search.Valid([]) && edges.Keys - pending <= search.rank.Keys
      decreases pending
    {
      var id :| id in pending;
      pending := pending - {id};
      assert [] + [id] == [id];
      fault := search.Visit(id, []);
      if fault.Some? {
        return;
      }
    }
    RankedIsAcyclic(edges, search.rank);
    return None;
  }

  /** The loop of `servicesContainCycle` over the keys of `edges`, in any order. */
  method SearchAllKnown(edges: Edges) returns (fault: Option<Fault>)
    ensures fault.None? <==> Closed(edges) && Acyclic(edges)
    ensures fault.Some? ==> RealFault(edges, fault.value)
  {
    var search := new CycleSearch(edges);
    var pending := edges.Keys;
    while pending != {}
      invariant pending <= edges.Keys && search.edges == edges
      invariant search.Valid([]) && edges.Keys - pending <= search.rank.Keys <= edges.Keys
      decreases pending
    {
      var id :| id in pending;
      pending := pending - {id};
      assert [] + [id] == [id];
      fault := search.VisitKnown(id, []);
      if fault.Some? {
        return;
      }
    }
    RankedIsAcyclic(edges, search.rank);
    assert Closed(edges) by {
      forall v, w | v in edges && w in edges[v] ensures w in edges {
        assert w in Succ(edges, v);
      }
    }
    return None;
  }
}
