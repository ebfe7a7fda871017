/** resolveService: a service is reachable when it and everything it depends on are (simulator.go). */
module Resolution {
  import opened Prelude
  import opened Graphs
  import opened Snapshots
  import opened Selection

  type Direct = map<Id, ServiceEvidence>
  type Services = map<Id, ServiceSnapshot>

  datatype Outcome = Outcome(item: ServiceEvidence, path: seq<Id>)

  function Dependencies(services: Services): Edges {
    map id | id in services :: services[id].dependencyIds
  }

  function Blocked(item: ServiceEvidence, reason: Reason): ServiceEvidence {
    item.(reachable := false, reason := reason)
  }

  /** The search as a function of the visiting set and the walk so far. It ends on every graph. */
  ghost function Resolve(id: Id, direct: Direct, services: Services, visiting: set<Id>, path: seq<Id>): Outcome
    decreases direct.Keys - visiting, 1, 0
  {
    if id !in direct then
      Outcome(ServiceEvidence(id, "", false, 0, 0, AbsentOrInactive), path + [id])
    else if id in visiting then
      Outcome(Blocked(direct[id], CycleEncountered), path + [id])
    else if !direct[id].reachable then
      Outcome(direct[id], path + [id])
    else
      assert direct.Keys - (visiting + {id}) < direct.Keys - visiting by { assert id in direct.Keys - visiting; }
      ResolveAll(direct[id], Succ(Dependencies(services), id), direct, services, visiting + {id}, path + [id])
  }

  ghost function ResolveAll(item: ServiceEvidence, dependencies: seq<Id>, direct: Direct, services: Services,
                            visiting: set<Id>, path: seq<Id>): Outcome
    decreases direct.Keys - visiting, 2, |dependencies|
  {
    if dependencies == [] then Outcome(item, path)
    else
      var dep := Resolve(dependencies[0], direct, services, visiting, path);
      if !dep.item.reachable then
        Outcome(Blocked(item, Upstream(dep.item.serviceCode, dep.item.reason)), dep.path)
      else
        ResolveAll(item, dependencies[1..], direct, services, visiting, path)
  }

  /** The map shared by all the recursive calls of one resolution; its entries are only ever true. */
  class VisitingSet {
    var ids: set<Id>

    constructor ()
      ensures ids == {}
    {
      ids := {};
    }
  }

  method ResolveService(id: Id, direct: Direct, services: Services, visiting: VisitingSet, path: seq<Id>)
    returns (item: ServiceEvidence, broken: seq<Id>)
    modifies visiting
    ensures visiting.ids == old(visiting.ids)
    ensures Outcome(item, broken) == Resolve(id, direct, services, old(visiting.ids), path)
    decreases direct.Keys - visiting.ids
  {
    if id !in direct {
      return ServiceEvidence(id, "", false, 0, 0, AbsentOrInactive), path + [id];
    }
    item := direct[id];
    var currentPath := path + [id];
    if id in visiting.ids {
      return item.(reachable := false, reason := CycleEncountered), currentPath;
    }
    if !item.reachable {
      return item, currentPath;
    }
    assert id in direct.Keys - visiting.ids;
    visiting.ids := visiting.ids + {id};
    var dependencies := Succ(Dependencies(services), id);
    for k := 0 to |dependencies|
      invariant visiting.ids == old(visiting.ids) + {id}
      invariant Resolve(id, direct, services, old(visiting.ids), path)
             == ResolveAll(item, dependencies[k..], direct, services, visiting.ids, currentPath)
    {
      var dep, brokenPath := ResolveService(dependencies[k], direct, services, visiting, currentPath);
      if !dep.reachable {
        item := item.(reachable := false, reason := Upstream(dep.serviceCode, dep.reason));
        visiting.ids := visiting.ids - {id};
        return item, brokenPath;
      }
    }
    visiting.ids := visiting.ids - {id};
    return item, currentPath;
  }

  /** The service is active and some chain serves it directly. */
  predicate Healthy(direct: Direct, id: Id) {
    id in direct && direct[id].reachable
  }

  /** A walk of healthy services that never repeats a service and never enters `avoid`. */
  ghost predicate HealthyWalk(direct: Direct, p: seq<Id>, avoid: set<Id>) {
    && (forall i :: 0 <= i < |p| ==> Healthy(direct, p[i]) && p[i] !in avoid)
    && (forall i, j :: 0 <= i < j < |p| ==> p[i] != p[j])
  }

  ghost predicate AllWalksHealthy(id: Id, direct: Direct, services: Services, avoid: set<Id>) {
    forall p: seq<Id> :: IsPath(Dependencies(services), p) && p[0] == id ==> HealthyWalk(direct, p, avoid)
  }

  /** On every graph, cyclic or not: reachable exactly when every dependency walk is healthy. */
  lemma {:induction false} ReachableIff(id: Id, direct: Direct, services: Services, visiting: set<Id>, path: seq<Id>)
    ensures Resolve(id, direct, services, visiting, path).item.reachable <==>
      AllWalksHealthy(id, direct, services, visiting)
    decreases direct.Keys - visiting, 1, 0
  {
    var g := Dependencies(services);
    if !Healthy(direct, id) || id in visiting {
      assert IsPath(g, [id]) && [id][0] == id;
      assert !HealthyWalk(direct, [id], visiting);
    } else {
      assert id in direct.Keys - visiting;
      AllReachableIff(direct[id], g, id, Succ(g, id), direct, services, visiting + {id}, path + [id]);
      WalksThroughHead(id, direct, services, visiting);
    }
  }

  lemma {:induction false} AllReachableIff(item: ServiceEvidence, g: Edges, id: Id, dependencies: seq<Id>,
                                           direct: Direct, services: Services, visiting: set<Id>, path: seq<Id>)
    requires item.reachable && g == Dependencies(services)
    ensures ResolveAll(item, dependencies, direct, services, visiting, path).item.reachable <==>
      forall k :: 0 <= k < |dependencies| ==> AllWalksHealthy(dependencies[k], direct, services, visiting)
    decreases direct.Keys - visiting, 2, |dependencies|
  {
    if dependencies != [] {
      ReachableIff(dependencies[0], direct, services, visiting, path);
      if AllWalksHealthy(dependencies[0], direct, services, visiting) {
        AllReachableIff(item, g, id, dependencies[1..], direct, services, visiting, path);
        assert forall k :: 0 < k < |dependencies| ==> dependencies[k] == dependencies[1..][k - 1];
      }
    }
  }

  lemma HealthyTail(direct: Direct, id: Id, q: seq<Id>, avoid: set<Id>)
    requires Healthy(direct, id) && id !in avoid
    ensures HealthyWalk(direct, [id] + q, avoid) <==> HealthyWalk(direct, q, avoid + {id})
  {
    var p := [id] + q;
    assert p[0] == id && forall i :: 0 <= i < |q| ==> q[i] == p[i + 1];
    if HealthyWalk(direct, q, avoid + {id}) {
      forall i | 0 <= i < |p| ensures Healthy(direct, p[i]) && p[i] !in avoid && (i > 0 ==> p[i] != id) {
        assert i > 0 ==> p[i] == q[i - 1];
      }
      forall i, j | 0 <= i < j < |p| ensures p[i] != p[j] {
        assert p[j] == q[j - 1];
        assert i > 0 ==> p[i] == q[i - 1];
      }
    }
  }

  /** Walks from a healthy node are that node alone, or that node before a walk from a dependency. */
  lemma WalksThroughHead(id: Id, direct: Direct, services: Services, avoid: set<Id>)
    requires Healthy(direct, id) && id !in avoid
    ensures AllWalksHealthy(id, direct, services, avoid) <==>
      forall k :: 0 <= k < |Succ(Dependencies(services), id)| ==>
        AllWalksHealthy(Succ(Dependencies(services), id)[k], direct, services, avoid + {id})
  {
    var g := Dependencies(services);
    var deps := Succ(g, id);
    if AllWalksHealthy(id, direct, services, avoid) {
      forall k, q: seq<Id> | 0 <= k < |deps| && IsPath(g, q) && q[0] == deps[k]
        ensures HealthyWalk(direct, q, avoid + {id})
      {
        PathExtends(g, id, q);
        HealthyTail(direct, id, q, avoid);
      }
    }
    if forall k :: 0 <= k < |deps| ==> AllWalksHealthy(deps[k], direct, services, avoid + {id}) {
      forall p: seq<Id> | IsPath(g, p) && p[0] == id ensures HealthyWalk(direct, p, avoid) {
        if |p| > 1 {
          assert p[0 + 1] in Succ(g, p[0]);
          SubPath(g, p, 1, |p|);
          var k :| 0 <= k < |deps| && deps[k] == p[1];
          assert p == [id] + p[1..];
          HealthyTail(direct, id, p[1..], avoid);
        }
      }
    }
  }

  ghost predicate Depends(services: Services, id: Id, other: Id) {
    exists p: seq<Id> :: IsPath(Dependencies(services), p) && p[0] == id && p[|p| - 1] == other
  }

  lemma OnWalk(services: Services, p: seq<Id>, i: nat)
    requires IsPath(Dependencies(services), p) && i < |p|
    ensures Depends(services, p[0], p[i])
  {
    SubPath(Dependencies(services), p, 0, i + 1);
    assert p[0..i + 1][i] == p[i];
  }

  /** On an acyclic graph: reachable exactly when the whole dependency closure is healthy. */
  lemma ReachableIffClosureHealthy(id: Id, direct: Direct, services: Services, path: seq<Id>)
    requires Acyclic(Dependencies(services))
    ensures Resolve(id, direct, services, {}, path).item.reachable <==>
      forall other :: Depends(services, id, other) ==> Healthy(direct, other)
  {
    var g := Dependencies(services);
    ReachableIff(id, direct, services, {}, path);
    if forall other :: Depends(services, id, other) ==> Healthy(direct, other) {
      forall p: seq<Id> | IsPath(g, p) && p[0] == id ensures HealthyWalk(direct, p, {}) {
        AcyclicPathDistinct(g, p);
        forall i | 0 <= i < |p| ensures Healthy(direct, p[i]) {
          OnWalk(services, p, i);
        }
      }
    }
    if AllWalksHealthy(id, direct, services, {}) {
      forall other | Depends(services, id, other) ensures Healthy(direct, other) {
        var p: seq<Id> :| IsPath(g, p) && p[0] == id && p[|p| - 1] == other;
        assert HealthyWalk(direct, p, {});
      }
    }
  }

  /** The reason a walk ending in trouble is reported with: the trouble itself, wrapped once per edge. */
  ghost function WalkReason(direct: Direct, walk: seq<Id>, avoid: set<Id>): Reason
    requires walk != []
  {
    var id := walk[0];
    if |walk| > 1 then
      Upstream(if walk[1] in direct then direct[walk[1]].serviceCode else "",
               WalkReason(direct, walk[1..], avoid + {id}))
    else if id !in direct then AbsentOrInactive
    else if id in avoid then CycleEncountered
    else direct[id].reason
  }

  /**
   * `walk` shows why its first service is unreachable: healthy up to a last service that is not, or that closes
   * a cycle.
   */
  ghost predicate Witness(id: Id, direct: Direct, services: Services, avoid: set<Id>, walk: seq<Id>) {
    && IsPath(Dependencies(services), walk) && walk[0] == id
    && HealthyWalk(direct, walk[..|walk| - 1], avoid)
    && var last := walk[|walk| - 1];
       !Healthy(direct, last) || last in avoid || last in walk[..|walk| - 1]
  }

  lemma {:induction false} UnreachableHasWitness(id: Id, direct: Direct, services: Services, visiting: set<Id>,
                                                 path: seq<Id>)
    returns (walk: seq<Id>)
    requires !Resolve(id, direct, services, visiting, path).item.reachable
    ensures Resolve(id, direct, services, visiting, path).path == path + walk
    ensures Witness(id, direct, services, visiting, walk)
    ensures Resolve(id, direct, services, visiting, path).item.reason == WalkReason(direct, walk, visiting)
    decreases direct.Keys - visiting, 1, 0
  {
    if !Healthy(direct, id) || id in visiting {
      walk := [id];
      WitnessAlone(id, direct, services, visiting);
    } else {
      assert id in direct.Keys - visiting;
      var rest := BrokenDependency(direct[id], Succ(Dependencies(services), id), direct, services, visiting + {id},
                                   path + [id]);
      walk := [id] + rest;
      assert path + [id] + rest == path + walk;
      WitnessExtends(id, direct, services, visiting, rest);
      ReasonExtends(id, direct, visiting, rest);
    }
  }

  lemma WitnessAlone(id: Id, direct: Direct, services: Services, avoid: set<Id>)
    requires !Healthy(direct, id) || id in avoid
    ensures Witness(id, direct, services, avoid, [id])
  {
  }

  lemma ReasonExtends(id: Id, direct: Direct, avoid: set<Id>, rest: seq<Id>)
    requires rest != []
    ensures WalkReason(direct, [id] + rest, avoid) ==
      Upstream(if rest[0] in direct then direct[rest[0]].serviceCode else "", WalkReason(direct, rest, avoid + {id}))
  {
    assert ([id] + rest)[1..] == rest;
  }

  lemma {:induction false} BrokenDependency(item: ServiceEvidence, dependencies: seq<Id>, direct: Direct,
                                            services: Services,
                                            visiting: set<Id>, path: seq<Id>) returns (rest: seq<Id>)
    requires item.reachable && !ResolveAll(item, dependencies, direct, services, visiting, path).item.reachable
    ensures rest != [] && rest[0] in dependencies && Witness(rest[0], direct, services, visiting, rest)
    ensures ResolveAll(item, dependencies, direct, services, visiting, path).path == path + rest
    ensures ResolveAll(item, dependencies, direct, services, visiting, path).item.reason ==
      Upstream(if rest[0] in direct then direct[rest[0]].serviceCode else "", WalkReason(direct, rest, visiting))
    decreases direct.Keys - visiting, 2, |dependencies|
  {
    var dep := Resolve(dependencies[0], direct, services, visiting, path);
    ResolveKeepsChoice(dependencies[0], direct, services, visiting, path);
    if !dep.item.reachable {
      rest := UnreachableHasWitness(dependencies[0], direct, services, visiting, path);
    } else {
      rest := BrokenDependency(item, dependencies[1..], direct, services, visiting, path);
    }
  }

  lemma WitnessExtends(id: Id, direct: Direct, services: Services, avoid: set<Id>, rest: seq<Id>)
    requires Healthy(direct, id) && id !in avoid
    requires rest != [] && rest[0] in Succ(Dependencies(services), id)
    requires Witness(rest[0], direct, services, avoid + {id}, rest)
    ensures Witness(id, direct, services, avoid, [id] + rest)
  {
    var walk := [id] + rest;
    PathExtends(Dependencies(services), id, rest);
    var front, restFront := walk[..|walk| - 1], rest[..|rest| - 1];
    assert front == [id] + restFront;
    forall i | 0 <= i < |front| ensures Healthy(direct, front[i]) && front[i] !in avoid {
      if i > 0 { assert front[i] == restFront[i - 1]; }
    }
    forall i, j | 0 <= i < j < |front| ensures front[i] != front[j] {
      assert front[j] == restFront[j - 1];
      if i > 0 { assert front[i] == restFront[i - 1]; }
    }
    var last := rest[|rest| - 1];
    assert walk[|walk| - 1] == last;
    if last in restFront || last == id { assert last in front; }
  }

  /** `item` is `direct` itself, or `direct` turned unreachable for some reason: the chain chosen stays. */
  predicate SameChoice(item: ServiceEvidence, direct: ServiceEvidence) {
    item == if item.reachable then direct else direct.(reachable := false, reason := item.reason)
  }

  /** A resolution only ever changes the verdict and its reason. */
  lemma {:induction false} ResolveKeepsChoice(id: Id, direct: Direct, services: Services, visiting: set<Id>,
                                              path: seq<Id>)
    ensures Resolve(id, direct, services, visiting, path).item.serviceCode ==
      if id in direct then direct[id].serviceCode else ""
    ensures id in direct ==> SameChoice(Resolve(id, direct, services, visiting, path).item, direct[id])
  {
    if Healthy(direct, id) && id !in visiting {
      ResolveAllKeepsChoice(direct[id], Succ(Dependencies(services), id), direct, services, visiting + {id},
                            path + [id]);
    }
  }

  lemma {:induction false} ResolveAllKeepsChoice(item: ServiceEvidence, dependencies: seq<Id>, direct: Direct,
                                                 services: Services, visiting: set<Id>, path: seq<Id>)
    ensures SameChoice(ResolveAll(item, dependencies, direct, services, visiting, path).item, item)
    decreases |dependencies|
  {
    if dependencies != [] && Resolve(dependencies[0], direct, services, visiting, path).item.reachable {
      ResolveAllKeepsChoice(item, dependencies[1..], direct, services, visiting, path);
    }
  }

  /**
   * On an acyclic graph a broken path is a true witness that ends at an absent, inactive or directly
   * unreachable service, so the cycle branch was not taken anywhere along it.
   */
  lemma BrokenPathOnAcyclic(id: Id, direct: Direct, services: Services) returns (walk: seq<Id>)
    requires Acyclic(Dependencies(services))
    requires forall v :: v in direct ==> !direct[v].reason.Upstream?
    requires !Resolve(id, direct, services, {}, []).item.reachable
    ensures Resolve(id, direct, services, {}, []).path == walk
    ensures IsPath(Dependencies(services), walk) && walk[0] == id
    ensures forall i :: 0 <= i < |walk| - 1 ==> Healthy(direct, walk[i])
    ensures !Healthy(direct, walk[|walk| - 1])
    ensures Resolve(id, direct, services, {}, []).item.reason == WalkReason(direct, walk, {})
    ensures RootCause(WalkReason(direct, walk, {})) ==
      if walk[|walk| - 1] in direct then direct[walk[|walk| - 1]].reason else AbsentOrInactive
  {
    walk := UnreachableHasWitness(id, direct, services, {}, []);
    assert [] + walk == walk;
    WitnessOnAcyclic(id, direct, services, walk);
    RootOfWalk(direct, walk, {});
  }

  lemma WitnessOnAcyclic(id: Id, direct: Direct, services: Services, walk: seq<Id>)
    requires Acyclic(Dependencies(services)) && Witness(id, direct, services, {}, walk)
    ensures forall i, j :: 0 <= i < j < |walk| ==> walk[i] != walk[j]
    ensures forall i :: 0 <= i < |walk| - 1 ==> Healthy(direct, walk[i])
    ensures !Healthy(direct, walk[|walk| - 1])
  {
    var front := walk[..|walk| - 1];
    AcyclicPathDistinct(Dependencies(services), walk);
    forall i | 0 <= i < |walk| - 1 ensures Healthy(direct, walk[i]) {
      assert Healthy(direct, front[i]);
    }
    assert walk[|walk| - 1] !in front;
  }

  /** The innermost reason of a chain of upstream failures. */
  function RootCause(reason: Reason): Reason {
    match reason
    case Upstream(_, cause) => RootCause(cause)
    case _ => reason
  }

  lemma {:induction false} RootOfWalk(direct: Direct, walk: seq<Id>, avoid: set<Id>)
    requires walk != [] && forall i, j :: 0 <= i < j < |walk| ==> walk[i] != walk[j]
    requires walk[|walk| - 1] !in avoid
    requires var last := walk[|walk| - 1]; last in direct ==> !direct[last].reason.Upstream?
    ensures var last := walk[|walk| - 1];
      RootCause(WalkReason(direct, walk, avoid)) == if last in direct then direct[last].reason else AbsentOrInactive
  {
    if |walk| > 1 {
      RootOfWalk(direct, walk[1..], avoid + {walk[0]});
    }
  }
}
