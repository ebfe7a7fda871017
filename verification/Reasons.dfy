/** Why a service is reported unreachable: what each reason and each broken path says is true of the frozen records. */
module Reasons {
  import opened Prelude
  import opened Sorting
  import opened Graphs
  import opened Snapshots
  import opened Timing
  import opened Selection
  import opened Resolution
  import opened Simulator
  import opened SimulatorLaws
  import opened Verdicts

  // ---- Why a service is not served ----

  /** What the rejection says of the chain is true, and every check before it passed. */
  predicate Explains(config: ScenarioConfig, at: Time, service: ServiceSnapshot, chain: ChainSnapshot, r: Rejection) {
    var usable := chain.state != "revoked" && chain.state != "deprecated";
    var inWindow := chain.validFrom <= at < chain.validTo;
    match r
    case NotActive(code) => code == chain.code && !usable
    case OutsideWindow(code) => code == chain.code && usable && !inWindow
    case NotValidated(code) => code == chain.code && usable && inWindow && !chain.validationValid
    case AnchorUnavailable(code) =>
      code == chain.code && usable && inWindow && chain.validationValid && !Trusted(config, at, chain.anchorId)
    case AnchorNotTrusted(code, anchorId) =>
      && code == service.code && anchorId == chain.anchorId && usable && inWindow && chain.validationValid
      && Trusted(config, at, anchorId) && anchorId !in service.trustAnchorIds
  }

  /** The s-th service, configured with the k-th chain, would consider the c-th. */
  predicate Considers(snapshot: Snapshot, s: nat, k: nat, c: nat) {
    && s < |snapshot.services| && LastChain(snapshot.chains, k) && LastChain(snapshot.chains, c)
    && Considered(snapshot.config, snapshot.services[s], snapshot.chains[k], snapshot.chains[c])
  }

  ghost predicate Covers(snapshot: Snapshot, at: Time, s: nat, r: Rejection) {
    exists k: nat, c: nat :: Considers(snapshot, s, k, c)
      && Explains(snapshot.config, at, snapshot.services[s], snapshot.chains[c], r)
  }

  ghost predicate CoveredBy(snapshot: Snapshot, at: Time, s: nat, c: nat, rejections: seq<Rejection>)
    requires s < |snapshot.services| && c < |snapshot.chains|
  {
    exists r :: r in rejections && Explains(snapshot.config, at, snapshot.services[s], snapshot.chains[c], r)
  }

  /** The reason is true of the s-th service, and complete: every considered chain is accounted for. */
  ghost predicate TrueReason(snapshot: Snapshot, at: Time, s: nat, reason: Reason)
    requires s < |snapshot.services|
  {
    match reason
    case ChainMissing => !HasChain(snapshot, snapshot.services[s].chainId)
    case NoMatchingLeaf =>
      && HasChain(snapshot, snapshot.services[s].chainId)
      && forall k: nat, c: nat :: !Considers(snapshot, s, k, c)
    case Rejected(rejections) =>
      && HasChain(snapshot, snapshot.services[s].chainId) && rejections != []
      && (forall r :: r in rejections ==> Covers(snapshot, at, s, r))
      && forall k: nat, c: nat :: Considers(snapshot, s, k, c) ==> CoveredBy(snapshot, at, s, c, rejections)
    case _ => false
  }

  lemma ExplainsIff(config: ScenarioConfig, at: Time, service: ServiceSnapshot, chain: ChainSnapshot, r: Rejection)
    requires config.overlapStart <= config.overlapEnd
    ensures FirstRejection(service, at, ActiveAnchors(config, at), chain) == Some(r) <==>
      Explains(config, at, service, chain, r)
  {
    TrustedIff(config, at, chain.anchorId);
  }

  /** The listed chain with this id carries the leaf and is rejected with `r`. */
  ghost predicate RejectedWith(service: ServiceSnapshot, at: Time, active: set<Id>, chains: Chains, id: Id,
                               r: Rejection)
    requires service.chainId in chains
  {
    && id in chains && chains[id].leafSubject == chains[service.chainId].leafSubject
    && FirstRejection(service, at, active, chains[id]) == Some(r)
  }

  lemma {:induction false} RejectionsListed(service: ServiceSnapshot, at: Time, active: set<Id>, chains: Chains,
                                            ids: seq<Id>, r: Rejection)
    requires service.chainId in chains
    ensures r in Rejections(service, at, active, chains, ids) <==>
      exists id :: id in ids && RejectedWith(service, at, active, chains, id, r)
  {
    if ids != [] {
      var front, last := ids[..|ids| - 1], ids[|ids| - 1];
      RejectionsListed(service, at, active, chains, front, r);
      assert forall x: Id :: x in ids <==> x in front || x == last;
      assert r in Rejections(service, at, active, chains, ids) <==>
        r in Rejections(service, at, active, chains, front) || RejectedWith(service, at, active, chains, last, r);
    }
  }

  lemma HasChainIff(snapshot: Snapshot, id: Id)
    ensures HasChain(snapshot, id) <==> id in ChainIndex(snapshot.chains)
  {
    if id in ChainIndex(snapshot.chains) {
      ChainIndexed(snapshot.chains, id);
      var c := IndexedLastChain(snapshot.chains, id);
    }
    if HasChain(snapshot, id) {
      var chain :| chain in snapshot.chains && chain.id == id;
      ChainListed(snapshot.chains, chain);
    }
  }

  lemma {:induction false} ChainListed(chains: seq<ChainSnapshot>, chain: ChainSnapshot)
    requires chain in chains
    ensures chain.id in ChainIndex(chains)
  {
    var n := |chains| - 1;
    if chains[n] != chain {
      ChainListed(chains[..n], chain);
    }
  }

  /** The ids the scan goes through, and the records considered, are the same. */
  lemma ScannedIffConsidered(snapshot: Snapshot, s: nat, k: nat, c: nat)
    requires s < |snapshot.services| && LastChain(snapshot.chains, k) && LastChain(snapshot.chains, c)
    requires snapshot.chains[k].id == snapshot.services[s].chainId
    ensures var service, chain := snapshot.services[s], snapshot.chains[c];
      Considers(snapshot, s, k, c) <==>
        && chain.id in UniqueIds([service.chainId] + snapshot.config.candidateChainIds)
        && chain.leafSubject == snapshot.chains[k].leafSubject
  {
    var all := [snapshot.services[s].chainId] + snapshot.config.candidateChainIds;
    assert forall x :: x in all <==> x == snapshot.services[s].chainId || x in snapshot.config.candidateChainIds;
  }

  lemma RejectionCovers(snapshot: Snapshot, at: Time, s: nat, r: Rejection)
    requires snapshot.config.overlapStart <= snapshot.config.overlapEnd && s < |snapshot.services|
    requires snapshot.services[s].chainId in ChainIndex(snapshot.chains)
    requires r in Rejections(snapshot.services[s], at, ActiveAnchors(snapshot.config, at), ChainIndex(snapshot.chains),
                             UniqueIds([snapshot.services[s].chainId] + snapshot.config.candidateChainIds))
    ensures Covers(snapshot, at, s, r)
  {
    var service, chains := snapshot.services[s], ChainIndex(snapshot.chains);
    var active := ActiveAnchors(snapshot.config, at);
    var ids := UniqueIds([service.chainId] + snapshot.config.candidateChainIds);
    RejectionsListed(service, at, active, chains, ids, r);
    var id :| id in ids && RejectedWith(service, at, active, chains, id, r);
    var k := IndexedLastChain(snapshot.chains, service.chainId);
    var c := IndexedLastChain(snapshot.chains, id);
    ScannedIffConsidered(snapshot, s, k, c);
    ExplainsIff(snapshot.config, at, service, snapshot.chains[c], r);
  }

  lemma ConsideredIsCovered(snapshot: Snapshot, at: Time, s: nat, k: nat, c: nat)
    requires snapshot.config.overlapStart <= snapshot.config.overlapEnd
    requires LastActive(snapshot.services, s) && !Served(snapshot, at, snapshot.services[s].id)
    requires Considers(snapshot, s, k, c) && snapshot.services[s].chainId in ChainIndex(snapshot.chains)
    ensures CoveredBy(snapshot, at, s, c,
      Rejections(snapshot.services[s], at, ActiveAnchors(snapshot.config, at), ChainIndex(snapshot.chains),
                 UniqueIds([snapshot.services[s].chainId] + snapshot.config.candidateChainIds)))
  {
    var service, chains := snapshot.services[s], ChainIndex(snapshot.chains);
    var active := ActiveAnchors(snapshot.config, at);
    var ids, chain := UniqueIds([service.chainId] + snapshot.config.candidateChainIds), snapshot.chains[c];
    LastChainIndexed(snapshot.chains, k);
    LastChainIndexed(snapshot.chains, c);
    ScannedIffConsidered(snapshot, s, k, c);
    assert !Serves(snapshot, at, s, k, c);
    TrustedIff(snapshot.config, at, chain.anchorId);
    var r := FirstRejection(service, at, active, chain).value;
    RejectionsListed(service, at, active, chains, ids, r);
    assert RejectedWith(service, at, active, chains, chain.id, r);
    ExplainsIff(snapshot.config, at, service, chain, r);
  }

  /** An active service that nothing serves is reported with a reason that is true and complete. */
  lemma DirectReasonIsTrue(snapshot: Snapshot, at: Time, s: nat)
    requires snapshot.config.overlapStart <= snapshot.config.overlapEnd
    requires LastActive(snapshot.services, s) && !Served(snapshot, at, snapshot.services[s].id)
    ensures snapshot.services[s].id in DirectAt(snapshot, at)
    ensures TrueReason(snapshot, at, s, DirectAt(snapshot, at)[snapshot.services[s].id].reason)
  {
    var service, chains := snapshot.services[s], ChainIndex(snapshot.chains);
    LastActiveIndexed(snapshot.services, s);
    ServedIff(snapshot, at, service.id);
    HasChainIff(snapshot, service.chainId);
    if service.chainId in chains {
      var rejections := Rejections(service, at, ActiveAnchors(snapshot.config, at), chains,
                                   UniqueIds([service.chainId] + snapshot.config.candidateChainIds));
      forall r | r in rejections ensures Covers(snapshot, at, s, r) {
        RejectionCovers(snapshot, at, s, r);
      }
      forall k: nat, c: nat | Considers(snapshot, s, k, c) ensures CoveredBy(snapshot, at, s, c, rejections) {
        ConsideredIsCovered(snapshot, at, s, k, c);
      }
    }
  }

  // ---- Broken paths ----

  /** The code of the active service with this id, or no code when there is none. */
  ghost predicate ActiveCode(snapshot: Snapshot, id: Id, code: string) {
    (code == "" && forall s: nat :: LastActive(snapshot.services, s) ==> snapshot.services[s].id != id)
    || exists s: nat :: LastActive(snapshot.services, s) && snapshot.services[s].id == id
                        && snapshot.services[s].code == code
  }

  /** Why the service at the end of a broken path is not served. */
  ghost predicate RootReason(snapshot: Snapshot, at: Time, id: Id, reason: Reason) {
    || (reason.AbsentOrInactive? && forall s: nat :: LastActive(snapshot.services, s) ==> snapshot.services[s].id != id)
    || exists s: nat :: LastActive(snapshot.services, s) && snapshot.services[s].id == id
                        && TrueReason(snapshot, at, s, reason)
  }

  /** The reason names each dependency along the walk, and then what is wrong with the last one. */
  ghost predicate ReasonAlong(snapshot: Snapshot, at: Time, walk: seq<Id>, reason: Reason)
    requires walk != []
  {
    if |walk| == 1 then RootReason(snapshot, at, walk[0], reason)
    else (
      && reason.Upstream? && ActiveCode(snapshot, walk[1], reason.dependencyCode)
      && ReasonAlong(snapshot, at, walk[1..], reason.cause))
  }

  lemma ActiveCodeOf(snapshot: Snapshot, at: Time, id: Id)
    ensures var direct := DirectAt(snapshot, at);
      ActiveCode(snapshot, id, if id in direct then direct[id].serviceCode else "")
  {
    if id in ActiveIndex(snapshot.services) {
      var s := IndexedLastActive(snapshot.services, id);
    }
    forall s: nat | LastActive(snapshot.services, s) && snapshot.services[s].id == id
      ensures id in ActiveIndex(snapshot.services)
    {
      LastActiveIndexed(snapshot.services, s);
    }
  }

  lemma {:induction false} WalkReasonAlong(snapshot: Snapshot, at: Time, walk: seq<Id>, avoid: set<Id>)
    requires snapshot.config.overlapStart <= snapshot.config.overlapEnd && walk != []
    requires forall i, j :: 0 <= i < j < |walk| ==> walk[i] != walk[j]
    requires walk[|walk| - 1] !in avoid && !Served(snapshot, at, walk[|walk| - 1])
    ensures ReasonAlong(snapshot, at, walk, WalkReason(DirectAt(snapshot, at), walk, avoid))
  {
    if |walk| > 1 {
      ActiveCodeOf(snapshot, at, walk[1]);
      WalkReasonAlong(snapshot, at, walk[1..], avoid + {walk[0]});
    } else {
      RootReasonOf(snapshot, at, walk[0]);
    }
  }

  lemma RootReasonOf(snapshot: Snapshot, at: Time, id: Id)
    requires snapshot.config.overlapStart <= snapshot.config.overlapEnd && !Served(snapshot, at, id)
    ensures var direct := DirectAt(snapshot, at);
      RootReason(snapshot, at, id, if id in direct then direct[id].reason else AbsentOrInactive)
  {
    if id in ActiveIndex(snapshot.services) {
      var s := IndexedLastActive(snapshot.services, id);
      DirectReasonIsTrue(snapshot, at, s);
    } else {
      forall s: nat | LastActive(snapshot.services, s) ensures snapshot.services[s].id != id {
        LastActiveIndexed(snapshot.services, s);
      }
    }
  }

  /** The codes are those of the walk's services, in order, without the last one if the input has no such record. */
  ghost predicate CodesAlong(snapshot: Snapshot, walk: seq<Id>, codes: seq<string>) {
    && (|codes| == |walk|
        || (|codes| == |walk| - 1
            && forall s: nat :: LastService(snapshot.services, s) ==> snapshot.services[s].id != walk[|walk| - 1]))
    && forall i :: 0 <= i < |codes| ==> CodeOf(snapshot, walk[i], codes[i])
  }

  ghost predicate CodeOf(snapshot: Snapshot, id: Id, code: string) {
    exists s: nat :: LastService(snapshot.services, s) && snapshot.services[s].id == id
                     && snapshot.services[s].code == code
  }

  lemma {:induction false} CodesOfWalk(services: Services, walk: seq<Id>)
    requires forall i :: 0 <= i < |walk| ==> walk[i] in services
    ensures |CodesOf(services, walk)| == |walk|
    ensures forall i :: 0 <= i < |walk| ==> CodesOf(services, walk)[i] == services[walk[i]].code
  {
    if walk != [] {
      CodesOfWalk(services, walk[..|walk| - 1]);
    }
  }

  lemma WalkCodes(snapshot: Snapshot, walk: seq<Id>)
    requires Walk(snapshot.services, walk)
    ensures CodesAlong(snapshot, walk, CodesOf(ServiceIndex(snapshot.services), walk))
  {
    var services, front := ServiceIndex(snapshot.services), walk[..|walk| - 1];
    WalkIff(snapshot.services, walk);
    forall i | 0 <= i < |front| ensures front[i] in services {
      assert walk[i + 1] in Succ(Dependencies(services), walk[i]);
    }
    CodesOfWalk(services, front);
    if walk[|walk| - 1] in services {
      CodesOfWalk(services, walk);
    } else {
      forall s: nat | LastService(snapshot.services, s) ensures snapshot.services[s].id != walk[|walk| - 1] {
        LastServiceIndexed(snapshot.services, s);
      }
    }
    forall i | 0 <= i < |CodesOf(services, walk)| ensures CodeOf(snapshot, walk[i], CodesOf(services, walk)[i]) {
      var s := IndexedLastService(snapshot.services, walk[i]);
    }
  }

  /**
   * The k-th broken path belongs to the k-th reported failure. It is the trace of a walk of dependencies from that
   * service, all served but the last, and its reason follows that walk to what is wrong with the last service.
   */
  lemma BrokenPathsMean(snapshot: Snapshot, k: nat) returns (walk: seq<Id>)
    requires Acceptable(snapshot) && k < |SimulationOf(snapshot).broken|
    ensures |SimulationOf(snapshot).affected| == |SimulationOf(snapshot).broken|
    ensures var a, b := SimulationOf(snapshot).affected[k], SimulationOf(snapshot).broken[k];
      && b.at == a.at && b.reason == a.reason
      && Walk(snapshot.services, walk) && walk[0] == a.serviceId
      && (forall i :: 0 <= i < |walk| - 1 ==> Served(snapshot, a.at, walk[i]))
      && !Served(snapshot, a.at, walk[|walk| - 1])
      && CodesAlong(snapshot, walk, b.serviceCodes) && ReasonAlong(snapshot, a.at, walk, b.reason)
  {
    BrokenPathsMatchAffected(snapshot);
    var a, b := SimulationOf(snapshot).affected[k], SimulationOf(snapshot).broken[k];
    assert Paired(snapshot, a, b);
    assert ReportsFailure(SimulationOf(snapshot).affected, a.serviceId, a.at);
    AffectedExactly(snapshot, a.serviceId, a.at);
    walk := BrokenWalk(snapshot, a.at, a.serviceId);
    WalkCodes(snapshot, walk);
  }

  lemma BrokenWalk(snapshot: Snapshot, at: Time, id: Id) returns (walk: seq<Id>)
    requires Acceptable(snapshot) && !Reachable(snapshot, at, id)
    ensures OutcomeAt(snapshot, at, id).path == walk && Walk(snapshot.services, walk) && walk[0] == id
    ensures forall i :: 0 <= i < |walk| - 1 ==> Served(snapshot, at, walk[i])
    ensures !Served(snapshot, at, walk[|walk| - 1])
    ensures ReasonAlong(snapshot, at, walk, OutcomeAt(snapshot, at, id).item.reason)
  {
    AcceptableIff(snapshot);
    IndexEdges(snapshot.services);
    walk := BrokenPathOnAcyclic(id, DirectAt(snapshot, at), ServiceIndex(snapshot.services));
    WalkIff(snapshot.services, walk);
    ServedAlong(snapshot, at, walk);
    AcyclicPathDistinct(Dependencies(ServiceIndex(snapshot.services)), walk);
    WalkReasonAlong(snapshot, at, walk, {});
  }

  lemma ServedAlong(snapshot: Snapshot, at: Time, walk: seq<Id>)
    requires snapshot.config.overlapStart <= snapshot.config.overlapEnd
    ensures forall i :: 0 <= i < |walk| ==>
      (Served(snapshot, at, walk[i]) <==> Healthy(DirectAt(snapshot, at), walk[i]))
  {
    forall i | 0 <= i < |walk| ensures Served(snapshot, at, walk[i]) <==> Healthy(DirectAt(snapshot, at), walk[i]) {
      ServedIff(snapshot, at, walk[i]);
      ServedIsHealthy(snapshot, at, walk[i]);
    }
  }

  /** An unreachable entry of a row carries the reason of such a walk too. */
  lemma EntryReasonIsTrue(snapshot: Snapshot, row: TimepointEvidence, e: ServiceEvidence) returns (walk: seq<Id>)
    requires Acceptable(snapshot) && row in SimulationOf(snapshot).evidence && e in row.services && !e.reachable
    ensures Walk(snapshot.services, walk) && walk[0] == e.serviceId
    ensures forall i :: 0 <= i < |walk| - 1 ==> Served(snapshot, row.at, walk[i])
    ensures !Served(snapshot, row.at, walk[|walk| - 1]) && ReasonAlong(snapshot, row.at, walk, e.reason)
  {
    var k := RowInRun(snapshot, row);
    EvidenceShape(snapshot, k);
    var service :| service in snapshot.services && service.state == "active"
      && e == OutcomeAt(snapshot, row.at, service.id).item;
    ActiveIndexed(snapshot.services, service.id);
    ResolveKeepsChoice(service.id, DirectAt(snapshot, row.at), ServiceIndex(snapshot.services), {}, []);
    walk := BrokenWalk(snapshot, row.at, service.id);
  }
}
