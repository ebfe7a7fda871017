/** evaluateDirect: which certificate chain, if any, serves a service at an instant (simulator.go). */
module Selection {
  import opened Prelude
  import opened Sorting
  import opened Snapshots

  /** Why one candidate chain was passed over; the source joins these into one string. */
  datatype Rejection =
    | NotActive(chainCode: string)
    | OutsideWindow(chainCode: string)
    | NotValidated(chainCode: string)
    | AnchorUnavailable(chainCode: string)
    | AnchorNotTrusted(serviceCode: string, anchorId: Id)

  datatype Reason =
    | ChainMissing
    | NoMatchingLeaf
    | Rejected(rejections: seq<Rejection>)
    | PathReachable
    | AbsentOrInactive
    | CycleEncountered
    | Upstream(dependencyCode: string, cause: Reason)

  datatype ServiceEvidence = ServiceEvidence(
    serviceId: Id, serviceCode: string, reachable: bool,
    selectedChainId: Id, selectedAnchorId: Id, reason: Reason)

  type Chains = map<Id, ChainSnapshot>

  /** The chain with this id can be served by the service and accepted by its clients at `at`. */
  ghost predicate Eligible(service: ServiceSnapshot, at: Time, active: set<Id>, candidates: seq<Id>,
                           chains: Chains, id: Id)
  {
    && service.chainId in chains && id in chains && id > 0
    && (id == service.chainId || id in candidates)
    && chains[id].leafSubject == chains[service.chainId].leafSubject
    && chains[id].state != "revoked" && chains[id].state != "deprecated"
    && chains[id].validFrom <= at < chains[id].validTo
    && chains[id].validationValid
    && chains[id].anchorId in active
    && chains[id].anchorId in service.trustAnchorIds
  }

  ghost predicate SomeEligible(service: ServiceSnapshot, at: Time, active: set<Id>, candidates: seq<Id>,
                               chains: Chains)
  {
    exists id :: Eligible(service, at, active, candidates, chains, id)
  }

  ghost predicate IsLeastEligible(service: ServiceSnapshot, at: Time, active: set<Id>, candidates: seq<Id>,
                                  chains: Chains, id: Id)
  {
    && Eligible(service, at, active, candidates, chains, id)
    && forall other :: Eligible(service, at, active, candidates, chains, other) ==> id <= other
  }

  lemma LeastEligibleExists(service: ServiceSnapshot, at: Time, active: set<Id>, candidates: seq<Id>,
                            chains: Chains, id: Id) returns (least: Id)
    requires Eligible(service, at, active, candidates, chains, id)
    ensures IsLeastEligible(service, at, active, candidates, chains, least)
    decreases id
  {
    if other: Id :| Eligible(service, at, active, candidates, chains, other) && other < id {
      least := LeastEligibleExists(service, at, active, candidates, chains, other);
    } else {
      least := id;
    }
  }

  /** The first of the five checks a chain with the right leaf fails. */
  function FirstRejection(service: ServiceSnapshot, at: Time, active: set<Id>, chain: ChainSnapshot)
    : Option<Rejection>
  {
    if chain.state == "revoked" || chain.state == "deprecated" then Some(NotActive(chain.code))
    else if at < chain.validFrom || at >= chain.validTo then Some(OutsideWindow(chain.code))
    else if !chain.validationValid then Some(NotValidated(chain.code))
    else if chain.anchorId !in active then Some(AnchorUnavailable(chain.code))
    else if chain.anchorId !in service.trustAnchorIds then Some(AnchorNotTrusted(service.code, chain.anchorId))
    else None
  }

  /** One rejection for each listed chain that carries the configured leaf and fails a check. */
  function Rejections(service: ServiceSnapshot, at: Time, active: set<Id>, chains: Chains, ids: seq<Id>): seq<Rejection>
    requires service.chainId in chains
  {
    if ids == [] then []
    else
      var front, id := Rejections(service, at, active, chains, ids[..|ids| - 1]), ids[|ids| - 1];
      if id !in chains || chains[id].leafSubject != chains[service.chainId].leafSubject then front
      else match FirstRejection(service, at, active, chains[id])
        case Some(r) => front + [r]
        case None => front
  }

  /** The evidence for one service on its own: the least eligible chain, or why every chain was rejected. */
  ghost function DirectEvidence(service: ServiceSnapshot, at: Time, active: set<Id>, candidates: seq<Id>,
                                chains: Chains)
    : (e: ServiceEvidence)
    ensures e.serviceId == service.id && e.serviceCode == service.code
  {
    if service.chainId !in chains then
      ServiceEvidence(service.id, service.code, false, 0, 0, ChainMissing)
    else if SomeEligible(service, at, active, candidates, chains) then
      var id: Id :| Eligible(service, at, active, candidates, chains, id);
      assert exists least :: IsLeastEligible(service, at, active, candidates, chains, least) by {
        var least := LeastEligibleExists(service, at, active, candidates, chains, id);
      }
      var least: Id :| IsLeastEligible(service, at, active, candidates, chains, least);
      ServiceEvidence(service.id, service.code, true, least, chains[least].anchorId, PathReachable)
    else
      var rejections := Rejections(service, at, active, chains, UniqueIds([service.chainId] + candidates));
      ServiceEvidence(service.id, service.code, false, 0, 0,
                      if rejections == [] then NoMatchingLeaf else Rejected(rejections))
  }

  method EvaluateDirect(service: ServiceSnapshot, at: Time, active: set<Id>, candidates: seq<Id>, chains: Chains)
    returns (item: ServiceEvidence)
    ensures item.reachable <==> SomeEligible(service, at, active, candidates, chains)
    ensures item == DirectEvidence(service, at, active, candidates, chains)
  {
    if service.chainId !in chains {
      return ServiceEvidence(service.id, service.code, false, 0, 0, ChainMissing);
    }
    var current := chains[service.chainId];
    var ids := SortedUnique([service.chainId] + candidates);
    var reasons: seq<Rejection> := [];
    for k := 0 to |ids|
      invariant reasons == Rejections(service, at, active, chains, ids[..k])
      invariant forall j :: 0 <= j < k ==> !Eligible(service, at, active, candidates, chains, ids[j])
    {
      var id := ids[k];
      ScanStep(service, at, active, candidates, chains, ids, k);
      if id !in chains || chains[id].leafSubject != current.leafSubject {
        continue;
      }
      var chain := chains[id];
      if chain.state == "revoked" || chain.state == "deprecated" {
        reasons := reasons + [NotActive(chain.code)];
        continue;
      }
      if at < chain.validFrom || !(at < chain.validTo) {
        reasons := reasons + [OutsideWindow(chain.code)];
        continue;
      }
      if !chain.validationValid {
        reasons := reasons + [NotValidated(chain.code)];
        continue;
      }
      if chain.anchorId !in active {
        reasons := reasons + [AnchorUnavailable(chain.code)];
        continue;
      }
      if chain.anchorId !in service.trustAnchorIds {
        reasons := reasons + [AnchorNotTrusted(service.code, chain.anchorId)];
        continue;
      }
      FirstEligibleIsLeast(service, at, active, candidates, chains, ids, k);
      return ServiceEvidence(service.id, service.code, true, id, chain.anchorId, PathReachable);
    }
    NoneEligible(service, at, active, candidates, chains, ids);
    assert ids[..|ids|] == ids;
    item := ServiceEvidence(service.id, service.code, false, 0, 0,
                            if |reasons| == 0 then NoMatchingLeaf else Rejected(reasons));
  }

  /** One round of the scan: the chain is rejected, or it is eligible. */
  lemma ScanStep(service: ServiceSnapshot, at: Time, active: set<Id>, candidates: seq<Id>, chains: Chains,
                 ids: seq<Id>, k: nat)
    requires service.chainId in chains
    requires ids == UniqueIds([service.chainId] + candidates) && k < |ids|
    ensures var id, front := ids[k], Rejections(service, at, active, chains, ids[..k]);
      var matches := id in chains && chains[id].leafSubject == chains[service.chainId].leafSubject;
      && Rejections(service, at, active, chains, ids[..k + 1]) ==
        (if !matches || FirstRejection(service, at, active, chains[id]).None? then front
         else front + [FirstRejection(service, at, active, chains[id]).value])
      && (Eligible(service, at, active, candidates, chains, id) <==>
          matches && FirstRejection(service, at, active, chains[id]).None?)
  {
    assert ids[..k + 1][..k] == ids[..k];
    assert ids[k] in ids;
    EligibleIff(service, at, active, candidates, chains, ids[k]);
  }

  lemma EligibleIff(service: ServiceSnapshot, at: Time, active: set<Id>, candidates: seq<Id>, chains: Chains, id: Id)
    requires service.chainId in chains && id in UniqueIds([service.chainId] + candidates)
    ensures Eligible(service, at, active, candidates, chains, id) <==>
      && id in chains && chains[id].leafSubject == chains[service.chainId].leafSubject
      && FirstRejection(service, at, active, chains[id]).None?
  {
    assert id in [service.chainId] + candidates;
  }

  lemma EligibleListed(service: ServiceSnapshot, at: Time, active: set<Id>, candidates: seq<Id>, chains: Chains, id: Id)
    requires Eligible(service, at, active, candidates, chains, id)
    ensures id in UniqueIds([service.chainId] + candidates)
  {
  }

  lemma FirstEligibleIsLeast(service: ServiceSnapshot, at: Time, active: set<Id>, candidates: seq<Id>, chains: Chains,
                             ids: seq<Id>, k: nat)
    requires ids == UniqueIds([service.chainId] + candidates) && k < |ids|
    requires Eligible(service, at, active, candidates, chains, ids[k])
    requires forall j :: 0 <= j < k ==> !Eligible(service, at, active, candidates, chains, ids[j])
    ensures IsLeastEligible(service, at, active, candidates, chains, ids[k])
    ensures DirectEvidence(service, at, active, candidates, chains) ==
      ServiceEvidence(service.id, service.code, true, ids[k], chains[ids[k]].anchorId, PathReachable)
  {
    forall other | Eligible(service, at, active, candidates, chains, other) ensures ids[k] <= other {
      EligibleListed(service, at, active, candidates, chains, other);
      var j :| 0 <= j < |ids| && ids[j] == other;
    }
  }

  lemma NoneEligible(service: ServiceSnapshot, at: Time, active: set<Id>, candidates: seq<Id>, chains: Chains,
                     ids: seq<Id>)
    requires ids == UniqueIds([service.chainId] + candidates)
    requires forall j :: 0 <= j < |ids| ==> !Eligible(service, at, active, candidates, chains, ids[j])
    ensures !SomeEligible(service, at, active, candidates, chains)
  {
    if id: Id :| Eligible(service, at, active, candidates, chains, id) {
      EligibleListed(service, at, active, candidates, chains, id);
      assert false;
    }
  }

  /** What the evidence means: a chain is named exactly when one is eligible, and it is the least. */
  lemma DirectMeaning(service: ServiceSnapshot, at: Time, active: set<Id>, candidates: seq<Id>, chains: Chains)
    ensures var e := DirectEvidence(service, at, active, candidates, chains);
      && (e.reachable <==> SomeEligible(service, at, active, candidates, chains))
      && (e.reachable ==> IsLeastEligible(service, at, active, candidates, chains, e.selectedChainId)
                          && e.selectedAnchorId == chains[e.selectedChainId].anchorId)
      && !e.reason.CycleEncountered? && !e.reason.Upstream?
  {
  }
}
