/**
 * Who may change a scenario, and what each change does to it. Requests are taken as they were made: what is said here
 * of a stored change names the request behind it, its actor's role and id, and the columns it writes.
 */
module Accountability {
  import opened Prelude
  import opened Actors
  import opened Snapshots
  import opened Simulator
  import opened Verdicts
  import opened Scenarios
  import opened ScenarioRuns

  // ---- Who may do what ----

  /** Administrators, PKI operators and the creator manage a scenario. */
  predicate Manages(actor: Actor, creator: Id) {
    actor.role == Admin || actor.role == PkiOperator || actor.userId == creator
  }

  predicate LegalChange(from: ScenarioState, to: ScenarioState) {
    || (from == Draft && to == Simulated)
    || (from == Simulated && (to == Ready || to == Draft))
    || (from == Ready && (to == Executing || to == Draft))
    || (from == Executing && (to == Verified || to == Rollback))
  }

  /** A legal change other than a simulation; verifying is for anyone but the creator, the rest for who manages it. */
  predicate MayMove(actor: Actor, creator: Id, from: ScenarioState, to: ScenarioState) {
    LegalChange(from, to) && to != Simulated && if to ==
      Verified then actor.userId != creator else Manages(actor, creator)
  }

  // ---- What requests write ----

  /** The row a Create of this snapshot by this actor stores under `id`. */
  function NewDraft(codec: Codec, snapshot: Snapshot, actor: Actor, id: Id): Scenario {
    var raw := codec.encodeSnapshot(snapshot);
    Scenario(id, actor.userId, raw, codec.hash(raw), "trust-path-window-v1.0.0", snapshot.config.simulationTime,
             Outputs("[]", "[]", "[]", "Frozen input is ready for offline simulation."), Draft, None, "", false, "")
  }

  /** The row after a transition: its state, its verifier if verified, and the comment if rolled back. */
  function Moved(row: Scenario, to: ScenarioState, comment: string, actor: Actor): Scenario {
    row.(state := to,
         verifiedBy := if to == Verified then Some(actor.userId) else row.verifiedBy,
         rollbackRecord := if to == Rollback then comment else row.rollbackRecord)
  }

  /** The four columns hold the simulator's answer on the decoded input, which is acceptable. */
  ghost predicate Answers(codec: Codec, input: string, outputs: Outputs) {
    var snapshot := codec.decodeSnapshot(input);
    && snapshot.Some? && Acceptable(snapshot.value)
    && var result := SimulationOf(snapshot.value);
    && outputs.affected == codec.encodeAffected(result.affected)
    && outputs.paths == codec.encodePaths(result.broken)
    && outputs.evidence == codec.encodeEvidence(result.evidence)
    && outputs.explanation == codec.encodeExplanation(result.explanation)
  }

  /** The request was allowed on the row as it stood, and turned it into `after`. */
  ghost predicate Effect(codec: Codec, rows: map<Id, Scenario>, request: Request, id: Id, after: Scenario) {
    match request
    case CreateRequest(snapshot, actor) =>
      id !in rows && id != 0 && Acceptable(snapshot) && after == NewDraft(codec, snapshot, actor, id)
    case SimulateRequest(asked, key, actor) =>
      && asked == id && id in rows && rows[id].state == Draft && Manages(actor, rows[id].createdBy)
      && 0 < |key| <= 128
      && after == rows[id].(state := Simulated, key := key, outputs := after.outputs)
      && Answers(codec, after.inputSnapshot, after.outputs)
    case TransitionRequest(asked, to, comment, actor) =>
      && asked == id && id in rows && |comment| <= 1000
      && MayMove(actor, rows[id].createdBy, rows[id].state, to)
      && after == Moved(rows[id], to, comment, actor)
    case ReplayRequest(asked, actor) =>
      && asked == id && id in rows && Manages(actor, rows[id].createdBy)
      && after == rows[id].(replayVerified := true)
  }

  // ---- Requests in flight ----

  /** The request each number last stood for. */
  ghost function Asked(codec: Codec, s: System, events: seq<Event>): map<nat, Request> {
    if events == [] then map[]
    else
      var front, last := events[..|events| - 1], events[|events| - 1];
      Noted(Asked(codec, s, front), Run(codec, s, front), last)
  }

  function Noted(asked: map<nat, Request>, s: System, event: Event): map<nat, Request> {
    if event.Read? && event.number !in s.inflight then asked[event.number := event.request] else asked
  }

  /** What is pending does what was asked, for an actor who may ask it. */
  ghost predicate Matches(codec: Codec, request: Request, pending: Pending) {
    match pending
    case PendingCreate(row) =>
      request.CreateRequest? && Acceptable(request.snapshot)
      && row == NewDraft(codec, request.snapshot, request.actor, 0)
    case PendingLookup(read, key) =>
      request.SimulateRequest? && request.id == read.id && request.key == key && 0 < |key| <= 128
      && Manages(request.actor, read.createdBy)
    case PendingSimulate(read, key, outputs) =>
      request.SimulateRequest? && request.id == read.id && request.key == key && 0 < |key| <= 128
      && Manages(request.actor, read.createdBy) && Answers(codec, read.inputSnapshot, outputs)
    case PendingTransition(read, to, comment, actor) =>
      request == TransitionRequest(read.id, to, comment, actor) && |comment| <= 1000
      && MayMove(actor, read.createdBy, read.state, to)
    case PendingReplay(read, passed) =>
      request.ReplayRequest? && request.id == read.id && Manages(request.actor, read.createdBy)
  }

  ghost predicate Accounted(codec: Codec, asked: map<nat, Request>, s: System) {
    forall n :: n in s.inflight ==> n in asked && Matches(codec, asked[n], s.inflight[n])
  }

  lemma AnswersIff(codec: Codec, input: string, outputs: Outputs)
    ensures StoresSimulation(codec, input, outputs) <==> Answers(codec, input, outputs)
  {
    if codec.decodeSnapshot(input).Some? {
      AcceptableIff(codec.decodeSnapshot(input).value);
    }
  }

  lemma ReadMatches(codec: Codec, store: Store, request: Request)
    requires forall id :: id in store.rows ==> store.rows[id].id == id
    ensures var outcome := ReadStep(codec, store, request);
      outcome.Proceed? ==> Matches(codec, request, outcome.pending)
  {
    if request.CreateRequest? {
      AcceptableIff(request.snapshot);
    }
  }

  lemma LookupMatches(codec: Codec, store: Store, request: Request, read: Scenario, key: string)
    requires Matches(codec, request, PendingLookup(read, key))
    ensures var outcome := LookupSimulate(codec, store, read, key);
      outcome.Proceed? ==> Matches(codec, request, outcome.pending)
  {
    var outcome := LookupSimulate(codec, store, read, key);
    if outcome.Proceed? {
      AnswersIff(codec, read.inputSnapshot, outcome.pending.outputs);
    }
  }

  lemma NextAccounted(codec: Codec, seeded: map<Id, Scenario>, asked: map<nat, Request>, s: System, event: Event)
    requires Invariant(codec, seeded, s) && Accounted(codec, asked, s)
    ensures Accounted(codec, Noted(asked, s, event), Next(codec, s, event))
  {
    match event
    case Read(number, request) =>
      assert forall id :: id in s.store.rows ==> GoodRow(codec, id, s.store.rows[id]);
      ReadMatches(codec, s.store, request);
    case Lookup(number, _) =>
      if number in s.inflight && s.inflight[number].PendingLookup? {
        LookupMatches(codec, s.store, asked[number], s.inflight[number].read, s.inflight[number].key);
      }
    case Commit(number, _, _) =>
  }

  lemma {:induction false} RunAccounted(codec: Codec, s: System, events: seq<Event>)
    requires Initial(codec, s)
    ensures Accounted(codec, Asked(codec, s, events), Run(codec, s, events))
  {
    if events != [] {
      var n := |events| - 1;
      RunAccounted(codec, s, events[..n]);
      RunInvariant(codec, s, events[..n]);
      NextAccounted(codec, s.store.rows, Asked(codec, s, events[..n]), Run(codec, s, events[..n]), events[n]);
    }
  }

  // ---- Every change answers a request ----

  /** A commit does to one row what its request asked, in one audit entry about that row. */
  ghost predicate Does(codec: Codec, before: Store, request: Request, id: Id, after: Store) {
    && id in after.rows && after.rows == before.rows[id := after.rows[id]]
    && Effect(codec, before.rows, request, id, after.rows[id])
    && |after.audits| == |before.audits| + 1 && after.audits[..|before.audits|] == before.audits
    && after.audits[|before.audits|].scenarioId == id
  }

  lemma CommitEffect(codec: Codec, store: Store, pending: Pending, newId: Id, request: Request)
    requires GoodPending(codec, store.rows, pending) && Matches(codec, request, pending)
    requires CommitStep(store, pending, newId).Ok?
    ensures Effect(codec, store.rows, request, Written(pending, newId),
                   CommitStep(store, pending, newId).value.rows[Written(pending, newId)])
  {
  }

  lemma CommitDoes(codec: Codec, store: Store, pending: Pending, newId: Id, request: Request)
    requires GoodPending(codec, store.rows, pending) && Matches(codec, request, pending)
    requires CommitStep(store, pending, newId).Ok?
    ensures Does(codec, store, request, Written(pending, newId), CommitStep(store, pending, newId).value)
  {
    CommitWritesOneRow(store, pending, newId);
    CommitEffect(codec, store, pending, newId, request);
    OneEntry(store, pending, newId);
  }

  lemma OneEntry(store: Store, pending: Pending, newId: Id)
    requires CommitStep(store, pending, newId).Ok?
    ensures var after := CommitStep(store, pending, newId).value;
      && |after.audits| == |store.audits| + 1 && after.audits[..|store.audits|] == store.audits
      && after.audits[|store.audits|].scenarioId == Written(pending, newId)
  {
  }

  /** The request whose commit is the k-th event. */
  ghost predicate CommitsRequest(codec: Codec, s: System, events: seq<Event>, k: nat, request: Request)
    requires k < |events|
  {
    && events[k].Commit? && events[k].durable
    && events[k].number in Asked(codec, s, events[..k]) && Asked(codec, s, events[..k])[events[k].number] == request
  }

  ghost function StoreAt(codec: Codec, s: System, events: seq<Event>, k: nat): Store
    requires k <= |events|
  {
    Run(codec, s, events[..k]).store
  }

  lemma StepAt(codec: Codec, s: System, events: seq<Event>, k: nat)
    requires k < |events|
    ensures Run(codec, s, events[..k + 1]) == Next(codec, Run(codec, s, events[..k]), events[k])
  {
    assert events[..k + 1][..k] == events[..k];
  }

  /**
   * In every run, whatever the interleaving: the store changes only when a request commits, and then as that request
   * asked, for an actor allowed to ask it of the row as it stands at that moment.
   */
  lemma EveryChangeIsAsked(codec: Codec, s: System, events: seq<Event>, k: nat) returns (request: Request, id: Id)
    requires Initial(codec, s) && k < |events|
    requires StoreAt(codec, s, events, k + 1) != StoreAt(codec, s, events, k)
    ensures CommitsRequest(codec, s, events, k, request)
    ensures Does(codec, StoreAt(codec, s, events, k), request, id, StoreAt(codec, s, events, k + 1))
  {
    var now, asked, event := Run(codec, s, events[..k]), Asked(codec, s, events[..k]), events[k];
    StepAt(codec, s, events, k);
    RunAccounted(codec, s, events[..k]);
    RunInvariant(codec, s, events[..k]);
    var pending := now.inflight[event.number];
    request, id := asked[event.number], Written(pending, event.newId);
    CommitDoes(codec, now.store, pending, event.newId, request);
  }

  /** A row appears at the k-th event. */
  ghost predicate AppearsAt(codec: Codec, s: System, events: seq<Event>, k: nat, id: Id)
    requires k < |events|
  {
    id !in StoreAt(codec, s, events, k).rows && id in StoreAt(codec, s, events, k + 1).rows
  }

  /** A row becomes verified at the k-th event. */
  ghost predicate VerifiedAt(codec: Codec, s: System, events: seq<Event>, k: nat, id: Id)
    requires k < |events|
  {
    var before, after := StoreAt(codec, s, events, k).rows, StoreAt(codec, s, events, k + 1).rows;
    id in before && before[id].state != Verified && id in after && after[id].state == Verified
  }

  /** A scenario is created by the actor of the Create request that stored it, and stays so. */
  lemma CreatorIsRequester(codec: Codec, s: System, events: seq<Event>, k: nat, id: Id) returns (request: Request)
    requires Initial(codec, s) && k < |events| && AppearsAt(codec, s, events, k, id)
    ensures CommitsRequest(codec, s, events, k, request) && request.CreateRequest?
    ensures StoreAt(codec, s, events, k + 1).rows[id] == NewDraft(codec, request.snapshot, request.actor, id)
    ensures id in Run(codec, s, events).store.rows
    ensures Run(codec, s, events).store.rows[id].createdBy == request.actor.userId
  {
    var changed: Id;
    request, changed := EveryChangeIsAsked(codec, s, events, k);
    assert changed == id;
    OriginKept(codec, s, events, k + 1, id);
  }

  lemma OriginKept(codec: Codec, s: System, events: seq<Event>, k: nat, id: Id)
    requires k <= |events| && id in StoreAt(codec, s, events, k).rows
    ensures id in Run(codec, s, events).store.rows
    ensures Run(codec, s, events).store.rows[id].createdBy == StoreAt(codec, s, events, k).rows[id].createdBy
    ensures Run(codec, s, events).store.rows[id].inputSnapshot == StoreAt(codec, s, events, k).rows[id].inputSnapshot
  {
    assert events == events[..k] + events[k..];
    FrozenForever(codec, s, events[..k], events[k..], id);
  }

  /** Verified by the actor of the Transition request that stored it, who is not the stored creator. */
  lemma VerifierIsRequester(codec: Codec, s: System, events: seq<Event>, k: nat, id: Id) returns (request: Request)
    requires Initial(codec, s) && k < |events| && VerifiedAt(codec, s, events, k, id)
    ensures CommitsRequest(codec, s, events, k, request) && request.TransitionRequest?
    ensures request.id == id && request.to == Verified
    ensures StoreAt(codec, s, events, k).rows[id].state == Executing
    ensures request.actor.userId != StoreAt(codec, s, events, k).rows[id].createdBy
    ensures StoreAt(codec, s, events, k + 1).rows[id].verifiedBy == Some(request.actor.userId)
  {
    var changed: Id;
    request, changed := EveryChangeIsAsked(codec, s, events, k);
    assert changed == id;
  }

  /** A verified row keeps its verifier. */
  lemma {:induction false} VerifierKept(codec: Codec, s: System, events: seq<Event>, k: nat, id: Id)
    requires Initial(codec, s) && k <= |events| && id in StoreAt(codec, s, events, k).rows
    requires StoreAt(codec, s, events, k).rows[id].state == Verified
    ensures var row := StoreAt(codec, s, events, k).rows[id];
      && id in Run(codec, s, events).store.rows && Run(codec, s, events).store.rows[id].state == Verified
      && Run(codec, s, events).store.rows[id].verifiedBy == row.verifiedBy
    decreases |events| - k
  {
    if k == |events| {
      assert events[..k] == events;
    } else {
      if StoreAt(codec, s, events, k + 1) != StoreAt(codec, s, events, k) {
        var request, changed := EveryChangeIsAsked(codec, s, events, k);
      }
      VerifierKept(codec, s, events, k + 1, id);
    }
  }

  /**
   * Independent verification, over requests: in every run, whoever asked for the change that verified a scenario is
   * not who asked for its creation, and is the verifier it names.
   */
  lemma VerifierIsNotCreator(codec: Codec, s: System, events: seq<Event>, j: nat, k: nat, id: Id)
    returns (create: Request, verify: Request)
    requires Initial(codec, s) && j < |events| && k < |events|
    requires AppearsAt(codec, s, events, j, id) && VerifiedAt(codec, s, events, k, id)
    ensures CommitsRequest(codec, s, events, j, create) && create.CreateRequest?
    ensures CommitsRequest(codec, s, events, k, verify) && verify.TransitionRequest?
    ensures verify.id == id && verify.to == Verified
    ensures create.actor.userId != verify.actor.userId
    ensures id in Run(codec, s, events).store.rows
    ensures Run(codec, s, events).store.rows[id].verifiedBy == Some(verify.actor.userId)
  {
    create := CreatorIsRequester(codec, s, events, j, id);
    verify := VerifierIsRequester(codec, s, events, k, id);
    OriginKept(codec, s, events, k, id);
    VerifierKept(codec, s, events, k + 1, id);
  }
}
