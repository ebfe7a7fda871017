/**
 * The scenario lifecycle as a protocol: each request reads the store once or twice and commits later, in
 * one atomic step that is conditional on the stored state. From rollover_scenario_service.go,
 * rollover_scenario_repository.go and scenario_state.go.
 */
module Scenarios {
  import opened Prelude
  import opened Actors
  import opened Snapshots
  import opened Simulator

  datatype ScenarioState = Draft | Simulated | Ready | Executing | Verified | Rollback

  function Allowed(from: ScenarioState): seq<ScenarioState> {
    match from
    case Draft => [Simulated]
    case Simulated => [Ready, Draft]
    case Ready => [Executing, Draft]
    case Executing => [Verified, Rollback]
    case Verified => []
    case Rollback => []
  }

  predicate CanTransition(from: ScenarioState, to: ScenarioState) {
    to in Allowed(from)
  }

  /** The stored columns that hold a simulation's answer. */
  datatype Outputs = Outputs(affected: string, paths: string, evidence: string, explanation: string)

  const PLACEHOLDER := Outputs("[]", "[]", "[]", "Frozen input is ready for offline simulation.")

  /** Encoding, decoding and hashing, as arbitrary deterministic functions. */
  datatype Codec = Codec(
    encodeSnapshot: Snapshot -> string,
    decodeSnapshot: string -> Option<Snapshot>,
    hash: string -> string,
    encodeAffected: seq<AffectedService> -> string,
    encodePaths: seq<BrokenPath> -> string,
    encodeEvidence: seq<TimepointEvidence> -> string,
    encodeExplanation: Explanation -> string)
  {
    /** The one law assumed of them: a stored snapshot reads back as it was. */
    ghost predicate Lawful() {
      forall s :: decodeSnapshot(encodeSnapshot(s)) == Some(s)
    }

    function Encode(result: Simulation): Outputs {
      Outputs(encodeAffected(result.affected), encodePaths(result.broken), encodeEvidence(result.evidence),
              encodeExplanation(result.explanation))
    }
  }

  datatype Scenario = Scenario(
    id: Id, createdBy: Id, inputSnapshot: string, inputHash: string, version: string, simulationTime: Time,
    outputs: Outputs, state: ScenarioState, verifiedBy: Option<Id>, key: string,
    replayVerified: bool, rollbackRecord: string)

  datatype Action = CreateFrozenDraft | SimulateAction | TransitionAction | ReplayAction

  /** An audit entry: who acted is left out, the states before and after and the key recorded are kept. */
  datatype AuditEntry = AuditEntry(
    action: Action, scenarioId: Id, before: Option<ScenarioState>, after: ScenarioState, key: string)

  datatype Store = Store(rows: map<Id, Scenario>, audits: seq<AuditEntry>)

  datatype Failure =
    | KeyRequired | KeyTooLong | NotFound | Forbidden | KeyBoundElsewhere | OnlyDraft | BadSnapshot
    | SimulationFailed | BadRequest | IllegalTransition | ReviewerConflict | NothingToReplay
    | StateChanged | AlreadyExists | StorageFailed

  datatype Request =
    | CreateRequest(snapshot: Snapshot, actor: Actor)
    | SimulateRequest(id: Id, key: string, actor: Actor)
    | TransitionRequest(id: Id, to: ScenarioState, comment: string, actor: Actor)
    | ReplayRequest(id: Id, actor: Actor)

  /** A request between its steps, with the row it read, which may since have changed. */
  datatype Pending =
    | PendingCreate(row: Scenario)
    | PendingLookup(read: Scenario, key: string)
    | PendingSimulate(read: Scenario, key: string, outputs: Outputs)
    | PendingTransition(read: Scenario, to: ScenarioState, comment: string, actor: Actor)
    | PendingReplay(read: Scenario, passed: bool)

  datatype ReadOutcome = Proceed(pending: Pending) | Reused(row: Scenario) | Refused(failure: Failure)

  /** requireScenarioOwnership. */
  predicate MayManage(actor: Actor, row: Scenario) {
    ManagesAll(actor) || row.createdBy == actor.userId
  }

  predicate Holds(rows: map<Id, Scenario>, id: Id, key: string) {
    id in rows && rows[id].key == key
  }

  predicate SameInput(a: Scenario, b: Scenario) {
    a.inputHash == b.inputHash && a.version == b.version && a.simulationTime == b.simulationTime
  }

  ghost predicate IsFirstHolder(rows: map<Id, Scenario>, key: string, id: Id) {
    Holds(rows, id, key) && forall other :: Holds(rows, other, key) ==> id <= other
  }

  lemma FirstHolderExists(rows: map<Id, Scenario>, key: string, id: Id) returns (first: Id)
    requires Holds(rows, id, key)
    ensures IsFirstHolder(rows, key, first)
    decreases id
  {
    if other: Id :| Holds(rows, other, key) && other < id {
      first := FirstHolderExists(rows, key, other);
    } else {
      first := id;
    }
  }

  /** FindByIdempotencyKey: the first row, by primary key, that holds the key. */
  ghost function FirstHolder(rows: map<Id, Scenario>, key: string): (holder: Option<Id>)
    ensures holder.Some? ==> IsFirstHolder(rows, key, holder.value)
    ensures holder.None? ==> forall other :: !Holds(rows, other, key)
  {
    if exists id :: Holds(rows, id, key) then
      var id: Id :| Holds(rows, id, key);
      assert exists first :: IsFirstHolder(rows, key, first) by {
        var first := FirstHolderExists(rows, key, id);
      }
      var first: Id :| IsFirstHolder(rows, key, first);
      Some(first)
    else None
  }

  // ---- Read steps ----

  function DraftRow(codec: Codec, snapshot: Snapshot, actor: Actor): Scenario {
    var raw := codec.encodeSnapshot(snapshot);
    Scenario(0, actor.userId, raw, codec.hash(raw), VERSION, snapshot.config.simulationTime,
             PLACEHOLDER, Draft, None, "", false, "")
  }

  /** Create up to its transaction: buildSnapshot has frozen and validated the input. */
  ghost function ReadCreate(codec: Codec, snapshot: Snapshot, actor: Actor): ReadOutcome {
    if !ValidSnapshot(snapshot) then Refused(BadRequest) else Proceed(PendingCreate(DraftRow(codec, snapshot, actor)))
  }

  /** Simulate's first read: the row itself. The key arrives trimmed. */
  function ReadSimulate(store: Store, id: Id, key: string, actor: Actor): (o: ReadOutcome)
    ensures o.Proceed? ==> id in store.rows && o.pending == PendingLookup(store.rows[id], key)
  {
    if key == "" then Refused(KeyRequired)
    else if |key| > 128 then Refused(KeyTooLong)
    else if id !in store.rows then Refused(NotFound)
    else if !MayManage(actor, store.rows[id]) then Refused(Forbidden)
    else Proceed(PendingLookup(store.rows[id], key))
  }

  /** Simulate's second read: who holds the key. Then the frozen input of the row read first is simulated. */
  ghost function LookupSimulate(codec: Codec, store: Store, read: Scenario, key: string): (o: ReadOutcome)
    ensures o.Proceed? ==> o.pending.PendingSimulate? && o.pending.read == read && o.pending.key == key
  {
    var prior := FirstHolder(store.rows, key);
    if prior.Some? then
      if prior.value != read.id then Refused(KeyBoundElsewhere) else Reused(store.rows[prior.value])
    else if read.state != Draft then Refused(OnlyDraft)
    else match codec.decodeSnapshot(read.inputSnapshot)
      case None => Refused(BadSnapshot)
      case Some(snapshot) =>
        if !ValidSnapshot(snapshot) then Refused(SimulationFailed)
        else Proceed(PendingSimulate(read, key, codec.Encode(SimulationOf(snapshot))))
  }

  ghost function LookupStep(codec: Codec, store: Store, read: Scenario, key: string, answered: bool): ReadOutcome {
    if answered then LookupSimulate(codec, store, read, key) else Refused(StorageFailed)
  }

  /** Transition up to its transaction. Request validation already refuses `simulated` as a target. */
  function ReadTransition(store: Store, id: Id, to: ScenarioState, comment: string, actor: Actor): ReadOutcome {
    if to == Simulated || |comment| > 1000 then Refused(BadRequest)
    else if id !in store.rows then Refused(NotFound)
    else
      var row := store.rows[id];
      if to != Verified && !MayManage(actor, row) then Refused(Forbidden)
      else if !CanTransition(row.state, to) then Refused(IllegalTransition)
      else if to == Verified && row.createdBy == actor.userId then Refused(ReviewerConflict)
      else Proceed(PendingTransition(row, to, comment, actor))
  }

  /** Replay up to its transaction: the frozen input is simulated again and compared with what is stored. */
  ghost function ReadReplay(codec: Codec, store: Store, id: Id, actor: Actor): ReadOutcome {
    if id !in store.rows then Refused(NotFound)
    else
      var row := store.rows[id];
      if !MayManage(actor, row) then Refused(Forbidden)
      else if row.state == Draft then Refused(NothingToReplay)
      else match codec.decodeSnapshot(row.inputSnapshot)
        case None => Refused(BadSnapshot)
        case Some(snapshot) =>
          if !ValidSnapshot(snapshot) then Refused(SimulationFailed)
          else Proceed(PendingReplay(row, codec.Encode(SimulationOf(snapshot)) == row.outputs))
  }

  ghost function ReadStep(codec: Codec, store: Store, request: Request): ReadOutcome {
    match request
    case CreateRequest(snapshot, actor) => ReadCreate(codec, snapshot, actor)
    case SimulateRequest(id, key, actor) => ReadSimulate(store, id, key, actor)
    case TransitionRequest(id, to, comment, actor) => ReadTransition(store, id, to, comment, actor)
    case ReplayRequest(id, actor) => ReadReplay(codec, store, id, actor)
  }

  // ---- Commit steps: the row change and its audit entry, or neither ----

  /** The three unique indexes of the table that an insert can violate. */
  predicate InsertAllowed(rows: map<Id, Scenario>, row: Scenario, newId: Id) {
    && newId != 0 && newId !in rows
    && (forall j :: j in rows ==> !SameInput(rows[j], row))
    && (forall j :: j in rows ==> rows[j].key != row.key)
  }

  function CommitCreate(store: Store, row: Scenario, newId: Id): Result<Store, Failure> {
    if !InsertAllowed(store.rows, row, newId) then Err(AlreadyExists)
    else Ok(Store(store.rows[newId := row.(id := newId)],
                  store.audits + [AuditEntry(CreateFrozenDraft, newId, None, row.state, row.key)]))
  }

  /** CompleteSimulation: only a row that is still a draft, and only if no other row holds the key. */
  function CommitSimulate(store: Store, read: Scenario, key: string, outputs: Outputs): Result<Store, Failure> {
    var id := read.id;
    if id !in store.rows || store.rows[id].state != Draft then Err(StateChanged)
    else if exists j :: j in store.rows && j != id && store.rows[j].key == key then Err(StorageFailed)
    else Ok(Store(store.rows[id := store.rows[id].(state := Simulated, outputs := outputs, key := key)],
                  store.audits + [AuditEntry(SimulateAction, id, Some(read.state), Simulated, key)]))
  }

  /** Transition: only a row whose state is still the state read. */
  function CommitTransition(store: Store, read: Scenario, to: ScenarioState, comment: string, actor: Actor)
    : Result<Store, Failure>
  {
    var id := read.id;
    if id !in store.rows || store.rows[id].state != read.state then Err(StateChanged)
    else
      var row := store.rows[id];
      var verifier := if to == Verified then Some(actor.userId) else row.verifiedBy;
      var record := if to == Rollback then comment else row.rollbackRecord;
      Ok(Store(store.rows[id := row.(state := to, verifiedBy := verifier, rollbackRecord := record)],
               store.audits + [AuditEntry(TransitionAction, id, Some(read.state), to, read.key)]))
  }

  /** SetReplayVerified: unconditional on the state. */
  function CommitReplay(store: Store, read: Scenario, passed: bool): Result<Store, Failure> {
    var id := read.id;
    if id !in store.rows then Err(StorageFailed)
    else Ok(Store(store.rows[id := store.rows[id].(replayVerified := passed)],
                  store.audits + [AuditEntry(ReplayAction, id, Some(read.state), read.state, read.key)]))
  }

  function CommitStep(store: Store, pending: Pending, newId: Id): Result<Store, Failure> {
    match pending
    case PendingCreate(row) => CommitCreate(store, row, newId)
    case PendingLookup(_, _) => Err(StorageFailed)
    case PendingSimulate(read, key, outputs) => CommitSimulate(store, read, key, outputs)
    case PendingTransition(read, to, comment, actor) => CommitTransition(store, read, to, comment, actor)
    case PendingReplay(read, passed) => CommitReplay(store, read, passed)
  }

  /** Simulate with no other request between its steps: the store it leaves and the answer it gives. */
  ghost function SimulateAlone(codec: Codec, store: Store, id: Id, key: string, actor: Actor, answered: bool,
                               durable: bool)
    : (Store, ReadOutcome)
  {
    var read := ReadSimulate(store, id, key, actor);
    if !read.Proceed? then (store, read)
    else
      var lookup := LookupStep(codec, store, read.pending.read, key, answered);
      if !lookup.Proceed? then (store, lookup)
      else
        var commit := CommitSimulate(store, lookup.pending.read, key, lookup.pending.outputs);
        if commit.Err? then (store, Refused(commit.error))
        else if !durable then (store, Refused(StorageFailed))
        else (commit.value, lookup)
  }

  // ---- Interleavings ----

  /** The store and every request that has read but not yet committed. */
  datatype System = System(store: Store, inflight: map<nat, Pending>)

  /**
   * `answered` is false when the database fails to look a key up; `durable` is false when the transaction
   * fails, for instance because its audit entry cannot be written.
   */
  datatype Event =
    | Read(number: nat, request: Request)
    | Lookup(number: nat, answered: bool)
    | Commit(number: nat, newId: Id, durable: bool)

  function Keep(s: System, number: nat, outcome: ReadOutcome): System {
    match outcome
    case Proceed(pending) => s.(inflight := s.inflight[number := pending])
    case _ => s.(inflight := s.inflight - {number})
  }

  ghost function Next(codec: Codec, s: System, event: Event): System {
    match event
    case Read(number, request) =>
      if number in s.inflight then s else Keep(s, number, ReadStep(codec, s.store, request))
    case Lookup(number, answered) =>
      if number in s.inflight && s.inflight[number].PendingLookup? then
        Keep(s, number, LookupStep(codec, s.store, s.inflight[number].read, s.inflight[number].key, answered))
      else s
    case Commit(number, newId, durable) =>
      if number !in s.inflight || s.inflight[number].PendingLookup? then s
      else
        var result := CommitStep(s.store, s.inflight[number], newId);
        System(if durable && result.Ok? then result.value else s.store, s.inflight - {number})
  }

  ghost function Run(codec: Codec, s: System, events: seq<Event>): System {
    if events == [] then s else Next(codec, Run(codec, s, events[..|events| - 1]), events[|events| - 1])
  }
}
