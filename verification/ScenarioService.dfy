/**
 * RolloverScenarioService over its repository: the read and commit steps as methods that change the
 * stored rows and audit log, each tied to its step function in `Scenarios`.
 */
module ScenarioService {
  import opened Prelude
  import opened Actors
  import opened Sorting
  import opened Snapshots
  import opened Simulator
  import opened ServiceGraph
  import opened ServiceGraphLaws
  import opened SnapshotBuilding
  import opened TableVerdicts
  import opened Scenarios
  import Accountability

  class ScenarioDatabase {
    var rows: map<Id, Scenario>
    var audits: seq<AuditEntry>

    constructor ()
      ensures View() == Store(map[], [])
    {
      rows := map[];
      audits := [];
    }

    function View(): Store
      reads this
    {
      Store(rows, audits)
    }

    method Insert(row: Scenario, newId: Id) returns (inserted: bool)
      modifies this`rows
      ensures inserted <==> InsertAllowed(old(rows), row, newId)
      ensures rows == if inserted then old(rows)[newId := row.(id := newId)] else old(rows)
    {
      inserted := InsertAllowed(rows, row, newId);
      if inserted {
        rows := rows[newId := row.(id := newId)];
      }
    }

    /** The smallest id holding the key, whatever order the rows are visited in. */
    method FindByIdempotencyKey(key: string) returns (holder: Option<Id>)
      ensures holder == FirstHolder(rows, key)
    {
      holder := None;
      var pending := rows.Keys;
      while pending != {}
        invariant pending <= rows.Keys
        invariant holder.Some? ==> Holds(rows, holder.value, key)
        invariant forall j :: j in rows && j !in pending && Holds(rows, j, key) ==> holder.Some? && holder.value <= j
        decreases pending
      {
        var id :| id in pending;
        pending := pending - {id};
        if rows[id].key == key && (holder.None? || id < holder.value) {
          holder := Some(id);
        }
      }
      ghost var first := FirstHolder(rows, key);
      if holder.Some? {
        assert Holds(rows, holder.value, key);
        assert first.Some? && Holds(rows, first.value, key);
      }
    }

    /** An update where id and state match; an error when another row already holds the key. */
    method CompleteSimulation(id: Id, outputs: Outputs, key: string) returns (changed: Result<bool, Failure>)
      modifies this`rows
      ensures changed == (
        if id !in old(rows) || old(rows)[id].state != Draft then Ok(false)
        else if exists j :: j in old(rows) && j != id && old(rows)[j].key == key then Err(StorageFailed)
        else Ok(true))
      ensures rows == if changed != Ok(true) then old(rows) else
        old(rows)[id := old(rows)[id].(state := Simulated, outputs := outputs, key := key)]
    {
      if id !in rows || rows[id].state != Draft {
        return Ok(false);
      }
      if exists j :: j in rows && j != id && rows[j].key == key {
        return Err(StorageFailed);
      }
      rows := rows[id := rows[id].(state := Simulated, outputs := outputs, key := key)];
      return Ok(true);
    }

    method Transition(id: Id, from: ScenarioState, to: ScenarioState, verifier: Option<Id>, record: Option<string>)
      returns (changed: bool)
      modifies this`rows
      ensures changed <==> id in old(rows) && old(rows)[id].state == from
      ensures rows == if !changed then old(rows) else
        var row := old(rows)[id];
        old(rows)[id := row.(state := to,
                             verifiedBy := if verifier.Some? then verifier else row.verifiedBy,
                             rollbackRecord := if record.Some? then record.value else row.rollbackRecord)]
    {
      changed := id in rows && rows[id].state == from;
      if changed {
        var row := rows[id].(state := to);
        if verifier.Some? {
          row := row.(verifiedBy := verifier);
        }
        if record.Some? {
          row := row.(rollbackRecord := record.value);
        }
        rows := rows[id := row];
      }
    }

    method SetReplayVerified(id: Id, passed: bool) returns (stored: bool)
      modifies this`rows
      ensures stored <==> id in old(rows)
      ensures rows == if stored then old(rows)[id := old(rows)[id].(replayVerified := passed)] else old(rows)
    {
      stored := id in rows;
      if stored {
        rows := rows[id := rows[id].(replayVerified := passed)];
      }
    }

    /** Ends a transaction: the audit entry is written, or the rows go back to how they were. */
    method RecordOrRollBack(entry: AuditEntry, saved: map<Id, Scenario>, durable: bool)
      modifies this
      ensures audits == if durable then old(audits) + [entry] else old(audits)
      ensures rows == if durable then old(rows) else saved
    {
      if durable {
        audits := audits + [entry];
      } else {
        rows := saved;
      }
    }
  }

  /** The configuration with its candidates de-duplicated, as Create passes it on. */
  function Chosen(config: ScenarioConfig): ScenarioConfig {
    config.(candidateChainIds := UniqueIds(config.candidateChainIds))
  }

  /** What Create commits for a frozen snapshot: its draft row, whose id is still to be assigned. */
  function Drafted(codec: Codec, snapshot: Snapshot, actor: Actor): ReadOutcome {
    Proceed(PendingCreate(Accountability.NewDraft(codec, snapshot, actor, 0)))
  }

  lemma ChosenFreezes(snapshot: Snapshot, config: ScenarioConfig, anchors: seq<AnchorRow>, chains: seq<ChainRow>,
                      services: seq<ServiceRow>)
    ensures Freezes(snapshot, Chosen(config), anchors, chains, services) <==>
      Freezes(snapshot, config, anchors, chains, services)
  {
    UniqueTwice(config.candidateChainIds);
  }

  lemma ProceedingRows(snapshot: Snapshot, config: ScenarioConfig, anchors: seq<AnchorRow>, chains: seq<ChainRow>,
                       services: seq<ServiceRow>)
    requires Freezes(snapshot, Chosen(config), anchors, chains, services) && ValidSnapshot(snapshot)
    ensures Freezes(snapshot, config, anchors, chains, services)
    ensures var tables := TableRows(anchors, chains, services);
      DistinctTables(tables) ==> RowsAcceptable(config, tables)
  {
    var tables := TableRows(anchors, chains, services);
    ChosenFreezes(snapshot, config, anchors, chains, services);
    if DistinctTables(tables) {
      RowsAcceptableIff(snapshot, config, tables);
    }
  }

  lemma RefusedRows(error: ValidationError, config: ScenarioConfig, anchors: seq<AnchorRow>, chains: seq<ChainRow>,
                    services: seq<ServiceRow>)
    requires RefusedFor(error, Chosen(config), anchors, chains, services)
    ensures var tables := TableRows(anchors, chains, services);
      DistinctTables(tables) ==> !RowsAcceptable(config, tables)
  {
    var snapshot :| Freezes(snapshot, Chosen(config), anchors, chains, services) && RealError(snapshot, error);
    var tables := TableRows(anchors, chains, services);
    ChosenFreezes(snapshot, config, anchors, chains, services);
    RealErrorInvalid(snapshot, error);
    if DistinctTables(tables) {
      RowsAcceptableIff(snapshot, config, tables);
    }
  }

  lemma RealErrorInvalid(snapshot: Snapshot, error: ValidationError)
    requires RealError(snapshot, error)
    ensures !ValidSnapshot(snapshot)
  {
  }

  /** What a commit answers: its own refusal, or a storage failure when the transaction does not last. */
  function Answer(spec: Result<Store, Failure>, durable: bool, id: Id): Result<Id, Failure> {
    if spec.Err? then Err(spec.error) else if !durable then Err(StorageFailed) else Ok(id)
  }

  class RolloverScenarioService {
    const codec: Codec
    const db: ScenarioDatabase

    constructor (codec: Codec, db: ScenarioDatabase)
      ensures this.codec == codec && this.db == db
    {
      this.codec := codec;
      this.db := db;
    }

    /**
     * Create up to its transaction. `anchors`, `chains` and `services` are what its reads returned, possibly
     * at different times, and `candidatesFound` how many candidate chains exist. It proceeds with a draft
     * of the canonical, valid snapshot of those rows, and refuses for a reason the rows show.
     */
    method PrepareCreate(config: ScenarioConfig, anchors: seq<AnchorRow>, candidatesFound: nat, chains: seq<ChainRow>,
                         services: seq<ServiceRow>, actor: Actor)
      returns (outcome: ReadOutcome)
      ensures outcome.Proceed? ==> exists snapshot ::
        ReadCreate(codec, snapshot, actor) == outcome && Freezes(snapshot, Chosen(config), anchors, chains, services)
      ensures outcome.Proceed? ==> exists snapshot ::
        Freezes(snapshot, config, anchors, chains, services) && outcome == Drafted(codec, snapshot, actor)
      ensures outcome.Proceed? ==> outcome.pending.PendingCreate? && outcome.pending.row.createdBy == actor.userId
      ensures outcome.Proceed? ==> outcome.pending.row.inputHash == codec.hash(outcome.pending.row.inputSnapshot)
      ensures outcome.Proceed? ==> outcome.pending.row.simulationTime == config.simulationTime
      ensures outcome.Proceed? ==> config.oldAnchorId != config.newAnchorId && |anchors| == 2
      ensures outcome.Proceed? ==> candidatesFound == |UniqueIds(config.candidateChainIds)| && AllDecode(services)
      ensures DistinctTables(TableRows(anchors, chains, services)) ==>
        (outcome.Proceed? <==>
          && |anchors| == 2 && candidatesFound == |UniqueIds(config.candidateChainIds)| && AllDecode(services)
          && RowsAcceptable(config, TableRows(anchors, chains, services)))
      ensures outcome.Proceed? || outcome == Refused(BadRequest)
      ensures outcome.Refused? ==>
        || config.oldAnchorId == config.newAnchorId || |anchors| != 2
        || candidatesFound != |UniqueIds(config.candidateChainIds)| || !AllDecode(services)
        || exists error :: RefusedFor(error, Chosen(config), anchors, chains, services)
    {
      var candidates := SortedUnique(config.candidateChainIds);
      if config.oldAnchorId == config.newAnchorId || |anchors| != 2 || candidatesFound != |candidates| {
        return Refused(BadRequest);
      }
      var built := BuildSnapshot(config.(candidateChainIds := candidates), anchors, chains, services);
      if built.Err? {
        if built.error.Invalid? {
          RefusedRows(built.error.error, config, anchors, chains, services);
        }
        return Refused(BadRequest);
      }
      ProceedingRows(built.value, config, anchors, chains, services);
      assert ReadCreate(codec, built.value, actor) == Proceed(PendingCreate(DraftRow(codec, built.value, actor)));
      return Proceed(PendingCreate(DraftRow(codec, built.value, actor)));
    }

    method FinishCreate(row: Scenario, newId: Id, durable: bool) returns (result: Result<Id, Failure>)
      modifies db
      ensures var spec := CommitCreate(old(db.View()), row, newId);
        && db.View() == (if durable && spec.Ok? then spec.value else old(db.View()))
        && result == Answer(spec, durable, newId)
    {
      var saved := db.rows;
      var inserted := db.Insert(row, newId);
      if !inserted {
        return Err(AlreadyExists);
      }
      db.RecordOrRollBack(AuditEntry(CreateFrozenDraft, newId, None, row.state, row.key), saved, durable);
      if !durable {
        return Err(StorageFailed);
      }
      return Ok(newId);
    }

    method PrepareSimulate(id: Id, key: string, actor: Actor) returns (outcome: ReadOutcome)
      ensures outcome == ReadSimulate(db.View(), id, key, actor)
    {
      if key == "" {
        return Refused(KeyRequired);
      }
      if |key| > 128 {
        return Refused(KeyTooLong);
      }
      if id !in db.rows {
        return Refused(NotFound);
      }
      if !MayManage(actor, db.rows[id]) {
        return Refused(Failure.Forbidden);
      }
      return Proceed(PendingLookup(db.rows[id], key));
    }

    /** `answered` is false when the database fails to look the key up. */
    method LookUpKey(scenario: Scenario, key: string, answered: bool) returns (outcome: ReadOutcome)
      ensures outcome == LookupStep(codec, db.View(), scenario, key, answered)
    {
      if !answered {
        return Refused(StorageFailed);
      }
      var prior := db.FindByIdempotencyKey(key);
      if prior.Some? {
        if prior.value != scenario.id {
          return Refused(KeyBoundElsewhere);
        }
        return Reused(db.rows[prior.value]);
      }
      if scenario.state != Draft {
        return Refused(OnlyDraft);
      }
      match codec.decodeSnapshot(scenario.inputSnapshot) {
        case None =>
          return Refused(BadSnapshot);
        case Some(snapshot) =>
          var result := Simulator.Simulate(snapshot);
          if result.Err? {
            return Refused(SimulationFailed);
          }
          return Proceed(PendingSimulate(scenario, key, codec.Encode(result.value)));
      }
    }

    method FinishSimulate(scenario: Scenario, key: string, outputs: Outputs, durable: bool)
      returns (result: Result<Id, Failure>)
      modifies db
      ensures var spec := CommitSimulate(old(db.View()), scenario, key, outputs);
        && db.View() == (if durable && spec.Ok? then spec.value else old(db.View()))
        && result == Answer(spec, durable, scenario.id)
    {
      var saved := db.rows;
      var changed := db.CompleteSimulation(scenario.id, outputs, key);
      if changed.Err? {
        return Err(changed.error);
      }
      if !changed.value {
        return Err(StateChanged);
      }
      db.RecordOrRollBack(AuditEntry(SimulateAction, scenario.id, Some(scenario.state), Simulated, key), saved,
                          durable);
      if !durable {
        return Err(StorageFailed);
      }
      return Ok(scenario.id);
    }

    /** The whole of Simulate, with no other request between its steps. */
    method Simulate(id: Id, key: string, actor: Actor, answered: bool, durable: bool) returns (outcome: ReadOutcome)
      modifies db
      ensures (db.View(), outcome) == SimulateAlone(codec, old(db.View()), id, key, actor, answered, durable)
    {
      outcome := PrepareSimulate(id, key, actor);
      if !outcome.Proceed? {
        return;
      }
      var scenario := outcome.pending.read;
      outcome := LookUpKey(scenario, key, answered);
      if !outcome.Proceed? {
        return;
      }
      var finished := FinishSimulate(scenario, key, outcome.pending.outputs, durable);
      if finished.Err? {
        outcome := Refused(finished.error);
      }
    }

    method PrepareTransition(id: Id, to: ScenarioState, comment: string, actor: Actor) returns (outcome: ReadOutcome)
      ensures outcome == ReadTransition(db.View(), id, to, comment, actor)
    {
      if to == Simulated || |comment| > 1000 {
        return Refused(BadRequest);
      }
      if id !in db.rows {
        return Refused(NotFound);
      }
      var scenario := db.rows[id];
      if to != Verified && !MayManage(actor, scenario) {
        return Refused(Failure.Forbidden);
      }
      if !CanTransition(scenario.state, to) {
        return Refused(IllegalTransition);
      }
      if to == Verified && scenario.createdBy == actor.userId {
        return Refused(ReviewerConflict);
      }
      return Proceed(PendingTransition(scenario, to, comment, actor));
    }

    method FinishTransition(scenario: Scenario, to: ScenarioState, comment: string, actor: Actor, durable: bool)
      returns (result: Result<Id, Failure>)
      modifies db
      ensures var spec := CommitTransition(old(db.View()), scenario, to, comment, actor);
        && db.View() == (if durable && spec.Ok? then spec.value else old(db.View()))
        && result == Answer(spec, durable, scenario.id)
    {
      var verifier: Option<Id> := if to == Verified then Some(actor.userId) else None;
      var record: Option<string> := if to == Rollback then Some(comment) else None;
      var saved := db.rows;
      var changed := db.Transition(scenario.id, scenario.state, to, verifier, record);
      if !changed {
        return Err(StateChanged);
      }
      db.RecordOrRollBack(AuditEntry(TransitionAction, scenario.id, Some(scenario.state), to, scenario.key), saved,
                          durable);
      if !durable {
        return Err(StorageFailed);
      }
      return Ok(scenario.id);
    }

    method PrepareReplay(id: Id, actor: Actor) returns (outcome: ReadOutcome)
      ensures outcome == ReadReplay(codec, db.View(), id, actor)
    {
      if id !in db.rows {
        return Refused(NotFound);
      }
      var scenario := db.rows[id];
      if !MayManage(actor, scenario) {
        return Refused(Failure.Forbidden);
      }
      if scenario.state == Draft {
        return Refused(NothingToReplay);
      }
      match codec.decodeSnapshot(scenario.inputSnapshot) {
        case None =>
          return Refused(BadSnapshot);
        case Some(snapshot) =>
          var result := Simulator.Simulate(snapshot);
          if result.Err? {
            return Refused(SimulationFailed);
          }
          var outputs := codec.Encode(result.value);
          var passed := outputs.affected == scenario.outputs.affected && outputs.paths == scenario.outputs.paths
            && outputs.evidence == scenario.outputs.evidence && outputs.explanation == scenario.outputs.explanation;
          return Proceed(PendingReplay(scenario, passed));
      }
    }

    method FinishReplay(scenario: Scenario, passed: bool, durable: bool) returns (result: Result<Id, Failure>)
      modifies db
      ensures var spec := CommitReplay(old(db.View()), scenario, passed);
        && db.View() == (if durable && spec.Ok? then spec.value else old(db.View()))
        && result == if Answer(spec, durable, scenario.id).Ok? && !passed then Err(StateChanged)
                     else Answer(spec, durable, scenario.id)
    {
      var saved := db.rows;
      var stored := db.SetReplayVerified(scenario.id, passed);
      if !stored {
        return Err(StorageFailed);
      }
      db.RecordOrRollBack(AuditEntry(ReplayAction, scenario.id, Some(scenario.state), scenario.state, scenario.key),
                          saved, durable);
      if !durable {
        return Err(StorageFailed);
      }
      if !passed {
        return Err(StateChanged);
      }
      return Ok(scenario.id);
    }
  }
}
