/**
 * Exactly when a lifecycle request goes through, and what it stores, when no other request takes a step between its
 * own. Other requests may be in flight. Each result covers every request: what is not stored leaves the store alone.
 */
module Uninterrupted {
  import opened Prelude
  import opened Actors
  import opened Snapshots
  import opened Simulator
  import opened Verdicts
  import opened Scenarios
  import opened ScenarioRuns
  import opened IdempotencyKeys
  import opened Accountability

  function ReadAndCommit(n: nat, request: Request, newId: Id): seq<Event> {
    [Read(n, request), Commit(n, newId, true)]
  }

  /** What the two steps leave: the commit of what was read, if both went well. */
  ghost function Result(codec: Codec, s: System, request: Request, newId: Id): Store {
    var read := ReadStep(codec, s.store, request);
    if read.Proceed? && CommitStep(s.store, read.pending, newId).Ok? then CommitStep(s.store, read.pending, newId).value
    else s.store
  }

  lemma TwoSteps(codec: Codec, s: System, n: nat, request: Request, newId: Id)
    requires n !in s.inflight && !request.SimulateRequest?
    ensures Run(codec, s, ReadAndCommit(n, request, newId)) == System(Result(codec, s, request, newId), s.inflight)
  {
    RunTwo(codec, s, Read(n, request), Commit(n, newId, true));
    var read := ReadStep(codec, s.store, request);
    if read.Proceed? {
      assert s.inflight[n := read.pending] - {n} == s.inflight;
    } else {
      assert s.inflight - {n} == s.inflight;
    }
  }

  /** Rows are stored under their ids. */
  predicate Keyed(rows: map<Id, Scenario>) {
    forall id :: id in rows ==> rows[id].id == id
  }

  // ---- Transition ----

  /**
   * A transition goes through exactly when the scenario exists, the comment has at most 1000 characters, and the
   * actor may make this change: one of the legal ones, verifying for anyone but the creator, the others for the
   * creator, an administrator or a PKI operator. It stores the state, the verifier and the rollback comment.
   */
  lemma TransitionGoesThroughIff(codec: Codec, s: System, n: nat, id: Id, to: ScenarioState, comment: string,
                                 actor: Actor, newId: Id)
    requires n !in s.inflight && Keyed(s.store.rows)
    ensures var after := Run(codec, s, ReadAndCommit(n, TransitionRequest(id, to, comment, actor), newId));
      && after.inflight == s.inflight
      && after.store ==
        if id in s.store.rows && |comment| <= 1000
          && MayMove(actor, s.store.rows[id].createdBy, s.store.rows[id].state, to) then
          Store(s.store.rows[id := Moved(s.store.rows[id], to, comment, actor)],
                s.store.audits + [AuditEntry(TransitionAction, id, Some(s.store.rows[id].state), to,
                                             s.store.rows[id].key)])
        else s.store
  {
    TwoSteps(codec, s, n, TransitionRequest(id, to, comment, actor), newId);
  }

  /**
   * In particular, independent reviewers can verify: any other user may verify an executing scenario, whatever
   * their role.
   */
  lemma ReviewerCanVerify(codec: Codec, s: System, n: nat, id: Id, reviewer: Actor)
    requires n !in s.inflight && Keyed(s.store.rows) && id in s.store.rows
    requires s.store.rows[id].state == Executing && reviewer.userId != s.store.rows[id].createdBy
    ensures var rows := Run(codec, s, ReadAndCommit(n, TransitionRequest(id, Verified, "", reviewer), 0)).store.rows;
      id in rows && rows[id].state == Verified && rows[id].verifiedBy == Some(reviewer.userId)
  {
    TransitionGoesThroughIff(codec, s, n, id, Verified, "", reviewer, 0);
  }

  // ---- Create ----

  /** The new id is free, no stored scenario has the same frozen input, and none holds the empty key. */
  predicate RoomFor(rows: map<Id, Scenario>, draft: Scenario) {
    && draft.id != 0 && draft.id !in rows
    && forall j :: j in rows ==>
         && rows[j].key != ""
         && !(rows[j].inputHash == draft.inputHash && rows[j].version == draft.version
              && rows[j].simulationTime == draft.simulationTime)
  }

  /** A Create of a frozen snapshot goes through exactly when the snapshot is acceptable and there is room for it. */
  lemma CreateGoesThroughIff(codec: Codec, s: System, n: nat, snapshot: Snapshot, actor: Actor, newId: Id)
    requires n !in s.inflight
    ensures var after := Run(codec, s, ReadAndCommit(n, CreateRequest(snapshot, actor), newId));
      var draft := NewDraft(codec, snapshot, actor, newId);
      && after.inflight == s.inflight
      && after.store ==
        if Acceptable(snapshot) && RoomFor(s.store.rows, draft) then
          Store(s.store.rows[newId := draft], s.store.audits + [AuditEntry(CreateFrozenDraft, newId, None, Draft, "")])
        else s.store
  {
    TwoSteps(codec, s, n, CreateRequest(snapshot, actor), newId);
    AcceptableIff(snapshot);
    RoomIff(codec, s.store.rows, snapshot, actor, newId);
  }

  lemma RoomIff(codec: Codec, rows: map<Id, Scenario>, snapshot: Snapshot, actor: Actor, newId: Id)
    ensures InsertAllowed(rows, DraftRow(codec, snapshot, actor), newId) <==>
      RoomFor(rows, NewDraft(codec, snapshot, actor, newId))
    ensures DraftRow(codec, snapshot, actor).(id := newId) == NewDraft(codec, snapshot, actor, newId)
  {
  }

  // ---- Replay ----

  /** The input decodes to acceptable input. */
  ghost predicate Readable(codec: Codec, input: string) {
    codec.decodeSnapshot(input).Some? && Acceptable(codec.decodeSnapshot(input).value)
  }

  ghost predicate MayReplay(codec: Codec, rows: map<Id, Scenario>, id: Id, actor: Actor) {
    && id in rows && Manages(actor, rows[id].createdBy) && rows[id].state != Draft
    && Readable(codec, rows[id].inputSnapshot)
  }

  /** A replay stores whether the four stored columns are the simulator's answer on the stored input. */
  ghost function Replayed(codec: Codec, store: Store, id: Id): Store
    requires id in store.rows
  {
    var row := store.rows[id];
    Store(store.rows[id := row.(replayVerified := Answers(codec, row.inputSnapshot, row.outputs))],
          store.audits + [AuditEntry(ReplayAction, id, Some(row.state), row.state, row.key)])
  }

  lemma ReplayReads(codec: Codec, store: Store, id: Id, actor: Actor)
    ensures ReadReplay(codec, store, id, actor).Proceed? <==> MayReplay(codec, store.rows, id, actor)
    ensures MayReplay(codec, store.rows, id, actor) ==>
      ReadReplay(codec, store, id, actor) ==
        Proceed(PendingReplay(store.rows[id], Answers(codec, store.rows[id].inputSnapshot, store.rows[id].outputs)))
  {
    if id in store.rows {
      var row := store.rows[id];
      AnswersIff(codec, row.inputSnapshot, row.outputs);
      ReadableIff(codec, row.inputSnapshot);
    }
  }

  /**
   * A replay goes through exactly for who manages a scenario past draft whose input is readable, and stores
   * whether all four stored columns are the simulator's answer on that input.
   */
  lemma ReplayGoesThroughIff(codec: Codec, s: System, n: nat, id: Id, actor: Actor, newId: Id)
    requires n !in s.inflight && Keyed(s.store.rows)
    ensures var after := Run(codec, s, ReadAndCommit(n, ReplayRequest(id, actor), newId));
      && after.inflight == s.inflight
      && after.store ==
        if MayReplay(codec, s.store.rows, id, actor) then Replayed(codec, s.store, id) else s.store
  {
    TwoSteps(codec, s, n, ReplayRequest(id, actor), newId);
    ReplayResult(codec, s, id, actor, newId);
  }

  lemma ReplayResult(codec: Codec, s: System, id: Id, actor: Actor, newId: Id)
    requires Keyed(s.store.rows)
    ensures Result(codec, s, ReplayRequest(id, actor), newId) ==
      if MayReplay(codec, s.store.rows, id, actor) then Replayed(codec, s.store, id) else s.store
  {
    ReplayReads(codec, s.store, id, actor);
    if MayReplay(codec, s.store.rows, id, actor) {
      var row := s.store.rows[id];
      VerdictStored(s.store, row, Answers(codec, row.inputSnapshot, row.outputs));
    }
  }

  lemma VerdictStored(store: Store, row: Scenario, passed: bool)
    requires row.id in store.rows && store.rows[row.id] == row
    ensures CommitStep(store, PendingReplay(row, passed), 0) ==
      Ok(Store(store.rows[row.id := row.(replayVerified := passed)],
               store.audits + [AuditEntry(ReplayAction, row.id, Some(row.state), row.state, row.key)]))
  {
  }

  lemma ReadableIff(codec: Codec, input: string)
    ensures FrozenInput(codec, input) <==> Readable(codec, input)
  {
    if codec.decodeSnapshot(input).Some? {
      AcceptableIff(codec.decodeSnapshot(input).value);
    }
  }

  // ---- Simulate ----

  function ReadLookupCommit(n: nat, request: Request): seq<Event> {
    [Read(n, request), Lookup(n, true), Commit(n, 0, true)]
  }

  /** The system when the only change since `s` is where request `n` stands. */
  function At(s: System, n: nat, outcome: ReadOutcome): System {
    System(s.store, if outcome.Proceed? then s.inflight[n := outcome.pending] else s.inflight)
  }

  lemma ThreeSteps(codec: Codec, s: System, n: nat, id: Id, key: string, actor: Actor)
    requires n !in s.inflight
    ensures Run(codec, s, ReadLookupCommit(n, SimulateRequest(id, key, actor))) ==
      System(SimulateAlone(codec, s.store, id, key, actor, true, true).0, s.inflight)
  {
    var request := SimulateRequest(id, key, actor);
    RunThree(codec, s, Read(n, request), Lookup(n, true), Commit(n, 0, true));
    var read := ReadSimulate(s.store, id, key, actor);
    ReadsAt(codec, s, n, request);
    if read.Proceed? {
      LooksUpAt(codec, s, n, read.pending);
      var lookup := LookupSimulate(codec, s.store, s.store.rows[id], key);
      if lookup.Proceed? {
        CommitsAt(codec, s, n, lookup.pending);
      } else {
        IdleAt(codec, s, n);
      }
    } else {
      IdleAt(codec, s, n);
    }
  }

  lemma ReadsAt(codec: Codec, s: System, n: nat, request: Request)
    requires n !in s.inflight
    ensures Next(codec, s, Read(n, request)) == At(s, n, ReadStep(codec, s.store, request))
  {
    assert s.inflight - {n} == s.inflight;
  }

  lemma LooksUpAt(codec: Codec, s: System, n: nat, pending: Pending)
    requires n !in s.inflight && pending.PendingLookup?
    ensures Next(codec, At(s, n, Proceed(pending)), Lookup(n, true)) ==
      At(s, n, LookupSimulate(codec, s.store, pending.read, pending.key))
  {
    var outcome := LookupSimulate(codec, s.store, pending.read, pending.key);
    if outcome.Proceed? {
      assert s.inflight[n := pending][n := outcome.pending] == s.inflight[n := outcome.pending];
    } else {
      assert s.inflight[n := pending] - {n} == s.inflight;
    }
  }

  lemma CommitsAt(codec: Codec, s: System, n: nat, pending: Pending)
    requires n !in s.inflight && !pending.PendingLookup?
    ensures var result := CommitStep(s.store, pending, 0);
      Next(codec, At(s, n, Proceed(pending)), Commit(n, 0, true)) ==
      System(if result.Ok? then result.value else s.store, s.inflight)
  {
    assert s.inflight[n := pending] - {n} == s.inflight;
  }

  lemma IdleAt(codec: Codec, s: System, n: nat)
    requires n !in s.inflight
    ensures Next(codec, s, Lookup(n, true)) == s && Next(codec, s, Commit(n, 0, true)) == s
  {
  }

  /**
   * A Simulate goes through exactly when its key has 1 to 128 characters, the actor manages the scenario, its
   * input is readable, it is a draft, and no scenario, its own included, holds the key. It stores the
   * simulator's answer on that input and the key.
   */
  lemma SimulateGoesThroughIff(codec: Codec, s: System, n: nat, id: Id, key: string, actor: Actor)
    requires n !in s.inflight && Keyed(s.store.rows)
    ensures var after := Run(codec, s, ReadLookupCommit(n, SimulateRequest(id, key, actor)));
      && after.inflight == s.inflight
      && if 0 < |key| <= 128 && id in s.store.rows && Manages(actor, s.store.rows[id].createdBy)
           && Readable(codec, s.store.rows[id].inputSnapshot) && s.store.rows[id].state == Draft
           && (forall j :: j in s.store.rows ==> s.store.rows[j].key != key) then
           && id in after.store.rows
           && Answers(codec, s.store.rows[id].inputSnapshot, after.store.rows[id].outputs)
           && after.store.rows == s.store.rows[id := s.store.rows[id].(
                state := Simulated, key := key, outputs := after.store.rows[id].outputs)]
           && after.store.audits == s.store.audits + [AuditEntry(SimulateAction, id, Some(Draft), Simulated, key)]
         else after.store == s.store
  {
    ThreeSteps(codec, s, n, id, key, actor);
    if id in s.store.rows {
      SimulateAloneStores(codec, s.store, id, key, actor);
    }
  }

  lemma SimulateAloneStores(codec: Codec, store: Store, id: Id, key: string, actor: Actor)
    requires id in store.rows && store.rows[id].id == id
    ensures var after := SimulateAlone(codec, store, id, key, actor, true, true).0;
      if 0 < |key| <= 128 && Manages(actor, store.rows[id].createdBy) && Readable(codec, store.rows[id].inputSnapshot)
         && store.rows[id].state == Draft && (forall j :: j in store.rows ==> store.rows[j].key != key) then
        && id in after.rows && Answers(codec, store.rows[id].inputSnapshot, after.rows[id].outputs)
        && after.rows == store.rows[id := store.rows[id].(
             state := Simulated, key := key, outputs := after.rows[id].outputs)]
        && after.audits == store.audits + [AuditEntry(SimulateAction, id, Some(Draft), Simulated, key)]
      else after == store
  {
    var row, lookup := store.rows[id], LookupSimulate(codec, store, store.rows[id], key);
    LookupProceedsIff(codec, store, row, key);
    ReadableIff(codec, row.inputSnapshot);
    UnheldIff(store.rows, key);
    if lookup.Proceed? {
      AnswersIff(codec, row.inputSnapshot, lookup.pending.outputs);
    }
  }

  lemma UnheldIff(rows: map<Id, Scenario>, key: string)
    ensures (forall id :: !Scenarios.Holds(rows, id, key)) <==> forall j :: j in rows ==> rows[j].key != key
  {
    forall j | j in rows ensures Scenarios.Holds(rows, j, key) <==> rows[j].key == key {
    }
  }

  // ---- What a refusal means ----

  /** Why the first step refuses a request: the first of its checks that fails. */
  lemma ReadRefusal(codec: Codec, store: Store, request: Request)
    requires ReadStep(codec, store, request).Refused?
    ensures RefusedBecause(codec, store.rows, request, ReadStep(codec, store, request).failure)
  {
    match request
    case CreateRequest(snapshot, _) =>
      AcceptableIff(snapshot);
    case ReplayRequest(id, _) =>
      if id in store.rows {
        ReadableIff(codec, store.rows[id].inputSnapshot);
      }
    case _ =>
  }

  ghost predicate RefusedBecause(codec: Codec, rows: map<Id, Scenario>, request: Request, failure: Failure) {
    match request
    case CreateRequest(snapshot, _) => failure == BadRequest && !Acceptable(snapshot)
    case SimulateRequest(id, key, actor) =>
      if key == "" then failure == KeyRequired
      else if |key| > 128 then failure == KeyTooLong
      else if id !in rows then failure == NotFound
      else failure == Forbidden && !Manages(actor, rows[id].createdBy)
    case TransitionRequest(id, to, comment, actor) =>
      if to == Simulated || |comment| > 1000 then failure == BadRequest
      else if id !in rows then failure == NotFound
      else if to != Verified && !Manages(actor, rows[id].createdBy) then failure == Forbidden
      else if !LegalChange(rows[id].state, to) then failure == IllegalTransition
      else failure == ReviewerConflict && to == Verified && actor.userId == rows[id].createdBy
    case ReplayRequest(id, actor) =>
      if id !in rows then failure == NotFound
      else if !Manages(actor, rows[id].createdBy) then failure == Forbidden
      else if rows[id].state == Draft then failure == NothingToReplay
      else if codec.decodeSnapshot(rows[id].inputSnapshot).None? then failure == BadSnapshot
      else failure == SimulationFailed && !Readable(codec, rows[id].inputSnapshot)
  }

  /** What Simulate's second step answers: who holds the key decides first, then the row as it was read. */
  lemma LookupAnswer(codec: Codec, store: Store, read: Scenario, key: string)
    requires UniqueRows(store.rows)
    ensures var held := exists j :: j in store.rows && store.rows[j].key == key;
      match LookupSimulate(codec, store, read, key)
      case Refused(KeyBoundElsewhere) => exists j :: j in store.rows && j != read.id && store.rows[j].key == key
      case Reused(row) => read.id in store.rows && row == store.rows[read.id] && row.key == key
      case Refused(OnlyDraft) => !held && read.state != Draft
      case Refused(BadSnapshot) => !held && read.state == Draft && codec.decodeSnapshot(read.inputSnapshot).None?
      case Refused(SimulationFailed) =>
        && !held && read.state == Draft && codec.decodeSnapshot(read.inputSnapshot).Some?
        && !Readable(codec, read.inputSnapshot)
      case Refused(_) => false
      case Proceed(_) => !held && read.state == Draft && Readable(codec, read.inputSnapshot)
  {
    ReadableIff(codec, read.inputSnapshot);
    forall j | j in store.rows && store.rows[j].key == key ensures Scenarios.Holds(store.rows, j, key) {
    }
  }
}
