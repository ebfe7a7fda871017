/** What every interleaving of lifecycle requests keeps true. */
module ScenarioRuns {
  import opened Prelude
  import opened Actors
  import opened Snapshots
  import opened Simulator
  import opened Scenarios

  // ---- The invariant ----

  /** The row's answer is the simulator's answer on the row's own frozen input. */
  ghost predicate StoresSimulation(codec: Codec, input: string, outputs: Outputs) {
    var snapshot := codec.decodeSnapshot(input);
    snapshot.Some? && ValidSnapshot(snapshot.value) && outputs == codec.Encode(SimulationOf(snapshot.value))
  }

  ghost predicate FrozenInput(codec: Codec, input: string) {
    codec.decodeSnapshot(input).Some? && ValidSnapshot(codec.decodeSnapshot(input).value)
  }

  ghost predicate GoodRow(codec: Codec, id: Id, row: Scenario) {
    && row.id == id
    && (codec.Lawful() ==> FrozenInput(codec, row.inputSnapshot))
    && (row.state != Draft ==> StoresSimulation(codec, row.inputSnapshot, row.outputs))
    && (row.verifiedBy.Some? <==> row.state == Verified)
    && (row.verifiedBy.Some? ==> row.verifiedBy.value != row.createdBy)
    && (row.key == "" ==> row.state == Draft)
  }

  ghost predicate GoodRows(codec: Codec, rows: map<Id, Scenario>) {
    forall id :: id in rows ==> GoodRow(codec, id, rows[id])
  }

  /** No two rows share a key, the empty one included, or a frozen input. */
  predicate UniqueRows(rows: map<Id, Scenario>) {
    forall i, j :: i in rows && j in rows && i != j ==> rows[i].key != rows[j].key && !SameInput(rows[i], rows[j])
  }

  /** What a row read earlier and the row stored now must still have in common. */
  predicate SameOrigin(rows: map<Id, Scenario>, read: Scenario) {
    read.id in rows && rows[read.id].inputSnapshot == read.inputSnapshot && rows[read.id].createdBy == read.createdBy
  }

  ghost predicate GoodPending(codec: Codec, rows: map<Id, Scenario>, pending: Pending) {
    match pending
    case PendingCreate(row) =>
      (codec.Lawful() ==> FrozenInput(codec, row.inputSnapshot))
      && row.state == Draft && row.key == "" && row.verifiedBy.None?
    case PendingLookup(read, key) =>
      SameOrigin(rows, read) && key != ""
    case PendingSimulate(read, key, outputs) =>
      SameOrigin(rows, read) && key != "" && read.state == Draft && StoresSimulation(codec, read.inputSnapshot, outputs)
    case PendingTransition(read, to, comment, actor) =>
      SameOrigin(rows, read) && to != Simulated && CanTransition(read.state, to)
      && (to == Verified ==> actor.userId != read.createdBy)
    case PendingReplay(read, passed) =>
      SameOrigin(rows, read) && passed
  }

  ghost predicate GoodInflight(codec: Codec, s: System) {
    forall n :: n in s.inflight ==> GoodPending(codec, s.store.rows, s.inflight[n])
  }

  /** One scenario's audit entries, replays aside. */
  function History(audits: seq<AuditEntry>, id: Id): seq<AuditEntry> {
    if audits == [] then []
    else
      var front, last := History(audits[..|audits| - 1], id), audits[|audits| - 1];
      if last.scenarioId == id && last.action != ReplayAction then front + [last] else front
  }

  predicate LegalEntry(e: AuditEntry) {
    match e.action
    case CreateFrozenDraft => e.before == None && e.after == Draft
    case SimulateAction => e.before == Some(Draft) && e.after == Simulated && e.key != ""
    case TransitionAction => e.before.Some? && CanTransition(e.before.value, e.after) && e.after != Simulated
    case ReplayAction => false
  }

  function LastState(start: Option<ScenarioState>, entries: seq<AuditEntry>): Option<ScenarioState> {
    if entries == [] then start else Some(entries[|entries| - 1].after)
  }

  /** The entries lead, one legal change after another, from `start` to `current`; None is "not created". */
  predicate UnbrokenWalk(start: Option<ScenarioState>, entries: seq<AuditEntry>, current: Option<ScenarioState>) {
    && (forall i :: 0 <= i < |entries| ==>
          LegalEntry(entries[i]) && entries[i].before == LastState(start, entries[..i]))
    && current == LastState(start, entries)
  }

  function StateOf(rows: map<Id, Scenario>, id: Id): Option<ScenarioState> {
    if id in rows then Some(rows[id].state) else None
  }

  ghost predicate GoodWalks(seeded: map<Id, Scenario>, store: Store) {
    forall id: Id :: UnbrokenWalk(StateOf(seeded, id), History(store.audits, id), StateOf(store.rows, id))
  }

  /** The key of the last simulation among the entries, or the key held before them. */
  function RecordedKey(start: string, entries: seq<AuditEntry>): string {
    if entries == [] then start
    else
      var last := entries[|entries| - 1];
      if last.action == SimulateAction then last.key else RecordedKey(start, entries[..|entries| - 1])
  }

  function KeyOf(rows: map<Id, Scenario>, id: Id): string {
    if id in rows then rows[id].key else ""
  }

  /** What the audit log says a scenario's key is. */
  function KeyInLog(seeded: map<Id, Scenario>, audits: seq<AuditEntry>, id: Id): string {
    RecordedKey(KeyOf(seeded, id), History(audits, id))
  }

  /** A row's key is the key of its last committed simulation, the seeded key, or empty when there is neither. */
  ghost predicate GoodKeys(seeded: map<Id, Scenario>, store: Store) {
    forall id: Id :: KeyOf(store.rows, id) == KeyInLog(seeded, store.audits, id)
  }

  ghost predicate Invariant(codec: Codec, seeded: map<Id, Scenario>, s: System) {
    && GoodRows(codec, s.store.rows) && UniqueRows(s.store.rows)
    && GoodInflight(codec, s) && GoodWalks(seeded, s.store) && GoodKeys(seeded, s.store)
  }

  /** Start-up: nothing in flight, no audit entries, and at most seeded scenarios, which are already simulated. */
  ghost predicate Initial(codec: Codec, s: System) {
    && s.inflight == map[] && s.store.audits == []
    && GoodRows(codec, s.store.rows) && UniqueRows(s.store.rows)
    && forall id :: id in s.store.rows ==> s.store.rows[id].state == Simulated
  }

  // ---- Each step keeps it ----

  lemma InitialInvariant(codec: Codec, s: System)
    requires Initial(codec, s)
    ensures Invariant(codec, s.store.rows, s)
  {
  }

  lemma ReadGood(codec: Codec, store: Store, request: Request)
    requires GoodRows(codec, store.rows)
    ensures var outcome := ReadStep(codec, store, request);
      outcome.Proceed? ==> GoodPending(codec, store.rows, outcome.pending)
  {
  }

  lemma LookupGood(codec: Codec, store: Store, read: Scenario, key: string)
    requires GoodPending(codec, store.rows, PendingLookup(read, key))
    ensures var outcome := LookupSimulate(codec, store, read, key);
      outcome.Proceed? ==> GoodPending(codec, store.rows, outcome.pending)
  {
  }

  /** The one row a commit writes. */
  function Written(pending: Pending, newId: Id): Id {
    if pending.PendingCreate? then newId else pending.read.id
  }

  lemma CommitWritesOneRow(store: Store, pending: Pending, newId: Id)
    requires CommitStep(store, pending, newId).Ok?
    ensures var rows, id := CommitStep(store, pending, newId).value.rows, Written(pending, newId);
      id in rows && rows == store.rows[id := rows[id]]
  {
  }

  lemma WrittenRowGood(codec: Codec, store: Store, pending: Pending, newId: Id)
    requires GoodPending(codec, store.rows, pending) && CommitStep(store, pending, newId).Ok?
    requires !pending.PendingCreate? ==> GoodRow(codec, pending.read.id, store.rows[pending.read.id])
    ensures GoodRow(codec, Written(pending, newId),
                    CommitStep(store, pending, newId).value.rows[Written(pending, newId)])
  {
  }

  lemma CommitGoodRows(codec: Codec, store: Store, pending: Pending, newId: Id)
    requires GoodRows(codec, store.rows) && GoodPending(codec, store.rows, pending)
    requires CommitStep(store, pending, newId).Ok?
    ensures GoodRows(codec, CommitStep(store, pending, newId).value.rows)
  {
    WrittenRowGood(codec, store, pending, newId);
    CommitWritesOneRow(store, pending, newId);
  }

  lemma ChangeKeepsUnique(rows: map<Id, Scenario>, id: Id, row: Scenario)
    requires UniqueRows(rows)
    requires forall j :: j in rows && j != id ==> rows[j].key != row.key && !SameInput(rows[j], row)
    ensures UniqueRows(rows[id := row])
  {
  }

  lemma CommitUniqueRows(codec: Codec, store: Store, pending: Pending, newId: Id)
    requires UniqueRows(store.rows) && GoodPending(codec, store.rows, pending) && CommitStep(store, pending, newId).Ok?
    ensures UniqueRows(CommitStep(store, pending, newId).value.rows)
  {
    var changed := Written(pending, newId);
    CommitWritesOneRow(store, pending, newId);
    var row := CommitStep(store, pending, newId).value.rows[changed];
    if !pending.PendingCreate? {
      assert SameInput(row, store.rows[changed]);
      assert row.key == if pending.PendingSimulate? then pending.key else store.rows[changed].key;
    }
    ChangeKeepsUnique(store.rows, changed, row);
  }

  /** Commits never remove a row, and never touch its id, creator or frozen input. */
  lemma CommitKeepsOrigin(store: Store, pending: Pending, newId: Id, id: Id)
    requires CommitStep(store, pending, newId).Ok? && id in store.rows
    ensures var rows := CommitStep(store, pending, newId).value.rows;
      && id in rows
      && rows[id].inputSnapshot == store.rows[id].inputSnapshot && rows[id].createdBy == store.rows[id].createdBy
      && rows[id].id == store.rows[id].id && SameInput(rows[id], store.rows[id])
  {
  }

  lemma CommitKeepsPending(codec: Codec, store: Store, pending: Pending, newId: Id, other: Pending)
    requires CommitStep(store, pending, newId).Ok? && GoodPending(codec, store.rows, other)
    ensures GoodPending(codec, CommitStep(store, pending, newId).value.rows, other)
  {
  }

  lemma HistoryAppend(audits: seq<AuditEntry>, e: AuditEntry, id: Id)
    ensures History(audits + [e], id) ==
      if e.scenarioId == id && e.action != ReplayAction then History(audits, id) + [e] else History(audits, id)
  {
  }

  lemma WalkAppend(start: Option<ScenarioState>, entries: seq<AuditEntry>, current: Option<ScenarioState>,
                   e: AuditEntry)
    requires UnbrokenWalk(start, entries, current) && LegalEntry(e) && e.before == current
    ensures UnbrokenWalk(start, entries + [e], Some(e.after))
  {
    var all, n := entries + [e], |entries|;
    assert all[..n] == entries;
    forall i | 0 <= i < n ensures LegalEntry(all[i]) && all[i].before == LastState(start, all[..i]) {
      assert all[i] == entries[i] && all[..i] == entries[..i];
    }
  }

  /** One commit appends one entry; unless it is a replay, that entry records exactly the change of state. */
  lemma CommitRecorded(codec: Codec, store: Store, pending: Pending, newId: Id)
    requires GoodPending(codec, store.rows, pending) && CommitStep(store, pending, newId).Ok?
    ensures var after := CommitStep(store, pending, newId).value;
      && |after.audits| == |store.audits| + 1 && after.audits[..|store.audits|] == store.audits
      && var e := after.audits[|store.audits|];
      && (e.action != ReplayAction ==> LegalEntry(e) && e.before == StateOf(store.rows, e.scenarioId)
                                       && StateOf(after.rows, e.scenarioId) == Some(e.after))
      && (e.action == ReplayAction ==> StateOf(after.rows, e.scenarioId) == StateOf(store.rows, e.scenarioId))
      && forall id :: id != e.scenarioId ==> StateOf(after.rows, id) == StateOf(store.rows, id)
  {
  }

  lemma CommitKeepsWalks(codec: Codec, seeded: map<Id, Scenario>, store: Store, pending: Pending, newId: Id)
    requires GoodWalks(seeded, store) && GoodPending(codec, store.rows, pending)
    requires CommitStep(store, pending, newId).Ok?
    ensures GoodWalks(seeded, CommitStep(store, pending, newId).value)
  {
    var after := CommitStep(store, pending, newId).value;
    CommitRecorded(codec, store, pending, newId);
    var e := after.audits[|store.audits|];
    assert after.audits == store.audits + [e];
    forall id: Id ensures UnbrokenWalk(StateOf(seeded, id), History(after.audits, id), StateOf(after.rows, id)) {
      HistoryAppend(store.audits, e, id);
      if id == e.scenarioId && e.action != ReplayAction {
        WalkAppend(StateOf(seeded, id), History(store.audits, id), StateOf(store.rows, id), e);
      }
    }
  }

  lemma KeyAppend(start: string, entries: seq<AuditEntry>, e: AuditEntry)
    ensures RecordedKey(start, entries + [e]) ==
      if e.action == SimulateAction then e.key else RecordedKey(start, entries)
  {
    assert (entries + [e])[..|entries|] == entries;
  }

  /** The entry a commit appends carries the key the row then holds, if it changes it at all. */
  lemma CommitRecordsKey(codec: Codec, store: Store, pending: Pending, newId: Id, id: Id)
    requires GoodPending(codec, store.rows, pending) && CommitStep(store, pending, newId).Ok?
    ensures var after := CommitStep(store, pending, newId).value;
      && |after.audits| == |store.audits| + 1
      && after.audits == store.audits + [after.audits[|store.audits|]]
      && var e := after.audits[|store.audits|];
      KeyOf(after.rows, id) == if e.scenarioId == id && e.action == SimulateAction then e.key else KeyOf(store.rows, id)
  {
  }

  lemma CommitKeepsKeys(codec: Codec, seeded: map<Id, Scenario>, store: Store, pending: Pending, newId: Id)
    requires GoodKeys(seeded, store) && GoodPending(codec, store.rows, pending) && CommitStep(store, pending, newId).Ok?
    ensures GoodKeys(seeded, CommitStep(store, pending, newId).value)
  {
    var after := CommitStep(store, pending, newId).value;
    forall id: Id ensures KeyOf(after.rows, id) == KeyInLog(seeded, after.audits, id) {
      CommitRecordsKey(codec, store, pending, newId, id);
      var e := after.audits[|store.audits|];
      HistoryAppend(store.audits, e, id);
      KeyAppend(KeyOf(seeded, id), History(store.audits, id), e);
    }
  }

  lemma NextKeepsInvariant(codec: Codec, seeded: map<Id, Scenario>, s: System, event: Event)
    requires Invariant(codec, seeded, s)
    ensures Invariant(codec, seeded, Next(codec, s, event))
  {
    match event
    case Read(number, request) =>
      ReadGood(codec, s.store, request);
    case Lookup(number, _) =>
      if number in s.inflight && s.inflight[number].PendingLookup? {
        LookupGood(codec, s.store, s.inflight[number].read, s.inflight[number].key);
      }
    case Commit(number, newId, durable) =>
      if number in s.inflight && durable && CommitStep(s.store, s.inflight[number], newId).Ok? {
        var pending := s.inflight[number];
        CommitGoodRows(codec, s.store, pending, newId);
        CommitUniqueRows(codec, s.store, pending, newId);
        CommitKeepsWalks(codec, seeded, s.store, pending, newId);
        CommitKeepsKeys(codec, seeded, s.store, pending, newId);
        forall n | n in s.inflight {
          CommitKeepsPending(codec, s.store, pending, newId, s.inflight[n]);
        }
      }
  }

  /** The invariant holds after every interleaving of any number of requests. */
  lemma {:induction false} RunInvariant(codec: Codec, s: System, events: seq<Event>)
    requires Initial(codec, s)
    ensures Invariant(codec, s.store.rows, Run(codec, s, events))
  {
    if events == [] {
      InitialInvariant(codec, s);
    } else {
      var n := |events| - 1;
      RunInvariant(codec, s, events[..n]);
      NextKeepsInvariant(codec, s.store.rows, Run(codec, s, events[..n]), events[n]);
    }
  }

  // ---- Consequences over whole runs ----

  /** Replaying a scenario that is past draft always reproduces the stored answer. */
  lemma ReplayAlwaysPasses(codec: Codec, s: System, events: seq<Event>, id: Id, actor: Actor)
    requires Initial(codec, s)
    requires id in Run(codec, s, events).store.rows
    ensures var store := Run(codec, s, events).store; var row := store.rows[id];
      row.state != Draft && MayManage(actor, row) ==>
        ReadReplay(codec, store, id, actor) == Proceed(PendingReplay(row, true))
  {
    RunInvariant(codec, s, events);
    var store := Run(codec, s, events).store;
    assert GoodRow(codec, id, store.rows[id]);
  }

  /** If stored snapshots read back as written, every scenario's frozen input decodes and validates, drafts included. */
  lemma FrozenInputsValid(codec: Codec, s: System, events: seq<Event>, id: Id)
    requires Initial(codec, s) && codec.Lawful() && id in Run(codec, s, events).store.rows
    ensures FrozenInput(codec, Run(codec, s, events).store.rows[id].inputSnapshot)
  {
    RunInvariant(codec, s, events);
    assert GoodRow(codec, id, Run(codec, s, events).store.rows[id]);
  }

  /** The audit log tells each scenario's whole story, ending at its stored state. */
  lemma AuditWalkUnbroken(codec: Codec, s: System, events: seq<Event>, id: Id)
    requires Initial(codec, s)
    ensures var store := Run(codec, s, events).store;
      UnbrokenWalk(StateOf(s.store.rows, id), History(store.audits, id), StateOf(store.rows, id))
  {
    RunInvariant(codec, s, events);
  }

  /** Independent verification: a verified scenario, and no other, names a verifier, who is not its creator. */
  lemma VerifiedByAnother(codec: Codec, s: System, events: seq<Event>, id: Id)
    requires Initial(codec, s) && id in Run(codec, s, events).store.rows
    ensures var row := Run(codec, s, events).store.rows[id];
      && (row.verifiedBy.Some? <==> row.state == Verified)
      && (row.verifiedBy.Some? ==> row.verifiedBy.value != row.createdBy)
  {
    RunInvariant(codec, s, events);
    assert GoodRow(codec, id, Run(codec, s, events).store.rows[id]);
  }

  predicate Terminal(state: ScenarioState) {
    state == Verified || state == Rollback
  }

  lemma {:induction false} RunSplits(codec: Codec, s: System, first: seq<Event>, second: seq<Event>)
    ensures Run(codec, s, first + second) == Run(codec, Run(codec, s, first), second)
    decreases |second|
  {
    if second == [] {
      assert first + second == first;
    } else {
      var all := first + second;
      assert all[..|all| - 1] == first + second[..|second| - 1];
      RunSplits(codec, s, first, second[..|second| - 1]);
    }
  }

  lemma CommitKeepsTerminal(codec: Codec, store: Store, pending: Pending, newId: Id, id: Id)
    requires GoodPending(codec, store.rows, pending) && CommitStep(store, pending, newId).Ok?
    requires id in store.rows && Terminal(store.rows[id].state)
    ensures StateOf(CommitStep(store, pending, newId).value.rows, id) == Some(store.rows[id].state)
  {
  }

  lemma NextKeepsTerminal(codec: Codec, seeded: map<Id, Scenario>, s: System, event: Event, id: Id)
    requires Invariant(codec, seeded, s) && id in s.store.rows && Terminal(s.store.rows[id].state)
    ensures StateOf(Next(codec, s, event).store.rows, id) == Some(s.store.rows[id].state)
  {
    if event.Commit? && event.number in s.inflight && CommitStep(s.store, s.inflight[event.number], event.newId).Ok? {
      CommitKeepsTerminal(codec, s.store, s.inflight[event.number], event.newId, id);
    }
  }

  lemma {:induction false} RunKeepsInvariant(codec: Codec, seeded: map<Id, Scenario>, s: System, later: seq<Event>)
    requires Invariant(codec, seeded, s)
    ensures Invariant(codec, seeded, Run(codec, s, later))
  {
    if later != [] {
      var n := |later| - 1;
      RunKeepsInvariant(codec, seeded, s, later[..n]);
      NextKeepsInvariant(codec, seeded, Run(codec, s, later[..n]), later[n]);
    }
  }

  lemma {:induction false} RunKeepsTerminal(codec: Codec, seeded: map<Id, Scenario>, s: System, later: seq<Event>,
                                            id: Id)
    requires Invariant(codec, seeded, s) && id in s.store.rows && Terminal(s.store.rows[id].state)
    ensures StateOf(Run(codec, s, later).store.rows, id) == Some(s.store.rows[id].state)
  {
    if later != [] {
      var n := |later| - 1;
      RunKeepsTerminal(codec, seeded, s, later[..n], id);
      RunKeepsInvariant(codec, seeded, s, later[..n]);
      NextKeepsTerminal(codec, seeded, Run(codec, s, later[..n]), later[n], id);
    }
  }

  /** Verified and rollback are never left, whatever happens later. */
  lemma TerminalForever(codec: Codec, s: System, before: seq<Event>, later: seq<Event>, id: Id)
    requires Initial(codec, s)
    requires id in Run(codec, s, before).store.rows && Terminal(Run(codec, s, before).store.rows[id].state)
    ensures StateOf(Run(codec, s, before + later).store.rows, id) == StateOf(Run(codec, s, before).store.rows, id)
  {
    RunSplits(codec, s, before, later);
    RunInvariant(codec, s, before);
    RunKeepsTerminal(codec, s.store.rows, Run(codec, s, before), later, id);
  }

  lemma {:induction false} RunKeepsOrigin(codec: Codec, s: System, later: seq<Event>, id: Id)
    requires id in s.store.rows
    ensures id in Run(codec, s, later).store.rows
    ensures Run(codec, s, later).store.rows[id].inputSnapshot == s.store.rows[id].inputSnapshot
    ensures Run(codec, s, later).store.rows[id].createdBy == s.store.rows[id].createdBy
  {
    if later != [] {
      var n := |later| - 1;
      RunKeepsOrigin(codec, s, later[..n], id);
      var mid, event := Run(codec, s, later[..n]), later[n];
      if event.Commit? && event.number in mid.inflight
        && CommitStep(mid.store, mid.inflight[event.number], event.newId).Ok? {
        CommitKeepsOrigin(mid.store, mid.inflight[event.number], event.newId, id);
      }
    }
  }

  /** The frozen input and the creator of a scenario never change, and it is never deleted. */
  lemma FrozenForever(codec: Codec, s: System, before: seq<Event>, later: seq<Event>, id: Id)
    requires id in Run(codec, s, before).store.rows
    ensures var earlier, finally := Run(codec, s, before).store.rows, Run(codec, s, before + later).store.rows;
      && id in finally
      && finally[id].inputSnapshot == earlier[id].inputSnapshot && finally[id].createdBy == earlier[id].createdBy
  {
    RunSplits(codec, s, before, later);
    RunKeepsOrigin(codec, Run(codec, s, before), later, id);
  }

  // ---- Counting simulations ----

  function Simulations(entries: seq<AuditEntry>): nat {
    if entries == [] then 0
    else Simulations(entries[..|entries| - 1]) + if entries[|entries| - 1].action == SimulateAction then 1 else 0
  }

  function Returns(entries: seq<AuditEntry>): nat {
    if entries == [] then 0
    else
      var last := entries[|entries| - 1];
      Returns(entries[..|entries| - 1]) + if last.action == TransitionAction && last.after == Draft then 1 else 0
  }

  function PastDraft(state: Option<ScenarioState>): int {
    if state == None || state == Some(Draft) then 0 else 1
  }

  lemma {:induction false} WalkBalances(start: Option<ScenarioState>, entries: seq<AuditEntry>,
                                        current: Option<ScenarioState>)
    requires UnbrokenWalk(start, entries, current)
    ensures Simulations(entries) - Returns(entries) == PastDraft(current) - PastDraft(start)
  {
    if entries != [] {
      var n := |entries| - 1;
      var front, last := entries[..n], entries[n];
      assert UnbrokenWalk(start, front, last.before) by {
        forall i | 0 <= i < n ensures front[i].before == LastState(start, front[..i]) && LegalEntry(front[i]) {
          assert front[..i] == entries[..i] && entries[i] == front[i];
        }
        assert LegalEntry(entries[n]) && entries[n].before == LastState(start, entries[..n]);
      }
      WalkBalances(start, front, last.before);
    }
  }

  /**
   * A created scenario has one more committed simulation than committed returns to draft, or as many if it is a
   * draft.
   */
  lemma SimulationsBalance(codec: Codec, s: System, events: seq<Event>, id: Id)
    requires Initial(codec, s) && id !in s.store.rows && id in Run(codec, s, events).store.rows
    ensures var store := Run(codec, s, events).store; var history := History(store.audits, id);
      Simulations(history) - Returns(history) == if store.rows[id].state == Draft then 0 else 1
  {
    AuditWalkUnbroken(codec, s, events, id);
    var store := Run(codec, s, events).store;
    WalkBalances(None, History(store.audits, id), StateOf(store.rows, id));
  }

  // ---- The road to verification ----

  /** The transition table read by target. */
  lemma EnteredFrom(from: ScenarioState, to: ScenarioState)
    requires CanTransition(from, to)
    ensures to == Verified ==> from == Executing
    ensures to == Executing ==> from == Ready
    ensures to == Ready ==> from == Simulated
  {
  }

  /** Each change starts in the state the change before it ended in. */
  lemma ChangesMeet(h: seq<AuditEntry>, current: Option<ScenarioState>, i: nat)
    requires UnbrokenWalk(None, h, current) && i < |h|
    ensures LegalEntry(h[i])
    ensures h[i].before == if i == 0 then None else Some(h[i - 1].after)
  {
    assert i > 0 ==> h[..i][i - 1] == h[i - 1];
  }

  /** A change into one of the last states has a change into the state before it. */
  lemma PreviousChange(h: seq<AuditEntry>, current: Option<ScenarioState>, i: nat)
    requires UnbrokenWalk(None, h, current) && i < |h| && h[i].after != Draft
    ensures i > 0 && h[i].before == Some(h[i - 1].after)
    ensures h[i].after == Verified ==> h[i - 1].after == Executing
    ensures h[i].after == Executing ==> h[i - 1].after == Ready
    ensures h[i].after == Ready ==> h[i - 1].after == Simulated
    ensures h[i].after == Simulated ==> h[i - 1].after == Draft && h[i].action == SimulateAction
  {
    ChangesMeet(h, current, i);
    if h[i].action == TransitionAction {
      EnteredFrom(h[i].before.value, h[i].after);
    }
  }

  predicate EndsInReview(h: seq<AuditEntry>) {
    var n := |h|;
    && n >= 5 && h[n - 4].action == SimulateAction
    && h[n - 3].after == Ready && h[n - 2].after == Executing && h[n - 1].after == Verified
  }

  lemma WalkToVerified(h: seq<AuditEntry>)
    requires UnbrokenWalk(None, h, Some(Verified))
    ensures EndsInReview(h)
  {
    var n := |h|;
    PreviousChange(h, Some(Verified), n - 1);
    PreviousChange(h, Some(Verified), n - 2);
    PreviousChange(h, Some(Verified), n - 3);
    PreviousChange(h, Some(Verified), n - 4);
  }

  /** No shortcut: the last four changes of a verified scenario are simulate, ready, executing, verified. */
  lemma VerifiedOnlyAfterReview(codec: Codec, s: System, events: seq<Event>, id: Id)
    requires Initial(codec, s) && id !in s.store.rows
    requires StateOf(Run(codec, s, events).store.rows, id) == Some(Verified)
    ensures EndsInReview(History(Run(codec, s, events).store.audits, id))
  {
    var store := Run(codec, s, events).store;
    AuditWalkUnbroken(codec, s, events, id);
    WalkToVerified(History(store.audits, id));
  }
}
