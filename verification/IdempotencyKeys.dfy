/**
 * What an idempotency key protects. A row holds one key at a time, and the next simulation overwrites it; so
 * everything is decided by the last key each scenario was simulated under, which the audit log also tells.
 */
module IdempotencyKeys {
  import opened Prelude
  import opened Actors
  import opened Simulator
  import opened Scenarios
  import opened ScenarioRuns
  import Accountability

  // ---- The exact condition, in terms of the audit log ----

  /** Simulate's checks on the key's form, the scenario's existence and its ownership pass. */
  predicate MayAsk(store: Store, id: Id, key: string, actor: Actor) {
    0 < |key| <= 128 && id in store.rows && Accountability.Manages(actor, store.rows[id].createdBy)
  }

  /** No scenario was last simulated under this key. */
  predicate FreeKey(seeded: map<Id, Scenario>, store: Store, key: string) {
    forall id :: id in store.rows ==> KeyInLog(seeded, store.audits, id) != key
  }

  lemma HeldIsLogged(codec: Codec, seeded: map<Id, Scenario>, s: System, id: Id, key: string)
    requires Invariant(codec, seeded, s) && id in s.store.rows
    ensures Holds(s.store.rows, id, key) <==> KeyInLog(seeded, s.store.audits, id) == key
  {
    assert KeyOf(s.store.rows, id) == KeyInLog(seeded, s.store.audits, id);
  }

  lemma FreeIsUnheld(codec: Codec, seeded: map<Id, Scenario>, s: System, key: string)
    requires Invariant(codec, seeded, s)
    ensures FreeKey(seeded, s.store, key) <==> forall id :: !Holds(s.store.rows, id, key)
  {
    forall id | id in s.store.rows {
      HeldIsLogged(codec, seeded, s, id, key);
    }
  }

  /**
   * When a Simulate that nothing interrupts commits: its frozen input decodes and validates, its scenario is
   * a draft, and no scenario, its own included, was last simulated under this key. It then appends one entry.
   */
  lemma AloneCommitsIff(codec: Codec, seeded: map<Id, Scenario>, s: System, id: Id, key: string, actor: Actor)
    requires Invariant(codec, seeded, s)
    ensures var (after, outcome) := SimulateAlone(codec, s.store, id, key, actor, true, true);
      && (outcome.Proceed? <==> MayAsk(s.store, id, key, actor) && FrozenInput(codec, s.store.rows[id].inputSnapshot)
                                && s.store.rows[id].state == Draft && FreeKey(seeded, s.store, key))
      && (outcome.Proceed? ==>
            after.audits == s.store.audits + [AuditEntry(SimulateAction, id, Some(Draft), Simulated, key)])
      && (!outcome.Proceed? ==> after == s.store)
  {
    FreeIsUnheld(codec, seeded, s, key);
    if id in s.store.rows {
      assert GoodRow(codec, id, s.store.rows[id]);
      LookupProceedsIff(codec, s.store, s.store.rows[id], key);
      if forall other :: !Holds(s.store.rows, other, key) {
        NoOtherHolds(s.store.rows, id, key);
      }
    }
  }

  lemma LookupProceedsIff(codec: Codec, store: Store, read: Scenario, key: string)
    ensures LookupSimulate(codec, store, read, key).Proceed? <==>
      (forall id :: !Holds(store.rows, id, key)) && read.state == Draft && FrozenInput(codec, read.inputSnapshot)
  {
  }

  lemma NoOtherHolds(rows: map<Id, Scenario>, id: Id, key: string)
    requires forall other :: other != id ==> !Holds(rows, other, key)
    ensures forall j :: j in rows && j != id ==> rows[j].key != key
  {
    forall j | j in rows && j != id ensures rows[j].key != key {
      assert !Holds(rows, j, key);
    }
  }

  /** "Return the stored result" is kept exactly while the key is the scenario's last one. */
  lemma AloneReusesIff(codec: Codec, seeded: map<Id, Scenario>, s: System, id: Id, key: string, actor: Actor)
    requires Invariant(codec, seeded, s) && MayAsk(s.store, id, key, actor)
    ensures var result := SimulateAlone(codec, s.store, id, key, actor, true, true);
      && (result.1.Reused? <==> KeyInLog(seeded, s.store.audits, id) == key)
      && (result.1.Reused? ==> result == (s.store, Reused(s.store.rows[id])))
  {
    HeldIsLogged(codec, seeded, s, id, key);
    assert GoodRow(codec, id, s.store.rows[id]);
    var holder := FirstHolder(s.store.rows, key);
    if Holds(s.store.rows, id, key) {
      assert holder.Some? && holder.value == id;
    }
  }

  lemma {:induction false} LastSimulation(start: string, h: seq<AuditEntry>, i: nat) returns (last: nat)
    requires i < |h| && h[i].action == SimulateAction
    ensures i <= last < |h| && h[last].action == SimulateAction && RecordedKey(start, h) == h[last].key
    ensures forall k :: last < k < |h| ==> h[k].action != SimulateAction
  {
    var n := |h| - 1;
    if h[n].action == SimulateAction {
      last := n;
    } else {
      last := LastSimulation(start, h[..n], i);
    }
  }

  predicate SimulatedAt(h: seq<AuditEntry>, j: nat) {
    j < |h| && h[j].action == SimulateAction
  }

  /** The j-th entry simulates under another key than the i-th, and the i-th entry's key is not used after it. */
  ghost predicate OverwrittenAt(h: seq<AuditEntry>, i: nat, j: nat)
    requires i < |h|
  {
    && i < j && SimulatedAt(h, j) && h[j].key != h[i].key
    && forall k :: j < k && SimulatedAt(h, k) ==> h[k].key != h[i].key
  }

  /** The key committed by the i-th entry is forgotten: overwritten by a later simulation, and not used again since. */
  ghost predicate Forgotten(h: seq<AuditEntry>, i: nat)
    requires i < |h|
  {
    exists j :: OverwrittenAt(h, i, j)
  }

  /** The scenario's last key differs from an earlier one exactly when that one is forgotten. */
  lemma ForgottenIff(start: string, h: seq<AuditEntry>, i: nat)
    requires SimulatedAt(h, i)
    ensures RecordedKey(start, h) != h[i].key <==> Forgotten(h, i)
  {
    var last := LastSimulation(start, h, i);
    if h[last].key != h[i].key {
      assert OverwrittenAt(h, i, last);
    }
    if j :| OverwrittenAt(h, i, j) {
      assert SimulatedAt(h, last) && j <= last;
    }
  }

  /**
   * So a key the log shows committed for a scenario is committed again, with no overlap, exactly when it has
   * been forgotten by that scenario, the scenario is a draft, and no other scenario has taken the key since.
   */
  lemma LoggedKeyCommitsAgainIff(codec: Codec, seeded: map<Id, Scenario>, s: System, id: Id, i: nat, actor: Actor)
    requires Invariant(codec, seeded, s) && id in s.store.rows && MayManage(actor, s.store.rows[id])
    requires FrozenInput(codec, s.store.rows[id].inputSnapshot)
    requires SimulatedAt(History(s.store.audits, id), i) && |History(s.store.audits, id)[i].key| <= 128
    ensures var h := History(s.store.audits, id);
      var key := h[i].key;
      SimulateAlone(codec, s.store, id, key, actor, true, true).1.Proceed? <==>
        && Forgotten(h, i) && s.store.rows[id].state == Draft
        && forall other :: other in s.store.rows && other != id ==> KeyInLog(seeded, s.store.audits, other) != key
  {
    var h := History(s.store.audits, id);
    ForgottenIff(KeyOf(seeded, id), h, i);
    AloneCommitsIff(codec, seeded, s, id, h[i].key, actor);
    assert UnbrokenWalk(StateOf(seeded, id), h, StateOf(s.store.rows, id));
    assert LegalEntry(h[i]);
  }

  /**
   * The commit step of any Simulate, overlapped or not: a draft row, and no other scenario last simulated under
   * the key.
   */
  lemma CommitSimulateIff(codec: Codec, seeded: map<Id, Scenario>, s: System, read: Scenario, key: string,
                          outputs: Outputs)
    requires Invariant(codec, seeded, s)
    ensures CommitSimulate(s.store, read, key, outputs).Ok? <==>
      && read.id in s.store.rows && s.store.rows[read.id].state == Draft
      && forall other :: other in s.store.rows && other != read.id ==> KeyInLog(seeded, s.store.audits, other) != key
  {
    forall other | other in s.store.rows ensures s.store.rows[other].key == KeyInLog(seeded, s.store.audits, other) {
      HeldIsLogged(codec, seeded, s, other, s.store.rows[other].key);
    }
  }

  // ---- Keys a scenario holds ----

  /** A Simulate whose key the scenario holds when it is looked up commits nothing and returns the stored row. */
  lemma HeldKeyIsReused(codec: Codec, s: System, number: nat)
    requires UniqueRows(s.store.rows)
    requires number in s.inflight && s.inflight[number].PendingLookup?
    requires Holds(s.store.rows, s.inflight[number].read.id, s.inflight[number].key)
    ensures var pending := s.inflight[number];
      && LookupSimulate(codec, s.store, pending.read, pending.key) == Reused(s.store.rows[pending.read.id])
      && Next(codec, s, Lookup(number, true)) == System(s.store, s.inflight - {number})
  {
  }

  /**
   * Once past its lookup, a Simulate whose key its scenario holds by now commits again exactly when the row is
   * a draft.
   */
  lemma HeldKeyCommitsIff(store: Store, read: Scenario, key: string, outputs: Outputs)
    requires UniqueRows(store.rows) && Holds(store.rows, read.id, key)
    ensures CommitSimulate(store, read, key, outputs).Ok? <==> store.rows[read.id].state == Draft
  {
  }

  /** The event commits a simulation of `id` under `key`. */
  ghost predicate CommitsSimulation(s: System, event: Event, id: Id, key: string) {
    && event.Commit? && event.durable && event.number in s.inflight
    && var p := s.inflight[event.number];
       p.PendingSimulate? && p.read.id == id && p.key == key && CommitStep(s.store, p, event.newId).Ok?
  }

  lemma CommitKeyAppears(codec: Codec, store: Store, pending: Pending, newId: Id, id: Id, key: string)
    requires GoodPending(codec, store.rows, pending) && CommitStep(store, pending, newId).Ok? && key != ""
    requires !Holds(store.rows, id, key) && Holds(CommitStep(store, pending, newId).value.rows, id, key)
    ensures pending.PendingSimulate? && pending.read.id == id && pending.key == key
  {
  }

  /** A scenario comes to hold a key only by a simulation committed under it. */
  lemma {:induction false} KeyRecordedBySimulation(codec: Codec, seeded: map<Id, Scenario>, s: System,
                                                   later: seq<Event>, id: Id, key: string)
    returns (k: nat)
    requires Invariant(codec, seeded, s) && key != ""
    requires !Holds(s.store.rows, id, key) && Holds(Run(codec, s, later).store.rows, id, key)
    ensures k < |later| && CommitsSimulation(Run(codec, s, later[..k]), later[k], id, key)
  {
    var n := |later| - 1;
    var last, event := Run(codec, s, later[..n]), later[n];
    if Holds(last.store.rows, id, key) {
      k := KeyRecordedBySimulation(codec, seeded, s, later[..n], id, key);
      assert later[..n][..k] == later[..k];
    } else {
      k := n;
      RunKeepsInvariant(codec, seeded, s, later[..n]);
      CommitKeyAppears(codec, last.store, last.inflight[event.number], event.newId, id, key);
    }
  }

  /**
   * A request past its lookup finds its key on its own row only if another simulation has committed the key
   * since that lookup.
   */
  lemma RepeatedKeyNeedsOverlap(codec: Codec, seeded: map<Id, Scenario>, looked: System, later: seq<Event>,
                                read: Scenario, key: string)
    returns (k: nat)
    requires Invariant(codec, seeded, looked) && key != ""
    requires LookupSimulate(codec, looked.store, read, key).Proceed?
    requires Holds(Run(codec, looked, later).store.rows, read.id, key)
    ensures k < |later| && CommitsSimulation(Run(codec, looked, later[..k]), later[k], read.id, key)
  {
    assert FirstHolder(looked.store.rows, key).None?;
    k := KeyRecordedBySimulation(codec, seeded, looked, later, read.id, key);
  }

  // ---- One key committed twice, without any overlap ----

  /** Nothing in flight, and a draft whose creator may simulate it under a key that no row holds. */
  ghost predicate FreshKey(codec: Codec, s: System, id: Id, key: string, actor: Actor) {
    && s.inflight == map[] && MayAsk(s.store, id, key, actor) && s.store.rows[id].id == id
    && FrozenInput(codec, s.store.rows[id].inputSnapshot) && s.store.rows[id].state == Draft
    && forall other :: !Holds(s.store.rows, other, key)
  }

  function Alone(id: Id, key: string, actor: Actor): seq<Event> {
    [Read(0, SimulateRequest(id, key, actor)), Lookup(0, true), Commit(0, 0, true)]
  }

  function Return(id: Id, actor: Actor): seq<Event> {
    [Read(0, TransitionRequest(id, Draft, "", actor)), Commit(0, 0, true)]
  }

  lemma RunTwo(codec: Codec, s: System, a: Event, b: Event)
    ensures Run(codec, s, [a, b]) == Next(codec, Next(codec, s, a), b)
  {
    assert [a, b][..1] == [a] && [a][..0] == [];
    assert Run(codec, s, [a]) == Next(codec, s, a);
  }

  lemma RunThree(codec: Codec, s: System, a: Event, b: Event, c: Event)
    ensures Run(codec, s, [a, b, c]) == Next(codec, Next(codec, Next(codec, s, a), b), c)
  {
    assert [a, b, c][..2] == [a, b];
    RunTwo(codec, s, a, b);
  }

  /** A system whose only request, numbered 0, stands where `outcome` left it. */
  function Only(store: Store, outcome: ReadOutcome): System {
    System(store, if outcome.Proceed? then map[0 := outcome.pending] else map[])
  }

  lemma ReadsAlone(codec: Codec, store: Store, request: Request)
    ensures Next(codec, System(store, map[]), Read(0, request)) == Only(store, ReadStep(codec, store, request))
  {
    var none: map<nat, Pending> := map[];
    assert none - {0} == none;
  }

  lemma LooksUpAlone(codec: Codec, store: Store, read: ReadOutcome)
    requires read.Proceed? ==> read.pending.PendingLookup?
    ensures Next(codec, Only(store, read), Lookup(0, true)) == Only(store,
      if read.Proceed? then LookupSimulate(codec, store, read.pending.read, read.pending.key) else read)
  {
    if read.Proceed? {
      assert map[0 := read.pending] - {0} == map[];
    }
  }

  lemma CommitsAlone(codec: Codec, store: Store, outcome: ReadOutcome)
    requires outcome.Proceed? ==> !outcome.pending.PendingLookup?
    ensures Next(codec, Only(store, outcome), Commit(0, 0, true)) == System(
      if outcome.Proceed? && CommitStep(store, outcome.pending, 0).Ok? then CommitStep(store, outcome.pending, 0).value
      else store, map[])
  {
    if outcome.Proceed? {
      assert map[0 := outcome.pending] - {0} == map[];
    }
  }

  /** The events of one request with nothing between them do what SimulateAlone says. */
  lemma RunAlone(codec: Codec, s: System, id: Id, key: string, actor: Actor)
    requires s.inflight == map[]
    ensures Run(codec, s, Alone(id, key, actor)) ==
      System(SimulateAlone(codec, s.store, id, key, actor, true, true).0, map[])
  {
    var e := Alone(id, key, actor);
    RunThree(codec, s, e[0], e[1], e[2]);
    var read := ReadSimulate(s.store, id, key, actor);
    ReadsAlone(codec, s.store, SimulateRequest(id, key, actor));
    LooksUpAlone(codec, s.store, read);
    CommitsAlone(codec, s.store, if read.Proceed? then LookupSimulate(codec, s.store, s.store.rows[id], key) else read);
  }

  /** A fresh key is committed, and changes nothing else but the row's answer and state. */
  lemma FreshAlone(codec: Codec, s: System, id: Id, key: string, actor: Actor) returns (row: Scenario)
    requires FreshKey(codec, s, id, key, actor)
    ensures SimulateAlone(codec, s.store, id, key, actor, true, true).0 == Store(s.store.rows[id := row],
      s.store.audits + [AuditEntry(SimulateAction, id, Some(Draft), Simulated, key)])
    ensures row == s.store.rows[id].(state := Simulated, outputs := row.outputs, key := key)
  {
    LookupProceedsIff(codec, s.store, s.store.rows[id], key);
    NoOtherHolds(s.store.rows, id, key);
    row := SimulateAlone(codec, s.store, id, key, actor, true, true).0.rows[id];
  }

  lemma RunReturn(codec: Codec, s: System, id: Id, actor: Actor)
    requires s.inflight == map[] && id in s.store.rows && s.store.rows[id].id == id
    requires s.store.rows[id].state == Simulated && MayManage(actor, s.store.rows[id])
    ensures Run(codec, s, Return(id, actor)) == System(Store(s.store.rows[id := s.store.rows[id].(state := Draft)],
      s.store.audits + [AuditEntry(TransitionAction, id, Some(Simulated), Draft, s.store.rows[id].key)]), map[])
  {
    var e := Return(id, actor);
    RunTwo(codec, s, e[0], e[1]);
    var back := PendingTransition(s.store.rows[id], Draft, "", actor);
    ReadsAlone(codec, s.store, TransitionRequest(id, Draft, "", actor));
    CommitsAlone(codec, s.store, Proceed(back));
  }

  /** Simulating under one fresh key and returning to draft leaves every other unheld key fresh. */
  lemma SimulateAndReturn(codec: Codec, s: System, id: Id, key: string, actor: Actor) returns (t: System)
    requires FreshKey(codec, s, id, key, actor)
    ensures t == Run(codec, s, Alone(id, key, actor) + Return(id, actor))
    ensures |t.store.audits| == |s.store.audits| + 2 && s.store.audits <= t.store.audits
    ensures t.store.audits[|s.store.audits|] == AuditEntry(SimulateAction, id, Some(Draft), Simulated, key)
    ensures t.inflight == map[] && id in t.store.rows && t.store.rows.Keys == s.store.rows.Keys
    ensures t.store.rows[id] == s.store.rows[id].(outputs := t.store.rows[id].outputs, key := key)
    ensures forall j :: j in s.store.rows && j != id ==> t.store.rows[j] == s.store.rows[j]
  {
    var row := FreshAlone(codec, s, id, key, actor);
    RunAlone(codec, s, id, key, actor);
    var mid := Run(codec, s, Alone(id, key, actor));
    assert mid.store.rows[id] == row;
    RunReturn(codec, mid, id, actor);
    RunSplits(codec, s, Alone(id, key, actor), Return(id, actor));
    t := Run(codec, s, Alone(id, key, actor) + Return(id, actor));
  }

  lemma StaysFresh(codec: Codec, s: System, t: System, id: Id, used: string, key: string, actor: Actor)
    requires s.inflight == t.inflight == map[] && id in s.store.rows && id in t.store.rows
    requires t.store.rows.Keys == s.store.rows.Keys && s.store.rows[id].state == Draft && used != key
    requires t.store.rows[id] == s.store.rows[id].(outputs := t.store.rows[id].outputs, key := used)
    requires forall j :: j in s.store.rows && j != id ==>
      t.store.rows[j] == s.store.rows[j] && s.store.rows[j].key != key
    requires MayAsk(s.store, id, key, actor) && s.store.rows[id].id == id
    requires FrozenInput(codec, s.store.rows[id].inputSnapshot)
    ensures FreshKey(codec, t, id, key, actor)
  {
  }

  /** Simulate, return to draft, simulate under another key, return, and simulate under the first key again. */
  function FirstKeyAgain(id: Id, first: string, second: string, actor: Actor): seq<Event> {
    Alone(id, first, actor) + Return(id, actor) + (Alone(id, second, actor) + Return(id, actor))
    + Alone(id, first, actor)
  }

  /**
   * "Repeated requests with the same key return the stored result" fails without any overlap too: each
   * request below finishes before the next starts, and the first key is committed twice, because the second
   * one overwrote it.
   */
  lemma OverwrittenKeyCommitsAgain(codec: Codec, s: System, id: Id, first: string, second: string, actor: Actor)
    requires FreshKey(codec, s, id, first, actor) && FreshKey(codec, s, id, second, actor) && first != second
    ensures var n, after := |s.store.audits|, Run(codec, s, FirstKeyAgain(id, first, second, actor)).store;
      && |after.audits| == n + 5
      && after.audits[n] == AuditEntry(SimulateAction, id, Some(Draft), Simulated, first)
      && after.audits[n + 4] == AuditEntry(SimulateAction, id, Some(Draft), Simulated, first)
  {
    var once := Alone(id, first, actor) + Return(id, actor);
    var twice := Alone(id, second, actor) + Return(id, actor);
    var t := SimulateAndReturn(codec, s, id, first, actor);
    NoOtherHolds(s.store.rows, id, first);
    NoOtherHolds(s.store.rows, id, second);
    StaysFresh(codec, s, t, id, first, second, actor);
    var u := SimulateAndReturn(codec, t, id, second, actor);
    StaysFresh(codec, t, u, id, second, first, actor);
    var row := FreshAlone(codec, u, id, first, actor);
    RunAlone(codec, u, id, first, actor);
    RunSplits(codec, s, once, twice);
    RunSplits(codec, s, once + twice, Alone(id, first, actor));
  }

  // ---- One key committed twice, by overlapping requests ----

  /** Two simulations of one scenario both look the key up before either commits. */
  function BothLookUp(id: Id, key: string, actor: Actor): seq<Event> {
    var request := SimulateRequest(id, key, actor);
    [Read(0, request), Read(1, request), Lookup(0, true), Lookup(1, true)]
  }

  /** The first commits, the scenario is returned to draft, the second commits. */
  function CommitReturnCommit(id: Id, actor: Actor): seq<Event> {
    [Commit(0, 0, true), Read(2, TransitionRequest(id, Draft, "", actor)), Commit(2, 0, true), Commit(1, 0, true)]
  }

  lemma RunFour(codec: Codec, s: System, a: Event, b: Event, c: Event, d: Event)
    ensures Run(codec, s, [a, b, c, d]) == Next(codec, Next(codec, Next(codec, Next(codec, s, a), b), c), d)
  {
    assert [a, b, c, d][..3] == [a, b, c] && [a, b, c][..2] == [a, b] && [a, b][..1] == [a] && [a][..0] == [];
    assert Run(codec, s, [a]) == Next(codec, s, a);
    assert Run(codec, s, [a, b]) == Next(codec, Run(codec, s, [a]), b);
    assert Run(codec, s, [a, b, c]) == Next(codec, Run(codec, s, [a, b]), c);
  }

  lemma FreshKeyProceeds(codec: Codec, s: System, id: Id, key: string, actor: Actor) returns (ready: Pending)
    requires FreshKey(codec, s, id, key, actor)
    ensures LookupSimulate(codec, s.store, s.store.rows[id], key) == Proceed(ready)
    ensures ready.PendingSimulate? && ready.read == s.store.rows[id] && ready.key == key
  {
    var row := s.store.rows[id];
    ready := PendingSimulate(row, key, codec.Encode(SimulationOf(codec.decodeSnapshot(row.inputSnapshot).value)));
  }

  lemma BothProceed(codec: Codec, s: System, id: Id, key: string, actor: Actor, ready: Pending)
    requires FreshKey(codec, s, id, key, actor)
    requires LookupSimulate(codec, s.store, s.store.rows[id], key) == Proceed(ready)
    ensures Run(codec, s, BothLookUp(id, key, actor)) == System(s.store, map[0 := ready, 1 := ready])
  {
    var request, read := SimulateRequest(id, key, actor), PendingLookup(s.store.rows[id], key);
    RunFour(codec, s, Read(0, request), Read(1, request), Lookup(0, true), Lookup(1, true));
    BothRead(codec, s.store, request, read);
    BothLookedUp(codec, s.store, map[0 := read, 1 := read], s.store.rows[id], key, ready);
    assert map[0 := read, 1 := read][0 := ready][1 := ready] == map[0 := ready, 1 := ready];
  }

  lemma BothRead(codec: Codec, store: Store, request: Request, read: Pending)
    requires ReadStep(codec, store, request) == Proceed(read)
    ensures Next(codec, Next(codec, System(store, map[]), Read(0, request)), Read(1, request)) ==
      System(store, map[0 := read, 1 := read])
  {
    var none: map<nat, Pending> := map[];
    NextReads(codec, System(store, none), 0, request, read);
    assert none[0 := read] == map[0 := read];
    NextReads(codec, System(store, map[0 := read]), 1, request, read);
    assert map[0 := read][1 := read] == map[0 := read, 1 := read];
  }

  lemma BothLookedUp(codec: Codec, store: Store, waiting: map<nat, Pending>, row: Scenario, key: string, ready: Pending)
    requires LookupSimulate(codec, store, row, key) == Proceed(ready)
    requires 0 in waiting && waiting[0] == PendingLookup(row, key)
    requires 1 in waiting && waiting[1] == PendingLookup(row, key)
    ensures Next(codec, Next(codec, System(store, waiting), Lookup(0, true)), Lookup(1, true)) ==
      System(store, waiting[0 := ready][1 := ready])
  {
    NextLooksUp(codec, System(store, waiting), 0, row, key, ready);
    NextLooksUp(codec, System(store, waiting[0 := ready]), 1, row, key, ready);
  }

  lemma NextCommits(codec: Codec, s: System, number: nat, after: Store)
    requires number in s.inflight && !s.inflight[number].PendingLookup?
    requires CommitStep(s.store, s.inflight[number], 0) == Ok(after)
    ensures Next(codec, s, Commit(number, 0, true)) == System(after, s.inflight - {number})
  {
  }

  lemma NextReads(codec: Codec, s: System, number: nat, request: Request, pending: Pending)
    requires number !in s.inflight && ReadStep(codec, s.store, request) == Proceed(pending)
    ensures Next(codec, s, Read(number, request)) == System(s.store, s.inflight[number := pending])
  {
  }

  lemma NextLooksUp(codec: Codec, s: System, number: nat, read: Scenario, key: string, pending: Pending)
    requires number in s.inflight && s.inflight[number] == PendingLookup(read, key)
    requires LookupSimulate(codec, s.store, read, key) == Proceed(pending)
    ensures Next(codec, s, Lookup(number, true)) == System(s.store, s.inflight[number := pending])
  {
  }

  /** A draft row and its simulation under a key no other row holds. */
  predicate ReadyFor(store: Store, ready: Pending, id: Id, key: string) {
    && ready.PendingSimulate? && ready.read.id == id && ready.key == key && ready.read.state == Draft
    && id in store.rows && store.rows[id].state == Draft
    && forall j :: j in store.rows && j != id ==> store.rows[j].key != key
  }

  lemma CommitsReady(store: Store, ready: Pending, id: Id, key: string) returns (after: Store)
    requires ReadyFor(store, ready, id, key)
    ensures CommitStep(store, ready, 0) == Ok(after)
    ensures after.audits == store.audits + [AuditEntry(SimulateAction, id, Some(Draft), Simulated, key)]
    ensures id in after.rows && after.rows[id].state == Simulated
    ensures after.rows[id].createdBy == store.rows[id].createdBy
    ensures after.rows[id].id == store.rows[id].id
    ensures forall j :: j in after.rows && j != id ==> after.rows[j].key != key
  {
    after := CommitStep(store, ready, 0).value;
  }

  lemma ReturnsToDraft(store: Store, ready: Pending, id: Id, key: string, actor: Actor)
    returns (back: Pending, after: Store)
    requires id in store.rows && store.rows[id].id == id && store.rows[id].state == Simulated
    requires MayManage(actor, store.rows[id])
    requires ready.PendingSimulate? && ready.read.id == id && ready.key == key && ready.read.state == Draft
    requires forall j :: j in store.rows && j != id ==> store.rows[j].key != key
    ensures ReadTransition(store, id, Draft, "", actor) == Proceed(back) && !back.PendingLookup?
    ensures CommitStep(store, back, 0) == Ok(after) && |after.audits| == |store.audits| + 1
    ensures store.audits <= after.audits
    ensures ReadyFor(after, ready, id, key)
  {
    back := PendingTransition(store.rows[id], Draft, "", actor);
    after := CommitStep(store, back, 0).value;
  }

  lemma FourSteps(codec: Codec, store: Store, ready: Pending, back: Pending, id: Id, actor: Actor,
                  once: Store, returned: Store, after: Store)
    requires !ready.PendingLookup? && !back.PendingLookup?
    requires CommitStep(store, ready, 0) == Ok(once)
    requires ReadTransition(once, id, Draft, "", actor) == Proceed(back)
    requires CommitStep(once, back, 0) == Ok(returned) && CommitStep(returned, ready, 0) == Ok(after)
    ensures Run(codec, System(store, map[0 := ready, 1 := ready]), CommitReturnCommit(id, actor)) ==
      System(after, map[])
  {
    var s := System(store, map[0 := ready, 1 := ready]);
    var request := TransitionRequest(id, Draft, "", actor);
    RunFour(codec, s, Commit(0, 0, true), Read(2, request), Commit(2, 0, true), Commit(1, 0, true));
    FirstCommit(codec, store, ready, back, id, actor, once);
    var s2, s3 := System(once, map[1 := ready, 2 := back]), System(returned, map[1 := ready]);
    NextCommits(codec, s2, 2, returned);
    assert s2.inflight - {2} == s3.inflight;
    NextCommits(codec, s3, 1, after);
    assert s3.inflight - {1} == map[];
  }

  lemma FirstCommit(codec: Codec, store: Store, ready: Pending, back: Pending, id: Id, actor: Actor, once: Store)
    requires !ready.PendingLookup? && CommitStep(store, ready, 0) == Ok(once)
    requires ReadTransition(once, id, Draft, "", actor) == Proceed(back)
    ensures var s := System(store, map[0 := ready, 1 := ready]);
      Next(codec, Next(codec, s, Commit(0, 0, true)), Read(2, TransitionRequest(id, Draft, "", actor)))
        == System(once, map[1 := ready, 2 := back])
  {
  }

  lemma BothCommit(codec: Codec, store: Store, id: Id, key: string, actor: Actor, ready: Pending) returns (after: Store)
    requires ReadyFor(store, ready, id, key) && store.rows[id].id == id && MayManage(actor, store.rows[id])
    ensures Run(codec, System(store, map[0 := ready, 1 := ready]), CommitReturnCommit(id, actor)) ==
      System(after, map[])
    ensures |after.audits| == |store.audits| + 3
    ensures after.audits[|store.audits|] == AuditEntry(SimulateAction, id, Some(Draft), Simulated, key)
    ensures after.audits[|store.audits| + 2] == AuditEntry(SimulateAction, id, Some(Draft), Simulated, key)
  {
    var once := CommitsReady(store, ready, id, key);
    var back, returned := ReturnsToDraft(once, ready, id, key, actor);
    after := CommitsReady(returned, ready, id, key);
    FourSteps(codec, store, ready, back, id, actor, once, returned, after);
  }

  /**
   * "Repeated requests with the same key return the stored result" fails for overlapping requests even when
   * the scenario still holds the key: from any draft, one key can be committed twice running, with a return
   * to draft in between.
   */
  lemma SameKeyCommittedTwice(codec: Codec, s: System, id: Id, key: string, actor: Actor)
    requires FreshKey(codec, s, id, key, actor)
    ensures var after := Run(codec, s, BothLookUp(id, key, actor) + CommitReturnCommit(id, actor)).store;
      && |after.audits| == |s.store.audits| + 3
      && after.audits[|s.store.audits|] == AuditEntry(SimulateAction, id, Some(Draft), Simulated, key)
      && after.audits[|s.store.audits| + 2] == AuditEntry(SimulateAction, id, Some(Draft), Simulated, key)
  {
    var ready := FreshKeyProceeds(codec, s, id, key, actor);
    BothProceed(codec, s, id, key, actor, ready);
    forall j | j in s.store.rows ensures s.store.rows[j].key != key {
      assert !Holds(s.store.rows, j, key);
    }
    var after := BothCommit(codec, s.store, id, key, actor, ready);
    RunSplits(codec, s, BothLookUp(id, key, actor), CommitReturnCommit(id, actor));
  }

  // ---- The unique empty key ----

  /** A scenario that has never been simulated holds the empty key, and blocks every other Create. */
  lemma CreateBlockedByDraft(store: Store, row: Scenario, newId: Id, draft: Id)
    requires row.key == "" && Holds(store.rows, draft, "")
    ensures CommitCreate(store, row, newId) == Err(AlreadyExists)
  {
  }

  /**
   * So the "identical frozen scenario" conflict is right exactly when there is such a scenario or no
   * never-simulated one is stored.
   */
  lemma ConflictIsRealIff(store: Store, row: Scenario, newId: Id)
    requires row.key == "" && newId != 0 && newId !in store.rows
    ensures var identical := exists j :: j in store.rows && SameInput(store.rows[j], row);
      (CommitCreate(store, row, newId).Err? <==> identical) <==> (identical || forall j :: !Holds(store.rows, j, ""))
  {
    if forall j :: !Holds(store.rows, j, "") {
      forall j | j in store.rows ensures store.rows[j].key != "" {
        assert !Holds(store.rows, j, "");
      }
    }
  }

  lemma {:induction false} NeverSimulatedKey(start: string, h: seq<AuditEntry>)
    requires forall i :: 0 <= i < |h| ==> LegalEntry(h[i])
    ensures Simulations(h) == 0 ==> RecordedKey(start, h) == start
    ensures Simulations(h) > 0 ==> RecordedKey(start, h) != ""
  {
    if h != [] {
      NeverSimulatedKey(start, h[..|h| - 1]);
    }
  }

  /** In every reachable store the empty key means exactly: created here, and never simulated since. */
  lemma EmptyKeyIffNeverSimulated(codec: Codec, s: System, events: seq<Event>, id: Id)
    requires Initial(codec, s) && id in Run(codec, s, events).store.rows
    ensures var store := Run(codec, s, events).store;
      store.rows[id].key == "" <==> id !in s.store.rows && Simulations(History(store.audits, id)) == 0
  {
    RunInvariant(codec, s, events);
    var store, seeded := Run(codec, s, events).store, s.store.rows;
    var h := History(store.audits, id);
    assert UnbrokenWalk(StateOf(seeded, id), h, StateOf(store.rows, id));
    assert KeyOf(store.rows, id) == KeyInLog(seeded, store.audits, id);
    NeverSimulatedKey(KeyOf(seeded, id), h);
    assert id in seeded ==> GoodRow(codec, id, seeded[id]);
  }

  /** At most one created scenario is waiting for its first simulation, in every reachable store. */
  lemma OneNeverSimulated(codec: Codec, s: System, events: seq<Event>, i: Id, j: Id)
    requires Initial(codec, s) && i !in s.store.rows && j !in s.store.rows
    requires var store := Run(codec, s, events).store;
      && i in store.rows && Simulations(History(store.audits, i)) == 0
      && j in store.rows && Simulations(History(store.audits, j)) == 0
    ensures i == j
  {
    RunInvariant(codec, s, events);
    EmptyKeyIffNeverSimulated(codec, s, events, i);
    EmptyKeyIffNeverSimulated(codec, s, events, j);
  }
}
