/** Which instants a simulation samples, and which anchors are trusted at each (simulator.go). */
module Timing {
  import opened Prelude
  import opened Sorting
  import opened Snapshots

  /** The six instants, in the order the source lists them. The overlap's length saturates at 2^63-1 ns. */
  function CriticalInstants(config: ScenarioConfig): seq<Time> {
    [ config.overlapStart - MINUTE,
      config.overlapStart,
      config.overlapStart + Half(TimeSub(config.overlapEnd, config.overlapStart)),
      config.overlapEnd,
      config.overlapEnd + MINUTE,
      config.simulationTime ]
  }

  function TimeKey(t: Time): int { t }

  /** criticalTimes: sorts the instants, then compacts them into the same array. */
  method CriticalTimes(config: ScenarioConfig) returns (result: seq<Time>)
    ensures Ascending(result)
    ensures forall t :: t in result <==> t in CriticalInstants(config)
    ensures result == AscendingOf(CriticalInstants(config))
  {
    var instants := CriticalInstants(config);
    var points := new Time[|instants|](i requires 0 <= i < |instants| => instants[i]);
    assert points[..] == instants;
    SortSlice(points, TimeKey);
    SameAscending(points[..], instants);
    var size := Compact(points);
    result := points[..size];
  }

  /**
   * The compaction loop. `read` is the range loop's position; `size` is the length of the slice rebuilt
   * at the front of the same array, which never overtakes the part still to be read.
   */
  method Compact(points: array<Time>) returns (size: nat)
    requires SortedBy(points[..], TimeKey)
    modifies points
    ensures size <= points.Length
    ensures points[..size] == AscendingOf(old(points[..]))
  {
    ghost var sorted := points[..];
    size := 0;
    for read := 0 to points.Length
      invariant size <= read
      invariant points[read..] == sorted[read..]
      invariant points[..size] == Kept(sorted, read)
    {
      var point := points[read];
      assert point == sorted[read..][0];
      KeptNext(sorted, read);
      if size == 0 || point != points[size - 1] {
        points[size] := point;
        size := size + 1;
      }
    }
    KeptAll(sorted);
  }

  /** The slice the compaction loop has rebuilt once it has read `read` sorted instants. */
  function Kept(sorted: seq<Time>, read: nat): seq<Time>
    requires read <= |sorted|
  {
    if read == 0 then []
    else
      var front, point := Kept(sorted, read - 1), sorted[read - 1];
      if front == [] || point != front[|front| - 1] then front + [point] else front
  }

  lemma KeptNext(sorted: seq<Time>, read: nat)
    requires read < |sorted|
    ensures var front, point := Kept(sorted, read), sorted[read];
      Kept(sorted, read + 1) == if front == [] || point != front[|front| - 1] then front + [point] else front
  {
  }

  lemma PrefixNext(sorted: seq<Time>, read: nat)
    requires read < |sorted|
    ensures forall t :: t in sorted[..read + 1] <==> t in sorted[..read] || t == sorted[read]
  {
    assert sorted[..read + 1] == sorted[..read] + [sorted[read]];
  }

  /** The slice keeps exactly the instants read, and ends with the last of them. */
  lemma {:induction false} KeptMeaning(sorted: seq<Time>, read: nat)
    requires read <= |sorted|
    ensures Kept(sorted, read) == [] <==> read == 0
    ensures read > 0 ==> Kept(sorted, read)[|Kept(sorted, read)| - 1] == sorted[read - 1]
    ensures forall t :: t in Kept(sorted, read) <==> t in sorted[..read]
  {
    if read > 0 {
      KeptMeaning(sorted, read - 1);
      PrefixNext(sorted, read - 1);
      KeptNext(sorted, read - 1);
    }
  }

  lemma {:induction false} KeptAscending(sorted: seq<Time>, read: nat)
    requires read <= |sorted| && SortedBy(sorted, TimeKey)
    ensures Ascending(Kept(sorted, read))
  {
    if read > 0 {
      KeptAscending(sorted, read - 1);
      KeptMeaning(sorted, read - 1);
    }
  }

  lemma KeptAll(sorted: seq<Time>)
    requires SortedBy(sorted, TimeKey)
    ensures Kept(sorted, |sorted|) == AscendingOf(sorted)
  {
    KeptMeaning(sorted, |sorted|);
    KeptAscending(sorted, |sorted|);
    assert sorted[..|sorted|] == sorted;
    AscendingUnique(Kept(sorted, |sorted|), AscendingOf(sorted));
  }

  lemma SameAscending(a: seq<Time>, b: seq<Time>)
    requires multiset(a) == multiset(b)
    ensures AscendingOf(a) == AscendingOf(b)
  {
    forall t ensures t in a <==> t in b {
      assert t in multiset(a) <==> t in multiset(b);
    }
    AscendingUnique(AscendingOf(a), AscendingOf(b));
  }

  /** activeAnchors, as the set of keys of the returned map. */
  function ActiveAnchors(config: ScenarioConfig, at: Time): set<Id> {
    if at < config.overlapStart then {config.oldAnchorId}
    else if at > config.overlapEnd then {config.newAnchorId}
    else {config.oldAnchorId, config.newAnchorId}
  }

  /** `mapKeys(active)`. */
  function ActiveAnchorIds(config: ScenarioConfig, at: Time): (ids: seq<int>)
    ensures Ascending(ids)
    ensures forall x :: x in ids <==> x in ActiveAnchors(config, at)
  {
    if at < config.overlapStart then [config.oldAnchorId]
    else if at > config.overlapEnd then [config.newAnchorId]
    else AscendingOf([config.oldAnchorId, config.newAnchorId])
  }

  /**
   * Every phase is sampled: with a non-empty overlap there are four to six instants, one before the
   * overlap, its two ends, one strictly inside unless the overlap is a single nanosecond, one after it.
   */
  lemma EveryPhaseSampled(config: ScenarioConfig)
    requires config.overlapStart < config.overlapEnd
    ensures 4 <= |AscendingOf(CriticalInstants(config))| <= 6
    ensures exists t :: t in CriticalInstants(config) && t < config.overlapStart
    ensures exists t :: t in CriticalInstants(config) && t > config.overlapEnd
    ensures (exists t :: t in CriticalInstants(config) && config.overlapStart < t < config.overlapEnd)
        <==> (config.overlapEnd - config.overlapStart >= 2
              || config.overlapStart < config.simulationTime < config.overlapEnd)
  {
    var c := CriticalInstants(config);
    assert c[0] in c && c[1] in c && c[2] in c && c[3] in c && c[4] in c && c[5] in c;
    assert c[0] < config.overlapStart && c[4] > config.overlapEnd;
    assert config.overlapEnd - config.overlapStart >= 2 ==> config.overlapStart < c[2] < config.overlapEnd;
    var s := AscendingOf(c);
    AscendingLength(s, c);
    FourDistinct(s, c[0], c[1], c[3], c[4]);
  }

  lemma AscendingLength(s: seq<int>, c: seq<int>)
    requires s == AscendingOf(c)
    ensures |s| <= |c|
    decreases |c|
  {
    if c != [] {
      AscendingLength(AscendingOf(c[1..]), c[1..]);
      InsertLength(c[0], AscendingOf(c[1..]));
    }
  }

  lemma {:induction false} InsertLength(x: int, s: seq<int>)
    requires Ascending(s)
    ensures |InsertAscending(x, s)| <= |s| + 1
  {
    if s != [] && x > s[0] {
      AscendingTail(s);
      InsertLength(x, s[1..]);
    }
  }

  lemma FourDistinct(s: seq<int>, a: int, b: int, c: int, d: int)
    requires a in s && b in s && c in s && d in s && a < b < c < d && Ascending(s)
    ensures |s| >= 4
  {
  }

  /** A phase is an interval: what is trusted at both ends of an interval is trusted throughout. */
  lemma PhaseIsInterval(config: ScenarioConfig, t1: Time, t: Time, t2: Time)
    requires t1 <= t <= t2
    requires ActiveAnchors(config, t1) == ActiveAnchors(config, t2)
    ensures config.overlapStart <= config.overlapEnd ==> ActiveAnchors(config, t) == ActiveAnchors(config, t1)
  {
  }
}
