/** Dependency graphs: walks along edges, cycles, and ranks that rule cycles out. */
module Graphs {
  import opened Prelude

  /** Out-edges by node. A node that is not a key has none, like a missing key of a Go map. */
  type Edges = map<Id, seq<Id>>

  function Succ(g: Edges, v: Id): seq<Id> {
    if v in g then g[v] else []
  }

  predicate IsPath(g: Edges, p: seq<Id>) {
    |p| > 0 && forall i :: 0 <= i < |p| - 1 ==> p[i + 1] in Succ(g, p[i])
  }

  predicate IsCycle(g: Edges, p: seq<Id>) {
    |p| >= 2 && p[0] == p[|p| - 1] && IsPath(g, p)
  }

  ghost predicate Acyclic(g: Edges) {
    forall p: seq<Id> :: !IsCycle(g, p)
  }

  /** Every edge target is itself a node of the graph. */
  ghost predicate Closed(g: Edges) {
    forall v, w :: v in g && w in g[v] ==> w in g
  }

  /** `rank` covers its nodes' successors and strictly falls along every edge. */
  ghost predicate Ranked(g: Edges, rank: map<Id, nat>) {
    forall v, w :: v in rank && w in Succ(g, v) ==> w in rank && rank[w] < rank[v]
  }

  lemma {:induction false} RankFalls(g: Edges, rank: map<Id, nat>, p: seq<Id>)
    requires Ranked(g, rank) && IsPath(g, p) && p[0] in rank
    ensures p[|p| - 1] in rank
    ensures |p| >= 2 ==> rank[p[|p| - 1]] < rank[p[0]]
  {
    if |p| >= 2 {
      assert p[0 + 1] in Succ(g, p[0]);
      assert IsPath(g, p[1..]) by {
        forall i | 0 <= i < |p[1..]| - 1 ensures p[1..][i + 1] in Succ(g, p[1..][i]) {
          assert p[(i + 1) + 1] in Succ(g, p[i + 1]);
        }
      }
      RankFalls(g, rank, p[1..]);
    }
  }

  lemma RankedIsAcyclic(g: Edges, rank: map<Id, nat>)
    requires Ranked(g, rank) && g.Keys <= rank.Keys
    ensures Acyclic(g)
  {
    forall p: seq<Id> ensures !IsCycle(g, p) {
      if IsCycle(g, p) {
        assert p[0 + 1] in Succ(g, p[0]);
        RankFalls(g, rank, p);
      }
    }
  }

  lemma SubPath(g: Edges, p: seq<Id>, i: nat, j: nat)
    requires IsPath(g, p) && i < j <= |p|
    ensures IsPath(g, p[i..j])
  {
  }

  lemma AcyclicPathDistinct(g: Edges, p: seq<Id>)
    requires Acyclic(g) && IsPath(g, p)
    ensures forall i, j :: 0 <= i < j < |p| ==> p[i] != p[j]
  {
    forall i, j | 0 <= i < j < |p| ensures p[i] != p[j] {
      SubPath(g, p, i, j + 1);
      assert !IsCycle(g, p[i..j + 1]);
    }
  }

  lemma PathExtends(g: Edges, v: Id, p: seq<Id>)
    requires IsPath(g, p) && p[0] in Succ(g, v)
    ensures IsPath(g, [v] + p)
  {
  }

  lemma CycleAvoidsSource(g: Edges, v: Id, targets: seq<Id>, p: seq<Id>)
    requires Closed(g) && v !in g
    requires forall w :: w in targets ==> w in g
    requires IsCycle(g[v := targets], p)
    ensures IsCycle(g, p)
  {
    var h := g[v := targets];
    var n := |p| - 2;
    assert p[n + 1] in Succ(h, p[n]);
    forall i | 0 <= i < |p| - 1 ensures p[i] != v {
      if i > 0 { assert p[(i - 1) + 1] in Succ(h, p[i - 1]); }
    }
    forall i | 0 <= i < |p| - 1 ensures p[i + 1] in Succ(g, p[i]) {
      assert p[i + 1] in Succ(h, p[i]);
    }
  }

  /** A node without in-edges may be added with any out-edges: no cycle can pass through it. */
  lemma SourceKeepsAcyclic(g: Edges, v: Id, targets: seq<Id>)
    requires Acyclic(g) && Closed(g) && v !in g
    requires forall w :: w in targets ==> w in g
    ensures Acyclic(g[v := targets]) && Closed(g[v := targets])
  {
    var h := g[v := targets];
    forall p: seq<Id> ensures !IsCycle(h, p) {
      if IsCycle(h, p) {
        CycleAvoidsSource(g, v, targets, p);
        assert false;
      }
    }
  }

  /** Some walk leads from `from` to `to`. */
  ghost predicate Leads(g: Edges, from: Id, to: Id) {
    exists p: seq<Id> :: IsPath(g, p) && p[0] == from && p[|p| - 1] == to
  }

  /** A walk that does not leave through `v` uses no edge of `v`, so redefining those edges keeps it. */
  lemma SamePath(g: Edges, v: Id, targets: seq<Id>, p: seq<Id>)
    requires forall i :: 0 <= i < |p| - 1 ==> p[i] != v
    ensures IsPath(g, p) <==> IsPath(g[v := targets], p)
  {
  }

  lemma FirstVisit(p: seq<Id>, v: Id, from: nat) returns (k: nat)
    requires from < |p| && p[|p| - 1] == v
    ensures from <= k < |p| && p[k] == v && forall i :: from <= i < k ==> p[i] != v
    decreases |p| - from
  {
    if p[from] == v {
      k := from;
    } else {
      k := FirstVisit(p, v, from + 1);
    }
  }

  /** A cycle through `v` can be read starting from `v`. */
  lemma Rotate(g: Edges, p: seq<Id>, i: nat) returns (q: seq<Id>)
    requires IsCycle(g, p) && i < |p| - 1
    ensures IsCycle(g, q) && q[0] == p[i]
  {
    var n := |p| - 1;
    q := p[i..n] + p[..i + 1];
    forall k | 0 <= k < |q| - 1 ensures q[k + 1] in Succ(g, q[k]) {
      if k < n - i - 1 {
        assert q[k] == p[i + k] && q[k + 1] == p[(i + k) + 1];
      } else if k == n - i - 1 {
        assert q[k] == p[n - 1] && q[k + 1] == p[0] == p[(n - 1) + 1];
      } else {
        var j := k - (n - i);
        assert q[k] == p[j] && q[k + 1] == p[j + 1];
      }
    }
  }

  lemma NewCycleLeadsBack(g: Edges, v: Id, targets: seq<Id>, p: seq<Id>)
    requires Acyclic(g) && IsCycle(g[v := targets], p)
    ensures exists w :: w in targets && Leads(g, w, v)
  {
    var h := g[v := targets];
    if forall i :: 0 <= i < |p| - 1 ==> p[i] != v {
      assert !IsCycle(g, p);
      SamePath(g, v, targets, p);
      assert false;
    } else {
      var i :| 0 <= i < |p| - 1 && p[i] == v;
      var q := Rotate(h, p, i);
      var k := FirstVisit(q, v, 1);
      SubPath(h, q, 1, k + 1);
      var r := q[1..k + 1];
      forall j | 0 <= j < |r| - 1 ensures r[j] != v {
        assert r[j] == q[j + 1];
      }
      SamePath(g, v, targets, r);
      assert q[0 + 1] in Succ(h, q[0]);
      assert r[0] in targets && r[|r| - 1] == v;
      assert Leads(g, r[0], v);
    }
  }

  /** Redefining a node's edges keeps the graph acyclic exactly when no new target leads back to it. */
  lemma RedirectAcyclicIff(g: Edges, v: Id, targets: seq<Id>)
    requires Acyclic(g)
    ensures Acyclic(g[v := targets]) <==> forall w :: w in targets ==> !Leads(g, w, v)
  {
    var h := g[v := targets];
    if w :| w in targets && Leads(g, w, v) {
      var p: seq<Id> :| IsPath(g, p) && p[0] == w && p[|p| - 1] == v;
      AcyclicPathDistinct(g, p);
      SamePath(g, v, targets, p);
      PathExtends(h, v, p);
      assert IsCycle(h, [v] + p);
    } else {
      forall p: seq<Id> ensures !IsCycle(h, p) {
        if IsCycle(h, p) {
          NewCycleLeadsBack(g, v, targets, p);
          assert false;
        }
      }
    }
  }
}
