/**
 Directed graphs over 0..n-1, shared by the validator, the descriptor builder and
 the code emitter: a vertex has bounded height exactly when no cycle is reachable
 from it.
 */
module Digraph {
  import opened Base

  /** The successors of each vertex. */
  type Graph = seq<set<nat>>

  ghost predicate Closed(G: Graph) {
    forall v, w :: 0 <= v < |G| && w in G[v] ==> w < |G|
  }

  ghost predicate Walk(G: Graph, p: seq<nat>) {
    && |p| > 0
    && (forall i :: 0 <= i < |p| ==> p[i] < |G|)
    && (forall i :: 0 <= i < |p| - 1 ==> p[i + 1] in G[p[i]])
  }

  ghost predicate WalkFromTo(G: Graph, p: seq<nat>, u: nat, v: nat) {
    Walk(G, p) && p[0] == u && p[|p| - 1] == v
  }

  ghost predicate Reaches(G: Graph, u: nat, v: nat) {
    exists p :: WalkFromTo(G, p, u, v)
  }

  ghost predicate OnCycle(G: Graph, v: nat) {
    exists p :: WalkFromTo(G, p, v, v) && |p| >= 2
  }

  /** No walk from v has more than k edges. */
  ghost predicate Grounded(G: Graph, v: nat, k: nat)
    requires Closed(G) && v < |G|
    decreases k
  {
    forall w :: w in G[v] ==> k > 0 && Grounded(G, w, k - 1)
  }

  lemma {:induction false} GroundedMonotone(G: Graph, v: nat, k: nat, m: nat)
    requires Closed(G) && v < |G| && Grounded(G, v, k) && k <= m
    ensures Grounded(G, v, m)
    decreases k
  {
    forall w | w in G[v] ensures m > 0 && Grounded(G, w, m - 1) {
      GroundedMonotone(G, w, k - 1, m - 1);
    }
  }

  lemma {:induction false} GroundedAlongWalk(G: Graph, p: seq<nat>, k: nat)
    requires Closed(G) && Walk(G, p) && Grounded(G, p[0], k)
    ensures |p| - 1 <= k && Grounded(G, p[|p| - 1], k - (|p| - 1))
    decreases |p|
  {
    if |p| > 1 {
      assert p[1] in G[p[0]];
      assert Walk(G, p[1..]);
      GroundedAlongWalk(G, p[1..], k - 1);
    }
  }

  lemma {:induction false} GroundedNotOnCycle(G: Graph, v: nat, k: nat)
    requires Closed(G) && v < |G| && Grounded(G, v, k)
    ensures !OnCycle(G, v)
    decreases k
  {
    if OnCycle(G, v) {
      var p :| WalkFromTo(G, p, v, v) && |p| >= 2;
      GroundedAlongWalk(G, p, k);
      GroundedNotOnCycle(G, v, k - (|p| - 1));
    }
  }

  ghost predicate CycleBelow(G: Graph, v: nat) {
    exists r :: Reaches(G, v, r) && OnCycle(G, r)
  }

  lemma {:induction false} WalkPrefix(G: Graph, q: seq<nat>, i: nat)
    requires Walk(G, q) && i < |q|
    ensures Reaches(G, q[0], q[i])
  {
    assert WalkFromTo(G, q[..i + 1], q[0], q[i]);
  }

  /** An edge back into a walk closes a cycle. */
  lemma {:induction false} WalkLoop(G: Graph, q: seq<nat>, i: nat)
    requires Walk(G, q) && i < |q| && q[i] in G[q[|q| - 1]]
    ensures OnCycle(G, q[i])
  {
    var loop := q[i..] + [q[i]];
    assert forall j :: 0 <= j < |q| - i ==> loop[j] == q[i + j];
    assert WalkFromTo(G, loop, q[i], q[i]);
  }

  lemma {:induction false} NoBackEdge(G: Graph, q: seq<nat>, w: nat)
    requires Closed(G) && Walk(G, q) && !CycleBelow(G, q[0]) && w in G[q[|q| - 1]]
    ensures w !in q
  {
    if w in q {
      var i :| 0 <= i < |q| && q[i] == w;
      WalkPrefix(G, q, i);
      WalkLoop(G, q, i);
    }
  }

  /** A walk without repetition can always be continued to ground below it. */
  lemma {:induction false} GroundBelow(G: Graph, q: seq<nat>)
    requires Closed(G) && Walk(G, q) && Distinct(q) && !CycleBelow(G, q[0])
    ensures |q| <= |G| && Grounded(G, q[|q| - 1], |G| - |q|)
    decreases |G| - |q|
  {
    DistinctBound(q, |G|);
    var last := q[|q| - 1];
    forall w | w in G[last] ensures |G| - |q| > 0 && Grounded(G, w, |G| - |q| - 1) {
      NoBackEdge(G, q, w);
      DistinctBound(q + [w], |G|);
      GroundBelow(G, q + [w]);
    }
  }

  /** A vertex has bounded height exactly when it reaches no cycle. */
  lemma GroundedIffNoCycleBelow(G: Graph, v: nat)
    requires Closed(G) && v < |G|
    ensures (exists k: nat :: Grounded(G, v, k)) <==> !CycleBelow(G, v)
  {
    if k: nat :| Grounded(G, v, k) {
      forall r | Reaches(G, v, r) ensures !OnCycle(G, r) {
        var p :| WalkFromTo(G, p, v, r);
        GroundedAlongWalk(G, p, k);
        GroundedNotOnCycle(G, r, k - (|p| - 1));
      }
    }
    if !CycleBelow(G, v) {
      GroundBelow(G, [v]);
      assert Grounded(G, v, |G| - 1);
    }
  }

  /** A bounded height is bounded by the number of vertices. */
  lemma HeightBound(G: Graph, v: nat, k: nat)
    requires Closed(G) && v < |G| && Grounded(G, v, k)
    ensures Grounded(G, v, |G|)
  {
    GroundedIffNoCycleBelow(G, v);
    assert Grounded(G, v, k);
    GroundBelow(G, [v]);
    GroundedMonotone(G, v, |G| - 1, |G|);
  }

  lemma ReachesSelf(G: Graph, v: nat)
    requires v < |G|
    ensures Reaches(G, v, v)
  {
    assert WalkFromTo(G, [v], v, v);
  }

  lemma ReachesStep(G: Graph, u: nat, v: nat, w: nat)
    requires Closed(G) && u < |G| && v in G[u] && Reaches(G, v, w)
    ensures Reaches(G, u, w)
  {
    var p :| WalkFromTo(G, p, v, w);
    assert WalkFromTo(G, [u] + p, u, w);
  }
}
