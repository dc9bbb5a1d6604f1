/**
 Reachability in a finite directed graph. A graph is a sequence of successor
 sets: vertex `q` (with `q < |g|`) has an edge to every `d in g[q]`. Both tools
 of the automaton project compute closures of such graphs, each on the column
 of the transition table it treats as the empty transition.
 */
module Reach {

  type Graph = seq<set<nat>>

  /** Every edge ends at a vertex of the graph. */
  predicate IsGraph(g: Graph) {
    forall q, d :: 0 <= q < |g| && d in g[q] ==> d < |g|
  }

  /** The vertices one edge away from some vertex of `S`. */
  function Post(g: Graph, S: set<nat>): (next: set<nat>) {
    set q, d | q in S && q < |g| && d in g[q] :: d
  }

  /** `p` is a non-empty walk along edges of `g`. */
  predicate IsPath(g: Graph, p: seq<nat>) {
    && |p| > 0
    && (forall i :: 0 <= i < |p| ==> p[i] < |g|)
    && (forall i :: 0 <= i < |p| - 1 ==> p[i + 1] in g[p[i]])
  }

  /** `d` is reached from `s` by zero or more edges. */
  ghost predicate Reachable(g: Graph, s: nat, d: nat) {
    exists p :: IsPath(g, p) && p[0] == s && p[|p| - 1] == d
  }

  ghost predicate ReachableFrom(g: Graph, S: set<nat>, d: nat) {
    exists s :: s in S && Reachable(g, s, d)
  }

  /** The reference closure: every vertex reachable from a vertex of `S`. */
  ghost function Closure(g: Graph, S: set<nat>): (reached: set<nat>) {
    set d: nat | d < |g| && ReachableFrom(g, S, d)
  }

  /** No edge leaves `X`. */
  ghost predicate Closed(g: Graph, X: set<nat>) {
    forall q, d :: q in X && q < |g| && d in g[q] ==> d in X
  }

  lemma {:induction false} BoundedSetSize(S: set<nat>, n: nat)
    requires forall x :: x in S ==> x < n
    ensures |S| <= n
    decreases n
  {
    if n == 0 {
      assert S == {} by {
        forall x | x in S ensures false { }
      }
    } else {
      BoundedSetSize(S - {n - 1}, n - 1);
    }
  }

  lemma {:induction false} SubsetSize(A: set<nat>, B: set<nat>)
    requires A <= B
    ensures |A| <= |B|
    decreases A
  {
    if A != {} {
      var x :| x in A;
      SubsetSize(A - {x}, B - {x});
    }
  }

  /** Uniting a set that is not already included makes a strictly larger set. */
  lemma UnionGrows(A: set<nat>, B: set<nat>)
    requires !(B <= A)
    ensures |A| < |A + B|
  {
    var x :| x in B && x !in A;
    SubsetSize(A + {x}, A + B);
  }

  /** Taking `x` out of the remaining part of `A` adds it to the done part. */
  lemma TakeOne(A: set<nat>, rest: set<nat>, x: nat)
    requires x in rest && x in A
    ensures A - (rest - {x}) == (A - rest) + {x}
  {
  }

  lemma PostAddOne(g: Graph, X: set<nat>, q: nat)
    requires q < |g|
    ensures Post(g, X + {q}) == Post(g, X) + g[q]
  {
    forall d | d in g[q] ensures d in Post(g, X + {q}) {
      assert q in X + {q};
    }
  }

  lemma PostMono(g: Graph, X: set<nat>, Y: set<nat>)
    requires X <= Y
    ensures Post(g, X) <= Post(g, Y)
  {
  }

  lemma ReachableRefl(g: Graph, s: nat)
    requires s < |g|
    ensures Reachable(g, s, s)
  {
    assert IsPath(g, [s]);
  }

  /** A reachable vertex followed by one edge is reachable. */
  lemma ReachableStep(g: Graph, s: nat, q: nat, d: nat)
    requires Reachable(g, s, q)
    requires q < |g| && d in g[q] && d < |g|
    ensures Reachable(g, s, d)
  {
    var p :| IsPath(g, p) && p[0] == s && p[|p| - 1] == q;
    var p' := p + [d];
    forall i | 0 <= i < |p'| - 1 ensures p'[i + 1] in g[p'[i]] {
      if i < |p| - 1 {
        assert p'[i] == p[i] && p'[i + 1] == p[i + 1];
      }
    }
    assert IsPath(g, p');
  }

  lemma ReachableTrans(g: Graph, s: nat, q: nat, d: nat)
    requires Reachable(g, s, q) && Reachable(g, q, d)
    ensures Reachable(g, s, d)
  {
    var p1 :| IsPath(g, p1) && p1[0] == s && p1[|p1| - 1] == q;
    var p2 :| IsPath(g, p2) && p2[0] == q && p2[|p2| - 1] == d;
    var p := p1 + p2[1..];
    forall i | 0 <= i < |p| ensures p[i] == (if i < |p1| then p1[i] else p2[i - |p1| + 1]) {
    }
    forall i | 0 <= i < |p| - 1 ensures p[i + 1] in g[p[i]] {
      if i < |p1| - 1 {
      } else if i == |p1| - 1 {
        assert p[i] == p2[0];
      } else {
        assert p[i] == p2[i - |p1| + 1];
      }
    }
    assert IsPath(g, p);
  }

  /** A path starting inside a closed set never leaves it. */
  lemma {:induction false} ClosedPathStaysInside(g: Graph, X: set<nat>, p: seq<nat>, i: nat)
    requires IsPath(g, p) && Closed(g, X) && p[0] in X && i < |p|
    ensures p[i] in X
    decreases i
  {
    if i > 0 {
      ClosedPathStaysInside(g, X, p, i - 1);
      assert p[i] in g[p[i - 1]];
    }
  }

  /** The closure is contained in every closed superset of the seed. */
  lemma ClosureLeast(g: Graph, S: set<nat>, X: set<nat>)
    requires S <= X && Closed(g, X)
    ensures Closure(g, S) <= X
  {
    forall d | d in Closure(g, S) ensures d in X {
      var s :| s in S && Reachable(g, s, d);
      var p :| IsPath(g, p) && p[0] == s && p[|p| - 1] == d;
      ClosedPathStaysInside(g, X, p, |p| - 1);
    }
  }

  lemma ClosureContainsSeed(g: Graph, S: set<nat>)
    ensures forall s :: s in S && s < |g| ==> s in Closure(g, S)
  {
    forall s | s in S && s < |g| ensures s in Closure(g, S) {
      ReachableRefl(g, s);
    }
  }

  lemma ClosureIsClosed(g: Graph, S: set<nat>)
    requires IsGraph(g)
    ensures Closed(g, Closure(g, S))
  {
    forall q, d | q in Closure(g, S) && q < |g| && d in g[q] ensures d in Closure(g, S) {
      var s :| s in S && Reachable(g, s, q);
      ReachableStep(g, s, q, d);
    }
  }

  /**
   A closed set between the seed and the closure is the closure: the shape of
   the postcondition every closure algorithm establishes.
   */
  lemma ClosureUnique(g: Graph, S: set<nat>, X: set<nat>)
    requires S <= X && Closed(g, X) && X <= Closure(g, S)
    ensures X == Closure(g, S)
  {
    ClosureLeast(g, S, X);
  }

  /** Closing twice adds nothing. */
  lemma ClosureIdempotent(g: Graph, S: set<nat>)
    requires IsGraph(g)
    ensures Closure(g, Closure(g, S)) == Closure(g, S)
  {
    ClosureContainsSeed(g, Closure(g, S));
    ClosureIsClosed(g, S);
    ClosureLeast(g, Closure(g, S), Closure(g, S));
  }

  lemma ClosureMono(g: Graph, S: set<nat>, T: set<nat>)
    requires S <= T
    ensures Closure(g, S) <= Closure(g, T)
  {
  }

  /** The closure of a member of a closure lies inside that closure. */
  lemma ClosureOfMember(g: Graph, S: set<nat>, x: nat)
    requires x in Closure(g, S)
    ensures Closure(g, {x}) <= Closure(g, S)
  {
    forall d | d in Closure(g, {x}) ensures d in Closure(g, S) {
      var s :| s in S && Reachable(g, s, x);
      ReachableTrans(g, s, x, d);
    }
  }

  /** A vertex of the closure of `S` lies in the closure of one vertex of `S`. */
  lemma ClosureSplit(g: Graph, S: set<nat>, d: nat)
    requires d in Closure(g, S)
    ensures exists s :: s in S && d in Closure(g, {s})
  {
    var s :| s in S && Reachable(g, s, d);
    assert d in Closure(g, {s});
  }

  /** The successors of a part of the closure stay inside the closure. */
  lemma PostInsideClosure(g: Graph, S: set<nat>, X: set<nat>)
    requires IsGraph(g) && X <= Closure(g, S)
    ensures Post(g, X) <= Closure(g, S)
  {
    ClosureIsClosed(g, S);
  }

  /** A set containing its own successors is closed. */
  lemma PostInsideIsClosed(g: Graph, X: set<nat>)
    requires Post(g, X) <= X
    ensures Closed(g, X)
  {
    forall q, d | q in X && q < |g| && d in g[q] ensures d in X {
      assert d in Post(g, X);
    }
  }
}
