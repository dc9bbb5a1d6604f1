/**
 The NFA simulator. A string is run from the state set `{0}`: each character
 `ch` selects column `ch - 'a' + 1` of the table and the active set becomes
 the union of that column's cells over the active states. No epsilon closure
 is applied while running. A separate closure routine treats the LAST column,
 `alphabetSize`, as the epsilon column.
 */
module Simulator {
  import opened Reach
  import opened Automata

  /** The column a character selects; letters from 'a' map to 1, 2, ... */
  function SymbolColumn(ch: char): (col: int) {
    ch as int - 'a' as int + 1
  }

  /** Every character selects an existing column of the table. */
  predicate Indexable(a: Automaton, w: string) {
    forall i :: 0 <= i < |w| ==> 0 <= SymbolColumn(w[i]) <= a.alphabetSize
  }

  /** Every character is one of the automaton's letters, columns 1 .. alphabetSize. */
  predicate Letters(a: Automaton, w: string) {
    forall i :: 0 <= i < |w| ==> 1 <= SymbolColumn(w[i]) <= a.alphabetSize
  }

  /** Reference semantics: the active set after reading `w` from `S`, one character at a time. */
  function Run(a: Automaton, S: set<nat>, w: string): (active: set<nat>)
    requires Indexable(a, w)
    decreases |w|
  {
    if |w| == 0 then S
    else
      var u := w[..|w| - 1];
      assert Indexable(a, u) by {
        forall i | 0 <= i < |u| ensures 0 <= SymbolColumn(u[i]) <= a.alphabetSize {
          assert u[i] == w[i];
        }
      }
      Post(Column(a.transitions, SymbolColumn(w[|w| - 1]) as nat), Run(a, S, u))
  }

  /** Reference verdict: the run from `{0}` ends on an accepting state. */
  predicate Accepts(a: Automaton, w: string)
    requires Indexable(a, w)
  {
    Run(a, {0}, w) * a.accepting != {}
  }

  /**
   The union, over the states of `S`, of their cells in column `col`
   (the inner loop of both the stepping and the closure routines).
   */
  method Successors(a: Automaton, S: set<nat>, col: nat) returns (next: set<nat>)
    requires WellFormed(a) && col <= a.alphabetSize
    requires forall q :: q in S ==> q < a.numStates
    ensures forall d :: d in next <==> exists q :: q in S && d in a.transitions[q][col]
    ensures next == Post(Column(a.transitions, col), S)
    ensures forall d :: d in next ==> d < a.numStates
  {
    next := {};
    var rest := S;
    while rest != {}
      invariant rest <= S
      invariant next == Post(Column(a.transitions, col), S - rest)
      decreases rest
    {
      var q :| q in rest;
      PostAddOne(Column(a.transitions, col), S - rest, q);
      TakeOne(S, rest, q);
      next := next + a.transitions[q][col];
      rest := rest - {q};
    }
  }

  /**
   The result of checking one string: a verdict, or the array index
   exception the lookup raises when it reads a row or column that does not
   exist.
   */
  datatype Outcome = Answer(accepted: bool) | OutOfBounds

  /** Character `w[j]` has no column, or there is no row 0, while the run is still alive. */
  predicate ThrowsAt(a: Automaton, w: string, j: nat)
    requires j < |w|
  {
    && Indexable(a, w[..j])
    && Run(a, {0}, w[..j]) != {}
    && !(0 < a.numStates && 0 <= SymbolColumn(w[j]) <= a.alphabetSize)
  }

  /** Some lookup of the run fails. */
  predicate Throws(a: Automaton, w: string) {
    exists j :: 0 <= j < |w| && ThrowsAt(a, w, j)
  }

  /**
   Runs `w` from `{0}` and reports whether the final active set meets the
   accepting set. A character is looked up only while some state is active,
   so a character without a column after the run has died is never read.
   */
  method IsAccepted(a: Automaton, w: string) returns (outcome: Outcome)
    requires WellFormed(a)
    ensures outcome == OutOfBounds <==> Throws(a, w)
    ensures outcome.Answer? && Indexable(a, w) ==> outcome.accepted == Accepts(a, w)
    ensures outcome.Answer? && !Indexable(a, w) ==> !outcome.accepted
    ensures |w| == 0 ==> outcome == Answer(0 in a.accepting)
  {
    var current: set<nat> := {0};
    var i := 0;
    while i < |w|
      invariant 0 <= i <= |w|
      invariant Indexable(a, w[..i]) ==> current == Run(a, {0}, w[..i])
      invariant !Indexable(a, w[..i]) ==> current == {}
      invariant i == 0 ==> current == {0}
      invariant i > 0 ==> forall q :: q in current ==> q < a.numStates
      invariant forall j :: 0 <= j < i ==> !ThrowsAt(a, w, j)
    {
      ghost var previous := current;
      if current != {} {
        if !(0 < a.numStates && 0 <= SymbolColumn(w[i]) <= a.alphabetSize) {
          assert ThrowsAt(a, w, i);
          return OutOfBounds;
        }
        current := Successors(a, current, SymbolColumn(w[i]) as nat);
      }
      RunStep(a, w, i, previous, current);
      i := i + 1;
    }
    assert w[..|w|] == w;
    if |w| == 0 {
      assert 0 in a.accepting ==> 0 in current * a.accepting;
    }
    outcome := Answer(current * a.accepting != {});
  }

  /**
   The fixed-point closure of `S` along the last column: the successors of
   the whole current set are added until none is new.
   */
  method EpsilonClosure(a: Automaton, S: set<nat>) returns (closure: set<nat>)
    requires WellFormed(a)
    requires forall q :: q in S ==> q < a.numStates
    ensures S <= closure
    ensures forall q :: q in closure ==> q < a.numStates
    ensures Closed(Column(a.transitions, a.alphabetSize), closure)
    ensures closure == Closure(Column(a.transitions, a.alphabetSize), S)
  {
    ghost var g := Column(a.transitions, a.alphabetSize);
    ColumnIsGraph(a.transitions, a.numStates, a.alphabetSize, a.alphabetSize);
    closure := S;
    var changed := true;
    ClosureContainsSeed(g, S);
    BoundedSetSize(closure, a.numStates);
    while changed
      invariant S <= closure
      invariant forall q :: q in closure ==> q < a.numStates
      invariant closure <= Closure(g, S)
      invariant |closure| <= a.numStates
      invariant !changed ==> Post(g, closure) <= closure
      decreases a.numStates - |closure|, changed
    {
      changed := false;
      var temp := Successors(a, closure, a.alphabetSize);
      if !(temp <= closure) {
        GrowStep(g, S, closure, temp);
        closure := closure + temp;
        changed := true;
      }
    }
    PostInsideIsClosed(g, closure);
    ClosureUnique(g, S, closure);
  }

  /** One round of the closure loop that finds a new state stays inside the closure and grows. */
  lemma GrowStep(g: Graph, S: set<nat>, closure: set<nat>, temp: set<nat>)
    requires IsGraph(g) && closure <= Closure(g, S) && temp == Post(g, closure) && !(temp <= closure)
    ensures closure + temp <= Closure(g, S)
    ensures |closure| < |closure + temp| <= |g|
    ensures forall q :: q in closure + temp ==> q < |g|
  {
    PostInsideClosure(g, S, closure);
    UnionGrows(closure, temp);
    BoundedSetSize(closure + temp, |g|);
  }

  /** A prefix one character longer is indexable when the shorter one is and the new character has a column. */
  lemma IndexableExtend(a: Automaton, w: string, i: nat)
    requires i < |w|
    ensures w[..i + 1][..i] == w[..i] && w[..i + 1][i] == w[i]
    ensures Indexable(a, w[..i + 1]) <==> Indexable(a, w[..i]) && 0 <= SymbolColumn(w[i]) <= a.alphabetSize
  {
    assert w[..i + 1] == w[..i] + [w[i]];
    if Indexable(a, w[..i]) && 0 <= SymbolColumn(w[i]) <= a.alphabetSize {
      var u := w[..i + 1];
      forall j | 0 <= j < |u| ensures 0 <= SymbolColumn(u[j]) <= a.alphabetSize {
        if j < i {
          assert u[j] == w[..i][j];
        }
      }
    }
  }

  /**
   One character of the run: from the active set after `w[..i]`, a live set
   steps along the character's column and a dead set stays dead.
   */
  lemma RunStep(a: Automaton, w: string, i: nat, current: set<nat>, next: set<nat>)
    requires i < |w|
    requires Indexable(a, w[..i]) ==> current == Run(a, {0}, w[..i])
    requires !Indexable(a, w[..i]) ==> current == {}
    requires current == {} ==> next == {}
    requires current != {} ==>
      0 <= SymbolColumn(w[i]) <= a.alphabetSize && next == Post(Column(a.transitions, SymbolColumn(w[i]) as nat), current)
    ensures Indexable(a, w[..i + 1]) ==> next == Run(a, {0}, w[..i + 1])
    ensures !Indexable(a, w[..i + 1]) ==> next == {}
  {
    IndexableExtend(a, w, i);
  }

  lemma IndexableSplit(a: Automaton, u: string, v: string)
    requires Indexable(a, u + v)
    ensures Indexable(a, u) && Indexable(a, v)
  {
    forall i | 0 <= i < |u| ensures 0 <= SymbolColumn(u[i]) <= a.alphabetSize {
      assert u[i] == (u + v)[i];
    }
    forall i | 0 <= i < |v| ensures 0 <= SymbolColumn(v[i]) <= a.alphabetSize {
      assert v[i] == (u + v)[|u| + i];
    }
  }

  /** Running `u + v` is running `v` from wherever `u` leads. */
  lemma {:induction false} RunAppend(a: Automaton, S: set<nat>, u: string, v: string)
    requires Indexable(a, u + v)
    ensures Indexable(a, u) && Indexable(a, v)
    ensures Run(a, S, u + v) == Run(a, Run(a, S, u), v)
    decreases |v|
  {
    IndexableSplit(a, u, v);
    if |v| == 0 {
      assert u + v == u;
    } else {
      var v' := v[..|v| - 1];
      assert (u + v)[..|u + v| - 1] == u + v';
      assert (u + v)[|u + v| - 1] == v[|v| - 1];
      RunAppend(a, S, u, v');
    }
  }

  /** No state is ever reached from the empty set. */
  lemma {:induction false} RunFromEmpty(a: Automaton, w: string)
    requires Indexable(a, w)
    ensures Run(a, {}, w) == {}
    decreases |w|
  {
    if |w| > 0 {
      var u := w[..|w| - 1];
      assert Indexable(a, u) by {
        forall i | 0 <= i < |u| ensures 0 <= SymbolColumn(u[i]) <= a.alphabetSize {
          assert u[i] == w[i];
        }
      }
      RunFromEmpty(a, u);
    }
  }

  /** Once the active set is empty it stays empty, and every extension is rejected. */
  lemma DeadStaysDead(a: Automaton, u: string, v: string)
    requires Indexable(a, u + v)
    requires Indexable(a, u) && Run(a, {0}, u) == {}
    ensures Run(a, {0}, u + v) == {}
    ensures !Accepts(a, u + v)
  {
    RunAppend(a, {0}, u, v);
    RunFromEmpty(a, v);
  }

  /** On letters only, the run never looks at column 0. */
  lemma {:induction false} RunIgnoresColumnZero(a: Automaton, b: Automaton, S: set<nat>, w: string)
    requires a.alphabetSize == b.alphabetSize && Letters(a, w)
    requires forall c :: 1 <= c <= a.alphabetSize ==> Column(a.transitions, c) == Column(b.transitions, c)
    ensures Indexable(a, w) && Indexable(b, w)
    ensures Run(a, S, w) == Run(b, S, w)
    decreases |w|
  {
    if |w| > 0 {
      var u := w[..|w| - 1];
      assert Letters(a, u) by {
        forall i | 0 <= i < |u| ensures 1 <= SymbolColumn(u[i]) <= a.alphabetSize {
          assert u[i] == w[i];
        }
      }
      RunIgnoresColumnZero(a, b, S, u);
      assert 1 <= SymbolColumn(w[|w| - 1]);
    }
  }

  /**
   Two automata that differ only in column 0 (and in nothing the run reads)
   give the same verdict on every string of letters.
   */
  lemma AcceptsIgnoresColumnZero(a: Automaton, b: Automaton, w: string)
    requires a.alphabetSize == b.alphabetSize && a.accepting == b.accepting && Letters(a, w)
    requires forall c :: 1 <= c <= a.alphabetSize ==> Column(a.transitions, c) == Column(b.transitions, c)
    ensures Indexable(a, w) && Indexable(b, w)
    ensures Accepts(a, w) == Accepts(b, w)
  {
    RunIgnoresColumnZero(a, b, {0}, w);
  }
}
