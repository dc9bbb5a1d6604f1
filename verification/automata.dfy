/**
 The automaton both tools load: states `0 .. numStates - 1`, an alphabet of
 `alphabetSize` symbols, a set of accepting states, and a transition table
 `transitions[state][column]` holding a set of destination states per cell.
 Each row has `alphabetSize + 1` columns; which of them is the empty
 (epsilon) transition is decided by each tool, not here.
 */
module Automata {
  import opened Reach

  type Table = seq<seq<set<nat>>>

  datatype Automaton = Automaton(
    numStates: nat,
    alphabetSize: nat,
    accepting: set<nat>,
    transitions: Table)

  /** `n` rows of `w + 1` cells whose destinations are all states. */
  predicate ValidTable(t: Table, n: nat, w: nat) {
    && |t| == n
    && (forall q :: 0 <= q < n ==> |t[q]| == w + 1)
    && (forall q, c, d :: 0 <= q < n && 0 <= c <= w && d in t[q][c] ==> d < n)
  }

  /** What the loader guarantees: a table of the declared shape, accepting states in range. */
  predicate WellFormed(a: Automaton) {
    && ValidTable(a.transitions, a.numStates, a.alphabetSize)
    && (forall q :: q in a.accepting ==> q < a.numStates)
  }

  /** Column `c` of the table, read as a graph on the states. */
  function Column(t: Table, c: nat): (g: Graph)
    ensures |g| == |t|
    ensures forall q :: 0 <= q < |t| && c < |t[q]| ==> g[q] == t[q][c]
  {
    seq(|t|, q requires 0 <= q < |t| => if c < |t[q]| then t[q][c] else {})
  }

  lemma ColumnIsGraph(t: Table, n: nat, w: nat, c: nat)
    requires ValidTable(t, n, w) && c <= w
    ensures IsGraph(Column(t, c))
  {
  }

  /** The table with cell `(q, c)` replaced by `X`. */
  function WithCell(t: Table, q: nat, c: nat, X: set<nat>): (r: Table)
    requires q < |t| && c < |t[q]|
    ensures |r| == |t|
    ensures forall i :: 0 <= i < |t| ==> |r[i]| == |t[i]|
    ensures r[q][c] == X
    ensures forall i :: 0 <= i < |t| && i != q ==> r[i] == t[i]
    ensures forall j :: 0 <= j < |t[q]| && j != c ==> r[q][j] == t[q][j]
    ensures forall j :: j != c ==> Column(r, j) == Column(t, j)
  {
    t[q := t[q][c := X]]
  }

  lemma WithCellTwice(t: Table, q: nat, c: nat, X: set<nat>, Y: set<nat>)
    requires q < |t| && c < |t[q]|
    ensures WithCell(WithCell(t, q, c, X), q, c, Y) == WithCell(t, q, c, Y)
  {
    var r := WithCell(t, q, c, X);
    assert r[q][c := Y] == t[q][c := Y];
    assert r[q := r[q][c := Y]] == t[q := t[q][c := Y]];
  }

  lemma WithCellSame(t: Table, q: nat, c: nat)
    requires q < |t| && c < |t[q]|
    ensures WithCell(t, q, c, t[q][c]) == t
  {
    assert t[q][c := t[q][c]] == t[q];
  }
}
