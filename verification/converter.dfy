/**
 The epsilon-NFA to NFA converter. Column 0 of the table holds the epsilon
 transitions and columns `1 .. alphabetSize` the input symbols. Conversion
 runs three stages: grow the accepting set along epsilon closures, absorb
 symbol rows across epsilon closures for the states epsilon-reachable from
 accepting states, and clear column 0.
 */
module Converter {
  import opened Reach
  import opened Automata

  /** The converter's epsilon column. */
  const Epsilon: nat := 0

  /** States reachable from `S` by zero or more epsilon transitions. */
  ghost function EClosure(t: Table, S: set<nat>): (closure: set<nat>) {
    Closure(Column(t, Epsilon), S)
  }

  /** The states that reach an accepting state by epsilon transitions. */
  ghost function ReachesAccepting(a: Automaton): (reaching: set<nat>) {
    set s: nat | s < a.numStates && EClosure(a.transitions, {s}) * a.accepting != {}
  }

  /** Row `k` of `s` united over the epsilon closure of `s`. */
  ghost function Absorbed(t: Table, s: nat, k: nat): (cell: set<nat>) {
    Post(Column(t, k), EClosure(t, {s}))
  }

  /**
   Depth-first search along column 0 from `state`. The source keeps a
   `visited` array beside the result set and marks both together, so one set
   models both.
   */
  method EpsilonClosure(a: Automaton, state: nat) returns (closure: set<nat>)
    requires WellFormed(a) && state < a.numStates
    ensures state in closure
    ensures forall q :: q in closure ==> q < a.numStates
    ensures Closed(Column(a.transitions, Epsilon), closure)
    ensures closure == EClosure(a.transitions, {state})
  {
    ghost var g := Column(a.transitions, Epsilon);
    ColumnIsGraph(a.transitions, a.numStates, a.alphabetSize, Epsilon);
    var stack := [state];
    closure := {state};
    ReachableRefl(g, state);
    while stack != []
      invariant state in closure
      invariant forall q :: q in closure ==> q < a.numStates && Reachable(g, state, q)
      invariant forall i :: 0 <= i < |stack| ==> stack[i] in closure
      invariant forall q, d :: q in closure && q !in stack && d in g[q] ==> d in closure
      invariant |closure| <= a.numStates
      decreases a.numStates - |closure|, |stack|
    {
      ghost var size0 := |closure|;
      ghost var depth0 := |stack|;
      var current := stack[|stack| - 1];
      stack := stack[..|stack| - 1];
      var successors := a.transitions[current][Epsilon];
      var rest := successors;
      while rest != {}
        invariant rest <= successors
        invariant state in closure
        invariant forall q :: q in closure ==> q < a.numStates && Reachable(g, state, q)
        invariant forall i :: 0 <= i < |stack| ==> stack[i] in closure
        invariant forall q, d :: q in closure && q !in stack && q != current && d in g[q] ==> d in closure
        invariant successors - rest <= closure
        invariant |closure| >= size0 && |stack| - |closure| == depth0 - 1 - size0
        decreases rest
      {
        var next :| next in rest;
        rest := rest - {next};
        if next !in closure {
          ReachableStep(g, state, current, next);
          closure := closure + {next};
          stack := stack + [next];
        }
      }
      BoundedSetSize(closure, a.numStates);
    }
    forall x | x in closure ensures x in Closure(g, {state}) {
      assert state in {state};
    }
    ClosureUnique(g, {state}, closure);
    ClosureIsClosed(g, {state});
  }

  /**
   Membership of an earlier accepting state in the closure of `state` already
   means that closure meets the original accepting set, because closures are
   transitive. This is why the order of the stage 1 scan does not matter.
   */
  lemma Stage1Step(a: Automaton, acc: set<nat>, state: nat)
    requires WellFormed(a) && state < a.numStates
    requires acc == a.accepting + set s: nat | s < state && EClosure(a.transitions, {s}) * a.accepting != {}
    ensures EClosure(a.transitions, {state}) * acc != {} <==> EClosure(a.transitions, {state}) * a.accepting != {}
  {
    var g := Column(a.transitions, Epsilon);
    var c := EClosure(a.transitions, {state});
    if c * acc != {} {
      var x :| x in c * acc;
      if x !in a.accepting {
        ClosureOfMember(g, {state}, x);
        var y :| y in EClosure(a.transitions, {x}) * a.accepting;
        assert y in c * a.accepting;
      } else {
        assert x in c * a.accepting;
      }
    }
  }

  /** Stage 1: every state whose epsilon closure meets an accepting state becomes accepting. */
  method Stage1(a: Automaton) returns (b: Automaton)
    requires WellFormed(a)
    ensures WellFormed(b)
    ensures b.numStates == a.numStates && b.alphabetSize == a.alphabetSize
    ensures b.transitions == a.transitions
    ensures a.accepting <= b.accepting
    ensures b.accepting == a.accepting + ReachesAccepting(a)
  {
    b := a;
    var state := 0;
    while state < a.numStates
      invariant state <= a.numStates
      invariant b.numStates == a.numStates && b.alphabetSize == a.alphabetSize
      invariant b.transitions == a.transitions
      invariant b.accepting == a.accepting + set s: nat | s < state && EClosure(a.transitions, {s}) * a.accepting != {}
    {
      var closure := EpsilonClosure(b, state);
      Stage1Step(a, b.accepting, state);
      if closure * b.accepting != {} {
        b := b.(accepting := b.accepting + {state});
      }
      state := state + 1;
    }
  }

  /** Rows between their original value and their full epsilon absorption. */
  ghost predicate Sandwiched(t0: Table, t: Table, n: nat, w: nat)
    requires ValidTable(t0, n, w) && ValidTable(t, n, w)
  {
    forall s, k :: 0 <= s < n && 1 <= k <= w ==> t0[s][k] <= t[s][k] && t[s][k] <= Absorbed(t0, s, k)
  }

  lemma AbsorbedMono(t: Table, s: nat, x: nat, k: nat)
    requires x in EClosure(t, {s})
    ensures Absorbed(t, x, k) <= Absorbed(t, s, k)
  {
    ClosureOfMember(Column(t, Epsilon), {s}, x);
    PostMono(Column(t, k), EClosure(t, {x}), EClosure(t, {s}));
  }

  lemma EClosureInRange(t: Table, S: set<nat>)
    ensures forall x :: x in EClosure(t, S) ==> x < |t|
  {
  }

  /** Every row lies inside its own absorption, since a state is in its own closure. */
  lemma SandwichedInitially(t: Table, n: nat, w: nat)
    requires ValidTable(t, n, w)
    ensures Sandwiched(t, t, n, w)
  {
    forall s, k | 0 <= s < n && 1 <= k <= w ensures t[s][k] <= Absorbed(t, s, k) {
      ClosureContainsSeed(Column(t, Epsilon), {s});
      PostMono(Column(t, k), {s}, EClosure(t, {s}));
      assert t[s][k] <= Post(Column(t, k), {s}) by {
        PostAddOne(Column(t, k), {}, s);
      }
    }
  }

  /**
   Uniting into the row of `current` the row of a state of its epsilon
   closure keeps the table well formed and every row within its bounds.
   */
  lemma AbsorbKeepsSandwiched(t0: Table, t: Table, n: nat, w: nat, current: nat, next: nat, symbol: nat)
    requires ValidTable(t0, n, w) && ValidTable(t, n, w) && Sandwiched(t0, t, n, w)
    requires current < n && next < n && 1 <= symbol <= w
    requires next in EClosure(t0, {current})
    ensures ValidTable(WithCell(t, current, symbol, t[current][symbol] + t[next][symbol]), n, w)
    ensures Sandwiched(t0, WithCell(t, current, symbol, t[current][symbol] + t[next][symbol]), n, w)
  {
    var t' := WithCell(t, current, symbol, t[current][symbol] + t[next][symbol]);
    AbsorbedMono(t0, current, next, symbol);
    forall s, k | 0 <= s < n && 1 <= k <= w
      ensures t0[s][k] <= t'[s][k] && t'[s][k] <= Absorbed(t0, s, k)
    {
      if s == current && k == symbol {
      } else {
        assert t'[s][k] == t[s][k];
      }
    }
  }

  /** Appends the members of `S` to `queue`, each once, in some order. */
  method AddAll(queue: seq<nat>, S: set<nat>) returns (r: seq<nat>)
    ensures |r| == |queue| + |S|
    ensures r[..|queue|] == queue
    ensures forall x :: x in r <==> x in queue || x in S
    ensures multiset(r[|queue|..]) == multiset(S)
  {
    r := queue;
    var rest := S;
    while rest != {}
      invariant rest <= S
      invariant |r| + |rest| == |queue| + |S|
      invariant |r| >= |queue| && r[..|queue|] == queue
      invariant forall x :: x in r <==> x in queue || x in S - rest
      invariant multiset(r[|queue|..]) == multiset(S - rest)
      decreases rest
    {
      var x :| x in rest;
      TakeOne(S, rest, x);
      assert (r + [x])[|queue|..] == r[|queue|..] + [x];
      r := r + [x];
      rest := rest - {x};
    }
    assert S - rest == S;
  }

  /**
   The worklist seed of stage 2: the epsilon closure of every accepting state
   is appended to the queue, and the accepting states themselves are marked.
   */
  method Seed(a: Automaton) returns (queue: seq<nat>, visited: set<nat>)
    requires WellFormed(a)
    ensures visited == a.accepting
    ensures forall x :: x in queue <==> x in EClosure(a.transitions, a.accepting)
  {
    ghost var g := Column(a.transitions, Epsilon);
    queue := [];
    visited := {};
    var pending := a.accepting;
    while pending != {}
      invariant pending <= a.accepting
      invariant visited == a.accepting - pending
      invariant forall x :: x in queue ==> x in EClosure(a.transitions, a.accepting)
      invariant forall s :: s in visited ==> EClosure(a.transitions, {s}) <= set x | x in queue
      decreases pending
    {
      var state :| state in pending;
      pending := pending - {state};
      var closure := EpsilonClosure(a, state);
      ClosureMono(g, {state}, a.accepting);
      queue := AddAll(queue, closure);
      visited := visited + {state};
    }
    forall x | x in EClosure(a.transitions, a.accepting) ensures x in queue {
      ClosureSplit(g, a.accepting, x);
      var s :| s in a.accepting && x in EClosure(a.transitions, {s});
      assert x in set y | y in queue;
    }
  }

  lemma AddedStep(added: seq<nat>, V: set<nat>, visited: set<nat>, next: nat)
    requires visited <= V && multiset(added) == multiset(V - visited) && next !in V
    ensures multiset(added + [next]) == multiset((V + {next}) - visited)
  {
    assert (V + {next}) - visited == (V - visited) + {next};
  }

  /**
   The marking half of the stage 2 loop over the epsilon closure of
   `current`: every state of `closure` not yet marked is marked and appended
   to the queue. The states appended are exactly the newly marked ones, each
   once.
   */
  method EnqueueNew(queue: seq<nat>, visited: set<nat>, closure: set<nat>) returns (queue': seq<nat>, visited': set<nat>)
    ensures visited' == visited + closure
    ensures |queue'| >= |queue| && queue'[..|queue|] == queue
    ensures multiset(queue'[|queue|..]) == multiset(closure - visited)
  {
    visited' := visited;
    var added: seq<nat> := [];
    var rest := closure;
    while rest != {}
      invariant rest <= closure
      invariant visited' == visited + (closure - rest)
      invariant multiset(added) == multiset(visited' - visited)
      decreases rest
    {
      var next :| next in rest;
      TakeOne(closure, rest, next);
      rest := rest - {next};
      if next !in visited' {
        AddedStep(added, visited', visited, next);
        added := added + [next];
        visited' := visited' + {next};
      }
    }
    queue' := queue + added;
    assert queue'[|queue|..] == added;
  }

  /**
   The absorbing half of the stage 2 loop over the epsilon closure of
   `current` for one symbol: the cell of every state of `closure` is united
   into the cell of `current`.
   */
  method AbsorbClosure(ghost t0: Table, t: Table, n: nat, w: nat, current: nat, symbol: nat, closure: set<nat>)
    returns (t': Table)
    requires ValidTable(t0, n, w) && ValidTable(t, n, w) && Sandwiched(t0, t, n, w)
    requires current < n && 1 <= symbol <= w
    requires closure == EClosure(t0, {current})
    ensures ValidTable(t', n, w) && Sandwiched(t0, t', n, w)
    ensures t' == WithCell(t, current, symbol, t'[current][symbol])
    ensures Post(Column(t0, symbol), closure) <= t'[current][symbol]
  {
    ghost var col := Column(t0, symbol);
    EClosureInRange(t0, {current});
    assert |col| == n;
    t' := t;
    WithCellSame(t, current, symbol);
    var rest := closure;
    while rest != {}
      invariant rest <= closure
      invariant ValidTable(t', n, w) && Sandwiched(t0, t', n, w)
      invariant t' == WithCell(t, current, symbol, t'[current][symbol])
      invariant Post(col, closure - rest) <= t'[current][symbol]
      decreases rest
    {
      var next :| next in rest;
      ghost var done := closure - rest;
      TakeOne(closure, rest, next);
      rest := rest - {next};
      AbsorbKeepsSandwiched(t0, t', n, w, current, next, symbol);
      PostAddOne(col, done, next);
      WithCellTwice(t, current, symbol, t'[current][symbol], t'[current][symbol] + t'[next][symbol]);
      t' := WithCell(t', current, symbol, t'[current][symbol] + t'[next][symbol]);
    }
  }

  /**
   The absorbing half of the stage 2 body for one symbol: the epsilon closure
   of `current` is computed and its cells for `symbol` are united into the
   cell of `current`.
   */
  method AbsorbCell(b: Automaton, ghost t0: Table, current: nat, symbol: nat) returns (b': Automaton, closure: set<nat>)
    requires WellFormed(b) && ValidTable(t0, b.numStates, b.alphabetSize)
    requires Column(b.transitions, Epsilon) == Column(t0, Epsilon)
    requires Sandwiched(t0, b.transitions, b.numStates, b.alphabetSize)
    requires current < b.numStates && 1 <= symbol <= b.alphabetSize
    ensures WellFormed(b')
    ensures b'.numStates == b.numStates && b'.alphabetSize == b.alphabetSize && b'.accepting == b.accepting
    ensures Column(b'.transitions, Epsilon) == Column(t0, Epsilon)
    ensures Sandwiched(t0, b'.transitions, b.numStates, b.alphabetSize)
    ensures b'.transitions[current][symbol] == Absorbed(t0, current, symbol)
    ensures forall s :: 0 <= s < b.numStates && s != current ==> b'.transitions[s] == b.transitions[s]
    ensures forall k :: 0 <= k <= b.alphabetSize && k != symbol ==> b'.transitions[current][k] == b.transitions[current][k]
    ensures closure == EClosure(t0, {current})
  {
    closure := EpsilonClosure(b, current);
    var t := AbsorbClosure(t0, b.transitions, b.numStates, b.alphabetSize, current, symbol, closure);
    b' := b.(transitions := t);
  }

  /**
   The body of the stage 2 loop for one symbol: every state of the epsilon
   closure of `current` is enqueued unless already marked, and its cell for
   `symbol` is united into the cell of `current`.
   */
  method AbsorbSymbol(b: Automaton, ghost t0: Table, current: nat, symbol: nat, queue: seq<nat>, visited: set<nat>)
    returns (b': Automaton, queue': seq<nat>, visited': set<nat>)
    requires WellFormed(b) && ValidTable(t0, b.numStates, b.alphabetSize)
    requires Column(b.transitions, Epsilon) == Column(t0, Epsilon)
    requires Sandwiched(t0, b.transitions, b.numStates, b.alphabetSize)
    requires current < b.numStates && 1 <= symbol <= b.alphabetSize
    ensures WellFormed(b')
    ensures b'.numStates == b.numStates && b'.alphabetSize == b.alphabetSize && b'.accepting == b.accepting
    ensures Column(b'.transitions, Epsilon) == Column(t0, Epsilon)
    ensures Sandwiched(t0, b'.transitions, b.numStates, b.alphabetSize)
    ensures b'.transitions[current][symbol] == Absorbed(t0, current, symbol)
    ensures forall s :: 0 <= s < b.numStates && s != current ==> b'.transitions[s] == b.transitions[s]
    ensures forall k :: 0 <= k <= b.alphabetSize && k != symbol ==> b'.transitions[current][k] == b.transitions[current][k]
    ensures visited' == visited + EClosure(t0, {current})
    ensures |queue'| >= |queue| && queue'[..|queue|] == queue
    ensures multiset(queue'[|queue|..]) == multiset(EClosure(t0, {current}) - visited)
  {
    var closure;
    b', closure := AbsorbCell(b, t0, current, symbol);
    queue', visited' := EnqueueNew(queue, visited, closure);
  }

  /** The marks and the queue tail of two consecutive passes add up. */
  lemma AppendTail(queue: seq<nat>, q0: seq<nat>, q1: seq<nat>, visited: set<nat>, v0: set<nat>, C: set<nat>)
    requires |q0| >= |queue| && q0[..|queue|] == queue && |q1| >= |q0| && q1[..|q0|] == q0
    requires visited <= v0
    requires multiset(q0[|queue|..]) == multiset(v0 - visited)
    requires multiset(q1[|q0|..]) == multiset(C - v0)
    ensures |q1| >= |queue| && q1[..|queue|] == queue
    ensures multiset(q1[|queue|..]) == multiset((v0 + C) - visited)
  {
    assert q1[|queue|..] == q0[|queue|..] + q1[|q0|..];
    assert (v0 + C) - visited == (v0 - visited) + (C - v0);
    assert (v0 - visited) * (C - v0) == {};
  }

  /** What a queue tail that lists the newly marked states, each once, says about the queue. */
  lemma TailFacts(queue: seq<nat>, queue': seq<nat>, visited: set<nat>, visited': set<nat>)
    requires |queue'| >= |queue| && queue'[..|queue|] == queue && visited <= visited'
    requires multiset(queue'[|queue|..]) == multiset(visited' - visited)
    ensures forall x :: x in queue' ==> x in queue || x in visited' - visited
    ensures |queue'| - |visited'| == |queue| - |visited|
  {
    assert queue' == queue + queue'[|queue|..];
    forall x | x in queue' ensures x in queue || x in visited' - visited {
      if x !in queue {
        assert x in multiset(queue'[|queue|..]);
      }
    }
    assert |multiset(queue'[|queue|..])| == |queue'| - |queue|;
    assert |visited' - visited| == |visited'| - |visited|;
  }

  /**
   One pass of the stage 2 loop body: `current` absorbs, symbol by symbol,
   the rows of its epsilon closure.
   */
  method AbsorbAllSymbols(b: Automaton, ghost t0: Table, current: nat, queue: seq<nat>, visited: set<nat>)
    returns (b': Automaton, queue': seq<nat>, visited': set<nat>)
    requires WellFormed(b) && ValidTable(t0, b.numStates, b.alphabetSize)
    requires Column(b.transitions, Epsilon) == Column(t0, Epsilon)
    requires Sandwiched(t0, b.transitions, b.numStates, b.alphabetSize)
    requires current < b.numStates
    requires forall x :: x in visited ==> x < b.numStates
    ensures WellFormed(b')
    ensures b'.numStates == b.numStates && b'.alphabetSize == b.alphabetSize && b'.accepting == b.accepting
    ensures Column(b'.transitions, Epsilon) == Column(t0, Epsilon)
    ensures Sandwiched(t0, b'.transitions, b.numStates, b.alphabetSize)
    ensures forall k :: 1 <= k <= b.alphabetSize ==> b'.transitions[current][k] == Absorbed(t0, current, k)
    ensures forall s :: 0 <= s < b.numStates && s != current ==> b'.transitions[s] == b.transitions[s]
    ensures visited' == if b.alphabetSize == 0 then visited else visited + EClosure(t0, {current})
    ensures |queue'| >= |queue| && queue'[..|queue|] == queue
    ensures multiset(queue'[|queue|..]) == multiset(visited' - visited)
    ensures forall x :: x in queue' ==> x in queue || x in EClosure(t0, {current})
    ensures forall x :: x in visited' ==> x < b.numStates
    ensures |queue'| - |visited'| == |queue| - |visited|
  {
    var n, w := b.numStates, b.alphabetSize;
    ghost var C := EClosure(t0, {current});
    b', queue', visited' := b, queue, visited;
    var symbol := 1;
    assert queue[..|queue|] == queue;
    while symbol <= w
      invariant 1 <= symbol <= w + 1
      invariant WellFormed(b')
      invariant b'.numStates == n && b'.alphabetSize == w && b'.accepting == b.accepting
      invariant Column(b'.transitions, Epsilon) == Column(t0, Epsilon)
      invariant Sandwiched(t0, b'.transitions, n, w)
      invariant forall s :: 0 <= s < n && s != current ==> b'.transitions[s] == b.transitions[s]
      invariant forall k :: 1 <= k < symbol ==> b'.transitions[current][k] == Absorbed(t0, current, k)
      invariant visited' == if symbol == 1 then visited else visited + C
      invariant |queue'| >= |queue| && queue'[..|queue|] == queue
      invariant multiset(queue'[|queue|..]) == multiset(visited' - visited)
    {
      ghost var q0, v0 := queue', visited';
      b', queue', visited' := AbsorbSymbol(b', t0, current, symbol, queue', visited');
      AppendTail(queue, q0, queue', visited, v0, C);
      symbol := symbol + 1;
    }
    TailFacts(queue, queue', visited, visited');
    ColumnIsGraph(t0, n, w, Epsilon);
  }

  /**
   Stage 2: a worklist seeded with the epsilon closures of the accepting
   states. Each state taken from the queue absorbs, for every symbol, the rows
   of its epsilon closure; states of that closure not yet marked are enqueued.
   */
  method Stage2(a: Automaton) returns (b: Automaton)
    requires WellFormed(a)
    ensures WellFormed(b)
    ensures b.numStates == a.numStates && b.alphabetSize == a.alphabetSize && b.accepting == a.accepting
    ensures Column(b.transitions, Epsilon) == Column(a.transitions, Epsilon)
    ensures forall s, k :: 0 <= s < a.numStates && 1 <= k <= a.alphabetSize ==>
      a.transitions[s][k] <= b.transitions[s][k] <= Absorbed(a.transitions, s, k)
    ensures forall s, k :: 0 <= s < a.numStates && 1 <= k <= a.alphabetSize && s in EClosure(a.transitions, a.accepting) ==>
      b.transitions[s][k] == Absorbed(a.transitions, s, k)
    ensures forall s :: 0 <= s < a.numStates && s !in EClosure(a.transitions, a.accepting) ==>
      b.transitions[s] == a.transitions[s]
  {
    var n, w := a.numStates, a.alphabetSize;
    ghost var t0 := a.transitions;
    ghost var g0 := Column(t0, Epsilon);
    ghost var seeded := EClosure(t0, a.accepting);
    var queue: seq<nat>, visited: set<nat> := Seed(a);
    b := a;
    ghost var processed: set<nat> := {};
    BoundedSetSize(visited, n);
    SandwichedInitially(t0, n, w);
    while queue != []
      invariant WellFormed(b)
      invariant b.numStates == n && b.alphabetSize == w && b.accepting == a.accepting
      invariant Column(b.transitions, Epsilon) == g0
      invariant Sandwiched(t0, b.transitions, n, w)
      invariant forall s :: 0 <= s < n && s !in processed ==> b.transitions[s] == t0[s]
      invariant forall s, k :: 0 <= s < n && s in processed && 1 <= k <= w ==> b.transitions[s][k] == Absorbed(t0, s, k)
      invariant processed <= seeded
      invariant forall x :: x in queue ==> x in seeded
      invariant forall x :: x in seeded ==> x in processed || x in queue
      invariant forall x :: x in visited ==> x < n
      invariant |visited| <= n
      decreases n - |visited|, |queue|
    {
      ghost var queue0, t1 := queue, b.transitions;
      var current := queue[0];
      ClosureOfMember(g0, a.accepting, current);
      b, queue, visited := AbsorbAllSymbols(b, t0, current, queue[1..], visited);
      forall x | x in seeded ensures x in processed + {current} || x in queue {
        if x in queue0 && x !in processed + {current} {
          var i :| 0 <= i < |queue0| && queue0[i] == x;
          assert queue0[1..][i - 1] == x;
          assert queue[..|queue0| - 1][i - 1] == x;
        }
      }
      processed := processed + {current};
      BoundedSetSize(visited, n);
    }
  }

  /** Every symbol cell of the row of `current` absorbs the epsilon closure of `current`. */
  method AbsorbRow(b: Automaton, ghost t0: Table, current: nat) returns (b': Automaton)
    requires WellFormed(b) && ValidTable(t0, b.numStates, b.alphabetSize)
    requires Column(b.transitions, Epsilon) == Column(t0, Epsilon)
    requires Sandwiched(t0, b.transitions, b.numStates, b.alphabetSize)
    requires current < b.numStates
    ensures WellFormed(b')
    ensures b'.numStates == b.numStates && b'.alphabetSize == b.alphabetSize && b'.accepting == b.accepting
    ensures Column(b'.transitions, Epsilon) == Column(t0, Epsilon)
    ensures Sandwiched(t0, b'.transitions, b.numStates, b.alphabetSize)
    ensures forall k :: 1 <= k <= b.alphabetSize ==> b'.transitions[current][k] == Absorbed(t0, current, k)
    ensures forall s :: 0 <= s < b.numStates && s != current ==> b'.transitions[s] == b.transitions[s]
  {
    var n, w := b.numStates, b.alphabetSize;
    b' := b;
    var symbol := 1;
    while symbol <= w
      invariant 1 <= symbol <= w + 1
      invariant WellFormed(b')
      invariant b'.numStates == n && b'.alphabetSize == w && b'.accepting == b.accepting
      invariant Column(b'.transitions, Epsilon) == Column(t0, Epsilon)
      invariant Sandwiched(t0, b'.transitions, n, w)
      invariant forall s :: 0 <= s < n && s != current ==> b'.transitions[s] == b.transitions[s]
      invariant forall k :: 1 <= k < symbol ==> b'.transitions[current][k] == Absorbed(t0, current, k)
    {
      var closure;
      b', closure := AbsorbCell(b', t0, current, symbol);
      symbol := symbol + 1;
    }
  }

  /**
   Stage 2 with every state absorbing, rather than only the states
   epsilon-reachable from accepting states: each symbol cell of every row
   becomes the union of that cell over the row's epsilon closure.
   */
  method Stage2AllStates(a: Automaton) returns (b: Automaton)
    requires WellFormed(a)
    ensures WellFormed(b)
    ensures b.numStates == a.numStates && b.alphabetSize == a.alphabetSize && b.accepting == a.accepting
    ensures Column(b.transitions, Epsilon) == Column(a.transitions, Epsilon)
    ensures forall s, k :: 0 <= s < a.numStates && 1 <= k <= a.alphabetSize ==>
      b.transitions[s][k] == Absorbed(a.transitions, s, k)
  {
    var n, w := a.numStates, a.alphabetSize;
    ghost var t0 := a.transitions;
    b := a;
    SandwichedInitially(t0, n, w);
    var state := 0;
    while state < n
      invariant state <= n
      invariant WellFormed(b)
      invariant b.numStates == n && b.alphabetSize == w && b.accepting == a.accepting
      invariant Column(b.transitions, Epsilon) == Column(t0, Epsilon)
      invariant Sandwiched(t0, b.transitions, n, w)
      invariant forall s, k :: 0 <= s < state && 1 <= k <= w ==> b.transitions[s][k] == Absorbed(t0, s, k)
    {
      b := AbsorbRow(b, t0, state);
      state := state + 1;
    }
  }

  /** Stage 3: the epsilon cell of every row is emptied. */
  method Stage3(a: Automaton) returns (b: Automaton)
    requires WellFormed(a)
    ensures WellFormed(b)
    ensures b.numStates == a.numStates && b.alphabetSize == a.alphabetSize && b.accepting == a.accepting
    ensures forall s :: 0 <= s < a.numStates ==> b.transitions[s][Epsilon] == {}
    ensures forall s, k :: 0 <= s < a.numStates && 1 <= k <= a.alphabetSize ==>
      b.transitions[s][k] == a.transitions[s][k]
  {
    b := a;
    var state := 0;
    while state < a.numStates
      invariant state <= a.numStates
      invariant WellFormed(b)
      invariant b.numStates == a.numStates && b.alphabetSize == a.alphabetSize && b.accepting == a.accepting
      invariant forall s :: 0 <= s < state ==> b.transitions[s][Epsilon] == {}
      invariant forall s, k :: 0 <= s < a.numStates && 1 <= k <= a.alphabetSize ==>
        b.transitions[s][k] == a.transitions[s][k]
    {
      b := b.(transitions := WithCell(b.transitions, state, Epsilon, {}));
      state := state + 1;
    }
  }

  /**
   The whole conversion. Every state that epsilon-reaches an accepting state
   becomes accepting; the states epsilon-reachable from the enlarged accepting
   set absorb, per symbol, the rows of their epsilon closures; all other rows
   keep their symbol cells; no epsilon transition remains.
   */
  method Convert(a: Automaton) returns (b: Automaton)
    requires WellFormed(a)
    ensures WellFormed(b)
    ensures b.numStates == a.numStates && b.alphabetSize == a.alphabetSize
    ensures b.accepting == a.accepting + ReachesAccepting(a)
    ensures forall s :: 0 <= s < a.numStates ==> b.transitions[s][Epsilon] == {}
    ensures forall s, k :: 0 <= s < a.numStates && 1 <= k <= a.alphabetSize ==>
      b.transitions[s][k] <= Absorbed(a.transitions, s, k)
    ensures forall s, k :: 0 <= s < a.numStates && 1 <= k <= a.alphabetSize && s in EClosure(a.transitions, b.accepting) ==>
      b.transitions[s][k] == Absorbed(a.transitions, s, k)
    ensures forall s, k :: 0 <= s < a.numStates && 1 <= k <= a.alphabetSize && s !in EClosure(a.transitions, b.accepting) ==>
      b.transitions[s][k] == a.transitions[s][k]
  {
    var a1 := Stage1(a);
    var a2 := Stage2(a1);
    b := Stage3(a2);
  }
}
