/**
 The language of an epsilon-NFA in the converter's layout, and what the
 conversion does to it. Strings are read as in the simulator: character `ch`
 is symbol column `ch - 'a' + 1`. The epsilon-NFA starts in the epsilon
 closure of state 0, steps along a symbol column and closes again after every
 character; it accepts when the final set meets the accepting set.
 */
module Language {
  import opened Reach
  import opened Automata
  import Converter
  import Simulator

  lemma LettersPrefix(a: Automaton, w: string)
    requires |w| > 0 && Simulator.Letters(a, w)
    ensures Simulator.Letters(a, w[..|w| - 1])
    ensures 1 <= Simulator.SymbolColumn(w[|w| - 1]) <= a.alphabetSize
  {
    var u := w[..|w| - 1];
    forall i | 0 <= i < |u| ensures 1 <= Simulator.SymbolColumn(u[i]) <= a.alphabetSize {
      assert u[i] == w[i];
    }
  }

  /** The state set of the epsilon-NFA after reading `w`. */
  ghost function ERun(a: Automaton, w: string): (states: set<nat>)
    requires Simulator.Letters(a, w)
    decreases |w|
  {
    if |w| == 0 then Converter.EClosure(a.transitions, {0})
    else
      LettersPrefix(a, w);
      var col := Column(a.transitions, Simulator.SymbolColumn(w[|w| - 1]) as nat);
      Converter.EClosure(a.transitions, Post(col, ERun(a, w[..|w| - 1])))
  }

  /** The run on a one-letter string: close `{0}`, step along the letter's column, close again. */
  lemma ERunOneLetter(a: Automaton, c: char)
    requires 1 <= Simulator.SymbolColumn(c) <= a.alphabetSize
    ensures Simulator.Letters(a, [c])
    ensures ERun(a, [c]) == Converter.EClosure(a.transitions,
      Post(Column(a.transitions, Simulator.SymbolColumn(c) as nat), Converter.EClosure(a.transitions, {0})))
  {
    assert [c][..0] == [];
  }

  ghost predicate EAccepts(a: Automaton, w: string)
    requires Simulator.Letters(a, w)
  {
    ERun(a, w) * a.accepting != {}
  }

  /** What the as-written conversion promises: accepting set grown, symbol cells within their absorption. */
  ghost predicate SoundConversion(a: Automaton, b: Automaton) {
    && WellFormed(a) && WellFormed(b)
    && b.numStates == a.numStates && b.alphabetSize == a.alphabetSize
    && b.accepting == a.accepting + Converter.ReachesAccepting(a)
    && (forall s, k :: 0 <= s < a.numStates && 1 <= k <= a.alphabetSize ==>
          b.transitions[s][k] <= Converter.Absorbed(a.transitions, s, k))
  }

  /** The textbook epsilon removal: every symbol cell is exactly its absorption. */
  ghost predicate ExactConversion(a: Automaton, b: Automaton) {
    && SoundConversion(a, b)
    && (forall s, k :: 0 <= s < a.numStates && 1 <= k <= a.alphabetSize ==>
          b.transitions[s][k] == Converter.Absorbed(a.transitions, s, k))
  }

  /** A closure only contains vertices reached from seeds that are vertices. */
  lemma ClosureSeedInRange(g: Graph, s: nat, d: nat)
    requires d in Closure(g, {s})
    ensures s < |g|
  {
    var p :| IsPath(g, p) && p[0] == s && p[|p| - 1] == d;
  }

  /** One step of the converted automaton from `X` stays within one epsilon-NFA step from the closure of `X`. */
  lemma PostWithin(a: Automaton, b: Automaton, k: nat, X: set<nat>)
    requires SoundConversion(a, b) && 1 <= k <= a.alphabetSize
    ensures Post(Column(b.transitions, k), X) <= Post(Column(a.transitions, k), Converter.EClosure(a.transitions, X))
  {
    var g := Column(a.transitions, Converter.Epsilon);
    forall d | d in Post(Column(b.transitions, k), X)
      ensures d in Post(Column(a.transitions, k), Converter.EClosure(a.transitions, X))
    {
      var q :| q in X && q < a.numStates && d in b.transitions[q][k];
      assert d in Converter.Absorbed(a.transitions, q, k);
      ClosureMono(g, {q}, X);
    }
  }

  /** With exact cells, the converted step from `X` is the epsilon-NFA step from the closure of `X`. */
  lemma PostExact(a: Automaton, b: Automaton, k: nat, X: set<nat>)
    requires ExactConversion(a, b) && 1 <= k <= a.alphabetSize
    ensures Post(Column(b.transitions, k), X) == Post(Column(a.transitions, k), Converter.EClosure(a.transitions, X))
  {
    var g := Column(a.transitions, Converter.Epsilon);
    PostWithin(a, b, k, X);
    forall d | d in Post(Column(a.transitions, k), Converter.EClosure(a.transitions, X))
      ensures d in Post(Column(b.transitions, k), X)
    {
      var p :| p in Converter.EClosure(a.transitions, X) && p < a.numStates && d in a.transitions[p][k];
      ClosureSplit(g, X, p);
      var q :| q in X && p in Closure(g, {q});
      ClosureSeedInRange(g, q, p);
      assert d in Converter.Absorbed(a.transitions, q, k);
    }
  }

  /** The closure of the converted run never leaves the epsilon-NFA run. */
  lemma {:induction false} RunWithin(a: Automaton, b: Automaton, w: string)
    requires SoundConversion(a, b) && Simulator.Letters(a, w)
    ensures Simulator.Indexable(b, w)
    ensures Converter.EClosure(a.transitions, Simulator.Run(b, {0}, w)) <= ERun(a, w)
    decreases |w|
  {
    var g := Column(a.transitions, Converter.Epsilon);
    if |w| > 0 {
      var u := w[..|w| - 1];
      var k := Simulator.SymbolColumn(w[|w| - 1]) as nat;
      LettersPrefix(a, w);
      RunWithin(a, b, u);
      var R := Simulator.Run(b, {0}, u);
      PostWithin(a, b, k, R);
      PostMono(Column(a.transitions, k), Converter.EClosure(a.transitions, R), ERun(a, u));
      ClosureMono(g, Post(Column(b.transitions, k), R), Post(Column(a.transitions, k), ERun(a, u)));
    }
  }

  /** With exact cells, closing the converted run gives exactly the epsilon-NFA run. */
  lemma {:induction false} RunExact(a: Automaton, b: Automaton, w: string)
    requires ExactConversion(a, b) && Simulator.Letters(a, w)
    ensures Simulator.Indexable(b, w)
    ensures Converter.EClosure(a.transitions, Simulator.Run(b, {0}, w)) == ERun(a, w)
    decreases |w|
  {
    if |w| > 0 {
      var u := w[..|w| - 1];
      var k := Simulator.SymbolColumn(w[|w| - 1]) as nat;
      LettersPrefix(a, w);
      RunExact(a, b, u);
      PostExact(a, b, k, Simulator.Run(b, {0}, u));
    }
  }

  /** A set meets the grown accepting set exactly when its epsilon closure meets the original one. */
  lemma MeetsGrownAccepting(a: Automaton, X: set<nat>)
    requires WellFormed(a)
    ensures X * (a.accepting + Converter.ReachesAccepting(a)) != {} <==> Converter.EClosure(a.transitions, X) * a.accepting != {}
  {
    var g := Column(a.transitions, Converter.Epsilon);
    var F := a.accepting + Converter.ReachesAccepting(a);
    if X * F != {} {
      var q :| q in X * F;
      if q in a.accepting {
        ClosureContainsSeed(g, X);
        assert q in Converter.EClosure(a.transitions, X) * a.accepting;
      } else {
        var f :| f in Converter.EClosure(a.transitions, {q}) * a.accepting;
        ClosureMono(g, {q}, X);
        assert f in Converter.EClosure(a.transitions, X) * a.accepting;
      }
    }
    if Converter.EClosure(a.transitions, X) * a.accepting != {} {
      var f :| f in Converter.EClosure(a.transitions, X) * a.accepting;
      ClosureSplit(g, X, f);
      var q :| q in X && f in Closure(g, {q});
      ClosureSeedInRange(g, q, f);
      assert f in Converter.EClosure(a.transitions, {q}) * a.accepting;
      assert q in X * F;
    }
  }

  /** An automaton satisfying the as-written promises accepts only strings the epsilon-NFA accepts. */
  lemma ConversionSound(a: Automaton, b: Automaton, w: string)
    requires SoundConversion(a, b) && Simulator.Letters(a, w)
    ensures Simulator.Indexable(b, w)
    ensures Simulator.Accepts(b, w) ==> EAccepts(a, w)
  {
    RunWithin(a, b, w);
    MeetsGrownAccepting(a, Simulator.Run(b, {0}, w));
  }

  /** The textbook epsilon removal accepts exactly the strings the epsilon-NFA accepts. */
  lemma ConversionExact(a: Automaton, b: Automaton, w: string)
    requires ExactConversion(a, b) && Simulator.Letters(a, w)
    ensures Simulator.Indexable(b, w)
    ensures Simulator.Accepts(b, w) <==> EAccepts(a, w)
  {
    RunExact(a, b, w);
    MeetsGrownAccepting(a, Simulator.Run(b, {0}, w));
  }

  /** The as-written conversion never accepts a string of letters the epsilon-NFA rejects. */
  method ConvertSound(a: Automaton) returns (b: Automaton)
    requires WellFormed(a)
    ensures SoundConversion(a, b)
    ensures forall w :: Simulator.Letters(a, w) ==> Simulator.Indexable(b, w) && (Simulator.Accepts(b, w) ==> EAccepts(a, w))
  {
    b := Converter.Convert(a);
    forall w | Simulator.Letters(a, w)
      ensures Simulator.Indexable(b, w) && (Simulator.Accepts(b, w) ==> EAccepts(a, w))
    {
      ConversionSound(a, b, w);
    }
  }

  /**
   The conversion with every state absorbing in stage 2: stage 1, the
   all-states stage 2, stage 3. It accepts exactly the epsilon-NFA's strings
   of letters.
   */
  method ConvertCorrected(a: Automaton) returns (b: Automaton)
    requires WellFormed(a)
    ensures ExactConversion(a, b)
    ensures forall s :: 0 <= s < a.numStates ==> b.transitions[s][Converter.Epsilon] == {}
    ensures forall w :: Simulator.Letters(a, w) ==> Simulator.Indexable(b, w) && (Simulator.Accepts(b, w) <==> EAccepts(a, w))
  {
    var a1 := Converter.Stage1(a);
    var a2 := Converter.Stage2AllStates(a1);
    b := Converter.Stage3(a2);
    forall w | Simulator.Letters(a, w)
      ensures Simulator.Indexable(b, w) && (Simulator.Accepts(b, w) <==> EAccepts(a, w))
    {
      ConversionExact(a, b, w);
    }
  }
}
