/**
 Small concrete automata run through the converter and the simulator.
 */
module Scenarios {
  import opened Reach
  import opened Automata
  import Converter
  import Simulator
  import Language

  /** `0 -eps-> 1 -a-> 2` with accepting set `{2}`, in the converter's layout. */
  function EpsilonThenA(): (a: Automaton)
    ensures Automata.WellFormed(a)
  {
    Automaton(3, 1, {2}, [[{1}, {}], [{}, {2}], [{}, {}]])
  }

  /** The epsilon column of `EpsilonThenA`, read as a graph. */
  lemma EpsilonThenAEpsilonColumn()
    ensures Column(EpsilonThenA().transitions, Converter.Epsilon) == [{1}, {}, {}]
  {
  }

  /** From 0 the only epsilon move leads to 1. */
  lemma EpsilonThenAClosureOfZero()
    ensures Converter.EClosure(EpsilonThenA().transitions, {0}) == {0, 1}
  {
    var g: Graph := [{1}, {}, {}];
    EpsilonThenAEpsilonColumn();
    ReachableRefl(g, 0);
    ReachableStep(g, 0, 0, 1);
    ClosureUnique(g, {0}, {0, 1});
  }

  /** A state without epsilon moves is its own closure. */
  lemma EpsilonThenAClosureOfLeaf(s: nat)
    requires s == 1 || s == 2
    ensures Converter.EClosure(EpsilonThenA().transitions, {s}) == {s}
  {
    var g: Graph := [{1}, {}, {}];
    EpsilonThenAEpsilonColumn();
    ClosureContainsSeed(g, {s});
    ClosureUnique(g, {s}, {s});
  }

  /** The epsilon closures of the three states of `EpsilonThenA`. */
  lemma EpsilonThenAClosures()
    ensures Converter.EClosure(EpsilonThenA().transitions, {0}) == {0, 1}
    ensures Converter.EClosure(EpsilonThenA().transitions, {1}) == {1}
    ensures Converter.EClosure(EpsilonThenA().transitions, {2}) == {2}
  {
    EpsilonThenAClosureOfZero();
    EpsilonThenAClosureOfLeaf(1);
    EpsilonThenAClosureOfLeaf(2);
  }

  lemma EpsilonThenAReachesAccepting()
    ensures Converter.ReachesAccepting(EpsilonThenA()) == {2}
  {
    var a := EpsilonThenA();
    EpsilonThenAClosures();
    forall s: nat | s < 3 ensures s in Converter.ReachesAccepting(a) <==> s == 2 {
      if s == 2 {
        assert 2 in Converter.EClosure(a.transitions, {2}) * a.accepting;
      }
    }
  }

  lemma EpsilonThenAAbsorbsA()
    ensures 2 in Converter.Absorbed(EpsilonThenA().transitions, 0, 1)
  {
    EpsilonThenAClosures();
    var g1 := Column(EpsilonThenA().transitions, 1);
    assert g1[1] == {2};
    assert 1 in {0, 1};
  }

  /** A state set with nothing in column 1 is left with nothing after the letter "a". */
  lemma RunOfA(a: Automaton)
    requires Automata.WellFormed(a) && a.numStates > 0 && a.alphabetSize >= 1
    requires a.transitions[0][1] == {}
    ensures Simulator.Indexable(a, "a")
    ensures Simulator.Run(a, {0}, "a") == {}
  {
    assert "a"[..0] == [];
    PostAddOne(Column(a.transitions, 1), {}, 0);
  }

  /** The epsilon-NFA `EpsilonThenA` accepts "a": epsilon to 1, then `a` to 2. */
  lemma EpsilonThenAAcceptsA()
    ensures Simulator.Letters(EpsilonThenA(), "a")
    ensures Language.EAccepts(EpsilonThenA(), "a")
  {
    var a := EpsilonThenA();
    assert "a" == ['a'];
    Language.ERunOneLetter(a, 'a');
    EpsilonThenAClosureOfZero();
    EpsilonThenAStepA();
    EpsilonThenAClosureOfLeaf(2);
    assert 2 in Language.ERun(a, "a") * a.accepting;
  }

  /** Letter `a` leads from `{0, 1}` to `{2}`. */
  lemma EpsilonThenAStepA()
    ensures Post(Column(EpsilonThenA().transitions, 1), {0, 1}) == {2}
  {
    var g1 := Column(EpsilonThenA().transitions, 1);
    assert g1 == [{}, {2}, {}];
    PostAddOne(g1, {}, 0);
    assert {} + {0} == {0};
    PostAddOne(g1, {0}, 1);
    assert {0} + {1} == {0, 1};
  }

  /** The conversion of `EpsilonThenA` keeps `{2}` accepting and row 0 without an `a`-transition. */
  method ConvertEpsilonThenA() returns (converted: Automaton)
    ensures Automata.WellFormed(converted) && converted.numStates == 3 && converted.alphabetSize == 1
    ensures converted.accepting == {2}
    ensures converted.transitions[0][1] == {}
  {
    var a := EpsilonThenA();
    EpsilonThenAReachesAccepting();
    converted := Converter.Convert(a);
    assert converted.accepting == {2};
    EpsilonThenAClosures();
    assert 0 !in Converter.EClosure(a.transitions, {2});
  }

  /**
   Converting `EpsilonThenA` leaves state 0 without its `a`-transition to 2,
   although 2 lies in the absorption of row 0: stage 2 only visits states
   epsilon-reachable from accepting states, and 0 is not one of them. The
   converted automaton then rejects "a".
   */
  method ConversionDropsA() returns (converted: Automaton, outcome: Simulator.Outcome)
    ensures Simulator.Letters(EpsilonThenA(), "a") && Language.EAccepts(EpsilonThenA(), "a")
    ensures 2 in Converter.Absorbed(EpsilonThenA().transitions, 0, 1)
    ensures Automata.WellFormed(converted) && converted.numStates == 3 && converted.alphabetSize == 1
    ensures converted.transitions[0][1] == {}
    ensures outcome == Simulator.Answer(false)
  {
    EpsilonThenAAbsorbsA();
    EpsilonThenAAcceptsA();
    converted := ConvertEpsilonThenA();
    RunOfA(converted);
    assert !Simulator.ThrowsAt(converted, "a", 0);
    outcome := Simulator.IsAccepted(converted, "a");
  }

  /** With every state absorbing, the conversion of `EpsilonThenA` accepts "a" as the epsilon-NFA does. */
  method CorrectedKeepsA() returns (converted: Automaton, outcome: Simulator.Outcome)
    ensures Language.ExactConversion(EpsilonThenA(), converted)
    ensures outcome == Simulator.Answer(true)
  {
    EpsilonThenAAcceptsA();
    converted := Language.ConvertCorrected(EpsilonThenA());
    assert !Simulator.ThrowsAt(converted, "a", 0);
    outcome := Simulator.IsAccepted(converted, "a");
  }

  /** Two states with epsilon transitions both ways, in the converter's layout. */
  function EpsilonCycle(): (a: Automaton)
    ensures Automata.WellFormed(a)
  {
    Automaton(2, 1, {1}, [[{1}, {}], [{0}, {}]])
  }

  /** The search terminates on the cycle and finds both states. */
  method CycleClosure() returns (closure: set<nat>)
    ensures closure == {0, 1}
  {
    var a := EpsilonCycle();
    var g := Column(a.transitions, Converter.Epsilon);
    assert g == [{1}, {0}];
    closure := Converter.EpsilonClosure(a, 0);
    ReachableRefl(g, 0);
    ReachableStep(g, 0, 0, 1);
    ClosureUnique(g, {0}, {0, 1});
  }
}
