# Epsilon-NFA conversion and NFA simulation, in Dafny

This project models the two algorithms of a small automata toolkit and proves
properties of them:

- the **epsilon-NFA to NFA converter** (`ENFAToNFAConverter`). It has an epsilon
  closure by depth-first search, three stages (grow the accepting set, absorb
  symbol cells across epsilon closures with a worklist, clear the epsilon
  column) and their composition;
- the **NFA simulator** (`NFASimulator`). It steps a set of active states from
  `{0}` over a string, and it has a separate fixed-point epsilon closure of a
  set of states.

An automaton is the immutable value `Automata.Automaton(numStates,
alphabetSize, accepting, transitions)`. The table `transitions[state][column]`
holds a `set<nat>` of destinations. `Automata.WellFormed` states what the file
loader is trusted to produce: `numStates` rows of `alphabetSize + 1` cells,
destinations and accepting states below `numStates`. Each column of the table
read on its own is a graph (`Automata.Column`). Reachability, closures and
one-step successors (`Reach.Post`) are defined once on such graphs in module
`Reach`. Both tools' closures are proved equal to `Reach.Closure`: the set of
vertices reachable by a path from the seed.

Each file keeps its own column convention, as the code does:

- The converter reads column 0 as epsilon and columns `1 .. alphabetSize` as symbols.
- The simulator maps character `ch` to column `ch - 'a' + 1` and never
  applies an epsilon closure while stepping. So a character `` ` `` reads
  column 0.
- The simulator's own closure routine reads the LAST column,
  `alphabetSize`, as epsilon.

These conventions are not reconciled.

Modelling notes:

- A `HashSet` iteration is a loop that picks any remaining member (`:|`). Every
  postcondition is proved for every order.
- The stage 2 queue is a `seq<nat>`. As in the code, it may hold a state more
  than once: the seed appends whole closures and marks only the accepting
  states. A state can therefore be absorbed twice, which changes nothing
  because absorption is idempotent.
- The loop of stage 2 over the epsilon closure of the current state does two
  independent things per member: mark-and-enqueue, and unite its cell into
  the current state's cell. Neither reads what the other writes. The model
  runs them as two passes over the closure: `Converter.EnqueueNew` and
  `Converter.AbsorbClosure`.
- `isAccepted` throws an array-index exception when it reads a row or
  column that does not exist while some state is still active. The model
  returns `Simulator.OutOfBounds` exactly then. A character without a column
  is never read once the active set is empty, and then the string is
  rejected.

Three properties one might expect of the code do not hold, and the model
follows the code:

- The conversion does not preserve the accepted language (see Findings).
  The model proves the weaker property the code does have
  (`Language.ConversionSound`), and proves language preservation for the
  corrected stage 2.
- Stage 2 can process a state twice, as described above.
- The simulator never applies an epsilon closure while stepping.

## Model

| member | source | states |
|---|---|---|
| Converter.EpsilonClosure | 355Project/ENFAToNFAConverter.java:109-131 | The closure contains the start state, lies in `[0, numStates)`, has no epsilon edge leaving it, and equals the set of states reachable from the start by epsilon paths. The search terminates on epsilon cycles and self-loops: the measure is the unmarked states, then the stack depth. |
| Converter.Stage1Step | 355Project/ENFAToNFAConverter.java:72-80 | A closure meets the accepting set grown by earlier iterations exactly when it meets the original accepting set, because a state made accepting earlier epsilon-reaches an original accepting state and closures are transitive. The outcome of stage 1 therefore does not depend on the scan order. |
| Converter.Stage1 | 355Project/ENFAToNFAConverter.java:69-82 | The transitions are unchanged. The accepting set only grows and ends as the original set united with every state whose epsilon closure meets it. |
| Converter.AddAll | 355Project/ENFAToNFAConverter.java:90 | Appending a set to the queue keeps the old queue as a prefix and adds each member of the set exactly once. |
| Converter.Seed | 355Project/ENFAToNFAConverter.java:86-92 | After seeding, exactly the accepting states are marked and the queue holds exactly the epsilon closure of the accepting set. |
| Converter.EnqueueNew | 355Project/ENFAToNFAConverter.java:98-102 | Every state of the closure ends marked. The queue keeps its old contents as a prefix. The states appended are exactly the previously unmarked ones, each once (equal multisets). |
| Converter.AbsorbedMono | 355Project/ENFAToNFAConverter.java:103 | The cell of any state in the epsilon closure of `current` lies within the absorption of `current`, because closures are transitive. Uniting it into the current cell, even after earlier updates, therefore never goes beyond the absorption. |
| Converter.AbsorbClosure | 355Project/ENFAToNFAConverter.java:98-104 | Only the cell `(current, symbol)` changes. It ends containing the original cells of every state of the closure, while every cell stays within its absorption. |
| Converter.AbsorbCell | 355Project/ENFAToNFAConverter.java:97-104 | Cell `(current, symbol)` becomes exactly its absorption. No other cell, no other row and not the epsilon column change. |
| Converter.AbsorbSymbol | 355Project/ENFAToNFAConverter.java:97-104 | One symbol of the stage 2 body. The cell becomes its absorption, the closure of `current` becomes marked, and exactly the newly marked states are appended, each once. |
| Converter.AbsorbAllSymbols | 355Project/ENFAToNFAConverter.java:95-105 | One dequeued state. Every symbol cell of its row becomes its absorption and other rows are unchanged. The queue only gains states of the state's closure, and its length minus the number of marked states is unchanged; this is the measure that makes stage 2 terminate. |
| Converter.Stage2 | 355Project/ENFAToNFAConverter.java:85-107 | The accepting set and the epsilon column are unchanged, and stage 2 terminates. Every symbol cell lies between its original value and its absorption. The cells of states in the epsilon closure of the accepting set equal their absorption. The rows of all other states are unchanged. |
| Converter.Stage3 | 355Project/ENFAToNFAConverter.java:134-138 | Every epsilon cell is empty. The symbol columns and the accepting set are unchanged. |
| Converter.Convert | 355Project/ENFAToNFAConverter.java:62-66 | The three stages in order. The accepting set grows by the states that epsilon-reach it and the epsilon column is empty. Symbol cells of states epsilon-reachable from the grown accepting set equal their absorption. All other symbol cells are unchanged, and all lie within their absorption. |
| Converter.AbsorbRow | 355Project/ENFAToNFAConverter.java:96-105 | Every symbol cell of one row becomes its absorption, without the queue. The corrected stage 2 uses it. |
| Converter.Stage2AllStates | 355Project/ENFAToNFAConverter.java:85-107 | Corrected stage 2: every state absorbs, and every symbol cell of every row ends equal to its absorption. |
| Simulator.Successors | 355Project/NFASimulator.java:120-125 | The next set is exactly the union, over the active states, of their cells in the given column. |
| Simulator.IsAccepted | 355Project/NFASimulator.java:113-134 | The outcome is `OutOfBounds` exactly when some character is looked up while the run is alive and has no column (or there is no row 0). Otherwise the verdict is whether the final active set meets the accepting set. It is a rejection whenever the run died before a character without a column. On the empty string it is `0 in accepting`, with no epsilon expansion. |
| Simulator.RunStep | 355Project/NFASimulator.java:119-127 | One character: a live set steps along the character's column to the reference run, and a dead set stays empty. |
| Simulator.RunAppend | 355Project/NFASimulator.java:119-128 | Running `u + v` equals running `v` from the set reached after `u`. |
| Simulator.DeadStaysDead | 355Project/NFASimulator.java:120-131 | Once the active set is empty it stays empty for every continuation, and the string is rejected. |
| Simulator.RunIgnoresColumnZero | 355Project/NFASimulator.java:119-128 | On strings of letters (columns `1 .. alphabetSize`), two tables that agree on those columns give the same run. |
| Simulator.AcceptsIgnoresColumnZero | 355Project/NFASimulator.java:123-124 | Changing column 0 changes no verdict on a string of letters. |
| Simulator.EpsilonClosure | 355Project/NFASimulator.java:136-155 | The result contains `S`, lies in `[0, numStates)`, has no last-column edge leaving it, and equals the set reachable from `S` along last-column edges. This is the least such closed superset. The loop terminates because each round that changes the set strictly grows it within `numStates`. |
| Simulator.GrowStep | 355Project/NFASimulator.java:149-151 | A round that finds a new state adds only states of the closure and strictly grows the set, which stays within `numStates`. |
| Reach.ClosureLeast | 355Project/NFASimulator.java:141-153 | The closure is contained in every superset of the seed that no edge leaves. |
| Reach.ClosureIsClosed | 355Project/ENFAToNFAConverter.java:118-128 | No edge leaves the closure. |
| Reach.ClosureUnique | 355Project/ENFAToNFAConverter.java:118-128 | A closed set between the seed and the closure is the closure. Both closure routines finish with this. |
| Reach.ClosureIdempotent | 355Project/NFASimulator.java:141-153 | Closing a closure adds nothing. |
| Reach.ClosureOfMember | 355Project/ENFAToNFAConverter.java:74-76 | The closure of a member of a closure lies inside that closure (transitivity). |
| Language.ConversionSound | 355Project/ENFAToNFAConverter.java:62-107 | An automaton with the as-written conversion's guarantees accepts a string of letters only if the epsilon-NFA accepts it. |
| Language.ConvertSound | 355Project/ENFAToNFAConverter.java:62-66 | The as-written conversion never accepts a string of letters that the epsilon-NFA rejects. |
| Language.RunWithin | 355Project/ENFAToNFAConverter.java:96-104 | The epsilon closure of the converted run stays inside the epsilon-NFA run, by induction on the string. |
| Language.RunExact | 355Project/ENFAToNFAConverter.java:96-104 | With every cell equal to its absorption, the epsilon closure of the converted run equals the epsilon-NFA run. |
| Language.MeetsGrownAccepting | 355Project/ENFAToNFAConverter.java:72-80 | A set meets the stage 1 accepting set exactly when its epsilon closure meets the original one. |
| Language.ConversionExact | 355Project/ENFAToNFAConverter.java:62-107 | With every cell equal to its absorption, the converted automaton accepts a string of letters exactly when the epsilon-NFA does. |
| Language.ConvertCorrected | 355Project/ENFAToNFAConverter.java:62-66 | The conversion with the corrected stage 2 empties the epsilon column and accepts exactly the epsilon-NFA's strings of letters. |
| Scenarios.ConversionDropsA | 355Project/ENFAToNFAConverter.java:88-92 | The epsilon-NFA `0 -eps-> 1 -a-> 2` with accepting `{2}` accepts "a". After the as-written conversion, row 0 has no `a`-transition and the simulator answers `Answer(false)` on "a". |
| Scenarios.CorrectedKeepsA | 355Project/ENFAToNFAConverter.java:85-107 | After the corrected conversion the same automaton is answered `Answer(true)` on "a". |
| Scenarios.CycleClosure | 355Project/ENFAToNFAConverter.java:118-128 | On the epsilon cycle `0 <-> 1` the search terminates with `{0, 1}`. |

## Findings

| source | as written | input that shows it | evidently intended | confidence | as-written member | corrected member |
|---|---|---|---|---|---|---|
| 355Project/ENFAToNFAConverter.java:88-92 | Stage 2 seeds its worklist from the epsilon closures of the accepting states only. A state that is not epsilon-reachable from an accepting state never absorbs the symbol cells of its own epsilon closure. | The epsilon-NFA `0 -eps-> 1 -a-> 2`, accepting `{2}`, accepts "a". After conversion, row 0 has no `a`-transition, state 0 is not accepting, and "a" is rejected. | Every state absorbs, so the converted NFA accepts exactly the strings the epsilon-NFA accepts. | high; not executed | Scenarios.ConversionDropsA | Language.ConvertCorrected |

## Left out

- Parsing of the automaton files in both constructors (ENFAToNFAConverter.java:21-59, NFASimulator.java:17-60) is I/O. The automaton is given as data, and `Automata.WellFormed` excludes files with a destination or accepting state outside `[0, numStates)` or with a non-empty extra cell on a row. The Java code does not validate such files. It throws only where it indexes with the bad value: a non-empty extra cell at ENFAToNFAConverter.java:51 and NFASimulator.java:52; an out-of-range epsilon destination at ENFAToNFAConverter.java:122, reached for every row by stage 1; an out-of-range accepting state at ENFAToNFAConverter.java:116, through the call at line 89. Elsewhere it silently carries the bad value. Stage 1 only tests accepting states for membership (ENFAToNFAConverter.java:75), and stage 2 copies symbol destinations without indexing (ENFAToNFAConverter.java:103). The simulator only tests accepting states for membership (NFASimulator.java:131). It indexes with a symbol destination at NFASimulator.java:124 only when a further character follows. None of this behaviour on such files is modelled.
- `printNFA`, `readStringsFromFile`, `checkStrings` and `main` are console and file I/O.
- How the exception raised by `isAccepted` propagates through `checkStrings` and `main` is not modelled. The model stops at the `OutOfBounds` outcome.
- `Converter.EpsilonClosure` requires a state below `numStates`. The Java code would throw for any other state, and it is only ever called with states of the table.
- `Simulator.EpsilonClosure` requires every state of `S` to be below `numStates`. The Java code would throw otherwise; it has no caller.
- HashSet iteration order is left open. The model picks any remaining member, and every result is proved for every order.
- Language.ConvertSound: states only soundness (no extra strings accepted), because the as-written conversion does lose strings (see Findings).
- Language.ConvertCorrected: the language statements cover strings of letters, characters mapping into columns `1 .. alphabetSize`. A character mapping to column 0 reads the epsilon column, which the conversion empties, so the simulator's verdict on it does not describe the epsilon-NFA.
