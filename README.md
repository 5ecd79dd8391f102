# Finite automata, regular grammars and an expression lexer

This project models the core of LFA-LABS, a set of laboratory exercises on
formal languages, in Dafny:

- `FiniteAutomaton`, `DFiniteAutomaton` and `NDFiniteAutomaton` are mutable
  automata. Each is built state by state and transition by transition, then
  queried or converted. The nondeterministic one supports:
  - the ε-closure of a state, by depth-first search;
  - the subset construction, with states named `S`, `A`, `B`, …;
  - the ε-closure subset construction, with states named by the `_`-joined
    sorted labels of their subsets;
  - a translation to a right-linear grammar.
- `Grammar` is a right-linear grammar value, translated to a
  `FiniteAutomaton` with one state per nonterminal plus a final state `F`.
- `Lexer` scans a trimmed expression into number, identifier, operator and
  parenthesis tokens. It throws on any character it does not know.

Each Java class whose fields its methods update becomes a Dafny `class`:

- `FiniteAutomata.FiniteAutomaton` in `finite_automaton.dfy`;
- `Dfa.DFiniteAutomaton` in `dfa.dfy`;
- `Nfa.NDFiniteAutomaton` in `nfa.dfy`;
- `Lexers.Lexer` in `lexer.dfy`.

The class fields are sets and maps, and the methods reassign them. The
loops of the source are `while` loops with invariants. A loop over a
`HashSet` or `HashMap` picks its next element with `:|`, so no proof
depends on iteration order.

The Java exceptions the code can raise become `Failure` values of
`Outcomes.Result`:

- `NullPointer`: a `get` on a missing key that is then used, or the null
  start state;
- `IndexOutOfBounds`: `charAt(0)` on an empty label;
- `IllegalArgument(c)`: the lexer's unexpected character.

The start state is `None` until `setStartState` is called.

The languages are stated as specification functions on plain values:

- `TransitionTables.Run` is the walk over a deterministic table.
- `NfaSemantics.Reach` is the set of states reachable over a word, with or
  without ε-closure.
- `NfaSemantics.EClose` is the ε-reachability closure.
- `Grammars.Derives` is right-linear derivation of nonempty words.
- `Grammars.DerivesEps` is the same derivation with the right-hand side
  `ε` read as the empty word, as in the grammar built from an NFA.

What is proved about the conversions, and under which conditions:

- Both subset constructions rest on one simulation invariant,
  `NfaSemantics.Simulates`.
- `convertToDFA` preserves the language while at most 19 subsets are
  named. This is guaranteed when the start state and the edge targets
  number at most four, because there are at most 2^4 subsets.
- `convertEpsilonNfaToDfa` preserves the ε-NFA's language when no label
  contains `_`.
- `Grammar.toFiniteAutomaton` yields an automaton that accepts exactly the
  derived words, for a well-formed grammar.
- `DFiniteAutomaton.toRegularGrammar` is proved equivalent only on
  nonempty words, and only when first letters tell the states apart. Its
  grammar has no production for the empty word.
- `NDFiniteAutomaton.toRegularGrammar` generates exactly the automaton's
  language, reading `ε` as the empty word, when no two states share a
  nonterminal.

## Model

| member | source | states |
|---|---|---|
| TransitionTables.SetEdgeLastWriteWins | src/main/java/org/example/FiniteAutomaton.java:41-44 | a second transition on the same state and symbol replaces the first |
| TransitionTables.RunStuck | src/main/java/org/example/fa/impl/DFiniteAutomaton.java:80-84 | once the walk has no edge for a prefix, it has none for any extension |
| TransitionTables.RunConcat | src/main/java/org/example/fa/impl/DFiniteAutomaton.java:79-86 | walking u then v is walking u + v |
| TransitionTables.RunFront | src/main/java/org/example/fa/impl/DFiniteAutomaton.java:80-85 | walking c·u takes the edge on c, then walks u from its target |
| TransitionTables.StuckOnLongerPrefixes | src/main/java/org/example/fa/impl/DFiniteAutomaton.java:80-84 | a prefix without a walk makes every longer prefix fail too |
| TransitionTables.RunEndsAtTarget | src/main/java/org/example/fa/impl/DFiniteAutomaton.java:79-86 | the walk ends at the start state or at the target of some transition |
| FiniteAutomata.FiniteAutomaton.constructor | src/main/java/org/example/FiniteAutomaton.java:21-26 | the automaton starts empty over the given alphabet, with no start state |
| FiniteAutomata.FiniteAutomaton.SetStartState | src/main/java/org/example/FiniteAutomaton.java:28-31 | sets the start state, adds it to the states and changes nothing else |
| FiniteAutomata.FiniteAutomaton.AddState | src/main/java/org/example/FiniteAutomaton.java:33-39 | adds the state, and marks it accepting if asked; keeps an existing row, otherwise adds an empty one |
| FiniteAutomata.FiniteAutomaton.AddTransition | src/main/java/org/example/FiniteAutomaton.java:41-44 | creates the row if it is missing, and then overwrites the entry for the symbol |
| FiniteAutomata.FiniteAutomaton.Accepts | src/main/java/org/example/FiniteAutomaton.java:46-55 | throws a null pointer exception exactly when the walk reaches a state that has no row; otherwise it answers true iff every symbol is in sigma, the walk exists, and the walk ends in an accept state; the empty word is accepted iff the start state is accepting |
| FiniteAutomata.FiniteAutomaton.RowsPresentNeverCrash | src/main/java/org/example/FiniteAutomaton.java:46-55 | when every reachable state has a row, accepts never throws |
| Dfa.SetToSeq | src/main/java/org/example/fa/impl/DFiniteAutomaton.java:118 | the list built from a set has exactly its members, each once |
| Dfa.EdgeRhsAdd | src/main/java/org/example/fa/impl/DFiniteAutomaton.java:128-136 | handling one more row adds exactly that row's productions |
| Dfa.DFiniteAutomaton.constructor | src/main/java/org/example/fa/impl/DFiniteAutomaton.java:25-30 | the automaton starts empty over the given alphabet, with no start state |
| Dfa.DFiniteAutomaton.SetStartState | src/main/java/org/example/fa/impl/DFiniteAutomaton.java:38-41 | sets the start state, adds it to the states and changes nothing else |
| Dfa.DFiniteAutomaton.AddState | src/main/java/org/example/fa/impl/DFiniteAutomaton.java:50-56 | adds the state and its accepting flag; adds an empty row only where none exists |
| Dfa.DFiniteAutomaton.AddTransition | src/main/java/org/example/fa/impl/DFiniteAutomaton.java:66-69 | creates the row if it is missing, and then overwrites the entry for the symbol |
| Dfa.DFiniteAutomaton.IsStringAccepted | src/main/java/org/example/fa/impl/DFiniteAutomaton.java:78-88 | true iff the walk from the start state over the input exists and ends in an accept state; the empty input is accepted iff the start state is accepting |
| Dfa.DFiniteAutomaton.StateSymbols | src/main/java/org/example/fa/impl/DFiniteAutomaton.java:122-126 | throws index-out-of-bounds iff some state is the empty string; otherwise Vn holds one first letter per state, and every first letter has an empty production list |
| Dfa.DFiniteAutomaton.ToRegularGrammar | src/main/java/org/example/fa/impl/DFiniteAutomaton.java:116-139 | throws exactly in the null-start, empty-label and missing-list cases, each with its own exception. On success the start symbol is the first letter of the start state, and the terminals are sigma, each once. A production `cQ` or `c` is present iff there is an edge on c to a state starting with Q, or an edge on c to an accept state. When first letters tell states apart, every nonempty word is accepted iff the grammar derives it. When the start state accepts, the DFA accepts the empty word but the grammar does not derive it |
| Dfa.AddRowProductions | src/main/java/org/example/fa/impl/DFiniteAutomaton.java:130-135 | one row adds exactly its edge productions, or throws for a row with an empty label or a missing list |
| Dfa.RhsFromOwnRow | src/main/java/org/example/fa/impl/DFiniteAutomaton.java:128-136 | with distinct first letters, every production of a state's symbol comes from that state's own row |
| Dfa.EdgeCase | src/main/java/org/example/fa/impl/DFiniteAutomaton.java:128-136 | an edge on c turns derivation of c·u into acceptance of c·u |
| Dfa.NoEdgeCase | src/main/java/org/example/fa/impl/DFiniteAutomaton.java:128-136 | without an edge on c, the grammar derives no word starting with c and the walk gets stuck |
| Dfa.GrammarDerivesRun | src/main/java/org/example/fa/impl/DFiniteAutomaton.java:116-139 | the translated grammar derives a nonempty word from a state's letter iff the automaton accepts it from that state |
| Grammars.DefaultGrammar | src/main/java/org/example/Grammar.java:21-35 | the fixed lab grammar, whose start symbol is a nonterminal distinct from F |
| Grammars.DefaultGrammarWellFormed | src/main/java/org/example/Grammar.java:21-35 | the lab grammar is right-linear and deterministic, with no empty right-hand side |
| Grammars.LastStartingWith | src/main/java/org/example/Grammar.java:132-140 | the last production starting with c, which is the one whose edge survives the overwrites |
| Grammars.ApplyProductionsAt | src/main/java/org/example/Grammar.java:132-140 | after one key's productions, an edge on c exists iff it existed before or some production starts with c; it leads to the second letter of the last such production, or to F |
| Grammars.ApplyTerminalsAt | src/main/java/org/example/Grammar.java:142-147 | after one key's terminal productions, every symbol they start with leads to F, and other edges are unchanged |
| Grammars.AddProductionEdges | src/main/java/org/example/Grammar.java:134-140 | throws on an empty production; otherwise it rewrites only the key's row, as ApplyProductions |
| Grammars.AddTerminalEdges | src/main/java/org/example/Grammar.java:144-147 | throws on an empty production; otherwise it rewrites only the key's row, as ApplyTerminals |
| Grammars.ProductionsStep | src/main/java/org/example/Grammar.java:132-140 | one key's productions extend the invariant of the productions loop |
| Grammars.AddAllProductions | src/main/java/org/example/Grammar.java:132-140 | fails iff some production is empty, and otherwise leaves every key's row built |
| Grammars.TerminalsStep | src/main/java/org/example/Grammar.java:142-147 | one key's terminal productions extend the invariant of the terminal loop |
| Grammars.AddAllTerminals | src/main/java/org/example/Grammar.java:142-147 | fails iff some terminal production is empty, and otherwise leaves every key's row built |
| Grammars.TerminalsComplete | src/main/java/org/example/Grammar.java:132-147 | after both loops, the table is the production table of the grammar |
| Grammars.AddNonterminalStates | src/main/java/org/example/Grammar.java:127-129 | one non-accepting state with an empty row per nonterminal |
| Grammars.AddAllEdges | src/main/java/org/example/Grammar.java:132-147 | succeeds iff no production is empty, and then yields the production table |
| Grammars.GrammarStates | src/main/java/org/example/Grammar.java:125-130 | the automaton over Vt with the nonterminal states plus the accepting state F, and no start state yet |
| Grammars.ToFiniteAutomaton | src/main/java/org/example/Grammar.java:124-151 | throws index-out-of-bounds iff some production is empty. Otherwise the states are the nonterminals plus F and the start symbol, F is the only accept state, and the start is the start symbol. For a well-formed grammar every state has a row, and a word is accepted iff the grammar derives it |
| Grammars.RhsStartingWith | src/main/java/org/example/Grammar.java:136 | the search for a production starting with c agrees with plain existence |
| Grammars.TableStep | src/main/java/org/example/Grammar.java:132-147 | the edge on c from a nonterminal exists iff some right-hand side starts with c, and it leads to that side's target |
| Grammars.FinalStuck | src/main/java/org/example/Grammar.java:130 | F has no outgoing edges, so no nonempty word is read from F |
| Grammars.NoEdgeCase | src/main/java/org/example/Grammar.java:132-147 | with no right-hand side starting with c, no word c·u is derived and the walk gets stuck |
| Grammars.FinalEdgeCase | src/main/java/org/example/Grammar.java:142-147 | a terminal production c accepts and derives c·u exactly when u is empty |
| Grammars.MiddleEdgeCase | src/main/java/org/example/Grammar.java:136-139 | a production cB makes c·u accepted iff it is derived, given the same for u from B |
| Grammars.TableRunDerives | src/main/java/org/example/Grammar.java:124-151 | from a nonterminal, the walk reaches F iff the grammar derives the word |
| Grammars.RhsEdgeCase | src/main/java/org/example/Grammar.java:132-147 | any right-hand side starting with c decides c·u as the walk does |
| Grammars.DerivesInVt | src/main/java/org/example/Grammar.java:125 | a derived word is over the terminals, so accepts' sigma test never rejects it |
| Grammars.LabRhs | src/test/java/org/example/GrammarTest.java:26-27 | the right-hand sides of the test grammar, none of them empty |
| Grammars.LabShapes | src/test/java/org/example/GrammarTest.java:24-27 | every right-hand side of the test grammar is a terminal optionally followed by a nonterminal |
| Grammars.LabDeterministic | src/test/java/org/example/GrammarTest.java:26-27 | no two right-hand sides of a nonterminal start with the same terminal |
| Grammars.DefaultRhs | src/main/java/org/example/Grammar.java:24-32 | the lab grammar's productions and terminal productions together are the test grammar's right-hand sides |
| Grammars.DefaultLab | src/main/java/org/example/Grammar.java:21-35 | the lab grammar is right-linear and deterministic |
| Grammars.TestGrammar | src/test/java/org/example/GrammarTest.java:22-28 | the test grammar has a nonterminal start symbol and no terminal-production map |
| Grammars.TestRhs | src/test/java/org/example/GrammarTest.java:26-27 | the test grammar's right-hand sides as listed |
| Grammars.TestLab | src/test/java/org/example/GrammarTest.java:22-28 | the test grammar is right-linear and deterministic |
| Grammars.TestGrammarWellFormed | src/test/java/org/example/GrammarTest.java:22-28 | the test grammar meets every condition of the equivalence theorem |
| Grammars.DerivesLast | src/main/java/org/example/Grammar.java:142-147 | a terminal production derives its one-letter word |
| Grammars.DerivesStep | src/main/java/org/example/Grammar.java:136-139 | a production cB extends a derivation from B by c |
| Grammars.TestGrammarCs | src/test/java/org/example/GrammarTest.java:27 | B derives c^n a for every n |
| Grammars.TestWordDb | src/test/java/org/example/GrammarTest.java:16 | the test grammar derives db |
| Grammars.TestWordDada | src/test/java/org/example/GrammarTest.java:16 | the test grammar derives dada |
| Grammars.TestWordDdCs | src/test/java/org/example/GrammarTest.java:16 | the test grammar derives dd c^n a for every n |
| Grammars.TestWordBb | src/test/java/org/example/GrammarTest.java:16 | the test grammar derives bbddcccccccccca |
| Grammars.TestWordDdc | src/test/java/org/example/GrammarTest.java:16 | the test grammar derives ddcccccccccccca |
| Grammars.TestWordsAccepted | src/test/java/org/example/GrammarTest.java:29-31 | the automaton built from the test grammar accepts all four words of the test |
| Grammars.TestRun | src/main/java/org/example/Grammar.java:124-151 | every derived word leads from S to F |
| Grammars.TableLanguage | src/main/java/org/example/Grammar.java:124-151 | a word over Vt reaches F from the start iff the grammar derives it |
| Grammars.TableClosed | src/main/java/org/example/Grammar.java:127-147 | every edge target has a row, and the start has one too |
| Strings.LessIrreflexive | src/main/java/org/example/fa/impl/NDFiniteAutomaton.java:303 | no label sorts before itself |
| Strings.LessAsymmetric | src/main/java/org/example/fa/impl/NDFiniteAutomaton.java:303 | two labels never sort before each other |
| Strings.LessTransitive | src/main/java/org/example/fa/impl/NDFiniteAutomaton.java:303 | the order in which labels are sorted is transitive |
| Strings.LessTotal | src/main/java/org/example/fa/impl/NDFiniteAutomaton.java:303 | any two distinct labels are ordered |
| Strings.LeastExists | src/main/java/org/example/fa/impl/NDFiniteAutomaton.java:303 | a nonempty set of labels has a least element |
| Strings.LeastUnique | src/main/java/org/example/fa/impl/NDFiniteAutomaton.java:303 | the least element is unique |
| Strings.SortedMembers | src/main/java/org/example/fa/impl/NDFiniteAutomaton.java:302-303 | the sorted list of a set has exactly its members, each once, in strictly ascending order |
| Strings.Split | src/main/java/org/example/fa/impl/NDFiniteAutomaton.java:304 | cutting at the separator, which undoes the join, gives at least one piece |
| Strings.SplitFree | src/main/java/org/example/fa/impl/NDFiniteAutomaton.java:304 | a label without the separator splits into itself |
| Strings.SplitAppend | src/main/java/org/example/fa/impl/NDFiniteAutomaton.java:304 | splitting x, the separator and y gives x followed by the pieces of y |
| Strings.SplitJoin | src/main/java/org/example/fa/impl/NDFiniteAutomaton.java:304 | joining labels without `_` and then splitting gives the labels back |
| Strings.SortedUnique | src/main/java/org/example/fa/impl/NDFiniteAutomaton.java:302-303 | two strictly sorted lists with the same members are equal |
| NfaSemantics.AddEdgeIdempotent | src/main/java/org/example/fa/impl/NDFiniteAutomaton.java:61-65 | adding the same transition twice is adding it once |
| NfaSemantics.Move | src/main/java/org/example/fa/impl/NDFiniteAutomaton.java:188-193 | q is in the move on c iff some state of the set has q among its c-targets, where a missing row or entry counts as empty |
| NfaSemantics.EpsReachableRefl | src/main/java/org/example/fa/impl/NDFiniteAutomaton.java:285-287 | a state is in its own closure |
| NfaSemantics.EpsReachablePrepend | src/main/java/org/example/fa/impl/NDFiniteAutomaton.java:288-291 | an ε-edge followed by an ε-path is an ε-path |
| NfaSemantics.EpsReachableBounded | src/main/java/org/example/fa/impl/NDFiniteAutomaton.java:284-293 | a closure holds only the state itself and transition targets |
| NfaSemantics.EpsClosedContains | src/main/java/org/example/fa/impl/NDFiniteAutomaton.java:284-293 | a set closed under ε-edges contains the end of every ε-path that starts in it |
| NfaSemantics.EClose | src/main/java/org/example/fa/impl/NDFiniteAutomaton.java:272-276 | the ε-closure: q is in it iff an ε-path leads from p to q |
| NfaSemantics.EpsClosureUnique | src/main/java/org/example/fa/impl/NDFiniteAutomaton.java:272-293 | an ε-closed set that contains p, and holds only states reachable from p, is the ε-closure of p |
| NfaSemantics.ECloseSet | src/main/java/org/example/fa/impl/NDFiniteAutomaton.java:246-247 | the union of the closures of the members |
| NfaSemantics.NextOfEmpty | src/main/java/org/example/fa/impl/NDFiniteAutomaton.java:187-195 | the empty subset has no successor |
| NfaSemantics.SimulationRun | src/main/java/org/example/fa/impl/NDFiniteAutomaton.java:180-208 | under the simulation invariant, the walk of the built DFA over w ends at the name of the subset reached over w, and has no walk when that subset is empty or w leaves sigma |
| NfaSemantics.PowersetContains | src/main/java/org/example/fa/impl/NDFiniteAutomaton.java:180-208 | every subset of the finite set of targets is one of finitely many, so the worklist loops end |
| NfaSemantics.SimulationAccepts | src/main/java/org/example/fa/impl/NDFiniteAutomaton.java:154-211 | under the simulation invariant, the DFA accepts w iff w is over sigma and the reached subset meets the accept states |
| NfaSemantics.DeterministicReach | src/main/java/org/example/fa/impl/NDFiniteAutomaton.java:132-143 | with at most one target per state and symbol, a word reaches at most one state |
| NfaSemantics.CodeUnitCast | src/main/java/org/example/fa/impl/NDFiniteAutomaton.java:166 | the `(char)` cast keeps codes below the surrogate range; any other code gives its low 16 bits, or U+FFFD for a surrogate |
| NfaSemantics.StateNameShape | src/main/java/org/example/fa/impl/NDFiniteAutomaton.java:161-168 | every name has one character. Counter 0 gives S, and counter k > 0 gives `'A' + k - 1` below the surrogate range, an upper-case letter for k up to 26 |
| NfaSemantics.StateNameRepeats | src/main/java/org/example/fa/impl/NDFiniteAutomaton.java:161-168 | counter 19 gives S again, since 'A' + 18 is 'S' |
| NfaSemantics.StateNameSurrogates | src/main/java/org/example/fa/impl/NDFiniteAutomaton.java:166 | two counters whose casts are different surrogate and non-surrogate units get the same name in this model |
| NfaSemantics.PowersetCard | src/main/java/org/example/fa/impl/NDFiniteAutomaton.java:180-208 | a set of k states has at most 2^k subsets, which bounds the subsets the loop can name |
| NfaSemantics.ReachFront | src/main/java/org/example/fa/impl/NDFiniteAutomaton.java:186-193 | reading c and then u is reading u from the move on c |
| NfaSemantics.ReachAcceptsFrom | src/main/java/org/example/fa/impl/NDFiniteAutomaton.java:186-193 | the subset reached over w meets the accept states iff some member of the start subset accepts w along one edge per symbol |
| NfaSemantics.StateNamesDistinct | src/main/java/org/example/fa/impl/NDFiniteAutomaton.java:161-168 | the names for the counters 0 to 18 are pairwise distinct |
| NfaSemantics.EncodeState | src/main/java/org/example/fa/impl/NDFiniteAutomaton.java:301-305 | the empty set encodes to the empty string |
| NfaSemantics.EncodeStateInjective | src/main/java/org/example/fa/impl/NDFiniteAutomaton.java:301-305 | nonempty sets of `_`-free labels with the same encoding are equal |
| Nfa.StateProductions | src/main/java/org/example/fa/impl/NDFiniteAutomaton.java:91-101 | throws index-out-of-bounds iff some state other than the start is empty. Otherwise Vn has one symbol per state, every symbol has a list, and each list holds an ε for each accepting state that maps to it |
| Nfa.PutStateSymbol | src/main/java/org/example/fa/impl/NDFiniteAutomaton.java:93-100 | creates the symbol's list if it is absent, and appends ε for an accept state; other lists are unchanged |
| Nfa.AcceptRhsStep | src/main/java/org/example/fa/impl/NDFiniteAutomaton.java:91-101 | one state extends the invariant of the state loop |
| Nfa.TargetProductions | src/main/java/org/example/fa/impl/NDFiniteAutomaton.java:110-120 | adds cQ for each target's symbol Q; throws on a target with an empty label or a missing list, and adds nothing else |
| Nfa.RowProductions | src/main/java/org/example/fa/impl/NDFiniteAutomaton.java:105-121 | one row adds exactly its edge productions; throws exactly on an empty label or a missing list |
| Nfa.TableRhsStep | src/main/java/org/example/fa/impl/NDFiniteAutomaton.java:104-122 | one row extends the invariant of the transition loop |
| Nfa.ReadableNames | src/main/java/org/example/fa/impl/NDFiniteAutomaton.java:104-122 | when the transition loop cannot throw, every state, row and edge target has a nonterminal |
| Nfa.GrammarAcceptsFrom | src/main/java/org/example/fa/impl/NDFiniteAutomaton.java:84-125 | when no two states share a nonterminal, the grammar derives w from a state's nonterminal iff that state accepts w: ε where it accepts, cQ along each edge |
| Nfa.GrammarLanguage | src/main/java/org/example/fa/impl/NDFiniteAutomaton.java:84-125 | from S, the grammar derives exactly the words on which the NFA reaches an accept state from the start |
| Nfa.MoveOf | src/main/java/org/example/fa/impl/NDFiniteAutomaton.java:187-193 | the loop over the current subset computes the move on the symbol |
| Nfa.AcceptNamesAdd | src/main/java/org/example/fa/impl/NDFiniteAutomaton.java:200 | a newly named subset is accepting iff it meets the accept states |
| Nfa.NamedAdd | src/main/java/org/example/fa/impl/NDFiniteAutomaton.java:197-199 | naming a new subset after the counter keeps names and counter in step |
| Nfa.NamedInjective | src/main/java/org/example/fa/impl/NDFiniteAutomaton.java:161-168 | at most 19 named subsets have distinct names |
| Nfa.NamedFresh | src/main/java/org/example/fa/impl/NDFiniteAutomaton.java:198 | below 19 subsets, the next name is not yet in use |
| Nfa.NameNewSubset | src/main/java/org/example/fa/impl/NDFiniteAutomaton.java:197-201 | gives the next name to the new subset, adds the DFA state and puts the subset on the worklist |
| Nfa.LinkNamedSubset | src/main/java/org/example/fa/impl/NDFiniteAutomaton.java:203-205 | links the current name to the existing name of the successor |
| Nfa.PlainSuccessor | src/main/java/org/example/fa/impl/NDFiniteAutomaton.java:187-206 | one symbol of the loop adds the DFA edge to the successor's name, or none when the successor is empty; only that successor can be new |
| Nfa.SymbolLoop | src/main/java/org/example/fa/impl/NDFiniteAutomaton.java:186-207 | after the symbol loop, the current subset's DFA row matches the move on every symbol of sigma |
| Nfa.ProcessSubset | src/main/java/org/example/fa/impl/NDFiniteAutomaton.java:181-207 | processing a subset finishes its row, keeps the other rows, and either names a new subset or leaves the worklist unchanged |
| Nfa.StartSubsets | src/main/java/org/example/fa/impl/NDFiniteAutomaton.java:170-178 | the start subset {start} is named S, added as the start state and put on the worklist |
| Nfa.PlainRound | src/main/java/org/example/fa/impl/NDFiniteAutomaton.java:180-207 | one iteration of the while loop either names a new subset or shrinks the worklist, and keeps the row invariant |
| Nfa.DeterminizeFrom | src/main/java/org/example/fa/impl/NDFiniteAutomaton.java:154-211 | at most 2^k subsets are named, where k counts the start state and the edge targets. When at most 19 subsets are named, S is accepting iff the start is, and the DFA accepts w iff w is over sigma and the NFA reaches an accept state over w |
| Nfa.NamedBound | src/main/java/org/example/fa/impl/NDFiniteAutomaton.java:196-200 | the number of subsets named is at most 2 to the number of states they are drawn from |
| Nfa.RowsSimulate | src/main/java/org/example/fa/impl/NDFiniteAutomaton.java:180-208 | once no subset is pending, finished rows under distinct names make the DFA simulate the NFA |
| Nfa.MeasureDrops | src/main/java/org/example/fa/impl/NDFiniteAutomaton.java:197-201 | naming a new subset shrinks the set of subsets still unnamed, so the loop ends |
| Nfa.PlainEquivalence | src/main/java/org/example/fa/impl/NDFiniteAutomaton.java:154-211 | the finished rows make the DFA from S accept exactly the words the NFA accepts from the start |
| Nfa.SuccessorSet | src/main/java/org/example/fa/impl/NDFiniteAutomaton.java:239-248 | throws a null pointer exception iff some target has no closure; otherwise the result is the union of the targets' closures |
| Nfa.SuccessorIsNext | src/main/java/org/example/fa/impl/NDFiniteAutomaton.java:239-248 | with true closures, that union is the ε-closed successor of the subset |
| Nfa.EncodedInjective | src/main/java/org/example/fa/impl/NDFiniteAutomaton.java:250-258 | with `_`-free labels, encoded names tell subsets apart |
| Nfa.QueueAdd | src/main/java/org/example/fa/impl/NDFiniteAutomaton.java:250-252 | appending a new subset to the queue keeps the queue and the pending set in step |
| Nfa.QueuePop | src/main/java/org/example/fa/impl/NDFiniteAutomaton.java:236 | the head of the queue is a named subset that is pending |
| Nfa.NameNewClosure | src/main/java/org/example/fa/impl/NDFiniteAutomaton.java:250-258 | adds the new subset to the DFA states and the queue under its encoded name, and links it from the current subset |
| Nfa.LinkNamedClosure | src/main/java/org/example/fa/impl/NDFiniteAutomaton.java:257-259 | links the current subset's name to an already known successor |
| Nfa.PlaceSuccessor | src/main/java/org/example/fa/impl/NDFiniteAutomaton.java:250-259 | a nonempty successor is named if new and linked; an empty one changes nothing |
| Nfa.EpsSuccessor | src/main/java/org/example/fa/impl/NDFiniteAutomaton.java:238-259 | one symbol throws iff some target has no closure, and otherwise places the successor |
| Nfa.ProcessClosure | src/main/java/org/example/fa/impl/NDFiniteAutomaton.java:236-260 | one dequeued subset finishes its row, or throws at a target that has no closure |
| Nfa.EpsStart | src/main/java/org/example/fa/impl/NDFiniteAutomaton.java:225-233 | the start closure is the only DFA state, is the start state under its encoded name, and is queued |
| Nfa.EpsStartFacts | src/main/java/org/example/fa/impl/NDFiniteAutomaton.java:225-233 | the start configuration satisfies the invariants of the ε loop |
| Nfa.EpsEquivalence | src/main/java/org/example/fa/impl/NDFiniteAutomaton.java:218-264 | with `_`-free labels, the finished DFA from the start closure's name accepts exactly the words the ε-NFA accepts |
| Nfa.EpsRound | src/main/java/org/example/fa/impl/NDFiniteAutomaton.java:235-261 | one iteration of the queue loop either names a new subset or shortens the queue, and keeps the row invariant |
| Nfa.EpsDeterminize | src/main/java/org/example/fa/impl/NDFiniteAutomaton.java:225-264 | succeeds when every target has a closure. The start is the encoded closure of the start state. With `_`-free labels, the DFA accepts exactly the words over sigma for which some ε-closed path reaches an accept state |
| Nfa.NDFiniteAutomaton.constructor | src/main/java/org/example/fa/impl/NDFiniteAutomaton.java:26-31 | the automaton starts empty over the given alphabet, with no start state |
| Nfa.NDFiniteAutomaton.SetStartState | src/main/java/org/example/fa/impl/NDFiniteAutomaton.java:39-42 | sets the start state, adds it to the states and changes nothing else |
| Nfa.NDFiniteAutomaton.AddState | src/main/java/org/example/fa/impl/NDFiniteAutomaton.java:46-52 | adds the state and its accepting flag; adds an empty row only where none exists |
| Nfa.NDFiniteAutomaton.AddTransition | src/main/java/org/example/fa/impl/NDFiniteAutomaton.java:61-65 | adds the target to the state's set for the symbol, creating the row and the set if missing |
| Nfa.NDFiniteAutomaton.IsStringAccepted | src/main/java/org/example/fa/impl/NDFiniteAutomaton.java:74-76 | rejects every input |
| Nfa.NDFiniteAutomaton.IsDeterministic | src/main/java/org/example/fa/impl/NDFiniteAutomaton.java:132-143 | true iff no state has more than one target on a symbol |
| Nfa.NDFiniteAutomaton.DeterministicRunsAreSingle | src/main/java/org/example/fa/impl/NDFiniteAutomaton.java:132-143 | on a deterministic table, every word leads to at most one state |
| Nfa.NDFiniteAutomaton.DfsEpsilonClosure | src/main/java/org/example/fa/impl/NDFiniteAutomaton.java:284-293 | the result contains the old closure and the current state; every state it adds is ε-reachable from the current state, and its ε-targets are in the result |
| Nfa.NDFiniteAutomaton.CalculateEpsilonClosure | src/main/java/org/example/fa/impl/NDFiniteAutomaton.java:272-276 | the result is the ε-closure of q, which contains q |
| Nfa.NDFiniteAutomaton.EpsilonClosures | src/main/java/org/example/fa/impl/NDFiniteAutomaton.java:221-224 | a closure for every state, each the state's ε-closure |
| Nfa.NDFiniteAutomaton.ConvertEpsilonNfaToDfa | src/main/java/org/example/fa/impl/NDFiniteAutomaton.java:218-264 | throws a null pointer exception without a start state. It succeeds whenever every target is a state. The DFA's start is the encoded ε-closure of the start. With `_`-free labels, the DFA accepts exactly the words the ε-NFA accepts |
| Nfa.NDFiniteAutomaton.ConvertToDFA | src/main/java/org/example/fa/impl/NDFiniteAutomaton.java:154-211 | starts at S. Without a start state the DFA has only S, which is non-accepting, and one name is used. Otherwise at most 2^k subsets are named, where k counts the start state and the edge targets. When at most 19 are named, S is accepting iff the start is, and the DFA accepts exactly the words the NFA accepts. In particular this holds for every NFA whose start state and edge targets are at most four states |
| Nfa.NDFiniteAutomaton.ToRegularGrammar | src/main/java/org/example/fa/impl/NDFiniteAutomaton.java:84-125 | fails exactly on an empty label or a missing list, each with its own exception. On success the start symbol is S, there is one nonterminal per state, and the terminals are sigma, each once. Each list holds ε for an accept state and cQ for each edge. When no two states share a nonterminal, the NFA accepts w iff w is over sigma and the grammar derives w from S, reading ε as the empty word |
| Nfa.EnfaBuilt | src/main/java/org/example/ENFACheck.java:11-20 | the builder calls produce the ε-NFA's table |
| Nfa.EnfaClosures | src/main/java/org/example/ENFACheck.java:17-20 | the closures of q0, q1 and q2 are {q0,q1}, {q1} and {q0,q1,q2} |
| Nfa.EncodeTwo | src/main/java/org/example/fa/impl/NDFiniteAutomaton.java:301-305 | a two-element set encodes as the smaller label, `_` and the larger |
| Nfa.EncodeQ0Q1 | src/main/java/org/example/fa/impl/NDFiniteAutomaton.java:301-305 | {q0,q1} encodes as q0_q1 |
| Nfa.EnfaStartName | src/main/java/org/example/ENFACheck.java:22 | the converted DFA starts in q0_q1 |
| Nfa.DfaCheckBuilt | src/main/java/org/example/DFACheck.java:17-25 | the builder calls produce the driver NFA's table |
| Nfa.DfaCheckTargets | src/main/java/org/example/DFACheck.java:22-25 | its edges lead to S and A only |
| Nfa.DfaCheckDeterministic | src/main/java/org/example/DFACheck.java:17-29 | the NFA of this driver is deterministic |
| Nfa.DfaCheckReadsAa | src/main/java/org/example/DFACheck.java:22-24 | it reaches the accept state S again over aa |
| Nfa.DfaCheckRejectsA | src/main/java/org/example/DFACheck.java:22 | over a it reaches only A, which does not accept |
| Nfa.OneLetterGrammar | src/main/java/org/example/fa/impl/NDFiniteAutomaton.java:84-125 | with one-letter labels, S the start and every edge inside the states, toRegularGrammar cannot throw and no two states share a nonterminal |
| Nfa.BuildDfaCheck | src/main/java/org/example/DFACheck.java:12-25 | the driver's builder calls yield its table, start S, states S and A, and accept state S |
| Nfa.AddDfaCheckEdges | src/main/java/org/example/DFACheck.java:22-25 | its four addTransition calls produce the table and change nothing else |
| Nfa.DfaCheckDriver | src/main/java/org/example/DFACheck.java:11-32 | the driver's NFA is deterministic, its grammar generates its language, and the converted DFA accepts the same words: "" and aa, but not a |
| Nfa.MainBuilt | src/main/java/org/example/Main.java:18-30 | the builder calls produce the driver NFA's table |
| Nfa.MainTargets | src/main/java/org/example/Main.java:25-30 | its edges lead to its four states only |
| Nfa.MainNamesFit | src/main/java/org/example/Main.java:18-30 | its start state and edge targets are at most four states |
| Nfa.BuildMain | src/main/java/org/example/Main.java:12-30 | the driver's builder calls yield its table, start S, states S, A, B and C, and accept state B |
| Nfa.AddMainEdges | src/main/java/org/example/Main.java:25-30 | its six addTransition calls produce the table and change nothing else |
| Nfa.MainGrammar | src/main/java/org/example/Main.java:32 | toRegularGrammar succeeds on it, and the grammar generates the NFA's language |
| Nfa.MainConversion | src/main/java/org/example/Main.java:41 | convertToDFA keeps its language, so the DFA accepts aa |
| Nfa.MainDriver | src/main/java/org/example/Main.java:11-41 | the driver's NFA is not deterministic, its grammar generates its language, and the converted DFA accepts exactly the NFA's words, aa among them |
| Nfa.MainNotDeterministic | src/main/java/org/example/Main.java:38 | that NFA is not deterministic, since S has two targets on a |
| Nfa.ReachTwo | src/main/java/org/example/fa/impl/NDFiniteAutomaton.java:186-193 | reading two letters is two moves |
| Nfa.ReachAa | src/main/java/org/example/Main.java:25-27 | edges S→A and A→B on a make B reachable over aa |
| Nfa.MainReadsAa | src/main/java/org/example/Main.java:18-30 | the driver NFA reaches its accept state B over aa, so it accepts aa |
| Lexers.WhitespaceClass | src/main/java/org/example/lexer/Lexer.java:33 | space, tab, newline, return and the line separator are whitespace; the no-break spaces and U+180E are not, as from Java 9 on; no letter or digit is whitespace |
| Lexers.IndexOf | src/main/java/org/example/lexer/Lexer.java:68 | the first index of c, or -1 exactly when c is absent |
| Lexers.IsOperator | src/main/java/org/example/lexer/Lexer.java:67-69 | true iff c is one of + - * / |
| Lexers.IsParenthesis | src/main/java/org/example/lexer/Lexer.java:77-79 | true iff c is ( or ) |
| Lexers.TrimStart | src/main/java/org/example/lexer/Lexer.java:14 | the number of leading characters up to U+0020, which trim drops |
| Lexers.TrimEnd | src/main/java/org/example/lexer/Lexer.java:14 | the length without trailing characters up to U+0020 |
| Lexers.Trim | src/main/java/org/example/lexer/Lexer.java:14 | a slice of the input that starts and ends above U+0020 (or is empty); every dropped character is at most U+0020 |
| Lexers.TrimIdempotent | src/main/java/org/example/lexer/Lexer.java:14 | trimming twice is trimming once |
| Lexers.RunEnd | src/main/java/org/example/lexer/Lexer.java:45-48 | the end of the maximal run of number or identifier characters from i |
| Lexers.StepAt | src/main/java/org/example/lexer/Lexer.java:24-37 | the loop body throws iff the character is unexpected; a token's text is exactly the consumed slice; whitespace is skipped one character at a time |
| Lexers.Scan | src/main/java/org/example/lexer/Lexer.java:23-38 | the loop stops within the input |
| Lexers.ScanStopsAtFirstUnexpected | src/main/java/org/example/lexer/Lexer.java:23-37 | the scan stops exactly at the first unexpected character, or at the end if there is none |
| Lexers.ScanSucceeds | src/main/java/org/example/lexer/Lexer.java:23-39 | the scan reaches the end iff no character is unexpected |
| Lexers.ScanTokensWellFormed | src/main/java/org/example/lexer/Lexer.java:25-32 | every token is nonempty and has characters of its type |
| Lexers.VisibleAppend | src/main/java/org/example/lexer/Lexer.java:33-34 | dropping whitespace distributes over concatenation |
| Lexers.VisibleToken | src/main/java/org/example/lexer/Lexer.java:25-32 | a token's text has no whitespace |
| Lexers.VisibleSingle | src/main/java/org/example/lexer/Lexer.java:30-32 | a one-character token that is not whitespace is its own visible text |
| Lexers.VisibleRun | src/main/java/org/example/lexer/Lexer.java:45-56 | a number or identifier run has no whitespace |
| Lexers.StepVisible | src/main/java/org/example/lexer/Lexer.java:24-34 | one step consumes exactly its token's text plus skipped whitespace |
| Lexers.ScanTexts | src/main/java/org/example/lexer/Lexer.java:23-38 | the tokens, concatenated, are the scanned input without its whitespace, so no character is lost or invented |
| Lexers.LexerOnInput | src/main/java/org/example/lexer/Lexer.java:13-40 | on a trimmed input: it succeeds iff there is no unexpected character, every token is well-formed, and the texts are the input without whitespace up to the stop |
| Lexers.ScanAdvance | src/main/java/org/example/lexer/Lexer.java:23-38 | one loop step followed by the rest is the whole scan |
| Lexers.RepeatedDotsMakeOneNumber | src/main/java/org/example/lexer/Lexer.java:43-50 | "1.2.3" is a single number token |
| Lexers.UnknownCharacterStops | src/main/java/org/example/lexer/Lexer.java:35-36 | on "x+#1" the scan yields x and +, and stops at # |
| Lexers.Lexer.constructor | src/main/java/org/example/lexer/Lexer.java:13-15 | stores the trimmed input, with no tokens and the position at 0 |
| Lexers.Lexer.Tokenize | src/main/java/org/example/lexer/Lexer.java:22-40 | appends the scan's tokens and moves to its stop. It returns the token list iff it reached the end, and otherwise throws IllegalArgumentException on the character at the stop. A second call returns the same list |
| Lexers.Lexer.TokenizeNumberOrFloat | src/main/java/org/example/lexer/Lexer.java:43-50 | consumes the maximal run of digits and dots, and appends it as one number token |
| Lexers.Lexer.TokenizeIdentifier | src/main/java/org/example/lexer/Lexer.java:53-59 | consumes the maximal run of letters and digits, and appends it as one identifier token |

## Left out

- Nfa.NDFiniteAutomaton.ConvertToDFA: language equivalence is stated only while at most 19 subsets are named, which is guaranteed for at most four states among the start state and the edge targets. The name for counter k is the character `'A' + k - 1`, and counter 19 gives `S` again (`NfaSemantics.StateNameRepeats`). The source then merges two different subsets into one DFA state, and nothing is claimed about that case.
- Nfa.DeterminizeFrom: the same 19-name bound as ConvertToDFA.
- Nfa.NDFiniteAutomaton.ConvertEpsilonNfaToDfa: success is promised when every transition target is a state. The source fails only when a target reachable from the start has no closure, so the model's failure condition is an over-approximation, stated in one direction.
- Nfa.EpsDeterminize: the same over-approximation of the failure condition as ConvertEpsilonNfaToDfa.
- Nfa.NDFiniteAutomaton.ConvertEpsilonNfaToDfa: equivalence is proved only when no label contains `_`. Otherwise two different subsets can share an encoded name, and the source merges them.
- NfaSemantics.EncodeState: its own contract gives only the empty case. Its meaning is stated by EncodeStateInjective, EncodeTwo and the Strings lemmas about sorting and joining.
- Strings.Less: Java's `compareTo` orders UTF-16 code units, while the model orders Dafny `char` values. The two agree outside the surrogate range.
- Lexers.IsDigit, Lexers.IsLetter: `Character.isDigit` and `Character.isLetter` are modelled on ASCII only. Other Unicode digits and letters are treated as unexpected characters.
- Lexers.Lexer.Tokenize: returns the token list as a value. In the source it is the lexer's own list, so a caller that mutates it would change the lexer's state; that aliasing is not modelled.
- Nfa.NDFiniteAutomaton.IsStringAccepted: modelled as written, a stub that always returns false. The NFA's language is the ghost predicate `Accepts`.
- NfaSemantics.CodeUnit: the `(char)` cast is modelled with its wrap-around past 65535 (`% 0x1_0000`), but a Dafny `char` cannot hold a lone surrogate, so the 2048 surrogate units map to U+FFFD. Counters whose names Java keeps distinct can therefore share a name here (`NfaSemantics.StateNameSurrogates`). Both effects lie far beyond the 19-name bound, so no language claim depends on them.
- Dfa.DFiniteAutomaton.ToRegularGrammar: the source emits no production for the empty word. A DFA whose start state accepts therefore accepts "" while its grammar derives nothing empty; the contract states this gap, and its equivalence covers nonempty words only.
- Nfa.NDFiniteAutomaton.ToRegularGrammar: equivalence is stated only when no two states share a nonterminal (first letters, with S for the start). Otherwise the source merges their productions under one nonterminal, and nothing is claimed about that case.
- Hash iteration order: every loop over a `HashSet` or `HashMap` chooses its next element arbitrarily, and no contract depends on the order. When two productions of one nonterminal start with the same terminal, the later one in its list wins (`Grammars.LastStartingWith`), as list order is fixed.
- `Grammar.java` has no four-argument constructor, though the test and both `toRegularGrammar` methods call one. It is modelled as the five-field grammar with an empty terminal-production map.
- GrammarTest assigns the result of `toFiniteAutomaton` to a `DFiniteAutomaton`, but the code returns a `FiniteAutomaton`. The model follows the code, so `TestWordsAccepted` speaks of the walk of that automaton's table.
- `Grammar.generateString`, `generateStringWithProgression` and the classification of grammars are not part of this model. They are driven by `java.util.Random` and produce output only.
- `toString` methods, all printing, the driver `main` methods beyond their automaton-building calls, and `GraphUtils` (image rendering and file I/O) are not part of this model.
- `Token.java` and the `Type` enum are modelled only as the `Lexers.Token` datatype; their accessors are not modelled.
