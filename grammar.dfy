/**
 * Grammar.java: a right-linear grammar as ordered lists of nonterminals and
 * terminals, two production maps and a start symbol, and toFiniteAutomaton,
 * which turns it into a FiniteAutomaton with one state per nonterminal plus
 * one accepting state "F".
 */
module Grammars {
  import opened Outcomes
  import opened TransitionTables
  import opened FiniteAutomata

  /**
   * Vn, Vt, productions, productionsTerminals and S. The four-argument
   * constructor the automata classes call (new Grammar(Vn, Vt, productions, S))
   * leaves productionsTerminals empty.
   */
  datatype Grammar = Grammar(
    vn: seq<char>,
    vt: seq<char>,
    productions: map<char, seq<string>>,
    productionsTerminals: map<char, seq<string>>,
    start: char)

  /** The no-argument constructor: S -> bS | dA, A -> aA | dB | b, B -> cB | a. */
  function DefaultGrammar(): (g: Grammar)
    ensures g.start in g.vn && 'F' !in g.vn
  {
    Grammar(
      ['S', 'A', 'B'],
      ['a', 'b', 'c', 'd'],
      map['S' := ["bS", "dA"], 'A' := ["aA", "dB"], 'B' := ["cB"]],
      map['A' := ["b"], 'B' := ["a"]],
      'S')
  }

  /** getOrDefault(a, List.of()). */
  function ProductionsOf(m: map<char, seq<string>>, a: char): seq<string>
  {
    if a in m then m[a] else []
  }

  /** Every right-hand side of a: its productions, then its terminal productions. */
  function Rhs(g: Grammar, a: char): seq<string>
  {
    ProductionsOf(g.productions, a) + ProductionsOf(g.productionsTerminals, a)
  }

  predicate NoEmptyIn(ps: seq<string>)
  {
    forall i :: 0 <= i < |ps| ==> ps[i] != []
  }

  /** No right-hand side is "" (production.charAt(0) would throw). */
  predicate NoEmptyProduction(g: Grammar)
  {
    && (forall a :: a in g.productions ==> NoEmptyIn(g.productions[a]))
    && (forall a :: a in g.productionsTerminals ==> NoEmptyIn(g.productionsTerminals[a]))
  }

  /**
   * The state a right-hand side leads to: the character at index 1 when
   * there is one (later characters are ignored), otherwise "F".
   */
  function Target(x: string): string
    requires x != []
  {
    if |x| > 1 then [x[1]] else "F"
  }

  /**
   * The row the productions of one nonterminal leave, applied in list order:
   * a later production overwrites an earlier one with the same first
   * character.
   */
  function ApplyProductions(row: Row, ps: seq<string>): Row
    requires NoEmptyIn(ps)
  {
    if ps == [] then row
    else
      var x := ps[|ps| - 1];
      ApplyProductions(row, ps[..|ps| - 1])[x[0] := Target(x)]
  }

  /** The row left after terminal productions: each first character leads to "F". */
  function ApplyTerminals(row: Row, ps: seq<string>): Row
    requires NoEmptyIn(ps)
  {
    if ps == [] then row
    else
      var x := ps[|ps| - 1];
      ApplyTerminals(row, ps[..|ps| - 1])[x[0] := "F"]
  }

  /** The nonterminals that end up with a row: Vn, F, and every key with at least one production. */
  function RowOwners(g: Grammar): set<char>
  {
    (set v | v in g.vn)
    + {'F'}
    + (set a | a in g.productions && g.productions[a] != [])
    + (set a | a in g.productionsTerminals && g.productionsTerminals[a] != [])
  }

  /** The row of nonterminal a: its productions, then its terminal productions. */
  function RowOf(g: Grammar, a: char): Row
    requires NoEmptyProduction(g)
  {
    ApplyTerminals(ApplyProductions(map[], ProductionsOf(g.productions, a)), ProductionsOf(g.productionsTerminals, a))
  }

  /** t is the transition table toFiniteAutomaton builds for g. */
  ghost predicate IsProductionTable(g: Grammar, t: Table)
    requires NoEmptyProduction(g)
  {
    && (forall k :: k in t <==> |k| == 1 && k[0] in RowOwners(g))
    && (forall a :: a in RowOwners(g) ==> t[[a]] == RowOf(g, a))
  }

  /** Some right-hand side in ps starts with c. */
  predicate HasRhsStartingWith(ps: seq<string>, c: char)
  {
    exists i :: 0 <= i < |ps| && ps[i] != [] && ps[i][0] == c
  }

  /** The index of the last right-hand side in ps that starts with c. */
  function LastStartingWith(ps: seq<string>, c: char): (i: nat)
    requires NoEmptyIn(ps) && HasRhsStartingWith(ps, c)
    ensures i < |ps| && ps[i][0] == c
    ensures forall j :: i < j < |ps| ==> ps[j][0] != c
    decreases |ps|
  {
    var n := |ps| - 1;
    if ps[n][0] == c then n
    else
      assert HasRhsStartingWith(ps[..n], c) by {
        var i :| 0 <= i < |ps| && ps[i] != [] && ps[i][0] == c;
        assert ps[..n][i] == ps[i];
      }
      LastStartingWith(ps[..n], c)
  }

  /**
   * The row of a list of productions: c has an edge iff the starting row
   * had one or some production starts with c, and the last such production
   * decides where it leads.
   */
  lemma {:induction false} ApplyProductionsAt(row: Row, ps: seq<string>, c: char)
    requires NoEmptyIn(ps)
    ensures c in ApplyProductions(row, ps) <==> c in row || HasRhsStartingWith(ps, c)
    ensures !HasRhsStartingWith(ps, c) && c in row ==> ApplyProductions(row, ps)[c] == row[c]
    ensures HasRhsStartingWith(ps, c) ==> ApplyProductions(row, ps)[c] == Target(ps[LastStartingWith(ps, c)])
    decreases |ps|
  {
    if ps != [] {
      var n := |ps| - 1;
      var init := ps[..n];
      ApplyProductionsAt(row, init, c);
      if ps[n][0] != c {
        if HasRhsStartingWith(ps, c) {
          var i :| 0 <= i < |ps| && ps[i] != [] && ps[i][0] == c;
          assert init[i] == ps[i];
        }
        if HasRhsStartingWith(init, c) {
          var i :| 0 <= i < |init| && init[i] != [] && init[i][0] == c;
          assert ps[i] == init[i];
        }
      } else {
        assert ps[n] != [] && ps[n][0] == c;
      }
    }
  }

  /** After terminal productions, c leads to "F" exactly when some terminal production starts with c. */
  lemma {:induction false} ApplyTerminalsAt(row: Row, ps: seq<string>, c: char)
    requires NoEmptyIn(ps)
    ensures c in ApplyTerminals(row, ps) <==> c in row || HasRhsStartingWith(ps, c)
    ensures HasRhsStartingWith(ps, c) ==> ApplyTerminals(row, ps)[c] == "F"
    ensures !HasRhsStartingWith(ps, c) && c in row ==> ApplyTerminals(row, ps)[c] == row[c]
    decreases |ps|
  {
    if ps != [] {
      var n := |ps| - 1;
      var init := ps[..n];
      ApplyTerminalsAt(row, init, c);
      if ps[n][0] != c {
        if HasRhsStartingWith(ps, c) {
          var i :| 0 <= i < |ps| && ps[i] != [] && ps[i][0] == c;
          assert init[i] == ps[i];
        }
        if HasRhsStartingWith(init, c) {
          var i :| 0 <= i < |init| && init[i] != [] && init[i][0] == c;
          assert ps[i] == init[i];
        }
      } else {
        assert ps[n] != [] && ps[n][0] == c;
      }
    }
  }

  /** The row of p, or an empty row when p has none (computeIfAbsent). */
  function RowOrEmpty(t: Table, p: string): Row
  {
    if p in t then t[p] else map[]
  }

  /** One value of productions.forEach: an edge per production, in list order. */
  method AddProductionEdges(fa: FiniteAutomaton, a: char, ps: seq<string>) returns (ok: bool)
    requires fa.Valid()
    modifies fa
    ensures fa.Valid()
    ensures ok <==> NoEmptyIn(ps)
    ensures fa.states == old(fa.states) && fa.acceptStates == old(fa.acceptStates) && fa.startState == old(fa.startState)
    ensures ok && ps == [] ==> fa.transitions == old(fa.transitions)
    ensures ok && ps != [] ==>
              fa.transitions == old(fa.transitions)[[a] := ApplyProductions(RowOrEmpty(old(fa.transitions), [a]), ps)]
  {
    ghost var before := fa.transitions;
    ghost var row0: Row := if [a] in before then before[[a]] else map[];
    for j := 0 to |ps|
      invariant fa.Valid()
      invariant fa.states == old(fa.states) && fa.acceptStates == old(fa.acceptStates) && fa.startState == old(fa.startState)
      invariant NoEmptyIn(ps[..j])
      invariant fa.transitions == if j == 0 then before else before[[a] := ApplyProductions(row0, ps[..j])]
    {
      if ps[j] == [] {
        assert !NoEmptyIn(ps);
        return false;
      }
      var symbol := ps[j][0];
      var nextState := if |ps[j]| > 1 then [ps[j][1]] else "F";
      fa.AddTransition([a], symbol, nextState);
      assert ps[..j + 1][..j] == ps[..j];
    }
    assert ps[..|ps|] == ps;
    return true;
  }

  /** One value of productionsTerminals.forEach: an edge to "F" per production, in list order. */
  method AddTerminalEdges(fa: FiniteAutomaton, a: char, ps: seq<string>) returns (ok: bool)
    requires fa.Valid()
    modifies fa
    ensures fa.Valid()
    ensures ok <==> NoEmptyIn(ps)
    ensures fa.states == old(fa.states) && fa.acceptStates == old(fa.acceptStates) && fa.startState == old(fa.startState)
    ensures ok && ps == [] ==> fa.transitions == old(fa.transitions)
    ensures ok && ps != [] ==>
              fa.transitions == old(fa.transitions)[[a] := ApplyTerminals(RowOrEmpty(old(fa.transitions), [a]), ps)]
  {
    ghost var before := fa.transitions;
    ghost var row0: Row := if [a] in before then before[[a]] else map[];
    for j := 0 to |ps|
      invariant fa.Valid()
      invariant fa.states == old(fa.states) && fa.acceptStates == old(fa.acceptStates) && fa.startState == old(fa.startState)
      invariant NoEmptyIn(ps[..j])
      invariant fa.transitions == if j == 0 then before else before[[a] := ApplyTerminals(row0, ps[..j])]
    {
      if ps[j] == [] {
        assert !NoEmptyIn(ps);
        return false;
      }
      fa.AddTransition([a], ps[j][0], "F");
      assert ps[..j + 1][..j] == ps[..j];
    }
    assert ps[..|ps|] == ps;
    return true;
  }

  /** Rows after productions.forEach has handled the keys in done. */
  ghost predicate ProductionsDone(g: Grammar, base: set<char>, done: set<char>, t: Table)
    requires forall a :: a in done ==> a in g.productions && NoEmptyIn(g.productions[a])
  {
    && (forall k :: k in t <==> |k| == 1 && (k[0] in base || (k[0] in done && g.productions[k[0]] != [])))
    && (forall a :: [a] in t ==> t[[a]] == ApplyProductions(map[], if a in done then g.productions[a] else []))
  }

  lemma ProductionsStep(g: Grammar, base: set<char>, done: set<char>, a: char, t: Table, t': Table)
    requires forall b :: b in done ==> b in g.productions && NoEmptyIn(g.productions[b])
    requires a in g.productions && a !in done && NoEmptyIn(g.productions[a])
    requires ProductionsDone(g, base, done, t)
    requires g.productions[a] == [] ==> t' == t
    requires g.productions[a] != [] ==> t' == t[[a] := ApplyProductions(RowOrEmpty(t, [a]), g.productions[a])]
    ensures ProductionsDone(g, base, done + {a}, t')
  {
    assert RowOrEmpty(t, [a]) == map[];
    forall k ensures k in t' <==> |k| == 1 && (k[0] in base || (k[0] in done + {a} && g.productions[k[0]] != [])) {
      if k == [a] {}
    }
    forall b | [b] in t' ensures t'[[b]] == ApplyProductions(map[], if b in done + {a} then g.productions[b] else []) {
      if b == a {} else { assert [b] != [a]; }
    }
  }

  /** productions.forEach: the loop over the keys, in the map's iteration order. */
  method AddAllProductions(fa: FiniteAutomaton, g: Grammar, ghost base: set<char>) returns (ok: bool)
    requires fa.Valid() && ProductionsDone(g, base, {}, fa.transitions)
    modifies fa
    ensures fa.Valid()
    ensures fa.states == old(fa.states) && fa.acceptStates == old(fa.acceptStates) && fa.startState == old(fa.startState)
    ensures ok <==> forall a :: a in g.productions ==> NoEmptyIn(g.productions[a])
    ensures ok ==> ProductionsDone(g, base, g.productions.Keys, fa.transitions)
  {
    var keys := g.productions.Keys;
    while keys != {}
      invariant keys <= g.productions.Keys
      invariant fa.Valid()
      invariant fa.states == old(fa.states) && fa.acceptStates == old(fa.acceptStates) && fa.startState == old(fa.startState)
      invariant forall a :: a in g.productions.Keys - keys ==> NoEmptyIn(g.productions[a])
      invariant ProductionsDone(g, base, g.productions.Keys - keys, fa.transitions)
      decreases keys
    {
      var a :| a in keys;
      ghost var t0 := fa.transitions;
      ghost var done0 := g.productions.Keys - keys;
      var ok := AddProductionEdges(fa, a, g.productions[a]);
      if !ok {
        return false;
      }
      ProductionsStep(g, base, done0, a, t0, fa.transitions);
      keys := keys - {a};
      assert g.productions.Keys - keys == done0 + {a};
    }
    return true;
  }

  /** Rows after productionsTerminals.forEach has handled the keys in done. */
  ghost predicate TerminalsDone(g: Grammar, base: set<char>, done: set<char>, t: Table)
    requires forall a :: a in g.productions ==> NoEmptyIn(g.productions[a])
    requires forall a :: a in done ==> a in g.productionsTerminals && NoEmptyIn(g.productionsTerminals[a])
  {
    && (forall k :: k in t <==>
         |k| == 1 && (k[0] in base || (k[0] in g.productions && g.productions[k[0]] != [])
                      || (k[0] in done && g.productionsTerminals[k[0]] != [])))
    && (forall a :: [a] in t ==>
         t[[a]] == ApplyTerminals(ApplyProductions(map[], ProductionsOf(g.productions, a)),
                                  if a in done then g.productionsTerminals[a] else []))
  }

  lemma TerminalsStep(g: Grammar, base: set<char>, done: set<char>, a: char, t: Table, t': Table)
    requires forall b :: b in g.productions ==> NoEmptyIn(g.productions[b])
    requires forall b :: b in done ==> b in g.productionsTerminals && NoEmptyIn(g.productionsTerminals[b])
    requires a in g.productionsTerminals && a !in done && NoEmptyIn(g.productionsTerminals[a])
    requires TerminalsDone(g, base, done, t)
    requires g.productionsTerminals[a] == [] ==> t' == t
    requires g.productionsTerminals[a] != [] ==> t' == t[[a] := ApplyTerminals(RowOrEmpty(t, [a]), g.productionsTerminals[a])]
    ensures TerminalsDone(g, base, done + {a}, t')
  {
    assert RowOrEmpty(t, [a]) == ApplyProductions(map[], ProductionsOf(g.productions, a));
    forall k ensures k in t' <==>
         |k| == 1 && (k[0] in base || (k[0] in g.productions && g.productions[k[0]] != [])
                      || (k[0] in done + {a} && g.productionsTerminals[k[0]] != [])) {
      if k == [a] {}
    }
    forall b | [b] in t'
      ensures t'[[b]] == ApplyTerminals(ApplyProductions(map[], ProductionsOf(g.productions, b)),
                                        if b in done + {a} then g.productionsTerminals[b] else [])
    {
      if b == a {} else { assert [b] != [a]; }
    }
  }

  /** productionsTerminals.forEach: the loop over the keys, in the map's iteration order. */
  method AddAllTerminals(fa: FiniteAutomaton, g: Grammar, ghost base: set<char>) returns (ok: bool)
    requires forall a :: a in g.productions ==> NoEmptyIn(g.productions[a])
    requires fa.Valid() && TerminalsDone(g, base, {}, fa.transitions)
    modifies fa
    ensures fa.Valid()
    ensures fa.states == old(fa.states) && fa.acceptStates == old(fa.acceptStates) && fa.startState == old(fa.startState)
    ensures ok <==> forall a :: a in g.productionsTerminals ==> NoEmptyIn(g.productionsTerminals[a])
    ensures ok ==> TerminalsDone(g, base, g.productionsTerminals.Keys, fa.transitions)
  {
    var keys := g.productionsTerminals.Keys;
    while keys != {}
      invariant keys <= g.productionsTerminals.Keys
      invariant fa.Valid()
      invariant fa.states == old(fa.states) && fa.acceptStates == old(fa.acceptStates) && fa.startState == old(fa.startState)
      invariant forall a :: a in g.productionsTerminals.Keys - keys ==> NoEmptyIn(g.productionsTerminals[a])
      invariant TerminalsDone(g, base, g.productionsTerminals.Keys - keys, fa.transitions)
      decreases keys
    {
      var a :| a in keys;
      ghost var t0 := fa.transitions;
      ghost var done0 := g.productionsTerminals.Keys - keys;
      var ok := AddTerminalEdges(fa, a, g.productionsTerminals[a]);
      if !ok {
        return false;
      }
      TerminalsStep(g, base, done0, a, t0, fa.transitions);
      keys := keys - {a};
      assert g.productionsTerminals.Keys - keys == done0 + {a};
    }
    return true;
  }

  /** After productions.forEach, the terminal pass starts with nothing done. */
  lemma ProductionsThenTerminals(g: Grammar, base: set<char>, t: Table)
    requires forall a :: a in g.productions ==> NoEmptyIn(g.productions[a])
    requires ProductionsDone(g, base, g.productions.Keys, t)
    ensures TerminalsDone(g, base, {}, t)
  {
  }

  /** After both passes the table is the production table of g. */
  lemma TerminalsComplete(g: Grammar, t: Table)
    requires NoEmptyProduction(g)
    requires TerminalsDone(g, (set v | v in g.vn) + {'F'}, g.productionsTerminals.Keys, t)
    ensures IsProductionTable(g, t)
  {
    forall k ensures k in t <==> |k| == 1 && k[0] in RowOwners(g) {
    }
    forall a | a in RowOwners(g) ensures t[[a]] == RowOf(g, a) {
      assert [a][0] == a;
    }
  }

  /** The loop over Vn: a non-accepting state with an empty row per entry. */
  method AddNonterminalStates(fa: FiniteAutomaton, vn: seq<char>)
    requires fa.Valid() && fa.states == {} && fa.transitions == map[] && fa.acceptStates == {} && fa.startState == None
    modifies fa
    ensures fa.Valid()
    ensures fa.states == (set v | v in vn :: [v])
    ensures forall k :: k in fa.transitions <==> |k| == 1 && k[0] in vn
    ensures forall k :: k in fa.transitions ==> fa.transitions[k] == map[]
    ensures fa.acceptStates == {} && fa.startState == None
  {
    for i := 0 to |vn|
      invariant fa.Valid()
      invariant fa.states == (set k | 0 <= k < i :: [vn[k]])
      invariant forall k :: k in fa.transitions <==> k in fa.states
      invariant forall k :: k in fa.transitions ==> fa.transitions[k] == map[]
      invariant fa.acceptStates == {} && fa.startState == None
    {
      fa.AddState([vn[i]], false);
    }
    assert (set k | 0 <= k < |vn| :: [vn[k]]) == (set v | v in vn :: [v]) by {
      forall v | v in vn ensures [v] in (set k | 0 <= k < |vn| :: [vn[k]]) {
        var k :| 0 <= k < |vn| && vn[k] == v;
      }
    }
    forall k | |k| == 1 && k[0] in vn ensures k in fa.states {
      assert k == [k[0]];
    }
  }

  /** Both forEach passes: every production becomes an edge of the table. */
  method AddAllEdges(fa: FiniteAutomaton, g: Grammar)  returns (ok: bool)
    requires fa.Valid()
    requires forall k :: k in fa.transitions <==> |k| == 1 && (k[0] in g.vn || k[0] == 'F')
    requires forall k :: k in fa.transitions ==> fa.transitions[k] == map[]
    modifies fa
    ensures fa.Valid()
    ensures fa.states == old(fa.states) && fa.acceptStates == old(fa.acceptStates) && fa.startState == old(fa.startState)
    ensures ok <==> NoEmptyProduction(g)
    ensures ok ==> IsProductionTable(g, fa.transitions)
  {
    ghost var base := (set v | v in g.vn) + {'F'};
    ok := AddAllProductions(fa, g, base);
    if !ok {
      return;
    }
    ProductionsThenTerminals(g, base, fa.transitions);
    ok := AddAllTerminals(fa, g, base);
    if !ok {
      return;
    }
    TerminalsComplete(g, fa.transitions);
  }

  /** The states of toFiniteAutomaton before any edge: one per Vn entry and the accepting "F", each with an empty row. */
  method GrammarStates(g: Grammar) returns (fa: FiniteAutomaton)
    ensures fresh(fa) && fa.Valid() && fa.sigma == (set c | c in g.vt)
    ensures fa.states == (set v | v in g.vn :: [v]) + {"F"}
    ensures fa.acceptStates == {"F"} && fa.startState == None
    ensures forall k :: k in fa.transitions <==> |k| == 1 && (k[0] in g.vn || k[0] == 'F')
    ensures forall k :: k in fa.transitions ==> fa.transitions[k] == map[]
  {
    fa := new FiniteAutomaton(set c | c in g.vt);
    AddNonterminalStates(fa, g.vn);
    fa.AddState("F", true);
    forall k | |k| == 1 && k[0] == 'F' ensures k in fa.transitions {
      assert k == "F";
    }
  }

  /**
   * Grammar.toFiniteAutomaton: a non-accepting state per Vn entry, the
   * accepting state "F", an edge A -t-> B for every production "tB…" and
   * A -t-> F for every production "t", then A -t-> F for every terminal
   * production, and S as the start state. Edges overwrite one another.
   */
  method ToFiniteAutomaton(g: Grammar) returns (r: Result<FiniteAutomaton>)
    ensures r.Failure? <==> !NoEmptyProduction(g)
    ensures r.Failure? ==> r.error == IndexOutOfBounds
    ensures r.Success? ==> fresh(r.value) && r.value.Valid()
    ensures r.Success? ==> r.value.sigma == (set c | c in g.vt)
    ensures r.Success? ==> r.value.states == (set v | v in g.vn :: [v]) + {"F", [g.start]}
    ensures r.Success? ==> r.value.acceptStates == {"F"}
    ensures r.Success? ==> r.value.startState == Some([g.start])
    ensures r.Success? ==> IsProductionTable(g, r.value.transitions)
    ensures r.Success? && WellFormed(g) ==> r.value.RowsPresent()
    ensures r.Success? && WellFormed(g) ==> forall w :: r.value.Accepted(w) <==> Derives(g, g.start, w)
  {
    var fa := GrammarStates(g);
    var ok := AddAllEdges(fa, g);
    if !ok {
      return Failure(IndexOutOfBounds);
    }
    fa.SetStartState([g.start]);
    if WellFormed(g) {
      TableClosed(g, fa.transitions);
      TableLanguage(g, fa.transitions);
    }
    return Success(fa);
  }

  /**
   * The grammars the construction is exact for: right-hand sides "t" or
   * "tB" with t in Vt and B in Vn, terminal productions of one character,
   * every key in Vn, S in Vn, "F" not a nonterminal, and no two different
   * right-hand sides of one nonterminal sharing their first character
   * (otherwise a later edge silently overwrites an earlier one).
   */
  ghost predicate WellFormed(g: Grammar)
  {
    && NoEmptyProduction(g)
    && 'F' !in g.vn
    && g.start in g.vn
    && (forall a :: a in g.productions ==> a in g.vn)
    && (forall a :: a in g.productionsTerminals ==> a in g.vn)
    && (forall a, x :: x in Rhs(g, a) ==> 1 <= |x| <= 2 && x[0] in g.vt && (|x| == 2 ==> x[1] in g.vn))
    && (forall a, x :: x in ProductionsOf(g.productionsTerminals, a) ==> |x| == 1)
    && (forall a, x, y :: x in Rhs(g, a) && y in Rhs(g, a) && x != [] && y != [] && x[0] == y[0] ==> x == y)
  }

  /** a =>* w in the right-linear grammar: one terminal per step, ending with a production "t". */
  ghost predicate Derives(g: Grammar, a: char, w: string)
    decreases |w|
  {
    && w != []
    && (|| (|w| == 1 && [w[0]] in Rhs(g, a))
        || (|w| > 1 && exists b :: [w[0], b] in Rhs(g, a) && Derives(g, b, w[1..])))
  }

  /**
   * Derivation in which the right-hand side "ε" stands for the empty word,
   * the reading of the grammars built from an NFA: "ε" derives "", any other
   * one-character right-hand side c derives c, and "cB" derives c followed
   * by what B derives.
   */
  ghost predicate DerivesEps(g: Grammar, a: char, w: string)
    decreases |w|
  {
    if w == [] then "ε" in Rhs(g, a)
    else
      || (|w| == 1 && w[0] != 'ε' && [w[0]] in Rhs(g, a))
      || exists b :: [w[0], b] in Rhs(g, a) && DerivesEps(g, b, w[1..])
  }

  lemma RhsStartingWith(ps: seq<string>, c: char)
    ensures HasRhsStartingWith(ps, c) <==> exists x :: x in ps && x != [] && x[0] == c
  {
    if HasRhsStartingWith(ps, c) {
      var i :| 0 <= i < |ps| && ps[i] != [] && ps[i][0] == c;
      assert ps[i] in ps;
    }
  }

  /**
   * One edge of the production table: a has an edge on c exactly when one of
   * its right-hand sides starts with c, and the edge goes where that
   * right-hand side leads.
   */
  lemma TableStep(g: Grammar, t: Table, a: char, c: char)
    requires WellFormed(g) && IsProductionTable(g, t)
    ensures Step(t, [a], c).None? <==> forall x :: x in Rhs(g, a) && x != [] ==> x[0] != c
    ensures forall x :: x in Rhs(g, a) && x != [] && x[0] == c ==> Step(t, [a], c) == Some(Target(x))
  {
    var ps := ProductionsOf(g.productions, a);
    var ts := ProductionsOf(g.productionsTerminals, a);
    var row1 := ApplyProductions(map[], ps);
    assert Rhs(g, a) == ps + ts;
    ApplyProductionsAt(map[], ps, c);
    ApplyTerminalsAt(row1, ts, c);
    RhsStartingWith(ps, c);
    RhsStartingWith(ts, c);
    if exists x :: x in Rhs(g, a) && x != [] && x[0] == c {
      var x :| x in Rhs(g, a) && x != [] && x[0] == c;
      assert a in RowOwners(g);
      assert [a] in t && t[[a]] == RowOf(g, a);
      if HasRhsStartingWith(ts, c) {
        var y :| y in ts && y != [] && y[0] == c;
        assert y in Rhs(g, a) && |y| == 1;
      } else {
        var y := ps[LastStartingWith(ps, c)];
        assert y in Rhs(g, a);
      }
    } else if [a] in t {
      assert [a][0] == a;
    }
  }

  /** "F" has no outgoing edges. */
  lemma FinalStuck(g: Grammar, t: Table, u: string)
    requires WellFormed(g) && IsProductionTable(g, t) && u != []
    ensures Run(t, "F", u) == None
  {
    TableStep(g, t, 'F', u[0]);
    assert Rhs(g, 'F') == [];
    assert u == [u[0]] + u[1..];
    RunFront(t, "F", u[0], u[1..]);
  }

  /** Two right-hand sides of one nonterminal with the same first character are the same. */
  lemma SameFirst(g: Grammar, a: char, x: string, y: string)
    requires WellFormed(g)
    requires x in Rhs(g, a) && y in Rhs(g, a) && x != [] && y != [] && x[0] == y[0]
    ensures x == y
  {
  }

  /** The step case when a has no right-hand side starting with c. */
  lemma NoEdgeCase(g: Grammar, t: Table, a: char, c: char, u: string)
    requires WellFormed(g) && IsProductionTable(g, t)
    requires forall x :: x in Rhs(g, a) && x != [] ==> x[0] != c
    ensures Run(t, [a], [c] + u) == None
    ensures !Derives(g, a, [c] + u)
  {
    TableStep(g, t, a, c);
    RunFront(t, [a], c, u);
    var w := [c] + u;
    assert w[0] == c && w[1..] == u;
    assert [c][0] == c;
    forall b ensures [c, b][0] == c {
    }
  }

  /** The step case when a has the right-hand side "c". */
  lemma FinalEdgeCase(g: Grammar, t: Table, a: char, c: char, u: string)
    requires WellFormed(g) && IsProductionTable(g, t)
    requires [c] in Rhs(g, a)
    ensures Run(t, [a], [c] + u) == Some("F") <==> u == []
    ensures Derives(g, a, [c] + u) <==> u == []
  {
    TableStep(g, t, a, c);
    assert [c][0] == c;
    RunFront(t, [a], c, u);
    if u != [] {
      FinalStuck(g, t, u);
    }
    var w := [c] + u;
    assert w[0] == c && w[1..] == u;
    forall b | [c, b] in Rhs(g, a) ensures false {
      SameFirst(g, a, [c], [c, b]);
    }
  }

  /** The step case when a has the right-hand side "cb". */
  lemma MiddleEdgeCase(g: Grammar, t: Table, a: char, c: char, b: char, u: string)
    requires WellFormed(g) && IsProductionTable(g, t)
    requires [c, b] in Rhs(g, a)
    requires Run(t, [b], u) == Some("F") <==> Derives(g, b, u)
    ensures Run(t, [a], [c] + u) == Some("F") <==> Derives(g, a, [c] + u)
  {
    TableStep(g, t, a, c);
    assert [c, b][0] == c && [c, b][1] == b;
    RunFront(t, [a], c, u);
    var w := [c] + u;
    assert w[0] == c && w[1..] == u;
    if [c] in Rhs(g, a) {
      SameFirst(g, a, [c], [c, b]);
    }
    forall b' | [c, b'] in Rhs(g, a) ensures b' == b {
      SameFirst(g, a, [c, b'], [c, b]);
    }
  }

  /** The table walks from a to "F" on exactly the words a derives. */
  lemma {:induction false} TableRunDerives(g: Grammar, t: Table, a: char, w: string)
    requires WellFormed(g) && IsProductionTable(g, t) && a != 'F'
    ensures Run(t, [a], w) == Some("F") <==> Derives(g, a, w)
    decreases |w|, 1
  {
    if w != [] {
      var c, u := w[0], w[1..];
      assert w == [c] + u;
      if x :| x in Rhs(g, a) && x != [] && x[0] == c {
        RhsEdgeCase(g, t, a, c, x, u);
      } else {
        NoEdgeCase(g, t, a, c, u);
      }
    }
  }

  /** The step case when a has a right-hand side x: the table follows x, and so does the derivation. */
  lemma {:induction false} RhsEdgeCase(g: Grammar, t: Table, a: char, c: char, x: string, u: string)
    requires WellFormed(g) && IsProductionTable(g, t) && a != 'F'
    requires x in Rhs(g, a) && x != [] && x[0] == c
    ensures Run(t, [a], [c] + u) == Some("F") <==> Derives(g, a, [c] + u)
    decreases |u| + 1, 0
  {
    if |x| == 1 {
      assert x == [c];
      FinalEdgeCase(g, t, a, c, u);
    } else {
      var b := x[1];
      assert x == [c, b];
      TableRunDerives(g, t, b, u);
      MiddleEdgeCase(g, t, a, c, b, u);
    }
  }

  /** Every derived word is spelled in Vt. */
  lemma {:induction false} DerivesInVt(g: Grammar, a: char, w: string)
    requires WellFormed(g) && Derives(g, a, w)
    ensures InSigma((set c | c in g.vt), w)
    decreases |w|
  {
    if |w| == 1 {
      assert [w[0]][0] == w[0];
    } else {
      var b :| [w[0], b] in Rhs(g, a) && Derives(g, b, w[1..]);
      DerivesInVt(g, b, w[1..]);
      assert [w[0], b][0] == w[0];
      forall i | 0 <= i < |w| ensures w[i] in g.vt {
        if i > 0 {
          assert w[i] == w[1..][i - 1];
        }
      }
    }
  }

  /** The right-hand sides, nonterminal by nonterminal, of the default grammar and of the test's grammar. */
  function LabRhs(a: char): (r: seq<string>)
    ensures forall x :: x in r ==> x != []
  {
    if a == 'S' then ["bS", "dA"]
    else if a == 'A' then ["aA", "dB", "b"]
    else if a == 'B' then ["cB", "a"]
    else []
  }

  /** Every right-hand side of LabRhs is a terminal of "abcd", then possibly a nonterminal of "SAB". */
  lemma LabShapes(g: Grammar)
    requires g.vn == ['S', 'A', 'B'] && g.vt == ['a', 'b', 'c', 'd']
    requires forall a :: Rhs(g, a) == LabRhs(a)
    ensures forall a, x :: x in Rhs(g, a) ==> 1 <= |x| <= 2 && x[0] in g.vt && (|x| == 2 ==> x[1] in g.vn)
  {
    forall a, x | x in Rhs(g, a)
      ensures 1 <= |x| <= 2 && x[0] in g.vt && (|x| == 2 ==> x[1] in g.vn)
    {
      assert x in LabRhs(a);
      assert x in {"bS", "dA", "aA", "dB", "b", "cB", "a"};
    }
  }

  /** No two right-hand sides of one nonterminal in LabRhs start with the same terminal. */
  lemma LabDeterministic(g: Grammar)
    requires forall a :: Rhs(g, a) == LabRhs(a)
    ensures forall a, x, y :: x in Rhs(g, a) && y in Rhs(g, a) && x != [] && y != [] && x[0] == y[0] ==> x == y
  {
    forall a, x, y | x in Rhs(g, a) && y in Rhs(g, a) && x != [] && y != [] && x[0] == y[0]
      ensures x == y
    {
      assert x in LabRhs(a) && y in LabRhs(a);
      if a == 'S' {
        assert x in {"bS", "dA"} && y in {"bS", "dA"};
      } else if a == 'A' {
        assert x in {"aA", "dB", "b"} && y in {"aA", "dB", "b"};
      } else {
        assert x in {"cB", "a"} && y in {"cB", "a"};
      }
    }
  }

  lemma DefaultRhs()
    ensures forall a :: Rhs(DefaultGrammar(), a) == LabRhs(a)
  {
    forall a ensures Rhs(DefaultGrammar(), a) == LabRhs(a) {
    }
  }

  /** The default grammar's right-hand sides have the right shape and distinct first terminals. */
  lemma DefaultLab()
    ensures var g := DefaultGrammar();
      && (forall a, x :: x in Rhs(g, a) ==> 1 <= |x| <= 2 && x[0] in g.vt && (|x| == 2 ==> x[1] in g.vn))
      && (forall a, x, y :: x in Rhs(g, a) && y in Rhs(g, a) && x != [] && y != [] && x[0] == y[0] ==> x == y)
  {
    DefaultRhs();
    LabShapes(DefaultGrammar());
    LabDeterministic(DefaultGrammar());
  }

  /** The grammar the no-argument constructor builds is one the construction is exact for. */
  lemma DefaultGrammarWellFormed()
    ensures WellFormed(DefaultGrammar())
  {
    DefaultTables();
    DefaultLab();
    WellFormedOf(DefaultGrammar());
  }

  /** The conjuncts of WellFormed, assembled. */
  lemma WellFormedOf(g: Grammar)
    requires NoEmptyProduction(g) && 'F' !in g.vn && g.start in g.vn
    requires forall a :: a in g.productions ==> a in g.vn
    requires forall a :: a in g.productionsTerminals ==> a in g.vn
    requires forall a, x :: x in ProductionsOf(g.productionsTerminals, a) ==> |x| == 1
    requires forall a, x :: x in Rhs(g, a) ==> 1 <= |x| <= 2 && x[0] in g.vt && (|x| == 2 ==> x[1] in g.vn)
    requires forall a, x, y :: x in Rhs(g, a) && y in Rhs(g, a) && x != [] && y != [] && x[0] == y[0] ==> x == y
    ensures WellFormed(g)
  {
  }

  /** The default grammar's tables: no empty right-hand side, keys in Vn, terminal productions of length one. */
  lemma DefaultTables()
    ensures var g := DefaultGrammar();
      && NoEmptyProduction(g)
      && (forall a :: a in g.productions ==> a in g.vn)
      && (forall a :: a in g.productionsTerminals ==> a in g.vn)
      && (forall a, x :: x in ProductionsOf(g.productionsTerminals, a) ==> |x| == 1)
  {
  }

  /** The grammar of the acceptance test, built with the four-argument constructor. */
  function TestGrammar(): (g: Grammar)
    ensures g.start in g.vn && g.productionsTerminals == map[]
  {
    Grammar(
      ['S', 'A', 'B'],
      ['a', 'b', 'c', 'd'],
      map['S' := ["bS", "dA"], 'A' := ["aA", "dB", "b"], 'B' := ["cB", "a"]],
      map[],
      'S')
  }

  lemma TestRhs()
    ensures forall a :: Rhs(TestGrammar(), a) == LabRhs(a)
  {
    forall a ensures Rhs(TestGrammar(), a) == LabRhs(a) {
    }
  }

  /** The test grammar's right-hand sides have the right shape and distinct first terminals. */
  lemma TestLab()
    ensures var g := TestGrammar();
      && (forall a, x :: x in Rhs(g, a) ==> 1 <= |x| <= 2 && x[0] in g.vt && (|x| == 2 ==> x[1] in g.vn))
      && (forall a, x, y :: x in Rhs(g, a) && y in Rhs(g, a) && x != [] && y != [] && x[0] == y[0] ==> x == y)
  {
    TestRhs();
    LabShapes(TestGrammar());
    LabDeterministic(TestGrammar());
  }

  /** The test grammar's tables: no empty right-hand side, keys in Vn, no terminal productions. */
  lemma TestTables()
    ensures var g := TestGrammar();
      && NoEmptyProduction(g) && 'F' !in g.vn
      && (forall a :: a in g.productions ==> a in g.vn)
      && (forall a :: a in g.productionsTerminals ==> a in g.vn)
      && (forall a, x :: x in ProductionsOf(g.productionsTerminals, a) ==> |x| == 1)
  {
  }

  /** The test's grammar is one the construction is exact for. */
  lemma TestGrammarWellFormed()
    ensures WellFormed(TestGrammar())
  {
    TestTables();
    TestLab();
    WellFormedOf(TestGrammar());
  }

  /** A derivation that ends with the right-hand side "c". */
  lemma DerivesLast(g: Grammar, a: char, c: char)
    requires [c] in Rhs(g, a)
    ensures Derives(g, a, [c])
  {
    assert [[c][0]] == [c];
  }

  /** A derivation that starts with the right-hand side "cb". */
  lemma DerivesStep(g: Grammar, a: char, c: char, b: char, u: string)
    requires [c, b] in Rhs(g, a) && Derives(g, b, u)
    ensures Derives(g, a, [c] + u)
  {
    var w := [c] + u;
    assert w[0] == c && w[1..] == u;
  }

  /** B derives any number of 'c' followed by "a". */
  lemma {:induction false} TestGrammarCs(n: nat)
    ensures Derives(TestGrammar(), 'B', seq(n, _ => 'c') + "a")
  {
    var g := TestGrammar();
    var w := seq(n, _ => 'c') + "a";
    if n == 0 {
      assert w == "a";
      DerivesLast(g, 'B', 'a');
    } else {
      TestGrammarCs(n - 1);
      assert w == ['c'] + (seq(n - 1, _ => 'c') + "a");
      DerivesStep(g, 'B', 'c', 'B', seq(n - 1, _ => 'c') + "a");
    }
  }

  /** S derives "db": S -> dA, A -> b. */
  lemma TestWordDb()
    ensures Derives(TestGrammar(), 'S', "db")
  {
    var g := TestGrammar();
    DerivesLast(g, 'A', 'b');
    DerivesStep(g, 'S', 'd', 'A', "b");
    assert ['d'] + "b" == "db";
  }

  /** S derives "dada": S -> dA, A -> aA, A -> dB, B -> a. */
  lemma TestWordDada()
    ensures Derives(TestGrammar(), 'S', "dada")
  {
    var g := TestGrammar();
    DerivesLast(g, 'B', 'a');
    DerivesStep(g, 'A', 'd', 'B', ['a']);
    DerivesStep(g, 'A', 'a', 'A', ['d'] + ['a']);
    DerivesStep(g, 'S', 'd', 'A', ['a'] + (['d'] + ['a']));
    assert ['d'] + (['a'] + (['d'] + ['a'])) == "dada";
  }

  /** S derives "dd", then n times 'c', then "a": S -> dA, A -> dB, B -> cB (n times), B -> a. */
  lemma TestWordDdCs(n: nat)
    ensures Derives(TestGrammar(), 'S', "dd" + seq(n, _ => 'c') + "a")
  {
    var g := TestGrammar();
    var u := seq(n, _ => 'c') + "a";
    TestGrammarCs(n);
    DerivesStep(g, 'A', 'd', 'B', u);
    DerivesStep(g, 'S', 'd', 'A', ['d'] + u);
    assert ['d'] + (['d'] + u) == "dd" + seq(n, _ => 'c') + "a";
  }

  /** S derives "bbddcccccccccca": S -> bS twice, then "ddcccccccccca". */
  lemma TestWordBb()
    ensures Derives(TestGrammar(), 'S', "bbddcccccccccca")
  {
    var g := TestGrammar();
    var u := "dd" + seq(10, _ => 'c') + "a";
    TestWordDdCs(10);
    assert seq(10, _ => 'c') == "cccccccccc";
    DerivesStep(g, 'S', 'b', 'S', u);
    DerivesStep(g, 'S', 'b', 'S', ['b'] + u);
    assert ['b'] + (['b'] + u) == "bbddcccccccccca";
  }

  /** S derives "ddcccccccccccca": twelve 'c' between "dd" and "a". */
  lemma TestWordDdc()
    ensures Derives(TestGrammar(), 'S', "ddcccccccccccca")
  {
    TestWordDdCs(12);
    var cs := seq(12, _ => 'c');
    assert cs == "cccccccccccc";
    assert "dd" + cs + "a" == "ddcccccccccccca";
  }

  /** The automaton toFiniteAutomaton builds for the test's grammar walks from S to "F" on each of the four words. */
  lemma TestWordsAccepted(t: Table)
    requires IsProductionTable(TestGrammar(), t)
    ensures Run(t, "S", "db") == Some("F")
    ensures Run(t, "S", "dada") == Some("F")
    ensures Run(t, "S", "ddcccccccccccca") == Some("F")
    ensures Run(t, "S", "bbddcccccccccca") == Some("F")
  {
    TestGrammarWellFormed();
    TestWordDb();
    TestWordDada();
    TestWordDdc();
    TestWordBb();
    TestRun(TestGrammar(), t, "db");
    TestRun(TestGrammar(), t, "dada");
    TestRun(TestGrammar(), t, "ddcccccccccccca");
    TestRun(TestGrammar(), t, "bbddcccccccccca");
  }

  /** A word derived from S = 'S' takes the production table from "S" to "F". */
  lemma TestRun(g: Grammar, t: Table, w: string)
    requires WellFormed(g) && IsProductionTable(g, t) && g.start == 'S' && Derives(g, 'S', w)
    ensures Run(t, "S", w) == Some("F")
  {
    assert "S" == [g.start];
    TableRunDerives(g, t, 'S', w);
  }

  /** From S, the table walks to "F" over Vt on exactly the words S derives. */
  lemma TableLanguage(g: Grammar, t: Table)
    requires WellFormed(g) && IsProductionTable(g, t)
    ensures forall w :: (InSigma((set c | c in g.vt), w) && Run(t, [g.start], w) == Some("F")) <==> Derives(g, g.start, w)
  {
    forall w ensures (InSigma((set c | c in g.vt), w) && Run(t, [g.start], w) == Some("F")) <==> Derives(g, g.start, w) {
      TableRunDerives(g, t, g.start, w);
      if Derives(g, g.start, w) {
        DerivesInVt(g, g.start, w);
      }
    }
  }

  /** Every edge of the table leads to a state with a row. */
  lemma TableClosed(g: Grammar, t: Table)
    requires WellFormed(g) && IsProductionTable(g, t)
    ensures Targets(t) <= t.Keys
    ensures [g.start] in t
  {
    forall p, c | p in t && c in t[p] ensures t[p][c] in t {
      var a := p[0];
      assert p == [a];
      TableStep(g, t, a, c);
      var x :| x in Rhs(g, a) && x != [] && x[0] == c;
      if |x| == 2 {
        assert [x[1]][0] == x[1];
      } else {
        assert "F"[0] == 'F';
      }
    }
    assert [g.start][0] == g.start;
  }
}
