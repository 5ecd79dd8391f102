/**
 * DFiniteAutomaton.java: the deterministic automaton the subset
 * constructions produce. Its builders update states, acceptStates and the
 * transition table in place; isStringAccepted walks the table without any
 * sigma check and answers false where the walk has no edge;
 * toRegularGrammar reads the automaton off as a right-linear grammar whose
 * nonterminals are the first characters of the state names.
 */
module Dfa {
  import opened Outcomes
  import opened TransitionTables
  import opened Grammars

  /** new ArrayList<>(set): the members of s, each once, in some order. */
  method SetToSeq(s: set<char>) returns (xs: seq<char>)
    ensures (set c | c in xs) == s
    ensures forall i, j :: 0 <= i < j < |xs| ==> xs[i] != xs[j]
  {
    xs := [];
    var left := s;
    while left != {}
      invariant left <= s
      invariant (set c | c in xs) == s - left
      invariant forall i, j :: 0 <= i < j < |xs| ==> xs[i] != xs[j]
      decreases left
    {
      var c :| c in left;
      assert (set d | d in xs + [c]) == (set d | d in xs) + {c};
      xs := xs + [c];
      left := left - {c};
    }
  }

  /** Moving one member from the part of a set still to visit to the part visited. */
  lemma TakeOne<T>(all: set<T>, done: set<T>, left: set<T>, x: T)
    requires done + left == all && done !! left && x in left
    ensures (done + {x}) + (left - {x}) == all && (done + {x}) !! (left - {x})
    ensures |done + {x}| == |done| + 1
  {
  }

  /** The first characters of one more nonempty name. */
  lemma FirstCharsAdd(done: set<string>, state: string)
    requires state != []
    ensures FirstChars(done + {state}) == FirstChars(done) + {state[0]}
  {
  }

  /** The characters of a sequence with one more at its end. */
  lemma CharsSnoc(s: seq<char>, c: char)
    ensures (set x | x in s + [c]) == (set x | x in s) + {c}
  {
  }

  /** The productions map with an empty list for every key of s. */
  function NoProductions(s: set<char>): map<char, seq<string>>
  {
    map a | a in s :: []
  }

  /** putIfAbsent(c, new ArrayList<>()) on NoProductions(s) is NoProductions(s + {c}). */
  lemma NoProductionsAdd(s: set<char>, c: char)
    ensures NoProductions(s + {c}) == if c in NoProductions(s) then NoProductions(s) else NoProductions(s)[c := []]
  {
  }

  /** The first characters of the nonempty names in s. */
  function FirstChars(s: set<string>): set<char>
  {
    set p | p in s && p != [] :: p[0]
  }

  /**
   * x is a right-hand side toRegularGrammar emits for nonterminal a from the
   * edges on symbols in cs of the row of p: "cQ" for each edge p -c-> q, and
   * also "c" when q accepts.
   */
  ghost predicate RowRhs(p: string, row: Row, cs: set<char>, accept: set<string>, a: char, x: string)
  {
    && p != [] && p[0] == a
    && exists c :: c in cs && c in row && row[c] != [] &&
         (x == [c, row[c][0]] || (x == [c] && row[c] in accept))
  }

  /** x is emitted for a by the rows of the states in rows. */
  ghost predicate EdgeRhs(t: Table, rows: set<string>, accept: set<string>, a: char, x: string)
  {
    exists p :: p in rows && p in t && RowRhs(p, t[p], t[p].Keys, accept, a, x)
  }

  /** The rows of done + {p} emit what the rows of done emit and what the row of p emits. */
  lemma EdgeRhsAdd(t: Table, done: set<string>, p: string, accept: set<string>)
    requires p in t
    ensures forall a, x :: EdgeRhs(t, done + {p}, accept, a, x) <==>
      EdgeRhs(t, done, accept, a, x) || RowRhs(p, t[p], t[p].Keys, accept, a, x)
  {
    forall a, x | EdgeRhs(t, done + {p}, accept, a, x) && !RowRhs(p, t[p], t[p].Keys, accept, a, x)
      ensures EdgeRhs(t, done, accept, a, x)
    {
      var q :| q in done + {p} && q in t && RowRhs(q, t[q], t[q].Keys, accept, a, x);
      assert q in done;
    }
  }

  /** Reading a symbol of the row of p evaluates fromState.charAt(0) and state.charAt(0). */
  predicate RowIndexable(p: string, row: Row)
  {
    row != map[] ==> p != [] && forall c :: c in row ==> row[c] != []
  }

  class DFiniteAutomaton {
    var states: set<string>
    const sigma: set<char>
    var transitions: Table
    var startState: Option<string>   // null until setStartState is called
    var acceptStates: set<string>

    /** The start state and the accept states are states. */
    ghost predicate Valid()
      reads this
    {
      && (startState.Some? ==> startState.value in states)
      && acceptStates <= states
    }

    constructor (sigma: set<char>)
      ensures Valid()
      ensures this.sigma == sigma
      ensures states == {} && transitions == map[] && startState == None && acceptStates == {}
    {
      this.sigma := sigma;
      states := {};
      transitions := map[];
      startState := None;
      acceptStates := {};
    }

    /** Records the start state and adds it to the states; no row is created. */
    method SetStartState(state: string)
      requires Valid()
      modifies this
      ensures Valid()
      ensures startState == Some(state)
      ensures states == old(states) + {state}
      ensures acceptStates == old(acceptStates) && transitions == old(transitions)
    {
      startState := Some(state);
      states := states + {state};
    }

    /**
     * Adds the state, makes it accepting when flagged (never un-flags it) and
     * gives it an empty row unless it already has one.
     */
    method AddState(state: string, isAcceptState: bool)
      requires Valid()
      modifies this
      ensures Valid()
      ensures states == old(states) + {state}
      ensures acceptStates == if isAcceptState then old(acceptStates) + {state} else old(acceptStates)
      ensures transitions == if state in old(transitions) then old(transitions) else old(transitions)[state := map[]]
      ensures state in transitions && startState == old(startState)
    {
      states := states + {state};
      if isAcceptState {
        acceptStates := acceptStates + {state};
      }
      if state !in transitions {
        transitions := transitions[state := map[]];
      }
    }

    /** Sets the edge (fromState, input), overwriting any earlier target; fromState need not be a state. */
    method AddTransition(fromState: string, input: char, toState: string)
      requires Valid()
      modifies this
      ensures Valid()
      ensures transitions == SetEdge(old(transitions), fromState, input, toState)
      ensures states == old(states) && acceptStates == old(acceptStates) && startState == old(startState)
    {
      transitions := SetEdge(transitions, fromState, input, toState);
    }

    /** The language: the walk from the start state over w exists and ends in an accept state. */
    ghost predicate Accepts(w: string)
      reads this
    {
      && startState.Some?
      && Run(transitions, startState.value, w).Some?
      && Run(transitions, startState.value, w).value in acceptStates
    }

    /**
     * isStringAccepted: false at the first symbol without an edge (a null
     * start state has no row), otherwise whether the walk ends accepting.
     */
    method IsStringAccepted(input: string) returns (accepted: bool)
      ensures accepted <==> Accepts(input)
      ensures input == [] ==> (accepted <==> startState.Some? && startState.value in acceptStates)
    {
      var current := startState;
      for i := 0 to |input|
        invariant startState.None? ==> i == 0 && current.None?
        invariant startState.Some? ==> current.Some? && Run(transitions, startState.value, input[..i]) == current
      {
        var symbol := input[i];
        assert input[..i + 1][..i] == input[..i];
        if current.None? || current.value !in transitions || symbol !in transitions[current.value] {
          if startState.Some? {
            StuckOnLongerPrefixes(transitions, startState.value, input, i + 1);
            assert input[..|input|] == input;
          }
          return false;
        }
        current := Some(transitions[current.value][symbol]);
      }
      assert input[..|input|] == input;
      accepted := current.Some? && current.value in acceptStates;
    }

    /** states.forEach: one Vn entry per state (repeats allowed) and an empty production list per first character. */
    method StateSymbols() returns (r: Result<(seq<char>, map<char, seq<string>>)>)
      ensures r.Failure? <==> "" in states
      ensures r.Failure? ==> r.error == IndexOutOfBounds
      ensures r.Success? ==> |r.value.0| == |states|
      ensures r.Success? ==> (set c | c in r.value.0) == FirstChars(states)
      ensures r.Success? ==> r.value.1 == NoProductions(FirstChars(states))
    {
      var vn: seq<char> := [];
      var prods: map<char, seq<string>> := map[];
      var left := states;
      ghost var done: set<string> := {};
      while left != {}
        invariant done + left == states && done !! left
        invariant "" !in done
        invariant |vn| == |done|
        invariant (set c | c in vn) == FirstChars(done)
        invariant prods == NoProductions(FirstChars(done))
        decreases left
      {
        var state :| state in left;
        if state == [] {
          return Failure(IndexOutOfBounds);
        }
        TakeOne(states, done, left, state);
        FirstCharsAdd(done, state);
        CharsSnoc(vn, state[0]);
        NoProductionsAdd(FirstChars(done), state[0]);
        vn := vn + [state[0]];
        if state[0] !in prods {
          prods := prods[state[0] := []];
        }
        done := done + {state};
        left := left - {state};
      }
      return Success((vn, prods));
    }

    /**
     * toRegularGrammar: S is the start state's first character, Vn one
     * entry per state, Vt the members of sigma, and for every edge p -c-> q
     * the production "c" + q[0] of p[0], plus "c" when q accepts. A null
     * start state throws NullPointerException; an empty name read by
     * charAt(0) throws StringIndexOutOfBoundsException; a row whose first
     * character names no state throws NullPointerException. No production
     * derives the empty word, so an accepting start state's "" is lost.
     */
    method ToRegularGrammar() returns (r: Result<Grammar>)
      requires Valid()
      ensures startState.None? ==> r == Failure(NullPointer)
      ensures startState == Some("") ==> r == Failure(IndexOutOfBounds)
      ensures r.Success? <==>
        && startState.Some? && startState.value != [] && "" !in states
        && (forall p :: p in transitions ==> RowIndexable(p, transitions[p]))
        && (forall p :: p in transitions && transitions[p] != map[] ==> p[0] in FirstChars(states))
      ensures r.Failure? && r.error == IndexOutOfBounds ==>
        || startState == Some("") || "" in states
        || (exists p :: p in transitions && !RowIndexable(p, transitions[p]))
      ensures r.Failure? && r.error == NullPointer ==>
        || startState.None?
        || (exists p :: p in transitions && transitions[p] != map[] && p != [] && p[0] !in FirstChars(states))
      ensures r.Failure? ==> r.error == NullPointer || r.error == IndexOutOfBounds
      ensures r.Success? ==> r.value.start == startState.value[0]
      ensures r.Success? ==> |r.value.vn| == |states| && (set c | c in r.value.vn) == FirstChars(states)
      ensures r.Success? ==> (set c | c in r.value.vt) == sigma
      ensures r.Success? ==> forall i, j :: 0 <= i < j < |r.value.vt| ==> r.value.vt[i] != r.value.vt[j]
      ensures r.Success? ==> r.value.productions.Keys == FirstChars(states) && r.value.productionsTerminals == map[]
      ensures r.Success? ==> forall a, x ::
        x in ProductionsOf(r.value.productions, a) <==> EdgeRhs(transitions, transitions.Keys, acceptStates, a, x)
      ensures r.Success? && DistinctFirstChars(states + transitions.Keys + Targets(transitions)) ==>
        forall w :: w != [] ==> (Accepts(w) <==> Derives(r.value, r.value.start, w))
      ensures r.Success? && startState.value in acceptStates ==> Accepts([]) && !Derives(r.value, r.value.start, [])
    {
      var vt := SetToSeq(sigma);
      if startState.None? {
        return Failure(NullPointer);
      }
      if startState.value == [] {
        return Failure(IndexOutOfBounds);
      }
      var s := startState.value[0];
      var symbols := StateSymbols();
      if symbols.Failure? {
        return Failure(symbols.error);
      }
      var (vn, prods0) := symbols.value;
      var prods := prods0;
      var rows := transitions.Keys;
      while rows != {}
        invariant rows <= transitions.Keys
        invariant prods.Keys == FirstChars(states)
        invariant forall p :: p in transitions.Keys - rows ==> RowIndexable(p, transitions[p])
        invariant forall p :: p in transitions.Keys - rows && transitions[p] != map[] ==> p[0] in FirstChars(states)
        invariant forall a, x :: x in ProductionsOf(prods, a) <==> EdgeRhs(transitions, transitions.Keys - rows, acceptStates, a, x)
        decreases rows
      {
        var p :| p in rows;
        ghost var done := transitions.Keys - rows;
        var next := AddRowProductions(prods, p, transitions[p], acceptStates);
        if next.Failure? {
          return Failure(next.error);
        }
        ghost var before := prods;
        prods := next.value;
        rows := rows - {p};
        assert transitions.Keys - rows == done + {p};
        EdgeRhsAdd(transitions, done, p, acceptStates);
      }
      var g := Grammar(vn, vt, prods, map[], s);
      ghost var names := states + transitions.Keys + Targets(transitions);
      if DistinctFirstChars(names) {
        forall w | w != [] ensures Accepts(w) <==> Derives(g, g.start, w) {
          GrammarDerivesRun(g, transitions, names, acceptStates, startState.value, w);
        }
      }
      return Success(g);
    }

  }

  /** g's right-hand sides are exactly those toRegularGrammar emits for the table t. */
  ghost predicate Emits(g: Grammar, t: Table, accept: set<string>)
  {
    && g.productionsTerminals == map[]
    && forall a, x :: x in ProductionsOf(g.productions, a) <==> EdgeRhs(t, t.Keys, accept, a, x)
  }

  /** With distinct first characters, every right-hand side of p[0] comes from the row of p. */
  lemma RhsFromOwnRow(g: Grammar, t: Table, names: set<string>, accept: set<string>, p: string, x: string)
    requires DistinctFirstChars(names) && t.Keys <= names && p in names
    requires Emits(g, t, accept) && x in Rhs(g, p[0])
    ensures p in t && RowRhs(p, t[p], t[p].Keys, accept, p[0], x)
  {
    assert Rhs(g, p[0]) == ProductionsOf(g.productions, p[0]);
    var p' :| p' in t.Keys && p' in t && RowRhs(p', t[p'], t[p'].Keys, accept, p[0], x);
    assert p' == p;
  }

  /** The step case when p has an edge on c. */
  lemma EdgeCase(g: Grammar, t: Table, names: set<string>, accept: set<string>, p: string, c: char, u: string)
    requires DistinctFirstChars(names) && t.Keys <= names && p in names
    requires Emits(g, t, accept)
    requires p in t && c in t[p] && t[p][c] != []
    requires u != [] ==> (Derives(g, t[p][c][0], u) <==> Run(t, t[p][c], u).Some? && Run(t, t[p][c], u).value in accept)
    ensures Derives(g, p[0], [c] + u) <==> Run(t, p, [c] + u).Some? && Run(t, p, [c] + u).value in accept
  {
    var q := t[p][c];
    var w := [c] + u;
    assert w[0] == c && w[1..] == u;
    RunFront(t, p, c, u);
    assert Rhs(g, p[0]) == ProductionsOf(g.productions, p[0]);
    assert [c, q[0]][0] == c;
    if u == [] {
      if q in accept {
        assert RowRhs(p, t[p], t[p].Keys, accept, p[0], [c]);
        assert EdgeRhs(t, t.Keys, accept, p[0], [c]);
      }
      if [c] in Rhs(g, p[0]) {
        RhsFromOwnRow(g, t, names, accept, p, [c]);
      }
    } else {
      assert RowRhs(p, t[p], t[p].Keys, accept, p[0], [c, q[0]]);
      assert EdgeRhs(t, t.Keys, accept, p[0], [c, q[0]]);
      forall b | [c, b] in Rhs(g, p[0]) ensures b == q[0] {
        RhsFromOwnRow(g, t, names, accept, p, [c, b]);
        var d :| d in t[p] && t[p][d] != [] && [c, b] == [d, t[p][d][0]];
        assert [c, b][0] == d;
      }
    }
  }

  /** The step case when p has no usable edge on c. */
  lemma NoEdgeCase(g: Grammar, t: Table, names: set<string>, accept: set<string>, p: string, c: char, u: string)
    requires DistinctFirstChars(names) && t.Keys <= names && Targets(t) <= names && p in names
    requires Emits(g, t, accept)
    requires !(p in t && c in t[p])
    ensures !Derives(g, p[0], [c] + u)
    ensures Run(t, p, [c] + u) == None
  {
    var w := [c] + u;
    assert w[0] == c && w[1..] == u;
    RunFront(t, p, c, u);
    forall x | x in Rhs(g, p[0]) ensures x != [] && x[0] != c {
      RhsFromOwnRow(g, t, names, accept, p, x);
      var d :| d in t[p] && t[p][d] != [] && (x == [d, t[p][d][0]] || (x == [d] && t[p][d] in accept));
    }
  }

  /** The walk from p accepts exactly the nonempty words p[0] derives in the emitted grammar. */
  lemma {:induction false} GrammarDerivesRun(g: Grammar, t: Table, names: set<string>, accept: set<string>, p: string, w: string)
    requires DistinctFirstChars(names) && t.Keys <= names && Targets(t) <= names && p in names
    requires Emits(g, t, accept) && w != []
    ensures Derives(g, p[0], w) <==> Run(t, p, w).Some? && Run(t, p, w).value in accept
    decreases |w|
  {
    var c, u := w[0], w[1..];
    assert w == [c] + u;
    if p in t && c in t[p] {
      var q := t[p][c];
      assert q in Targets(t);
      if u != [] {
        GrammarDerivesRun(g, t, names, accept, q, u);
      }
      EdgeCase(g, t, names, accept, p, c, u);
    } else {
      NoEdgeCase(g, t, names, accept, p, c, u);
    }
  }

  /** No two of the names are empty or share their first character. */
  ghost predicate DistinctFirstChars(names: set<string>)
  {
    forall p, q :: p in names && q in names ==> p != [] && q != [] && (p[0] == q[0] ==> p == q)
  }

  /**
   * The row of p, added to the production lists in the row's iteration
   * order. Each edge first evaluates p.charAt(0) and q.charAt(0), then
   * dereferences the list of p[0].
   */
  method AddRowProductions(prods: map<char, seq<string>>, p: string, row: Row, accept: set<string>)
    returns (r: Result<map<char, seq<string>>>)
    ensures r.Failure? <==> !RowIndexable(p, row) || (row != map[] && p[0] !in prods)
    ensures r.Failure? && r.error == IndexOutOfBounds ==> !RowIndexable(p, row)
    ensures r.Failure? && r.error == NullPointer ==> row != map[] && p != [] && p[0] !in prods
    ensures r.Failure? ==> r.error == NullPointer || r.error == IndexOutOfBounds
    ensures r.Success? ==> r.value.Keys == prods.Keys
    ensures r.Success? ==> forall a, x ::
      x in ProductionsOf(r.value, a) <==> x in ProductionsOf(prods, a) || RowRhs(p, row, row.Keys, accept, a, x)
  {
    var out := prods;
    var left := row.Keys;
    while left != {}
      invariant left <= row.Keys
      invariant left != row.Keys ==> p != [] && p[0] in prods
      invariant forall c :: c in row.Keys - left ==> row[c] != []
      invariant out.Keys == prods.Keys
      invariant forall a, x ::
        x in ProductionsOf(out, a) <==> x in ProductionsOf(prods, a) || RowRhs(p, row, row.Keys - left, accept, a, x)
      decreases left
    {
      var c :| c in left;
      if p == [] {
        return Failure(IndexOutOfBounds);
      }
      var q := row[c];
      if q == [] {
        return Failure(IndexOutOfBounds);
      }
      if p[0] !in out {
        return Failure(NullPointer);
      }
      ghost var done := row.Keys - left;
      ghost var before := out;
      var added := if q in accept then [[c, q[0]], [c]] else [[c, q[0]]];
      out := out[p[0] := out[p[0]] + added];
      left := left - {c};
      assert row.Keys - left == done + {c};
      forall a, x ensures x in ProductionsOf(out, a) <==> x in ProductionsOf(prods, a) || RowRhs(p, row, done + {c}, accept, a, x) {
        if a == p[0] {
          assert x in ProductionsOf(out, a) <==> x in ProductionsOf(before, a) || x in added;
          if x in added {
            assert RowRhs(p, row, done + {c}, accept, a, x);
          }
          if RowRhs(p, row, done + {c}, accept, a, x) {
            var d :| d in done + {c} && d in row && row[d] != [] && (x == [d, row[d][0]] || (x == [d] && row[d] in accept));
            if d != c {
              assert RowRhs(p, row, done, accept, a, x);
            }
          }
        } else {
          assert ProductionsOf(out, a) == ProductionsOf(before, a);
        }
      }
    }
    if row != map[] {
      assert p != [] && p[0] in prods;
    }
    return Success(out);
  }
}
