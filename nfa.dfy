/**
 * NDFiniteAutomaton.java: a nondeterministic automaton whose transition
 * relation maps a state and a symbol to a set of states, with 'ε' as the
 * label of ε-edges. Its builders update states, acceptStates and
 * nfaTransitions in place; isDeterministic scans the relation; the ε-closure
 * is a depth-first search over a visited set; convertToDFA and
 * convertEpsilonNfaToDfa are worklist subset constructions; toRegularGrammar
 * reads the relation off as productions.
 */
module Nfa {
  import opened Outcomes
  import opened TransitionTables
  import opened NfaSemantics
  import opened Strings
  import opened Grammars
  import opened Dfa

  /** Every target set has at most one state. */
  ghost predicate Deterministic(t: NTable)
  {
    forall p, c :: p in t && c in t[p] ==> |t[p][c]| <= 1
  }

  /** No state name contains the separator encodeState joins with. */
  ghost predicate NoUnderscore(names: set<string>)
  {
    forall x :: x in names ==> '_' !in x
  }


  // ------------------------------------------------------- toRegularGrammar

  /** state.equals(startState) ? 'S' : state.charAt(0) does not throw. */
  predicate Symbolizable(start: Option<string>, p: string)
  {
    start == Some(p) || p != []
  }

  /** The nonterminal toRegularGrammar gives a state. */
  function Sym(start: Option<string>, p: string): char
    requires Symbolizable(start, p)
  {
    if start == Some(p) then 'S' else p[0]
  }

  /** The nonterminals of the states in names that have one. */
  function SymsOf(start: Option<string>, names: set<string>): set<char>
  {
    set p | p in names && Symbolizable(start, p) :: Sym(start, p)
  }

  lemma SymsOfAdd(start: Option<string>, names: set<string>, p: string)
    requires Symbolizable(start, p)
    ensures SymsOf(start, names + {p}) == SymsOf(start, names) + {Sym(start, p)}
  {
  }

  /** x is "ε" and a is the nonterminal of an accept state among names. */
  ghost predicate AcceptRhs(start: Option<string>, names: set<string>, accept: set<string>, a: char, x: string)
  {
    x == "ε" && exists s :: s in names && s in accept && Symbolizable(start, s) && Sym(start, s) == a
  }

  /** x is "cQ" for an edge p -c-> q of the row of p on a symbol of cs, with a the nonterminal of p. */
  ghost predicate RowTargetRhs(start: Option<string>, p: string, row: map<char, set<string>>, cs: set<char>,
                               a: char, x: string)
  {
    && Symbolizable(start, p) && Sym(start, p) == a
    && exists c, q :: c in cs && c in row && q in row[c] && Symbolizable(start, q) && x == [c, Sym(start, q)]
  }

  /** x is emitted for a by the rows of the states in rows. */
  ghost predicate TableRhs(t: NTable, start: Option<string>, rows: set<string>, a: char, x: string)
  {
    exists p :: p in rows && p in t && RowTargetRhs(start, p, t[p], t[p].Keys, a, x)
  }

  /** Every edge of the row has a target whose nonterminal can be computed. */
  ghost predicate TargetsSymbolizable(start: Option<string>, row: map<char, set<string>>)
  {
    forall c, q :: c in row && q in row[c] ==> Symbolizable(start, q)
  }

  /** Some symbol of the row has a target. */
  ghost predicate HasEdge(row: map<char, set<string>>)
  {
    exists c, q :: c in row && q in row[c]
  }

  /**
   * states.forEach: one Vn entry per state (repeats allowed), an empty list
   * per nonterminal, and "ε" for each accept state.
   */
  method StateProductions(states: set<string>, start: Option<string>, accept: set<string>)
    returns (r: Result<(seq<char>, map<char, seq<string>>)>)
    ensures r.Failure? <==> exists s :: s in states && !Symbolizable(start, s)
    ensures r.Failure? ==> r.error == IndexOutOfBounds
    ensures r.Success? ==> |r.value.0| == |states| && (set c | c in r.value.0) == SymsOf(start, states)
    ensures r.Success? ==> r.value.1.Keys == SymsOf(start, states)
    ensures r.Success? ==> AcceptLists(r.value.1, start, states, accept)
  {
    var vn: seq<char> := [];
    var prods: map<char, seq<string>> := map[];
    var left := states;
    ghost var done: set<string> := {};
    while left != {}
      invariant done + left == states && done !! left
      invariant forall s :: s in done ==> Symbolizable(start, s)
      invariant |vn| == |done|
      invariant (set c | c in vn) == SymsOf(start, done)
      invariant prods.Keys == SymsOf(start, done)
      invariant AcceptLists(prods, start, done, accept)
      decreases left
    {
      var state :| state in left;
      if !Symbolizable(start, state) {
        return Failure(IndexOutOfBounds);
      }
      ghost var before := prods;
      var stateSymbol := Sym(start, state);
      TakeOne(states, done, left, state);
      CharsSnoc(vn, stateSymbol);
      SymsOfAdd(start, done, state);
      vn := vn + [stateSymbol];
      prods := PutStateSymbol(prods, stateSymbol, state in accept);
      AcceptRhsStep(start, accept, done, state, before, prods);
      done := done + {state};
      left := left - {state};
    }
    return Success((vn, prods));
  }

  /** The production lists hold exactly the "ε" of the accept states among names. */
  ghost predicate AcceptLists(prods: map<char, seq<string>>, start: Option<string>, names: set<string>, accept: set<string>)
  {
    forall a, x :: x in ProductionsOf(prods, a) <==> AcceptRhs(start, names, accept, a, x)
  }

  /**
   * productions.putIfAbsent(stateSymbol, new ArrayList<>()), then "ε"
   * appended to its list for an accept state.
   */
  method PutStateSymbol(prods: map<char, seq<string>>, stateSymbol: char, isAcceptState: bool)
    returns (out: map<char, seq<string>>)
    ensures out.Keys == prods.Keys + {stateSymbol}
    ensures forall a :: a != stateSymbol ==> ProductionsOf(out, a) == ProductionsOf(prods, a)
    ensures ProductionsOf(out, stateSymbol) == ProductionsOf(prods, stateSymbol) + if isAcceptState then ["ε"] else []
  {
    out := prods;
    if stateSymbol !in out {
      out := out[stateSymbol := []];
    }
    if isAcceptState {
      out := out[stateSymbol := out[stateSymbol] + ["ε"]];
    }
  }

  /** Adding the "ε" of one more state keeps the lists equal to AcceptRhs. */
  lemma AcceptRhsStep(start: Option<string>, accept: set<string>, done: set<string>, state: string,
                      before: map<char, seq<string>>, prods: map<char, seq<string>>)
    requires Symbolizable(start, state)
    requires forall a :: a != Sym(start, state) ==> ProductionsOf(prods, a) == ProductionsOf(before, a)
    requires ProductionsOf(prods, Sym(start, state)) ==
      ProductionsOf(before, Sym(start, state)) + if state in accept then ["ε"] else []
    requires AcceptLists(before, start, done, accept)
    ensures AcceptLists(prods, start, done + {state}, accept)
  {
    forall a, x ensures x in ProductionsOf(prods, a) <==> AcceptRhs(start, done + {state}, accept, a, x) {
      if AcceptRhs(start, done + {state}, accept, a, x) {
        var s :| s in done + {state} && s in accept && Symbolizable(start, s) && Sym(start, s) == a;
        if s != state {
          assert AcceptRhs(start, done, accept, a, x);
        }
      }
      if a == Sym(start, state) && state in accept && x == "ε" {
        assert AcceptRhs(start, done + {state}, accept, a, x);
      }
    }
  }

  /**
   * toStates.forEach for the symbol c of a row whose nonterminal is
   * fromSymbol: each target first evaluates its own nonterminal, then the
   * list of fromSymbol is dereferenced and "c" + the target's nonterminal is
   * appended.
   */
  method TargetProductions(prods: map<char, seq<string>>, start: Option<string>, fromSymbol: char, c: char,
                           toStates: set<string>)
    returns (r: Result<map<char, seq<string>>>)
    ensures r.Failure? <==> (exists q :: q in toStates && !Symbolizable(start, q)) || (toStates != {} && fromSymbol !in prods)
    ensures r.Failure? && r.error == NullPointer ==> toStates != {} && fromSymbol !in prods
    ensures r.Failure? && r.error == IndexOutOfBounds ==> exists q :: q in toStates && !Symbolizable(start, q)
    ensures r.Failure? ==> r.error == NullPointer || r.error == IndexOutOfBounds
    ensures r.Success? ==> r.value.Keys == prods.Keys
    ensures r.Success? ==> forall a, x :: x in ProductionsOf(r.value, a) <==>
      x in ProductionsOf(prods, a) ||
      (a == fromSymbol && exists q :: q in toStates && Symbolizable(start, q) && x == [c, Sym(start, q)])
  {
    var out := prods;
    var left := toStates;
    while left != {}
      invariant left <= toStates
      invariant forall q :: q in toStates - left ==> Symbolizable(start, q)
      invariant left != toStates ==> fromSymbol in prods
      invariant out.Keys == prods.Keys
      invariant forall a, x :: x in ProductionsOf(out, a) <==>
        x in ProductionsOf(prods, a) ||
        (a == fromSymbol && exists q :: q in toStates - left && Symbolizable(start, q) && x == [c, Sym(start, q)])
      decreases left
    {
      var toState :| toState in left;
      if !Symbolizable(start, toState) {
        return Failure(IndexOutOfBounds);
      }
      var toStateSymbol := Sym(start, toState);
      var production := [c, toStateSymbol];
      if fromSymbol !in out {
        return Failure(NullPointer);
      }
      ghost var done := toStates - left;
      ghost var before := out;
      out := out[fromSymbol := out[fromSymbol] + [production]];
      left := left - {toState};
      assert toStates - left == done + {toState};
      forall a, x ensures x in ProductionsOf(out, a) <==>
        x in ProductionsOf(prods, a) ||
        (a == fromSymbol && exists q :: q in done + {toState} && Symbolizable(start, q) && x == [c, Sym(start, q)])
      {
        if a == fromSymbol {
          assert ProductionsOf(out, a) == ProductionsOf(before, a) + [production];
          if x == production {
            assert toState in done + {toState} && Symbolizable(start, toState) && x == [c, Sym(start, toState)];
          }
          if exists q :: q in done + {toState} && Symbolizable(start, q) && x == [c, Sym(start, q)] {
            var q :| q in done + {toState} && Symbolizable(start, q) && x == [c, Sym(start, q)];
            if q != toState {
              assert exists q :: q in done && Symbolizable(start, q) && x == [c, Sym(start, q)];
            }
          }
        } else {
          assert ProductionsOf(out, a) == ProductionsOf(before, a);
        }
      }
    }
    return Success(out);
  }

  /**
   * charSetMap.forEach for the row of p: the nonterminal of p is evaluated
   * first, even for an empty row, then each symbol's targets are added.
   */
  method RowProductions(prods: map<char, seq<string>>, start: Option<string>, p: string, row: map<char, set<string>>)
    returns (r: Result<map<char, seq<string>>>)
    ensures r.Failure? <==>
      || !Symbolizable(start, p)
      || !TargetsSymbolizable(start, row)
      || (HasEdge(row) && Sym(start, p) !in prods)
    ensures r.Failure? && r.error == NullPointer ==> Symbolizable(start, p) && HasEdge(row) && Sym(start, p) !in prods
    ensures r.Failure? && r.error == IndexOutOfBounds ==> !Symbolizable(start, p) || !TargetsSymbolizable(start, row)
    ensures r.Failure? ==> r.error == NullPointer || r.error == IndexOutOfBounds
    ensures r.Success? ==> r.value.Keys == prods.Keys
    ensures r.Success? ==> forall a, x ::
      x in ProductionsOf(r.value, a) <==> x in ProductionsOf(prods, a) || RowTargetRhs(start, p, row, row.Keys, a, x)
  {
    if !Symbolizable(start, p) {
      return Failure(IndexOutOfBounds);
    }
    var fromStateSymbol := Sym(start, p);
    var out := prods;
    var left := row.Keys;
    while left != {}
      invariant left <= row.Keys
      invariant forall c, q :: c in row.Keys - left && q in row[c] ==> Symbolizable(start, q)
      invariant (exists c, q :: c in row.Keys - left && q in row[c]) ==> fromStateSymbol in prods
      invariant out.Keys == prods.Keys
      invariant forall a, x ::
        x in ProductionsOf(out, a) <==> x in ProductionsOf(prods, a) || RowTargetRhs(start, p, row, row.Keys - left, a, x)
      decreases left
    {
      var symbol :| symbol in left;
      ghost var done := row.Keys - left;
      ghost var before := out;
      var next := TargetProductions(out, start, fromStateSymbol, symbol, row[symbol]);
      if next.Failure? {
        if next.error == NullPointer {
          var q :| q in row[symbol];
          assert HasEdge(row);
        }
        return Failure(next.error);
      }
      out := next.value;
      left := left - {symbol};
      assert row.Keys - left == done + {symbol};
      forall a, x ensures x in ProductionsOf(out, a) <==>
        x in ProductionsOf(prods, a) || RowTargetRhs(start, p, row, done + {symbol}, a, x)
      {
        if RowTargetRhs(start, p, row, done + {symbol}, a, x) {
          var c, q :| c in done + {symbol} && c in row && q in row[c] && Symbolizable(start, q) && x == [c, Sym(start, q)];
          if c != symbol {
            assert RowTargetRhs(start, p, row, done, a, x);
          }
        }
      }
    }
    if HasEdge(row) {
      var c, q :| c in row && q in row[c];
    }
    return Success(out);
  }

  /** Every row among rows can be read: its state and targets have nonterminals, and an edge's source names a state. */
  ghost predicate RowsReadable(t: NTable, start: Option<string>, names: set<string>, rows: set<string>)
  {
    forall p :: p in rows && p in t ==>
      && Symbolizable(start, p)
      && TargetsSymbolizable(start, t[p])
      && (HasEdge(t[p]) ==> Sym(start, p) in SymsOf(start, names))
  }

  /** The production lists hold exactly the "ε" of the accept states and the "cQ" of the rows among rows. */
  ghost predicate GrammarLists(prods: map<char, seq<string>>, t: NTable, start: Option<string>, names: set<string>,
                               accept: set<string>, rows: set<string>)
  {
    forall a, x :: x in ProductionsOf(prods, a) <==> AcceptRhs(start, names, accept, a, x) || TableRhs(t, start, rows, a, x)
  }

  /** Adding the productions of one more row. */
  lemma TableRhsStep(t: NTable, start: Option<string>, names: set<string>, accept: set<string>, rows: set<string>,
                     p: string, before: map<char, seq<string>>, prods: map<char, seq<string>>)
    requires p in t
    requires GrammarLists(before, t, start, names, accept, rows)
    requires forall a, x ::
      x in ProductionsOf(prods, a) <==> x in ProductionsOf(before, a) || RowTargetRhs(start, p, t[p], t[p].Keys, a, x)
    ensures GrammarLists(prods, t, start, names, accept, rows + {p})
  {
    forall a, x ensures x in ProductionsOf(prods, a) <==>
      AcceptRhs(start, names, accept, a, x) || TableRhs(t, start, rows + {p}, a, x)
    {
      if RowTargetRhs(start, p, t[p], t[p].Keys, a, x) {
        assert TableRhs(t, start, rows + {p}, a, x);
      }
      if TableRhs(t, start, rows + {p}, a, x) {
        var q :| q in rows + {p} && q in t && RowTargetRhs(start, q, t[q], t[q].Keys, a, x);
        if q != p {
          assert TableRhs(t, start, rows, a, x);
        }
      }
    }
  }

  /** Every state among names has a nonterminal. */
  ghost predicate NamesSymbolizable(start: Option<string>, names: set<string>)
  {
    forall q :: q in names ==> Symbolizable(start, q)
  }

  /** No two states among names share a nonterminal. */
  ghost predicate SymInjective(start: Option<string>, names: set<string>)
  {
    forall p, q ::
      p in names && q in names && Symbolizable(start, p) && Symbolizable(start, q) && Sym(start, p) == Sym(start, q)
      ==> p == q
  }

  /** The states, the rows and the edge targets: every state the grammar gives a nonterminal. */
  function GrammarNames(t: NTable, states: set<string>): set<string>
  {
    states + t.Keys + AllTargets(t)
  }

  /** When toRegularGrammar succeeds, the targets of the rows have nonterminals too. */
  lemma ReadableNames(t: NTable, start: Option<string>, states: set<string>)
    requires forall s :: s in states ==> Symbolizable(start, s)
    requires RowsReadable(t, start, states, t.Keys)
    ensures NamesSymbolizable(start, GrammarNames(t, states))
  {
    forall q | q in AllTargets(t) ensures Symbolizable(start, q) {
      var p, c :| p in t && c in t[p] && q in t[p][c];
    }
  }

  /**
   * With a nonterminal per state, the grammar toRegularGrammar builds
   * derives from the nonterminal of a state exactly the words that state
   * accepts: "ε" where the state accepts, "cQ" along each edge.
   */
  lemma {:induction false} GrammarAcceptsFrom(g: Grammar, t: NTable, start: Option<string>, states: set<string>,
                                              accept: set<string>, p: string, w: string)
    requires g.productionsTerminals == map[]
    requires GrammarLists(g.productions, t, start, states, accept, t.Keys)
    requires accept <= states
    requires NamesSymbolizable(start, GrammarNames(t, states))
    requires SymInjective(start, GrammarNames(t, states))
    requires p in GrammarNames(t, states)
    ensures DerivesEps(g, Sym(start, p), w) <==> AcceptsFrom(t, accept, p, w)
    decreases |w|
  {
    var names := GrammarNames(t, states);
    var a := Sym(start, p);
    assert Rhs(g, a) == ProductionsOf(g.productions, a);
    if w == [] {
      if p in accept {
        assert AcceptRhs(start, states, accept, a, "ε");
      }
      if "ε" in Rhs(g, a) {
        // every "cQ" has two characters, so "ε" comes from an accept state
        assert AcceptRhs(start, states, accept, a, "ε");
        var s :| s in states && s in accept && Symbolizable(start, s) && Sym(start, s) == a;
        assert s in names;
      }
    } else {
      var c, u := w[0], w[1..];
      if |w| == 1 && c != 'ε' && [c] in Rhs(g, a) {
        assert false;
      }
      if exists b :: [c, b] in Rhs(g, a) && DerivesEps(g, b, u) {
        var b :| [c, b] in Rhs(g, a) && DerivesEps(g, b, u);
        assert !AcceptRhs(start, states, accept, a, [c, b]);
        var p' :| p' in t.Keys && p' in t && RowTargetRhs(start, p', t[p'], t[p'].Keys, a, [c, b]);
        var c', q :| c' in t[p'] && q in t[p'][c'] && Symbolizable(start, q) && [c, b] == [c', Sym(start, q)];
        assert p' in names && Sym(start, p') == a;
        assert p' == p;
        assert q in AllTargets(t);
        GrammarAcceptsFrom(g, t, start, states, accept, q, u);
        assert q in Delta(t, p, c);
      }
      if AcceptsFrom(t, accept, p, w) {
        var q :| q in Delta(t, p, c) && AcceptsFrom(t, accept, q, u);
        assert q in AllTargets(t);
        GrammarAcceptsFrom(g, t, start, states, accept, q, u);
        assert RowTargetRhs(start, p, t[p], t[p].Keys, a, [c, Sym(start, q)]);
        assert TableRhs(t, start, t.Keys, a, [c, Sym(start, q)]);
        assert [c, Sym(start, q)] in Rhs(g, a);
      }
    }
  }

  /** Reading from the nonterminal 'S' of the start state: the grammar's language is the automaton's. */
  lemma GrammarLanguage(g: Grammar, t: NTable, start: string, states: set<string>, accept: set<string>)
    requires g.productionsTerminals == map[]
    requires GrammarLists(g.productions, t, Some(start), states, accept, t.Keys)
    requires start in states && accept <= states
    requires NamesSymbolizable(Some(start), GrammarNames(t, states))
    requires SymInjective(Some(start), GrammarNames(t, states))
    ensures forall w :: Reach(t, false, {start}, w) * accept != {} <==> DerivesEps(g, 'S', w)
  {
    forall w ensures Reach(t, false, {start}, w) * accept != {} <==> DerivesEps(g, 'S', w) {
      ReachAcceptsFrom(t, accept, {start}, w);
      GrammarAcceptsFrom(g, t, Some(start), states, accept, start, w);
    }
  }

  // ----------------------------------------------------------- convertToDFA

  /** currentSet.forEach(state -> newSet.addAll(δ(state, symbol))): the move of the subset on the symbol. */
  method MoveOf(t: NTable, current: set<string>, symbol: char) returns (newSet: set<string>)
    ensures newSet == Move(t, current, symbol)
  {
    newSet := {};
    var left := current;
    while left != {}
      invariant left <= current
      invariant newSet == Move(t, current - left, symbol)
      decreases left
    {
      var state :| state in left;
      ghost var done := current - left;
      newSet := newSet + Delta(t, state, symbol);
      left := left - {state};
      assert current - left == done + {state};
    }
  }

  /** Every edge of dt is on a symbol of sigma. */
  ghost predicate OnSigma(dt: Table, sigma: set<char>)
  {
    forall p, c :: p in dt && c in dt[p] ==> c in sigma
  }

  /** The names of the subsets that meet f. */
  ghost function AcceptNames(n: map<set<string>, string>, f: set<string>): set<string>
  {
    set c | c in n && c * f != {} :: n[c]
  }

  lemma AcceptNamesAdd(n: map<set<string>, string>, f: set<string>, c: set<string>, name: string)
    requires c !in n
    ensures AcceptNames(n[c := name], f) == AcceptNames(n, f) + if c * f != {} then {name} else {}
  {
    var n' := n[c := name];
    forall x ensures x in AcceptNames(n', f) <==> x in AcceptNames(n, f) + if c * f != {} then {name} else {} {
      if x in AcceptNames(n', f) {
        var d :| d in n' && d * f != {} && n'[d] == x;
        if d != c {
          assert x in AcceptNames(n, f);
        }
      }
      if x in AcceptNames(n, f) {
        var d :| d in n && d * f != {} && n[d] == x;
        assert d in n' && n'[d] == x;
      }
    }
  }

  /** Under an injective naming a name accepts iff its subset meets f. */
  lemma AcceptNamesInjective(n: map<set<string>, string>, f: set<string>, c: set<string>)
    requires Injective(n) && c in n
    ensures n[c] in AcceptNames(n, f) <==> c * f != {}
  {
  }

  /** subsets[k] is named StateName(k), and nothing else is named. */
  ghost predicate Named(n: map<set<string>, string>, subsets: seq<set<string>>)
  {
    && (forall i, j :: 0 <= i < j < |subsets| ==> subsets[i] != subsets[j])
    && n.Keys == (set c | c in subsets)
    && (forall k :: 0 <= k < |subsets| ==> subsets[k] in n && n[subsets[k]] == StateName(k))
  }

  /** Naming one more subset with the next name. */
  lemma NamedAdd(n: map<set<string>, string>, subsets: seq<set<string>>, c: set<string>)
    requires Named(n, subsets) && c !in n
    ensures Named(n[c := StateName(|subsets|)], subsets + [c])
  {
    var subsets2 := subsets + [c];
    assert (set d | d in subsets2) == (set d | d in subsets) + {c};
    forall k | 0 <= k < |subsets2| ensures subsets2[k] in n[c := StateName(|subsets|)] &&
      n[c := StateName(|subsets|)][subsets2[k]] == StateName(k)
    {
      if k < |subsets| {
        assert subsets2[k] == subsets[k];
      }
    }
  }

  /** Distinct subsets in a sequence: the set of them is as large as the sequence. */
  lemma {:induction false} DistinctCard(subsets: seq<set<string>>)
    requires forall i, j :: 0 <= i < j < |subsets| ==> subsets[i] != subsets[j]
    ensures |set c | c in subsets| == |subsets|
    decreases |subsets|
  {
    if subsets != [] {
      var init := subsets[..|subsets| - 1];
      var last := subsets[|subsets| - 1];
      DistinctCard(init);
      assert (set c | c in subsets) == (set c | c in init) + {last};
    }
  }

  /** The names handed out so far are at most one per subset of u. */
  lemma NamedBound(n: map<set<string>, string>, subsets: seq<set<string>>, u: set<string>)
    requires Named(n, subsets)
    requires forall c :: c in n ==> c <= u
    ensures |subsets| <= Pow2(|u|)
  {
    DistinctCard(subsets);
    forall c | c in n ensures c in Powerset(u) {
      PowersetContains(u, c);
    }
    SubsetCard(n.Keys, Powerset(u));
    PowersetCard(u);
  }

  /** Before the twentieth name, StateName gives distinct subsets distinct names. */
  lemma NamedInjective(n: map<set<string>, string>, subsets: seq<set<string>>)
    requires Named(n, subsets) && |subsets| <= 19
    ensures Injective(n)
  {
    forall c, d | c in n && d in n && n[c] == n[d] ensures c == d {
      var i :| 0 <= i < |subsets| && subsets[i] == c;
      var j :| 0 <= j < |subsets| && subsets[j] == d;
      if i < j {
        StateNamesDistinct(i, j);
      } else if j < i {
        StateNamesDistinct(j, i);
      }
    }
  }

  /** Before the twentieth name, the next name is not taken yet. */
  lemma NamedFresh(n: map<set<string>, string>, subsets: seq<set<string>>)
    requires Named(n, subsets) && |subsets| < 19
    ensures StateName(|subsets|) !in n.Values
  {
    if StateName(|subsets|) in n.Values {
      var c :| c in n && n[c] == StateName(|subsets|);
      var i :| 0 <= i < |subsets| && subsets[i] == c;
      StateNamesDistinct(i, |subsets|);
    }
  }

  /**
   * The automaton's states and rows are the names given so far, its accept
   * states the names of the subsets that meet f, and it has edges only on
   * symbols of sigma.
   */
  ghost predicate NamesShape(states: set<string>, dt: Table, accept: set<string>, sigma: set<char>, f: set<string>,
                             n: map<set<string>, string>)
  {
    && states == n.Values
    && dt.Keys == n.Values
    && accept == AcceptNames(n, f)
    && OnSigma(dt, sigma)
  }

  /** What convertToDFA keeps whatever the names, with "S" as start state. */
  ghost predicate PlainShape(dfa: DFiniteAutomaton, sigma: set<char>, f: set<string>,
                             n: map<set<string>, string>, subsets: seq<set<string>>, counter: nat)
    reads dfa
  {
    && dfa.Valid() && dfa.sigma == sigma && dfa.startState == Some("S")
    && |subsets| == counter
    && Named(n, subsets)
    && NamesShape(dfa.states, dfa.transitions, dfa.acceptStates, sigma, f, n)
  }

  /** addState on the rows: an empty row unless the state has one. */
  function AddRow(dt: Table, name: string): Table
  {
    if name in dt then dt else dt[name := map[]]
  }

  /** The symbols whose edges the row of c already has: curDone for the subset at hand, none for a pending one, all otherwise. */
  function DoneFor(sigma: set<char>, pending: set<set<string>>, cur: set<string>, curDone: set<char>,
                   c: set<string>): set<char>
  {
    if c == cur then curDone else if c in pending then {} else sigma
  }

  /** Every named subset's row is done as far as DoneFor says. */
  ghost predicate RowsBut(t: NTable, eps: bool, sigma: set<char>, n: map<set<string>, string>, dt: Table,
                          pending: set<set<string>>, cur: set<string>, curDone: set<char>)
  {
    forall c {:trigger RowDone(t, eps, sigma, n, dt, c, DoneFor(sigma, pending, cur, curDone, c))} ::
      c in n ==> RowDone(t, eps, sigma, n, dt, c, DoneFor(sigma, pending, cur, curDone, c))
  }

  /** Giving the row of c the edge on one more symbol. */
  lemma RowDoneAdd(t: NTable, eps: bool, sigma: set<char>, n: map<set<string>, string>, dt: Table, dt2: Table,
                   c: set<string>, done: set<char>, a: char)
    requires c in n && RowDone(t, eps, sigma, n, dt, c, done) && a !in done
    requires forall b :: b != a ==> Step(dt2, n[c], b) == Step(dt, n[c], b)
    requires if a in sigma && Next(t, eps, c, a) != {} then
        Next(t, eps, c, a) in n && Step(dt2, n[c], a) == Some(n[Next(t, eps, c, a)])
      else
        Step(dt2, n[c], a) == None
    ensures RowDone(t, eps, sigma, n, dt2, c, done + {a})
  {
  }

  /**
   * One step of either construction keeps RowsBut: the rows of old names
   * other than cur are untouched, new names have empty rows, and the row of
   * cur gains exactly the edge on a.
   */
  lemma SuccessorRows(t: NTable, eps: bool, sigma: set<char>, n: map<set<string>, string>, n2: map<set<string>, string>,
                      dt: Table, dt2: Table, pending: set<set<string>>, pending2: set<set<string>>,
                      cur: set<string>, done: set<char>, a: char)
    requires Injective(n2)
    requires cur in n && forall c :: c in n ==> c in n2 && n2[c] == n[c]
    requires forall c :: c in pending2 <==> c in pending || (c in n2 && c !in n)
    requires cur !in pending
    requires RowsBut(t, eps, sigma, n, dt, pending, cur, done) && a !in done
    requires forall c, b :: c in n && c != cur ==> Step(dt2, n[c], b) == Step(dt, n[c], b)
    requires forall c, b :: c in n2 && c !in n ==> Step(dt2, n2[c], b) == None
    requires forall b :: b != a ==> Step(dt2, n[cur], b) == Step(dt, n[cur], b)
    requires if a in sigma && Next(t, eps, cur, a) != {} then
        Next(t, eps, cur, a) in n2 && Step(dt2, n[cur], a) == Some(n2[Next(t, eps, cur, a)])
      else
        Step(dt2, n[cur], a) == None
    ensures RowsBut(t, eps, sigma, n2, dt2, pending2, cur, done + {a})
  {
    forall c | c in n2 ensures RowDone(t, eps, sigma, n2, dt2, c, DoneFor(sigma, pending2, cur, done + {a}, c)) {
      if c == cur {
        assert RowDone(t, eps, sigma, n, dt, cur, DoneFor(sigma, pending, cur, done, cur));
        RowDoneFrame(t, eps, sigma, n, n2, dt, dt, cur, done);
        RowDoneAdd(t, eps, sigma, n2, dt, dt2, cur, done, a);
      } else if c in n {
        assert DoneFor(sigma, pending2, cur, done + {a}, c) == DoneFor(sigma, pending, cur, done, c);
        assert RowDone(t, eps, sigma, n, dt, c, DoneFor(sigma, pending, cur, done, c));
        RowDoneFrame(t, eps, sigma, n, n2, dt, dt2, c, DoneFor(sigma, pending, cur, done, c));
      }
    }
  }

  lemma MapValuesAdd(n: map<set<string>, string>, c: set<string>, name: string)
    requires c !in n
    ensures n[c := name].Values == n.Values + {name}
  {
    var n' := n[c := name];
    forall x | x in n.Values ensures x in n'.Values {
      var d :| d in n && n[d] == x;
      assert n'[d] == x;
    }
    assert n'[c] == name;
  }

  /** A new subset named and given its first edge: the shape is kept. */
  lemma NewNameShape(states: set<string>, dt: Table, accept: set<string>, sigma: set<char>, f: set<string>,
                     n: map<set<string>, string>, cur: set<string>, a: char, newSet: set<string>, name: string)
    requires NamesShape(states, dt, accept, sigma, f, n)
    requires cur in n && newSet !in n && a in sigma
    ensures NamesShape(states + {name}, SetEdge(AddRow(dt, name), n[cur], a, name),
                       if newSet * f != {} then accept + {name} else accept, sigma, f, n[newSet := name])
  {
    MapValuesAdd(n, newSet, name);
    AcceptNamesAdd(n, f, newSet, name);
    var dt2 := SetEdge(AddRow(dt, name), n[cur], a, name);
    forall p, c | p in dt2 && c in dt2[p] ensures c in sigma {
      if !(p == n[cur] && c == a) {
        SetEdgeStep(AddRow(dt, name), n[cur], a, name, p, c);
      }
    }
  }

  /**
   * The edge from n[cur] on a to name, after name got a row: other rows of
   * old names are untouched, the row of name is empty unless it is n[cur],
   * and the row of n[cur] gains the edge on a.
   */
  lemma EdgeSteps(dt: Table, n: map<set<string>, string>, cur: set<string>, a: char, name: string)
    requires Injective(n) && cur in n
    ensures forall c, b :: c in n && c != cur && (n[c] != name || name in dt) ==>
      Step(SetEdge(AddRow(dt, name), n[cur], a, name), n[c], b) == Step(dt, n[c], b)
    ensures name !in dt && name != n[cur] ==> forall b :: Step(SetEdge(AddRow(dt, name), n[cur], a, name), name, b) == None
    ensures forall b :: b != a ==> Step(SetEdge(AddRow(dt, name), n[cur], a, name), n[cur], b) == Step(dt, n[cur], b)
    ensures Step(SetEdge(AddRow(dt, name), n[cur], a, name), n[cur], a) == Some(name)
  {
    var dt1 := AddRow(dt, name);
    var dt2 := SetEdge(dt1, n[cur], a, name);
    forall c, b | c in n && c != cur && (n[c] != name || name in dt) ensures Step(dt2, n[c], b) == Step(dt, n[c], b) {
      SetEdgeStep(dt1, n[cur], a, name, n[c], b);
    }
    forall b ensures Step(dt2, n[cur], b) == if b == a then Some(name) else Step(dt1, n[cur], b) {
      SetEdgeStep(dt1, n[cur], a, name, n[cur], b);
    }
    if name !in dt && name != n[cur] {
      forall b ensures Step(dt2, name, b) == None {
        SetEdgeStep(dt1, n[cur], a, name, name, b);
      }
    }
  }

  /**
   * Under an injective naming, a new nonempty successor given a name no
   * state has yet, and the edge to it, keeps RowsBut.
   */
  lemma FreshNameRows(t: NTable, eps: bool, sigma: set<char>, n: map<set<string>, string>, dt: Table,
                      pending: set<set<string>>, cur: set<string>, done: set<char>, a: char, name: string)
    requires Injective(n[Next(t, eps, cur, a) := name]) && dt.Keys == n.Values
    requires cur in n && cur !in pending && a in sigma && a !in done
    requires Next(t, eps, cur, a) != {} && Next(t, eps, cur, a) !in n
    requires RowsBut(t, eps, sigma, n, dt, pending, cur, done)
    ensures RowsBut(t, eps, sigma, n[Next(t, eps, cur, a) := name], SetEdge(AddRow(dt, name), n[cur], a, name),
                    pending + {Next(t, eps, cur, a)}, cur, done + {a})
  {
    var newSet := Next(t, eps, cur, a);
    var n2 := n[newSet := name];
    assert Injective(n) by {
      forall c, d | c in n && d in n && n[c] == n[d] ensures c == d {
        assert n2[c] == n2[d];
      }
    }
    forall c | c in n ensures n[c] != name {
      assert n2[c] == n[c] && n2[newSet] == name;
    }
    EdgeSteps(dt, n, cur, a, name);
    SuccessorRows(t, eps, sigma, n, n2, dt, SetEdge(AddRow(dt, name), n[cur], a, name),
                  pending, pending + {newSet}, cur, done, a);
  }

  /** Before the twentieth name, the rows of a new subset are kept as RowsBut needs. */
  lemma NewNameRows(t: NTable, sigma: set<char>, n: map<set<string>, string>, subsets: seq<set<string>>,
                    dt: Table, pending: set<set<string>>, cur: set<string>, done: set<char>, a: char)
    requires Named(n, subsets) && |subsets| < 19 && dt.Keys == n.Values
    requires cur in n && cur !in pending && a in sigma && a !in done
    requires Move(t, cur, a) != {} && Move(t, cur, a) !in n
    requires RowsBut(t, false, sigma, n, dt, pending, cur, done)
    ensures RowsBut(t, false, sigma, n[Move(t, cur, a) := StateName(|subsets|)],
                    SetEdge(AddRow(dt, StateName(|subsets|)), n[cur], a, StateName(|subsets|)),
                    pending + {Move(t, cur, a)}, cur, done + {a})
  {
    var newSet := Move(t, cur, a);
    NamedAdd(n, subsets, newSet);
    NamedInjective(n[newSet := StateName(|subsets|)], subsets + [newSet]);
    FreshNameRows(t, false, sigma, n, dt, pending, cur, done, a, StateName(|subsets|));
  }

  /** A subset named before gets the edge: the shape is kept. */
  lemma OldNameShape(states: set<string>, dt: Table, accept: set<string>, sigma: set<char>, f: set<string>,
                     n: map<set<string>, string>, cur: set<string>, a: char, newSet: set<string>)
    requires NamesShape(states, dt, accept, sigma, f, n)
    requires cur in n && newSet in n && a in sigma
    ensures NamesShape(states, SetEdge(dt, n[cur], a, n[newSet]), accept, sigma, f, n)
  {
    var dt2 := SetEdge(dt, n[cur], a, n[newSet]);
    forall p, c | p in dt2 && c in dt2[p] ensures c in sigma {
      if !(p == n[cur] && c == a) {
        SetEdgeStep(dt, n[cur], a, n[newSet], p, c);
      }
    }
  }

  /** Under an injective naming, setting the edge of n[cur] on a touches no other row of a name. */
  lemma SetEdgeSteps(dt: Table, n: map<set<string>, string>, cur: set<string>, a: char, name: string)
    requires Injective(n) && cur in n
    ensures forall c, b :: c in n && c != cur ==> Step(SetEdge(dt, n[cur], a, name), n[c], b) == Step(dt, n[c], b)
    ensures forall b :: Step(SetEdge(dt, n[cur], a, name), n[cur], b) == if b == a then Some(name) else Step(dt, n[cur], b)
  {
    var dt2 := SetEdge(dt, n[cur], a, name);
    forall c, b | c in n && c != cur ensures Step(dt2, n[c], b) == Step(dt, n[c], b) {
      SetEdgeStep(dt, n[cur], a, name, n[c], b);
    }
    forall b ensures Step(dt2, n[cur], b) == if b == a then Some(name) else Step(dt, n[cur], b) {
      SetEdgeStep(dt, n[cur], a, name, n[cur], b);
    }
  }

  /** Under an injective naming, the edge to a subset named before keeps RowsBut. */
  lemma OldNameRows(t: NTable, eps: bool, sigma: set<char>, n: map<set<string>, string>, dt: Table,
                    pending: set<set<string>>, cur: set<string>, done: set<char>, a: char)
    requires Injective(n)
    requires cur in n && cur !in pending && a in sigma && a !in done
    requires Next(t, eps, cur, a) != {} && Next(t, eps, cur, a) in n
    requires RowsBut(t, eps, sigma, n, dt, pending, cur, done)
    ensures RowsBut(t, eps, sigma, n, SetEdge(dt, n[cur], a, n[Next(t, eps, cur, a)]), pending, cur, done + {a})
  {
    var name := n[Next(t, eps, cur, a)];
    var dt2 := SetEdge(dt, n[cur], a, name);
    SetEdgeSteps(dt, n, cur, a, name);
    SuccessorRows(t, eps, sigma, n, n, dt, dt2, pending, pending, cur, done, a);
  }

  /** An empty successor adds no edge and keeps RowsBut. */
  lemma NoNameRows(t: NTable, eps: bool, sigma: set<char>, n: map<set<string>, string>, dt: Table,
                   pending: set<set<string>>, cur: set<string>, done: set<char>, a: char)
    requires cur in n && a !in done
    requires Next(t, eps, cur, a) == {}
    requires RowsBut(t, eps, sigma, n, dt, pending, cur, done)
    ensures RowsBut(t, eps, sigma, n, dt, pending, cur, done + {a})
  {
    forall c | c in n ensures RowDone(t, eps, sigma, n, dt, c, DoneFor(sigma, pending, cur, done + {a}, c)) {
      assert RowDone(t, eps, sigma, n, dt, c, DoneFor(sigma, pending, cur, done, c));
    }
  }

  /**
   * A nonempty move of the current subset that has no name yet: it gets the
   * next name, becomes a state (accepting when it meets f) and is queued,
   * and the current subset's name gets the edge on the symbol to it.
   */
  method NameNewSubset(t: NTable, f: set<string>, dfa: DFiniteAutomaton, current: set<string>, symbol: char,
                       newSet: set<string>, n: map<set<string>, string>, ghost subsets: seq<set<string>>,
                       unmarked: set<set<string>>, counter: nat, ghost done: set<char>)
    returns (n': map<set<string>, string>, ghost subsets': seq<set<string>>,
             unmarked': set<set<string>>, counter': nat)
    requires PlainShape(dfa, dfa.sigma, f, n, subsets, counter)
    requires current in n && current !in unmarked
    requires symbol in dfa.sigma && symbol !in done
    requires newSet == Move(t, current, symbol) && newSet != {} && newSet !in n
    requires counter < 19 ==> RowsBut(t, false, dfa.sigma, n, dfa.transitions, unmarked, current, done)
    modifies dfa
    ensures PlainShape(dfa, dfa.sigma, f, n', subsets', counter')
    ensures counter' == counter + 1
    ensures n' == n[newSet := StateName(counter)]
    ensures unmarked' == unmarked + {newSet}
    ensures counter' <= 19 ==> RowsBut(t, false, dfa.sigma, n', dfa.transitions, unmarked', current, done + {symbol})
  {
    var newStateName := StateName(counter);
    NewNameShape(dfa.states, dfa.transitions, dfa.acceptStates, dfa.sigma, f, n, current, symbol, newSet, newStateName);
    if counter < 19 {
      NewNameRows(t, dfa.sigma, n, subsets, dfa.transitions, unmarked, current, done, symbol);
    }
    counter' := counter + 1;
    n' := n[newSet := newStateName];
    subsets' := subsets + [newSet];
    NamedAdd(n, subsets, newSet);
    dfa.AddState(newStateName, newSet * f != {});
    unmarked' := unmarked + {newSet};
    dfa.AddTransition(n[current], symbol, newStateName);
  }

  /** A nonempty move that already has a name: the current subset's name gets the edge to it. */
  method LinkNamedSubset(t: NTable, f: set<string>, dfa: DFiniteAutomaton, current: set<string>, symbol: char,
                         newSet: set<string>, n: map<set<string>, string>, ghost subsets: seq<set<string>>,
                         unmarked: set<set<string>>, counter: nat, ghost done: set<char>)
    requires PlainShape(dfa, dfa.sigma, f, n, subsets, counter)
    requires current in n && current !in unmarked
    requires symbol in dfa.sigma && symbol !in done
    requires newSet == Move(t, current, symbol) && newSet != {} && newSet in n
    requires counter <= 19 ==> RowsBut(t, false, dfa.sigma, n, dfa.transitions, unmarked, current, done)
    modifies dfa
    ensures PlainShape(dfa, dfa.sigma, f, n, subsets, counter)
    ensures counter <= 19 ==> RowsBut(t, false, dfa.sigma, n, dfa.transitions, unmarked, current, done + {symbol})
  {
    var newStateName := n[newSet];
    OldNameShape(dfa.states, dfa.transitions, dfa.acceptStates, dfa.sigma, f, n, current, symbol, newSet);
    if counter <= 19 {
      NamedInjective(n, subsets);
      OldNameRows(t, false, dfa.sigma, n, dfa.transitions, unmarked, current, done, symbol);
    }
    dfa.AddTransition(n[current], symbol, newStateName);
  }

  /**
   * One symbol of the for loop over sigma: the move of the current subset,
   * named and linked when it is nonempty.
   */
  method PlainSuccessor(t: NTable, f: set<string>, dfa: DFiniteAutomaton, current: set<string>, symbol: char,
                        n: map<set<string>, string>, ghost subsets: seq<set<string>>,
                        unmarked: set<set<string>>, counter: nat, ghost done: set<char>)
    returns (n': map<set<string>, string>, ghost subsets': seq<set<string>>,
             unmarked': set<set<string>>, counter': nat)
    requires PlainShape(dfa, dfa.sigma, f, n, subsets, counter)
    requires current in n && current !in unmarked
    requires symbol in dfa.sigma && symbol !in done
    requires counter <= 19 ==> RowsBut(t, false, dfa.sigma, n, dfa.transitions, unmarked, current, done)
    modifies dfa
    ensures PlainShape(dfa, dfa.sigma, f, n', subsets', counter')
    ensures counter <= counter'
    ensures forall c :: c in n ==> c in n' && n'[c] == n[c]
    ensures forall c :: c in n' ==> c in n || c == Move(t, current, symbol)
    ensures forall c :: c in unmarked' <==> c in unmarked || (c in n' && c !in n)
    ensures counter' <= 19 ==> RowsBut(t, false, dfa.sigma, n', dfa.transitions, unmarked', current, done + {symbol})
  {
    n', subsets', unmarked', counter' := n, subsets, unmarked, counter;
    var newSet := MoveOf(t, current, symbol);
    if newSet != {} {
      if newSet !in n {
        n', subsets', unmarked', counter' := NameNewSubset(t, f, dfa, current, symbol, newSet, n, subsets, unmarked, counter, done);
      } else {
        LinkNamedSubset(t, f, dfa, current, symbol, newSet, n, subsets, unmarked, counter, done);
      }
    } else if counter <= 19 {
      NoNameRows(t, false, dfa.sigma, n, dfa.transitions, unmarked, current, done, symbol);
    }
  }

  /** Every named subset's row is complete, except that a pending one has no edge yet. */
  ghost predicate Rows(t: NTable, eps: bool, sigma: set<char>, n: map<set<string>, string>, dt: Table,
                       pending: set<set<string>>)
  {
    forall c {:trigger RowDone(t, eps, sigma, n, dt, c, if c in pending then {} else sigma)} ::
      c in n ==> RowDone(t, eps, sigma, n, dt, c, if c in pending then {} else sigma)
  }

  /** Taking cur off the pending subsets to work on it. */
  lemma RowsStart(t: NTable, eps: bool, sigma: set<char>, n: map<set<string>, string>, dt: Table,
                  pending: set<set<string>>, cur: set<string>)
    requires Rows(t, eps, sigma, n, dt, pending) && cur in pending
    ensures RowsBut(t, eps, sigma, n, dt, pending - {cur}, cur, {})
  {
    forall c | c in n ensures RowDone(t, eps, sigma, n, dt, c, DoneFor(sigma, pending - {cur}, cur, {}, c)) {
      var d := if c in pending then {} else sigma;
      assert RowDone(t, eps, sigma, n, dt, c, d);
      if c != cur {
        assert c in pending - {cur} <==> c in pending;
      }
      assert DoneFor(sigma, pending - {cur}, cur, {}, c) == d;
    }
  }

  /** cur done with all of sigma. */
  lemma RowsFinish(t: NTable, eps: bool, sigma: set<char>, n: map<set<string>, string>, dt: Table,
                   pending: set<set<string>>, cur: set<string>)
    requires RowsBut(t, eps, sigma, n, dt, pending, cur, sigma) && cur !in pending
    ensures Rows(t, eps, sigma, n, dt, pending)
  {
    forall c | c in n ensures RowDone(t, eps, sigma, n, dt, c, if c in pending then {} else sigma) {
      assert RowDone(t, eps, sigma, n, dt, c, DoneFor(sigma, pending, cur, sigma, c));
    }
  }

  /** With nothing pending, an injective naming whose accept names are those of the subsets meeting f simulates t. */
  lemma RowsSimulate(t: NTable, eps: bool, sigma: set<char>, f: set<string>, n: map<set<string>, string>, dt: Table,
                     dAccept: set<string>)
    requires Injective(n) && Rows(t, eps, sigma, n, dt, {}) && dAccept == AcceptNames(n, f)
    ensures Simulates(t, eps, sigma, f, n, dt, dAccept)
  {
    forall c | c in n ensures RowDone(t, eps, sigma, n, dt, c, sigma) {
      assert RowDone(t, eps, sigma, n, dt, c, if c in {} then {} else sigma);
    }
    forall c | c in n ensures n[c] in dAccept <==> c * f != {} {
      AcceptNamesInjective(n, f, c);
    }
  }

  /**
   * After one subset is processed, either a new subset of u was named or
   * nothing new is pending: the loop measure of the constructions.
   */
  lemma MeasureOrSame(u: set<string>, keys0: set<set<string>>, keys1: set<set<string>>,
                      pending0: set<set<string>>, pending1: set<set<string>>)
    requires forall c :: c in keys0 ==> c in keys1
    requires forall c :: c in keys1 ==> c <= u
    requires forall c :: c in pending1 <==> c in pending0 || (c in keys1 && c !in keys0)
    ensures Powerset(u) - keys1 < Powerset(u) - keys0 || (keys1 == keys0 && pending1 == pending0)
  {
    if keys1 != keys0 {
      var c :| c in keys1 && c !in keys0;
      MeasureDrops(u, keys0, keys1, c);
    }
  }

  /** Naming a new subset of u shrinks the subsets of u still unnamed. */
  lemma MeasureDrops(u: set<string>, keys0: set<set<string>>, keys1: set<set<string>>, c: set<string>)
    requires keys0 <= keys1 && c in keys1 && c !in keys0 && c <= u
    ensures Powerset(u) - keys1 < Powerset(u) - keys0
  {
    PowersetContains(u, c);
    assert c in Powerset(u) - keys0;
  }

  /**
   * convertToDFA's for loop over sigma for one subset: every symbol's
   * successor is named if new and linked.
   */
  method SymbolLoop(t: NTable, f: set<string>, dfa: DFiniteAutomaton, currentSet: set<string>,
                    n: map<set<string>, string>, ghost subsets: seq<set<string>>,
                    unmarked: set<set<string>>, counter: nat, ghost u: set<string>)
    returns (n': map<set<string>, string>, ghost subsets': seq<set<string>>,
             unmarked': set<set<string>>, counter': nat)
    requires PlainShape(dfa, dfa.sigma, f, n, subsets, counter)
    requires currentSet in n && currentSet !in unmarked
    requires AllTargets(t) <= u && forall c :: c in n ==> c <= u
    requires counter <= 19 ==> RowsBut(t, false, dfa.sigma, n, dfa.transitions, unmarked, currentSet, {})
    modifies dfa
    ensures PlainShape(dfa, dfa.sigma, f, n', subsets', counter')
    ensures counter <= counter'
    ensures currentSet in n' && currentSet !in unmarked'
    ensures forall c :: c in n ==> c in n' && n'[c] == n[c]
    ensures forall c :: c in n' ==> c <= u
    ensures forall c :: c in unmarked' <==> c in unmarked || (c in n' && c !in n)
    ensures counter' <= 19 ==> RowsBut(t, false, dfa.sigma, n', dfa.transitions, unmarked', currentSet, dfa.sigma)
  {
    n', subsets', unmarked', counter' := n, subsets, unmarked, counter;
    var symbols := dfa.sigma;
    ghost var done: set<char> := {};
    while symbols != {}
      invariant symbols <= dfa.sigma && done <= dfa.sigma
      invariant forall a :: a in dfa.sigma ==> (a in done <==> a !in symbols)
      invariant PlainShape(dfa, dfa.sigma, f, n', subsets', counter')
      invariant counter <= counter'
      invariant currentSet in n' && currentSet !in unmarked'
      invariant forall c :: c in n ==> c in n' && n'[c] == n[c]
      invariant forall c :: c in n' ==> c <= u
      invariant forall c :: c in unmarked' <==> c in unmarked || (c in n' && c !in n)
      invariant counter' <= 19 ==> RowsBut(t, false, dfa.sigma, n', dfa.transitions, unmarked', currentSet, done)
      decreases symbols
    {
      var symbol :| symbol in symbols;
      n', subsets', unmarked', counter' :=
        PlainSuccessor(t, f, dfa, currentSet, symbol, n', subsets', unmarked', counter', done);
      symbols := symbols - {symbol};
      done := done + {symbol};
    }
    assert done == dfa.sigma;
  }

  /**
   * The body of convertToDFA's while loop for one subset taken off the
   * unmarked ones: the for loop over sigma, after which its row is complete.
   */
  method ProcessSubset(t: NTable, f: set<string>, dfa: DFiniteAutomaton, currentSet: set<string>,
                       n: map<set<string>, string>, ghost subsets: seq<set<string>>,
                       unmarked: set<set<string>>, counter: nat, ghost u: set<string>)
    returns (n': map<set<string>, string>, ghost subsets': seq<set<string>>,
             unmarked': set<set<string>>, counter': nat)
    requires PlainShape(dfa, dfa.sigma, f, n, subsets, counter)
    requires currentSet in n && currentSet !in unmarked && unmarked <= n.Keys
    requires AllTargets(t) <= u && forall c :: c in n ==> c <= u
    requires counter <= 19 ==> RowsBut(t, false, dfa.sigma, n, dfa.transitions, unmarked, currentSet, {})
    modifies dfa
    ensures PlainShape(dfa, dfa.sigma, f, n', subsets', counter')
    ensures counter <= counter'
    ensures forall c :: c in n ==> c in n' && n'[c] == n[c]
    ensures unmarked' <= n'.Keys && forall c :: c in n' ==> c <= u
    ensures Powerset(u) - n'.Keys < Powerset(u) - n.Keys || (n'.Keys == n.Keys && unmarked' == unmarked)
    ensures counter' <= 19 ==> Rows(t, false, dfa.sigma, n', dfa.transitions, unmarked')
  {
    n', subsets', unmarked', counter' := SymbolLoop(t, f, dfa, currentSet, n, subsets, unmarked, counter, u);
    if counter' <= 19 {
      RowsFinish(t, false, dfa.sigma, n', dfa.transitions, unmarked', currentSet);
    }
    MeasureOrSame(u, n.Keys, n'.Keys, unmarked, unmarked');
  }

  /**
   * Once no subset is pending and at most 19 names were handed out, the
   * automaton built from {start} accepts exactly the words over sigma on
   * which the NFA can reach an accept state.
   */
  lemma PlainEquivalence(t: NTable, sigma: set<char>, f: set<string>, n: map<set<string>, string>,
                         subsets: seq<set<string>>, dt: Table, dAccept: set<string>, start: string)
    requires Named(n, subsets) && |subsets| <= 19
    requires Rows(t, false, sigma, n, dt, {}) && dAccept == AcceptNames(n, f)
    requires {start} in n && n[{start}] == "S"
    ensures "S" in dAccept <==> start in f
    ensures forall w :: (Run(dt, "S", w).Some? && Run(dt, "S", w).value in dAccept) <==>
      InSigma(sigma, w) && Reach(t, false, {start}, w) * f != {}
  {
    NamedInjective(n, subsets);
    AcceptNamesInjective(n, f, {start});
    assert start in f ==> start in {start} * f;
    RowsSimulate(t, false, sigma, f, n, dt, dAccept);
    forall w ensures (Run(dt, "S", w).Some? && Run(dt, "S", w).value in dAccept) <==>
      InSigma(sigma, w) && Reach(t, false, {start}, w) * f != {}
    {
      SimulationAccepts(t, false, sigma, f, n, dt, dAccept, {start}, w);
    }
  }

  /** The automaton convertToDFA starts from: {start} named "S" and pending. */
  method StartSubsets(t: NTable, f: set<string>, dfa: DFiniteAutomaton, start: string)
    returns (n: map<set<string>, string>, ghost subsets: seq<set<string>>, unmarked: set<set<string>>, counter: nat)
    requires dfa.Valid() && dfa.states == {} && dfa.transitions == map[] && dfa.acceptStates == {}
    modifies dfa
    ensures PlainShape(dfa, dfa.sigma, f, n, subsets, counter) && counter == 1
    ensures {start} in n && n[{start}] == "S" && unmarked == {{start}} && n.Keys == {{start}}
    ensures Rows(t, false, dfa.sigma, n, dfa.transitions, unmarked)
  {
    var startSet := {start};
    n := map[startSet := StateName(0)];
    subsets := [startSet];
    unmarked := {startSet};
    dfa.AddState(StateName(0), start in f);
    dfa.SetStartState(StateName(0));
    counter := 1;
    AcceptNamesAdd(map[], f, startSet, "S");
    assert AcceptNames(map[], f) == {};
    assert start in f ==> start in startSet * f;
    assert Named(n, subsets);
    assert RowDone(t, false, dfa.sigma, n, dfa.transitions, startSet, {});
  }

  /**
   * One round of the while loop of convertToDFA: an unmarked subset is
   * taken and its row built. Either a new subset of u got a name or fewer
   * subsets are unmarked.
   */
  method PlainRound(t: NTable, f: set<string>, dfa: DFiniteAutomaton,
                    n: map<set<string>, string>, ghost subsets: seq<set<string>>,
                    unmarked: set<set<string>>, counter: nat, ghost u: set<string>)
    returns (n': map<set<string>, string>, ghost subsets': seq<set<string>>,
             unmarked': set<set<string>>, counter': nat)
    requires PlainShape(dfa, dfa.sigma, f, n, subsets, counter)
    requires unmarked != {} && unmarked <= n.Keys
    requires AllTargets(t) <= u && forall c :: c in n ==> c <= u
    requires counter <= 19 ==> Rows(t, false, dfa.sigma, n, dfa.transitions, unmarked)
    modifies dfa
    ensures PlainShape(dfa, dfa.sigma, f, n', subsets', counter')
    ensures dfa.startState == old(dfa.startState)
    ensures forall c :: c in n ==> c in n' && n'[c] == n[c]
    ensures unmarked' <= n'.Keys && forall c :: c in n' ==> c <= u
    ensures Powerset(u) - n'.Keys < Powerset(u) - n.Keys ||
      (Powerset(u) - n'.Keys == Powerset(u) - n.Keys && |unmarked'| < |unmarked|)
    ensures counter' <= 19 ==> Rows(t, false, dfa.sigma, n', dfa.transitions, unmarked')
  {
    var currentSet :| currentSet in unmarked;
    if counter <= 19 {
      RowsStart(t, false, dfa.sigma, n, dfa.transitions, unmarked, currentSet);
    }
    n', subsets', unmarked', counter' :=
      ProcessSubset(t, f, dfa, currentSet, n, subsets, unmarked - {currentSet}, counter, u);
  }

  /**
   * The subset construction of convertToDFA from a start state: every
   * pending subset gets its row, a new target subset the next name. While
   * the names stay distinct (at most 19 of them) the result accepts the
   * NFA's language.
   */
  method DeterminizeFrom(t: NTable, sigma: set<char>, f: set<string>, start: string)
    returns (dfa: DFiniteAutomaton, ghost named: nat)
    ensures fresh(dfa) && dfa.Valid() && dfa.sigma == sigma && dfa.startState == Some("S")
    ensures dfa.transitions.Keys == dfa.states && OnSigma(dfa.transitions, sigma)
    ensures 1 <= named <= Pow2(|AllTargets(t) + {start}|)
    ensures named <= 19 ==> ("S" in dfa.acceptStates <==> start in f)
    ensures named <= 19 ==> forall w :: (Run(dfa.transitions, "S", w).Some? && Run(dfa.transitions, "S", w).value in dfa.acceptStates) <==>
      InSigma(sigma, w) && Reach(t, false, {start}, w) * f != {}
  {
    dfa := new DFiniteAutomaton(sigma);
    var n, subsets, unmarked, stateCounter := StartSubsets(t, f, dfa, start);
    ghost var u := AllTargets(t) + {start};
    while unmarked != {}
      invariant fresh(dfa)
      invariant PlainShape(dfa, sigma, f, n, subsets, stateCounter)
      invariant {start} in n && n[{start}] == "S"
      invariant unmarked <= n.Keys
      invariant forall c :: c in n ==> c <= u
      invariant stateCounter <= 19 ==> Rows(t, false, sigma, n, dfa.transitions, unmarked)
      decreases Powerset(u) - n.Keys, |unmarked|
    {
      n, subsets, unmarked, stateCounter := PlainRound(t, f, dfa, n, subsets, unmarked, stateCounter, u);
    }
    named := stateCounter;
    NamedBound(n, subsets, u);
    if named <= 19 {
      PlainEquivalence(t, sigma, f, n, subsets, dfa.transitions, dfa.acceptStates, start);
    }
  }

  // ------------------------------------------------ convertEpsilonNfaToDfa

  /**
   * The union of the precomputed closures of the symbol's targets. The
   * nested forEach over the members and their targets visits exactly the
   * targets in Move, so the model walks that set; a target with no entry in
   * the closure map makes addAll(null) throw NullPointerException.
   */
  method SuccessorSet(t: NTable, closures: map<string, set<string>>, current: set<string>, symbol: char)
    returns (r: Result<set<string>>)
    ensures r.Failure? <==> !(Move(t, current, symbol) <= closures.Keys)
    ensures r.Failure? ==> r.error == NullPointer
    ensures r.Success? ==> forall q :: q in r.value <==>
      exists x :: x in Move(t, current, symbol) && x in closures && q in closures[x]
  {
    var targets := MoveOf(t, current, symbol);
    var nextState: set<string> := {};
    var left := targets;
    while left != {}
      invariant left <= targets && targets - left <= closures.Keys
      invariant forall q :: q in nextState <==> exists x :: x in targets - left && x in closures && q in closures[x]
      decreases left
    {
      var x :| x in left;
      if x !in closures {
        return Failure(NullPointer);
      }
      nextState := nextState + closures[x];
      left := left - {x};
    }
    r := Success(nextState);
  }

  /** Closures that are the true ε-closures make the union the ε-successor. */
  lemma SuccessorIsNext(t: NTable, closures: map<string, set<string>>, current: set<string>, symbol: char,
                        nextState: set<string>)
    requires forall s :: s in closures ==> closures[s] == EClose(t, s)
    requires Move(t, current, symbol) <= closures.Keys
    requires forall q :: q in nextState <==> exists x :: x in Move(t, current, symbol) && x in closures && q in closures[x]
    ensures nextState == Next(t, true, current, symbol)
    ensures nextState <= AllTargets(t)
  {
    forall q | q in nextState ensures q in AllTargets(t) {
      var x :| x in Move(t, current, symbol) && q in EClose(t, x);
    }
  }

  /** The subsets of the ε-construction are named by encodeState. */
  ghost predicate Encoded(n: map<set<string>, string>, u: set<string>)
  {
    && {} !in n
    && (forall c :: c in n ==> n[c] == EncodeState(c))
    && (forall c, x :: c in n && x in c ==> x in u)
  }

  /** Without '_' in any name, encodeState names distinct subsets apart. */
  lemma EncodedInjective(n: map<set<string>, string>, u: set<string>)
    requires Encoded(n, u) && NoUnderscore(u)
    ensures Injective(n)
  {
    forall c, d | c in n && d in n && n[c] == n[d] ensures c == d {
      EncodeStateInjective(c, d);
    }
  }

  /** What convertEpsilonNfaToDfa keeps: encoded names, and the automaton shaped by them. */
  ghost predicate EpsShape(dfa: DFiniteAutomaton, sigma: set<char>, f: set<string>,
                           n: map<set<string>, string>, u: set<string>)
    reads dfa
  {
    && dfa.Valid() && dfa.sigma == sigma
    && Encoded(n, u)
    && NamesShape(dfa.states, dfa.transitions, dfa.acceptStates, sigma, f, n)
  }

  /** The queue holds distinct subsets, each already a DFA state; pending is its set of members. */
  ghost predicate QueueShape(queue: seq<set<string>>, pending: set<set<string>>, n: map<set<string>, string>)
  {
    && (forall i, j :: 0 <= i < j < |queue| ==> queue[i] != queue[j])
    && (forall c :: c in pending <==> c in queue)
    && pending <= n.Keys
  }

  lemma EncodedAdd(n: map<set<string>, string>, u: set<string>, c: set<string>)
    requires Encoded(n, u) && c != {} && c <= u
    ensures Encoded(n[c := EncodeState(c)], u)
  {
  }

  lemma MapKeysAdd(n: map<set<string>, string>, c: set<string>, name: string)
    ensures n[c := name].Keys == n.Keys + {c}
  {
  }

  /** Queueing a subset seen for the first time keeps the queue's shape. */
  lemma QueueAdd(queue: seq<set<string>>, pending: set<set<string>>, n: map<set<string>, string>,
                 c: set<string>, name: string)
    requires QueueShape(queue, pending, n) && c !in n
    ensures QueueShape(queue + [c], pending + {c}, n[c := name])
  {
    var q2 := queue + [c];
    forall i, j | 0 <= i < j < |q2| ensures q2[i] != q2[j] {
      if j < |queue| {
        assert q2[i] == queue[i] && q2[j] == queue[j];
      } else {
        assert queue[i] in pending;
      }
    }
    forall d ensures d in pending + {c} <==> d in q2 {
      assert d in q2 <==> d in queue || d == c;
    }
  }

  /** The bookkeeping of NameNewClosure on values: the shapes, the queue and the rows are kept. */
  lemma NewClosureFacts(t: NTable, f: set<string>, sigma: set<char>, states: set<string>, dt: Table, accept: set<string>,
                        current: set<string>, symbol: char, nextState: set<string>, queue: seq<set<string>>,
                        n: map<set<string>, string>, pending: set<set<string>>, done: set<char>, u: set<string>, inj: bool)
    requires Encoded(n, u) && NamesShape(states, dt, accept, sigma, f, n) && QueueShape(queue, pending, n)
    requires current in n && current !in pending
    requires symbol in sigma && symbol !in done
    requires nextState == Next(t, true, current, symbol) && nextState != {} && nextState !in n && nextState <= u
    requires inj ==> NoUnderscore(u) && RowsBut(t, true, sigma, n, dt, pending, current, done)
    ensures Encoded(n[nextState := EncodeState(nextState)], u)
    ensures NamesShape(states + {EncodeState(nextState)},
                       SetEdge(AddRow(dt, EncodeState(nextState)), EncodeState(current), symbol, EncodeState(nextState)),
                       if nextState * f != {} then accept + {EncodeState(nextState)} else accept,
                       sigma, f, n[nextState := EncodeState(nextState)])
    ensures QueueShape(queue + [nextState], pending + {nextState}, n[nextState := EncodeState(nextState)])
    ensures forall c :: c in pending + {nextState} <==> c in pending || (c in n[nextState := EncodeState(nextState)] && c !in n)
    ensures inj ==> RowsBut(t, true, sigma, n[nextState := EncodeState(nextState)],
                            SetEdge(AddRow(dt, EncodeState(nextState)), EncodeState(current), symbol, EncodeState(nextState)),
                            pending + {nextState}, current, done + {symbol})
  {
    var name := EncodeState(nextState);
    NewNameShape(states, dt, accept, sigma, f, n, current, symbol, nextState, name);
    EncodedAdd(n, u, nextState);
    QueueAdd(queue, pending, n, nextState, name);
    if inj {
      EncodedInjective(n[nextState := name], u);
      FreshNameRows(t, true, sigma, n, dt, pending, current, done, symbol, name);
    }
  }

  /**
   * A nonempty ε-successor not seen before: it joins dfaStates and the
   * queue, becomes a state (accepting when it meets f), and the current
   * subset's name gets the edge on the symbol to its name.
   */
  method NameNewClosure(t: NTable, f: set<string>, dfa: DFiniteAutomaton, current: set<string>, symbol: char,
                        nextState: set<string>, dfaStates: set<set<string>>, queue: seq<set<string>>,
                        ghost n: map<set<string>, string>, ghost pending: set<set<string>>,
                        ghost done: set<char>, ghost u: set<string>, ghost inj: bool)
    returns (dfaStates': set<set<string>>, queue': seq<set<string>>,
             ghost n': map<set<string>, string>, ghost pending': set<set<string>>)
    requires EpsShape(dfa, dfa.sigma, f, n, u) && dfaStates == n.Keys && QueueShape(queue, pending, n)
    requires current in n && current !in pending
    requires symbol in dfa.sigma && symbol !in done
    requires nextState == Next(t, true, current, symbol) && nextState != {} && nextState !in dfaStates && nextState <= u
    requires inj ==> NoUnderscore(u) && RowsBut(t, true, dfa.sigma, n, dfa.transitions, pending, current, done)
    modifies dfa
    ensures EpsShape(dfa, dfa.sigma, f, n', u) && dfaStates' == n'.Keys && QueueShape(queue', pending', n')
    ensures dfa.startState == old(dfa.startState)
    ensures n' == n[nextState := EncodeState(nextState)]
    ensures dfaStates' == dfaStates + {nextState} && queue' == queue + [nextState] && pending' == pending + {nextState}
    ensures inj ==> RowsBut(t, true, dfa.sigma, n', dfa.transitions, pending', current, done + {symbol})
  {
    var name := EncodeState(nextState);
    ghost var states, dt, accept := dfa.states, dfa.transitions, dfa.acceptStates;
    NewClosureFacts(t, f, dfa.sigma, states, dt, accept, current, symbol, nextState,
                    queue, n, pending, done, u, inj);
    n' := n[nextState := name];
    MapKeysAdd(n, nextState, name);
    dfaStates' := dfaStates + {nextState};
    queue' := queue + [nextState];
    pending' := pending + {nextState};
    dfa.AddState(name, nextState * f != {});
    assert dfa.transitions == AddRow(dt, name);
    dfa.AddTransition(EncodeState(current), symbol, name);
    assert dfa.states == states + {name};
    assert dfa.transitions == SetEdge(AddRow(dt, name), EncodeState(current), symbol, name);
    assert dfa.acceptStates == if nextState * f != {} then accept + {name} else accept;
  }

  /** A nonempty ε-successor seen before: the current subset's name gets the edge to its name. */
  method LinkNamedClosure(t: NTable, f: set<string>, dfa: DFiniteAutomaton, current: set<string>, symbol: char,
                          nextState: set<string>, ghost n: map<set<string>, string>, ghost pending: set<set<string>>,
                          ghost done: set<char>, ghost u: set<string>, ghost inj: bool)
    requires EpsShape(dfa, dfa.sigma, f, n, u)
    requires current in n && current !in pending
    requires symbol in dfa.sigma && symbol !in done
    requires nextState == Next(t, true, current, symbol) && nextState != {} && nextState in n
    requires inj ==> NoUnderscore(u) && RowsBut(t, true, dfa.sigma, n, dfa.transitions, pending, current, done)
    modifies dfa
    ensures EpsShape(dfa, dfa.sigma, f, n, u)
    ensures dfa.startState == old(dfa.startState)
    ensures inj ==> RowsBut(t, true, dfa.sigma, n, dfa.transitions, pending, current, done + {symbol})
  {
    OldNameShape(dfa.states, dfa.transitions, dfa.acceptStates, dfa.sigma, f, n, current, symbol, nextState);
    if inj {
      EncodedInjective(n, u);
      OldNameRows(t, true, dfa.sigma, n, dfa.transitions, pending, current, done, symbol);
    }
    dfa.AddTransition(EncodeState(current), symbol, EncodeState(nextState));
  }

  /** A named subset that is not pending stays so when an unnamed one is queued. */
  lemma StillNotPending(n: map<set<string>, string>, pending: set<set<string>>, current: set<string>, c: set<string>)
    requires current in n && c !in n && current !in pending
    ensures current !in pending + {c}
  {
  }

  /**
   * The successor at hand placed: a nonempty one not seen before is named
   * and queued, a nonempty one seen before linked, an empty one dropped.
   */
  method PlaceSuccessor(t: NTable, f: set<string>, dfa: DFiniteAutomaton, current: set<string>, symbol: char,
                        nextState: set<string>, dfaStates: set<set<string>>, queue: seq<set<string>>,
                        ghost n: map<set<string>, string>, ghost pending: set<set<string>>,
                        ghost done: set<char>, ghost u: set<string>, ghost inj: bool)
    returns (dfaStates': set<set<string>>, queue': seq<set<string>>,
             ghost n': map<set<string>, string>, ghost pending': set<set<string>>, ghost isNew: bool)
    requires EpsShape(dfa, dfa.sigma, f, n, u) && dfaStates == n.Keys && QueueShape(queue, pending, n)
    requires current in n && current !in pending
    requires symbol in dfa.sigma && symbol !in done
    requires nextState == Next(t, true, current, symbol) && nextState <= u
    requires inj ==> NoUnderscore(u) && RowsBut(t, true, dfa.sigma, n, dfa.transitions, pending, current, done)
    modifies dfa
    ensures EpsShape(dfa, dfa.sigma, f, n', u) && dfaStates' == n'.Keys && QueueShape(queue', pending', n')
    ensures dfa.startState == old(dfa.startState)
    ensures forall c :: c in n ==> c in n' && n'[c] == n[c]
    ensures isNew ==> nextState !in n && nextState in n' && pending' == pending + {nextState}
    ensures !isNew ==> n' == n && queue' == queue && pending' == pending
    ensures current !in pending'
    ensures inj ==> RowsBut(t, true, dfa.sigma, n', dfa.transitions, pending', current, done + {symbol})
  {
    dfaStates', queue', n', pending', isNew := dfaStates, queue, n, pending, false;
    if nextState != {} {
      if nextState !in dfaStates {
        dfaStates', queue', n', pending' :=
          NameNewClosure(t, f, dfa, current, symbol, nextState, dfaStates, queue, n, pending, done, u, inj);
        isNew := true;
        StillNotPending(n, pending, current, nextState);
      } else {
        LinkNamedClosure(t, f, dfa, current, symbol, nextState, n, pending, done, u, inj);
      }
    } else if inj {
      NoNameRows(t, true, dfa.sigma, n, dfa.transitions, pending, current, done, symbol);
    }
  }

  /**
   * One symbol of the forEach over sigma: the ε-successor of the current
   * subset, added and linked when nonempty. ok is false when the union hit
   * a target without a closure (the NullPointerException); missing is that
   * target.
   */
  method EpsSuccessor(t: NTable, closures: map<string, set<string>>, f: set<string>, dfa: DFiniteAutomaton,
                      current: set<string>, symbol: char, dfaStates: set<set<string>>, queue: seq<set<string>>,
                      ghost n: map<set<string>, string>, ghost pending: set<set<string>>,
                      ghost done: set<char>, ghost u: set<string>, ghost inj: bool)
    returns (ok: bool, dfaStates': set<set<string>>, queue': seq<set<string>>,
             ghost n': map<set<string>, string>, ghost pending': set<set<string>>,
             ghost isNew: bool, ghost newSet: set<string>, ghost missing: string)
    requires forall s :: s in closures ==> closures[s] == EClose(t, s)
    requires EpsShape(dfa, dfa.sigma, f, n, u) && dfaStates == n.Keys && QueueShape(queue, pending, n)
    requires AllTargets(t) <= u
    requires current in n && current !in pending
    requires symbol in dfa.sigma && symbol !in done
    requires inj ==> NoUnderscore(u) && RowsBut(t, true, dfa.sigma, n, dfa.transitions, pending, current, done)
    modifies dfa
    ensures ok <==> Move(t, current, symbol) <= closures.Keys
    ensures !ok ==> missing in AllTargets(t) && missing !in closures
    ensures EpsShape(dfa, dfa.sigma, f, n', u) && dfaStates' == n'.Keys && QueueShape(queue', pending', n')
    ensures dfa.startState == old(dfa.startState)
    ensures forall c :: c in n ==> c in n' && n'[c] == n[c]
    ensures isNew ==> ok && newSet !in n && newSet in n' && newSet <= u && pending' == pending + {newSet}
    ensures !isNew ==> n' == n && queue' == queue && pending' == pending
    ensures current !in pending'
    ensures ok && inj ==> RowsBut(t, true, dfa.sigma, n', dfa.transitions, pending', current, done + {symbol})
  {
    dfaStates', queue', n', pending', isNew, newSet, missing := dfaStates, queue, n, pending, false, {}, "";
    var r := SuccessorSet(t, closures, current, symbol);
    if r.Failure? {
      missing :| missing in Move(t, current, symbol) && missing !in closures;
      return false, dfaStates', queue', n', pending', isNew, newSet, missing;
    }
    ok := true;
    var nextState := r.value;
    SuccessorIsNext(t, closures, current, symbol, nextState);
    dfaStates', queue', n', pending', isNew :=
      PlaceSuccessor(t, f, dfa, current, symbol, nextState, dfaStates, queue, n, pending, done, u, inj);
    newSet := nextState;
  }

  /** Taking the head off the queue: the rest keeps the queue's shape without it. */
  lemma QueuePop(queue: seq<set<string>>, pending: set<set<string>>, n: map<set<string>, string>)
    requires QueueShape(queue, pending, n) && queue != []
    ensures queue[0] in n && queue[0] in pending
    ensures QueueShape(queue[1..], pending - {queue[0]}, n)
  {
    var rest := queue[1..];
    forall c ensures c in pending - {queue[0]} <==> c in rest {
      if c in rest {
        var i :| 0 <= i < |rest| && rest[i] == c;
        assert queue[i + 1] == c;
      }
      if c in pending && c != queue[0] {
        var i :| 0 <= i < |queue| && queue[i] == c;
        assert rest[i - 1] == c;
      }
    }
    forall i, j | 0 <= i < j < |rest| ensures rest[i] != rest[j] {
      assert rest[i] == queue[i + 1] && rest[j] == queue[j + 1];
    }
  }

  /**
   * The body of the while loop of convertEpsilonNfaToDfa for the subset
   * taken off the queue: the forEach over sigma. ok is false when a
   * successor hit a target without a closure.
   */
  method ProcessClosure(t: NTable, closures: map<string, set<string>>, f: set<string>, dfa: DFiniteAutomaton,
                        current: set<string>, dfaStates: set<set<string>>, queue: seq<set<string>>,
                        ghost n: map<set<string>, string>, ghost pending: set<set<string>>,
                        ghost u: set<string>, ghost inj: bool)
    returns (ok: bool, dfaStates': set<set<string>>, queue': seq<set<string>>,
             ghost n': map<set<string>, string>, ghost pending': set<set<string>>,
             ghost grew: bool, ghost added: set<string>, ghost missing: string)
    requires forall s :: s in closures ==> closures[s] == EClose(t, s)
    requires EpsShape(dfa, dfa.sigma, f, n, u) && dfaStates == n.Keys && QueueShape(queue, pending, n)
    requires AllTargets(t) <= u
    requires current in n && current !in pending
    requires inj ==> NoUnderscore(u) && RowsBut(t, true, dfa.sigma, n, dfa.transitions, pending, current, {})
    modifies dfa
    ensures !ok ==> missing in AllTargets(t) && missing !in closures
    ensures EpsShape(dfa, dfa.sigma, f, n', u) && dfaStates' == n'.Keys && QueueShape(queue', pending', n')
    ensures dfa.startState == old(dfa.startState)
    ensures forall c :: c in n ==> c in n' && n'[c] == n[c]
    ensures grew ==> added in n' && added !in n && added <= u
    ensures !grew ==> n' == n && queue' == queue
    ensures ok && inj ==> Rows(t, true, dfa.sigma, n', dfa.transitions, pending')
  {
    dfaStates', queue', n', pending' := dfaStates, queue, n, pending;
    grew, added, missing := false, {}, "";
    var symbols := dfa.sigma;
    ghost var done: set<char> := {};
    while symbols != {}
      invariant symbols <= dfa.sigma && done <= dfa.sigma
      invariant forall a :: a in dfa.sigma ==> (a in done <==> a !in symbols)
      invariant EpsShape(dfa, dfa.sigma, f, n', u) && dfaStates' == n'.Keys && QueueShape(queue', pending', n')
      invariant dfa.startState == old(dfa.startState)
      invariant current in n' && current !in pending'
      invariant forall c :: c in n ==> c in n' && n'[c] == n[c]
      invariant grew ==> added in n' && added !in n && added <= u
      invariant !grew ==> n' == n && queue' == queue
      invariant inj ==> RowsBut(t, true, dfa.sigma, n', dfa.transitions, pending', current, done)
      decreases symbols
    {
      var symbol :| symbol in symbols;
      var stepOk;
      ghost var isNew, newSet;
      stepOk, dfaStates', queue', n', pending', isNew, newSet, missing :=
        EpsSuccessor(t, closures, f, dfa, current, symbol, dfaStates', queue', n', pending', done, u, inj);
      if !stepOk {
        return false, dfaStates', queue', n', pending', grew, added, missing;
      }
      if isNew {
        grew, added := true, newSet;
      }
      symbols := symbols - {symbol};
      done := done + {symbol};
    }
    ok := true;
    if inj {
      assert done == dfa.sigma;
      RowsFinish(t, true, dfa.sigma, n', dfa.transitions, pending', current);
    }
  }

  /** The automaton convertEpsilonNfaToDfa starts from: the start closure, queued and named by encodeState. */
  method EpsStart(t: NTable, f: set<string>, dfa: DFiniteAutomaton, startClosure: set<string>, ghost u: set<string>)
    returns (dfaStates: set<set<string>>, queue: seq<set<string>>,
             ghost n: map<set<string>, string>, ghost pending: set<set<string>>)
    requires dfa.Valid() && dfa.states == {} && dfa.transitions == map[] && dfa.acceptStates == {}
    requires startClosure != {} && startClosure <= u
    modifies dfa
    ensures EpsShape(dfa, dfa.sigma, f, n, u) && dfaStates == n.Keys && QueueShape(queue, pending, n)
    ensures n == map[startClosure := EncodeState(startClosure)] && queue == [startClosure]
    ensures dfa.startState == Some(EncodeState(startClosure))
    ensures Rows(t, true, dfa.sigma, n, dfa.transitions, pending)
  {
    var name := EncodeState(startClosure);
    dfaStates := {startClosure};
    queue := [startClosure];
    n := map[startClosure := name];
    pending := {startClosure};
    dfa.SetStartState(name);
    dfa.AddState(name, startClosure * f != {});
    EpsStartFacts(t, dfa.sigma, f, startClosure, u, dfa.states, dfa.transitions, dfa.acceptStates);
  }

  /** The values EpsStart leaves in the automaton have the shape the loop keeps. */
  lemma EpsStartFacts(t: NTable, sigma: set<char>, f: set<string>, c: set<string>, u: set<string>,
                      states: set<string>, dt: Table, accept: set<string>)
    requires c != {} && c <= u
    requires states == {EncodeState(c)} && dt == map[EncodeState(c) := map[]]
    requires accept == if c * f != {} then {EncodeState(c)} else {}
    ensures Encoded(map[c := EncodeState(c)], u)
    ensures NamesShape(states, dt, accept, sigma, f, map[c := EncodeState(c)])
    ensures Rows(t, true, sigma, map[c := EncodeState(c)], dt, {c})
  {
    var name := EncodeState(c);
    StartShape(sigma, f, c, name, states, dt, accept);
    StartRows(t, sigma, c, name, dt);
  }

  /** One subset under one name, with an empty row: the names, the rows and the accept names agree. */
  lemma StartShape(sigma: set<char>, f: set<string>, c: set<string>, name: string,
                   states: set<string>, dt: Table, accept: set<string>)
    requires states == {name} && dt == map[name := map[]]
    requires accept == if c * f != {} then {name} else {}
    ensures NamesShape(states, dt, accept, sigma, f, map[c := name])
  {
    AcceptNamesSingle(f, c, name);
    var none: map<set<string>, string> := map[];
    MapValuesAdd(none, c, name);
    assert none.Values == {};
  }

  /** The accept names of a single named subset. */
  lemma AcceptNamesSingle(f: set<string>, c: set<string>, name: string)
    ensures AcceptNames(map[c := name], f) == if c * f != {} then {name} else {}
  {
    AcceptNamesAdd(map[], f, c, name);
    assert AcceptNames(map[], f) == {};
  }

  /** A single pending subset needs no edges yet. */
  lemma StartRows(t: NTable, sigma: set<char>, c: set<string>, name: string, dt: Table)
    requires dt == map[name := map[]]
    ensures Rows(t, true, sigma, map[c := name], dt, {c})
  {
    assert RowDone(t, true, sigma, map[c := name], dt, c, {});
  }

  /**
   * With '_'-free names and nothing pending, the ε-construction accepts,
   * from the name of x0, the words on which the ε-NFA reaches f from x0.
   */
  lemma EpsEquivalence(t: NTable, sigma: set<char>, f: set<string>, n: map<set<string>, string>, u: set<string>,
                       dt: Table, dAccept: set<string>, x0: set<string>)
    requires Encoded(n, u) && NoUnderscore(u)
    requires Rows(t, true, sigma, n, dt, {}) && dAccept == AcceptNames(n, f) && x0 in n
    ensures EncodeState(x0) in dAccept <==> x0 * f != {}
    ensures forall w :: (Run(dt, EncodeState(x0), w).Some? && Run(dt, EncodeState(x0), w).value in dAccept) <==>
      InSigma(sigma, w) && Reach(t, true, x0, w) * f != {}
  {
    EncodedInjective(n, u);
    AcceptNamesInjective(n, f, x0);
    RowsSimulate(t, true, sigma, f, n, dt, dAccept);
    forall w ensures (Run(dt, EncodeState(x0), w).Some? && Run(dt, EncodeState(x0), w).value in dAccept) <==>
      InSigma(sigma, w) && Reach(t, true, x0, w) * f != {}
    {
      SimulationAccepts(t, true, sigma, f, n, dt, dAccept, x0, w);
    }
  }

  /**
   * One round of the while loop of convertEpsilonNfaToDfa: the head of the
   * queue is removed and its row built. Either a new subset of u got a name
   * or the queue got shorter.
   */
  method EpsRound(t: NTable, closures: map<string, set<string>>, f: set<string>, dfa: DFiniteAutomaton,
                  dfaStates: set<set<string>>, queue: seq<set<string>>,
                  ghost n: map<set<string>, string>, ghost pending: set<set<string>>,
                  ghost u: set<string>, ghost inj: bool)
    returns (ok: bool, dfaStates': set<set<string>>, queue': seq<set<string>>,
             ghost n': map<set<string>, string>, ghost pending': set<set<string>>, ghost missing: string)
    requires forall s :: s in closures ==> closures[s] == EClose(t, s)
    requires EpsShape(dfa, dfa.sigma, f, n, u) && dfaStates == n.Keys && QueueShape(queue, pending, n)
    requires queue != [] && AllTargets(t) <= u
    requires inj ==> NoUnderscore(u) && Rows(t, true, dfa.sigma, n, dfa.transitions, pending)
    modifies dfa
    ensures !ok ==> missing in AllTargets(t) && missing !in closures
    ensures EpsShape(dfa, dfa.sigma, f, n', u) && dfaStates' == n'.Keys && QueueShape(queue', pending', n')
    ensures dfa.startState == old(dfa.startState)
    ensures forall c :: c in n ==> c in n'
    ensures Powerset(u) - n'.Keys < Powerset(u) - n.Keys ||
      (Powerset(u) - n'.Keys == Powerset(u) - n.Keys && |queue'| < |queue|)
    ensures ok && inj ==> Rows(t, true, dfa.sigma, n', dfa.transitions, pending')
  {
    var currentDfaState := queue[0];
    QueuePop(queue, pending, n);
    if inj {
      RowsStart(t, true, dfa.sigma, n, dfa.transitions, pending, currentDfaState);
    }
    ghost var grew, added;
    ok, dfaStates', queue', n', pending', grew, added, missing :=
      ProcessClosure(t, closures, f, dfa, currentDfaState, dfaStates, queue[1..], n, pending - {currentDfaState}, u, inj);
    if grew {
      MeasureDrops(u, n.Keys, n'.Keys, added);
    }
  }

  /**
   * convertEpsilonNfaToDfa from the start state's closure: a breadth-first
   * walk over the ε-successors, each new nonempty one named by encodeState.
   * Every target having a closure rules the NullPointerException out; with
   * '_'-free state names the result accepts the ε-NFA's language.
   */
  method EpsDeterminize(t: NTable, sigma: set<char>, f: set<string>, closures: map<string, set<string>>, start: string)
    returns (r: Result<DFiniteAutomaton>)
    requires forall s :: s in closures ==> closures[s] == EClose(t, s)
    requires start in closures
    ensures r.Failure? ==> r.error == NullPointer && !(AllTargets(t) <= closures.Keys)
    ensures AllTargets(t) <= closures.Keys ==> r.Success?
    ensures r.Success? ==> fresh(r.value) && r.value.Valid() && r.value.sigma == sigma
    ensures r.Success? ==> r.value.startState == Some(EncodeState(EClose(t, start)))
    ensures r.Success? ==> r.value.transitions.Keys == r.value.states && OnSigma(r.value.transitions, sigma)
    ensures r.Success? && NoUnderscore(AllTargets(t) + {start}) ==>
      (EncodeState(EClose(t, start)) in r.value.acceptStates <==> EClose(t, start) * f != {})
    ensures r.Success? && NoUnderscore(AllTargets(t) + {start}) ==>
      forall w :: (Run(r.value.transitions, EncodeState(EClose(t, start)), w).Some? &&
                   Run(r.value.transitions, EncodeState(EClose(t, start)), w).value in r.value.acceptStates) <==>
        InSigma(sigma, w) && Reach(t, true, EClose(t, start), w) * f != {}
  {
    var dfa := new DFiniteAutomaton(sigma);
    var startClosure := closures[start];
    ghost var u := AllTargets(t) + {start};
    ghost var inj := NoUnderscore(u);
    EpsReachableRefl(t, start);
    var dfaStates, queue, n, pending := EpsStart(t, f, dfa, startClosure, u);
    while queue != []
      invariant fresh(dfa)
      invariant EpsShape(dfa, sigma, f, n, u) && dfaStates == n.Keys && QueueShape(queue, pending, n)
      invariant dfa.startState == Some(EncodeState(startClosure)) && startClosure in n
      invariant inj ==> Rows(t, true, sigma, n, dfa.transitions, pending)
      decreases Powerset(u) - n.Keys, |queue|
    {
      var ok;
      ghost var missing;
      ok, dfaStates, queue, n, pending, missing := EpsRound(t, closures, f, dfa, dfaStates, queue, n, pending, u, inj);
      if !ok {
        return Failure(NullPointer);
      }
    }
    assert pending == {};
    if inj {
      EpsEquivalence(t, sigma, f, n, u, dfa.transitions, dfa.acceptStates, startClosure);
    }
    r := Success(dfa);
  }

  class NDFiniteAutomaton {
    var nfaTransitions: NTable
    var states: set<string>
    const sigma: set<char>
    var startState: Option<string>   // null until setStartState is called
    var acceptStates: set<string>

    /** The start state and the accept states are states. */
    ghost predicate Valid()
      reads this
    {
      && (startState.Some? ==> startState.value in states)
      && acceptStates <= states
    }

    constructor (sigma: set<char>)
      ensures Valid()
      ensures this.sigma == sigma
      ensures states == {} && nfaTransitions == map[] && startState == None && acceptStates == {}
    {
      this.sigma := sigma;
      nfaTransitions := map[];
      states := {};
      startState := None;
      acceptStates := {};
    }

    /** Records the start state and adds it to the states. */
    method SetStartState(state: string)
      requires Valid()
      modifies this
      ensures Valid()
      ensures startState == Some(state)
      ensures states == old(states) + {state}
      ensures acceptStates == old(acceptStates) && nfaTransitions == old(nfaTransitions)
    {
      startState := Some(state);
      states := states + {state};
    }

    /**
     * Adds the state, makes it accepting when flagged (never un-flags it) and
     * gives it an empty row unless it already has one.
     */
    method AddState(state: string, isAcceptState: bool)
      requires Valid()
      modifies this
      ensures Valid()
      ensures states == old(states) + {state}
      ensures acceptStates == if isAcceptState then old(acceptStates) + {state} else old(acceptStates)
      ensures nfaTransitions == if state in old(nfaTransitions) then old(nfaTransitions) else old(nfaTransitions)[state := map[]]
      ensures startState == old(startState)
    {
      states := states + {state};
      if isAcceptState {
        acceptStates := acceptStates + {state};
      }
      if state !in nfaTransitions {
        nfaTransitions := nfaTransitions[state := map[]];
      }
    }

    /** Adds toState to δ(fromState, input); every earlier target stays. */
    method AddTransition(fromState: string, input: char, toState: string)
      requires Valid()
      modifies this
      ensures Valid()
      ensures nfaTransitions == AddEdge(old(nfaTransitions), fromState, input, toState)
      ensures states == old(states) && acceptStates == old(acceptStates) && startState == old(startState)
    {
      nfaTransitions := AddEdge(nfaTransitions, fromState, input, toState);
    }

    /** isStringAccepted is a stub in the source: it rejects every input. */
    method IsStringAccepted(input: string) returns (accepted: bool)
      ensures !accepted
    {
      return false;
    }

    /** The language as an automaton without ε-moves: 'ε' is read like any other symbol. */
    ghost predicate Accepts(w: string)
      reads this
    {
      && startState.Some?
      && InSigma(sigma, w)
      && Reach(nfaTransitions, false, {startState.value}, w) * acceptStates != {}
    }

    /** The language as an ε-NFA: start from the ε-closure and close after every symbol. */
    ghost predicate EpsAccepts(w: string)
      reads this
    {
      && startState.Some?
      && InSigma(sigma, w)
      && Reach(nfaTransitions, true, EClose(nfaTransitions, startState.value), w) * acceptStates != {}
    }

    /** isDeterministic: no (state, symbol) entry, ε entries included, has two targets. */
    method IsDeterministic() returns (r: bool)
      ensures r <==> Deterministic(nfaTransitions)
    {
      var rows := nfaTransitions.Keys;
      while rows != {}
        invariant rows <= nfaTransitions.Keys
        invariant forall p, c :: p in nfaTransitions.Keys - rows && c in nfaTransitions[p] ==> |nfaTransitions[p][c]| <= 1
        decreases rows
      {
        var p :| p in rows;
        var transitions := nfaTransitions[p];
        var symbols := transitions.Keys;
        while symbols != {}
          invariant symbols <= transitions.Keys
          invariant forall c :: c in transitions.Keys - symbols ==> |transitions[c]| <= 1
          decreases symbols
        {
          var c :| c in symbols;
          if |transitions[c]| > 1 {
            return false;
          }
          symbols := symbols - {c};
        }
        rows := rows - {p};
      }
      return true;
    }

    /** From a deterministic relation, reading any word leaves at most one state. */
    lemma DeterministicRunsAreSingle(w: string)
      requires Deterministic(nfaTransitions) && startState.Some?
      ensures |Reach(nfaTransitions, false, {startState.value}, w)| <= 1
    {
      forall q, a ensures |Delta(nfaTransitions, q, a)| <= 1 {
      }
      DeterministicReach(nfaTransitions, startState.value, w);
    }

    /**
     * dfsEpsilonClosure: unless current was visited, mark it and recurse
     * into each ε-successor. The states it adds are ε-reachable from current,
     * and each of them has all its ε-successors in the result.
     */
    method DfsEpsilonClosure(current: string, closure: set<string>) returns (result: set<string>)
      ensures closure + {current} <= result
      ensures forall x :: x in result - closure ==> EpsReachable(nfaTransitions, current, x)
      ensures forall x :: x in result - closure ==> Delta(nfaTransitions, x, Epsilon) <= result
      decreases AllTargets(nfaTransitions) + {current} - closure
    {
      result := closure;
      if current !in result {
        result := result + {current};
        EpsReachableRefl(nfaTransitions, current);
        var epsilonTransitions := Delta(nfaTransitions, current, Epsilon);
        var left := epsilonTransitions;
        while left != {}
          invariant left <= epsilonTransitions
          invariant closure + {current} <= result
          invariant epsilonTransitions - left <= result
          invariant forall x :: x in result - closure ==> EpsReachable(nfaTransitions, current, x)
          invariant forall x :: x in result - closure - {current} ==> Delta(nfaTransitions, x, Epsilon) <= result
          decreases left
        {
          var nextState :| nextState in left;
          assert nextState in AllTargets(nfaTransitions);
          assert current in AllTargets(nfaTransitions) + {current} - closure;
          ghost var before := result;
          result := DfsEpsilonClosure(nextState, result);
          forall x | x in result - before ensures EpsReachable(nfaTransitions, current, x) {
            EpsReachablePrepend(nfaTransitions, current, nextState, x);
          }
          left := left - {nextState};
        }
      }
    }

    /** calculateEpsilonClosure: the DFS from an empty visited set yields exactly the ε-closure. */
    method CalculateEpsilonClosure(q: string) returns (closure: set<string>)
      ensures closure == EClose(nfaTransitions, q)
      ensures q in closure
    {
      closure := DfsEpsilonClosure(q, {});
      EpsClosureUnique(nfaTransitions, q, closure);
    }

    /** The states.forEach of convertEpsilonNfaToDfa: the ε-closure of every state, keyed by the state. */
    method EpsilonClosures() returns (closures: map<string, set<string>>)
      ensures closures.Keys == states
      ensures forall s :: s in closures ==> closures[s] == EClose(nfaTransitions, s)
    {
      closures := map[];
      var left := states;
      while left != {}
        invariant left <= states
        invariant closures.Keys == states - left
        invariant forall s :: s in closures ==> closures[s] == EClose(nfaTransitions, s)
        decreases left
      {
        var state :| state in left;
        var closure := CalculateEpsilonClosure(state);
        closures := closures[state := closure];
        left := left - {state};
      }
    }

    /**
     * convertEpsilonNfaToDfa: the closures of all states, then the
     * breadth-first subset construction from the start state's closure.
     * A null start state makes encodeState(null) throw
     * NullPointerException, and so does a reachable edge into a target that
     * is not a state (its closure was never computed). When no state name
     * holds '_', the names encodeState gives are distinct and the result
     * accepts the ε-NFA's language.
     */
    method ConvertEpsilonNfaToDfa() returns (r: Result<DFiniteAutomaton>)
      requires Valid()
      ensures startState.None? ==> r == Failure(NullPointer)
      ensures r.Failure? ==> r.error == NullPointer && (startState.None? || !(AllTargets(nfaTransitions) <= states))
      ensures startState.Some? && AllTargets(nfaTransitions) <= states ==> r.Success?
      ensures r.Success? ==> fresh(r.value) && r.value.Valid() && r.value.sigma == sigma
      ensures r.Success? ==> startState.Some?
      ensures r.Success? ==> r.value.startState == Some(EncodeState(EClose(nfaTransitions, startState.value)))
      ensures r.Success? ==> r.value.transitions.Keys == r.value.states && OnSigma(r.value.transitions, sigma)
      ensures r.Success? && NoUnderscore(states + AllTargets(nfaTransitions)) ==>
        forall w :: r.value.Accepts(w) <==> EpsAccepts(w)
    {
      var epsilonClosures := EpsilonClosures();
      if startState.None? {
        return Failure(NullPointer);
      }
      var start := startState.value;
      r := EpsDeterminize(nfaTransitions, sigma, acceptStates, epsilonClosures, start);
      if r.Success? && NoUnderscore(states + AllTargets(nfaTransitions)) {
        assert AllTargets(nfaTransitions) + {start} <= states + AllTargets(nfaTransitions);
      }
    }

    /**
     * convertToDFA: the subset construction without ε-closures. The subset
     * {startState} is named "S", later subsets 'A', 'B', ... in the order
     * they are found; every nonempty move on a symbol of sigma becomes an
     * edge. A null start state leaves the lone state "S" without edges.
     * named is the number of names handed out: the twentieth name is "S"
     * again, so the language is preserved as long as named <= 19, which
     * holds whenever the start state and the edge targets are at most four
     * states (at most 2^4 subsets).
     */
    method ConvertToDFA() returns (dfa: DFiniteAutomaton, ghost named: nat)
      requires Valid()
      ensures fresh(dfa) && dfa.Valid() && dfa.sigma == sigma && dfa.startState == Some("S")
      ensures dfa.transitions.Keys == dfa.states && OnSigma(dfa.transitions, sigma)
      ensures named >= 1
      ensures startState.None? ==> named == 1
      ensures startState.None? ==> dfa.states == {"S"} && dfa.transitions == map["S" := map[]] && dfa.acceptStates == {}
      ensures startState.Some? ==> named <= Pow2(|AllTargets(nfaTransitions) + {startState.value}|)
      ensures named <= 19 ==> ("S" in dfa.acceptStates <==> startState.Some? && startState.value in acceptStates)
      ensures named <= 19 ==> forall w :: dfa.Accepts(w) <==> Accepts(w)
      ensures startState.Some? && |AllTargets(nfaTransitions) + {startState.value}| <= 4 ==>
        forall w :: dfa.Accepts(w) <==> Accepts(w)
    {
      if startState.None? {
        // startSet is {null}: null has no row, so every move is empty
        dfa := new DFiniteAutomaton(sigma);
        dfa.AddState("S", false);
        dfa.SetStartState("S");
        named := 1;
        return;
      }
      dfa, named := DeterminizeFrom(nfaTransitions, sigma, acceptStates, startState.value);
      var k := |AllTargets(nfaTransitions) + {startState.value}|;
      if k <= 4 {
        Pow2Monotone(k, 4);
        assert Pow2(4) == 16;
      }
    }

    /**
     * toRegularGrammar: the start state is the nonterminal 'S', every other
     * state its first character; Vn has one entry per state, Vt the members
     * of sigma; an accept state's nonterminal gets "ε" and every edge
     * p -c-> q the production "c" + the nonterminal of q. A charAt(0) on an
     * empty name other than the start state throws
     * StringIndexOutOfBoundsException; a row with an edge whose nonterminal
     * names no state throws NullPointerException. Read with "ε" as the
     * empty word, the grammar generates the automaton's language whenever
     * no two states share a nonterminal.
     */
    method ToRegularGrammar() returns (r: Result<Grammar>)
      requires Valid()
      ensures r.Success? <==>
        (forall s :: s in states ==> Symbolizable(startState, s)) &&
        RowsReadable(nfaTransitions, startState, states, nfaTransitions.Keys)
      ensures r.Failure? && r.error == IndexOutOfBounds ==>
        || (exists s :: s in states && !Symbolizable(startState, s))
        || (exists p :: p in nfaTransitions && !Symbolizable(startState, p))
        || (exists p :: p in nfaTransitions && !TargetsSymbolizable(startState, nfaTransitions[p]))
      ensures r.Failure? && r.error == NullPointer ==>
        exists p :: p in nfaTransitions && HasEdge(nfaTransitions[p]) && Symbolizable(startState, p) &&
          Sym(startState, p) !in SymsOf(startState, states)
      ensures r.Failure? ==> r.error == NullPointer || r.error == IndexOutOfBounds
      ensures r.Success? ==> r.value.start == 'S' && r.value.productionsTerminals == map[]
      ensures r.Success? ==> |r.value.vn| == |states| && (set c | c in r.value.vn) == SymsOf(startState, states)
      ensures r.Success? ==> (set c | c in r.value.vt) == sigma
      ensures r.Success? ==> forall i, j :: 0 <= i < j < |r.value.vt| ==> r.value.vt[i] != r.value.vt[j]
      ensures r.Success? ==> r.value.productions.Keys == SymsOf(startState, states)
      ensures r.Success? ==>
        GrammarLists(r.value.productions, nfaTransitions, startState, states, acceptStates, nfaTransitions.Keys)
      ensures r.Success? && startState.Some? && SymInjective(startState, GrammarNames(nfaTransitions, states)) ==>
        forall w :: Accepts(w) <==> InSigma(sigma, w) && DerivesEps(r.value, 'S', w)
    {
      var vt := SetToSeq(sigma);
      var symbols := StateProductions(states, startState, acceptStates);
      if symbols.Failure? {
        return Failure(symbols.error);
      }
      var (vn, prods0) := symbols.value;
      var prods := prods0;
      var rows := nfaTransitions.Keys;
      while rows != {}
        invariant rows <= nfaTransitions.Keys
        invariant prods.Keys == SymsOf(startState, states)
        invariant RowsReadable(nfaTransitions, startState, states, nfaTransitions.Keys - rows)
        invariant GrammarLists(prods, nfaTransitions, startState, states, acceptStates, nfaTransitions.Keys - rows)
        decreases rows
      {
        var p :| p in rows;
        ghost var done := nfaTransitions.Keys - rows;
        ghost var before := prods;
        var next := RowProductions(prods, startState, p, nfaTransitions[p]);
        if next.Failure? {
          return Failure(next.error);
        }
        prods := next.value;
        rows := rows - {p};
        assert nfaTransitions.Keys - rows == done + {p};
        TableRhsStep(nfaTransitions, startState, states, acceptStates, done, p, before, prods);
      }
      var g := Grammar(vn, vt, prods, map[], 'S');
      if startState.Some? && SymInjective(startState, GrammarNames(nfaTransitions, states)) {
        ReadableNames(nfaTransitions, startState, states);
        GrammarLanguage(g, nfaTransitions, startState.value, states, acceptStates);
      }
      return Success(g);
    }
  }
  /** A table whose rows and targets are one-letter states, with "S" the start: every nonterminal is the name itself. */
  lemma OneLetterGrammar(t: NTable, states: set<string>)
    requires "S" in states && forall p :: p in states ==> |p| == 1
    requires t.Keys <= states && AllTargets(t) <= states
    ensures GrammarNames(t, states) == states
    ensures NamesSymbolizable(Some("S"), states) && SymInjective(Some("S"), states)
    ensures RowsReadable(t, Some("S"), states, t.Keys)
  {
    forall p | p in states ensures Symbolizable(Some("S"), p) && Sym(Some("S"), p) == p[0] {
    }
    forall p | p in t ensures TargetsSymbolizable(Some("S"), t[p]) && Sym(Some("S"), p) in SymsOf(Some("S"), states) {
      forall c, q | c in t[p] && q in t[p][c] ensures Symbolizable(Some("S"), q) {
        assert q in AllTargets(t);
      }
    }
    forall p, q | p in states && q in states && Sym(Some("S"), p) == Sym(Some("S"), q) ensures p == q {
      assert p == [p[0]] && q == [q[0]];
    }
  }

  // ------------------------------------------------------ the driver automata

  /** The relation the ε-NFA of the ε-check driver builds: q0 -ε-> q1, q1 -a-> q1, q1 -b-> q2, q2 -ε-> q0. */
  function EnfaTable(): NTable
  {
    map["q0" := map[Epsilon := {"q1"}],
        "q1" := map['a' := {"q1"}, 'b' := {"q2"}],
        "q2" := map[Epsilon := {"q0"}]]
  }

  /** The driver's addState and addTransition calls build exactly that relation. */
  lemma EnfaBuilt()
    ensures EnfaTable() ==
      AddEdge(AddEdge(AddEdge(AddEdge(map["q0" := map[], "q1" := map[], "q2" := map[]],
        "q0", Epsilon, "q1"), "q1", 'a', "q1"), "q1", 'b', "q2"), "q2", Epsilon, "q0")
  {
    var t0: NTable := map["q0" := map[], "q1" := map[], "q2" := map[]];
    var none: set<string> := {};
    assert none + {"q1"} == {"q1"} && none + {"q2"} == {"q2"} && none + {"q0"} == {"q0"};
    var t1 := AddEdge(t0, "q0", Epsilon, "q1");
    assert t1["q0"] == map[Epsilon := {"q1"}];
    assert t1 == t0["q0" := map[Epsilon := {"q1"}]];
    var t2 := AddEdge(t1, "q1", 'a', "q1");
    assert t2["q1"] == map['a' := {"q1"}];
    assert t2 == t1["q1" := map['a' := {"q1"}]];
    var t3 := AddEdge(t2, "q1", 'b', "q2");
    assert t3["q1"] == map['a' := {"q1"}, 'b' := {"q2"}];
    assert t3 == t2["q1" := map['a' := {"q1"}, 'b' := {"q2"}]];
    var t4 := AddEdge(t3, "q2", Epsilon, "q0");
    assert t4["q2"] == map[Epsilon := {"q0"}];
    assert t4 == t3["q2" := map[Epsilon := {"q0"}]];
  }

  /** Its ε-closures: q0 reaches q1, q1 only itself, and q2 reaches q0 and through it q1. */
  lemma EnfaClosures()
    ensures EClose(EnfaTable(), "q0") == {"q0", "q1"}
    ensures EClose(EnfaTable(), "q1") == {"q1"}
    ensures EClose(EnfaTable(), "q2") == {"q0", "q1", "q2"}
  {
    var t := EnfaTable();
    assert Delta(t, "q0", Epsilon) == {"q1"};
    assert Delta(t, "q1", Epsilon) == {};
    assert Delta(t, "q2", Epsilon) == {"q0"};
    EpsReachableRefl(t, "q0");
    EpsReachableRefl(t, "q1");
    EpsReachableRefl(t, "q2");
    EpsClosureUnique(t, "q1", {"q1"});
    EpsReachablePrepend(t, "q0", "q1", "q1");
    EpsClosureUnique(t, "q0", {"q0", "q1"});
    EpsReachablePrepend(t, "q2", "q0", "q0");
    EpsReachablePrepend(t, "q2", "q0", "q1");
    EpsClosureUnique(t, "q2", {"q0", "q1", "q2"});
  }

  /** A two-member set is encoded as its smaller member, '_', its larger member. */
  lemma EncodeTwo(x: string, y: string)
    requires Less(x, y)
    ensures EncodeState({x, y}) == x + "_" + y
  {
    LessIrreflexive(x);
    LessAsymmetric(x, y);
    var xs := [x, y];
    assert StrictlySorted(xs);
    SortedUnique(SortedMembers({x, y}), xs);
    assert xs[1..] == [y];
    assert Join(xs, '_') == x + ['_'] + y;
  }

  /** {q0, q1} is encoded as "q0_q1". */
  lemma EncodeQ0Q1()
    ensures EncodeState({"q0", "q1"}) == "q0_q1"
  {
    assert Less("q0", "q1") by {
      assert "q0"[1..] == "0" && "q1"[1..] == "1";
    }
    EncodeTwo("q0", "q1");
    assert "q0" + "_" + "q1" == "q0_q1";
  }

  /** The start state of the DFA the ε-check driver builds is named "q0_q1". */
  lemma EnfaStartName()
    ensures EncodeState(EClose(EnfaTable(), "q0")) == "q0_q1"
  {
    EnfaClosures();
    EncodeQ0Q1();
  }

  /** The relation of the deterministic-check driver: S -a-> A, S -b-> S, A -a-> S, A -b-> A. */
  function DfaCheckTable(): NTable
  {
    map["S" := map['a' := {"A"}, 'b' := {"S"}],
        "A" := map['a' := {"S"}, 'b' := {"A"}]]
  }

  /** The driver's addState and addTransition calls build exactly that relation. */
  lemma DfaCheckBuilt()
    ensures DfaCheckTable() ==
      AddEdge(AddEdge(AddEdge(AddEdge(map["S" := map[], "A" := map[]],
        "S", 'a', "A"), "S", 'b', "S"), "A", 'a', "S"), "A", 'b', "A")
  {
    var t0: NTable := map["S" := map[], "A" := map[]];
    var none: set<string> := {};
    assert none + {"S"} == {"S"} && none + {"A"} == {"A"};
    var t1 := AddEdge(t0, "S", 'a', "A");
    assert t1 == t0["S" := map['a' := {"A"}]];
    var t2 := AddEdge(t1, "S", 'b', "S");
    assert t2["S"] == map['a' := {"A"}, 'b' := {"S"}];
    assert t2 == t1["S" := map['a' := {"A"}, 'b' := {"S"}]];
    var t3 := AddEdge(t2, "A", 'a', "S");
    assert t3 == t2["A" := map['a' := {"S"}]];
    var t4 := AddEdge(t3, "A", 'b', "A");
    assert t4["A"] == map['a' := {"S"}, 'b' := {"A"}];
    assert t4 == t3["A" := map['a' := {"S"}, 'b' := {"A"}]];
  }

  /** Its edges lead to S and A only. */
  lemma DfaCheckTargets()
    ensures AllTargets(DfaCheckTable()) <= {"S", "A"}
  {
    var t := DfaCheckTable();
    forall q | q in AllTargets(t) ensures q in {"S", "A"} {
      var p, c :| p in t && c in t[p] && q in t[p][c];
      assert p == "S" || p == "A";
    }
  }

  /** isDeterministic answers true for it. */
  lemma DfaCheckDeterministic()
    ensures Deterministic(DfaCheckTable())
  {
    var t := DfaCheckTable();
    forall p, c | p in t && c in t[p] ensures |t[p][c]| <= 1 {
      assert p == "S" || p == "A";
    }
  }

  /**
   * The relation of the main driver: S -a-> S, S -a-> A, A -a-> B, A -b-> A,
   * B -a-> C, C -a-> A, with B the only accept state.
   */
  function MainTable(): NTable
  {
    map["S" := map['a' := {"S", "A"}],
        "A" := map['a' := {"B"}, 'b' := {"A"}],
        "B" := map['a' := {"C"}],
        "C" := map['a' := {"A"}]]
  }

  /** The driver's addState and addTransition calls build exactly that relation. */
  lemma MainBuilt()
    ensures MainTable() ==
      AddEdge(AddEdge(AddEdge(AddEdge(AddEdge(AddEdge(
        map["S" := map[], "A" := map[], "B" := map[], "C" := map[]],
        "S", 'a', "S"), "S", 'a', "A"), "A", 'a', "B"), "A", 'b', "A"), "B", 'a', "C"), "C", 'a', "A")
  {
    var t0: NTable := map["S" := map[], "A" := map[], "B" := map[], "C" := map[]];
    var none: set<string> := {};
    assert none + {"S"} == {"S"} && none + {"A"} == {"A"} && none + {"B"} == {"B"} && none + {"C"} == {"C"};
    var t1 := AddEdge(t0, "S", 'a', "S");
    assert t1 == t0["S" := map['a' := {"S"}]];
    var t2 := AddEdge(t1, "S", 'a', "A");
    assert t1["S"]['a'] + {"A"} == {"S", "A"};
    assert t2["S"] == map['a' := {"S", "A"}];
    assert t2 == t1["S" := map['a' := {"S", "A"}]];
    var t3 := AddEdge(t2, "A", 'a', "B");
    assert t3 == t2["A" := map['a' := {"B"}]];
    var t4 := AddEdge(t3, "A", 'b', "A");
    assert t4["A"] == map['a' := {"B"}, 'b' := {"A"}];
    assert t4 == t3["A" := map['a' := {"B"}, 'b' := {"A"}]];
    var t5 := AddEdge(t4, "B", 'a', "C");
    assert t5 == t4["B" := map['a' := {"C"}]];
    var t6 := AddEdge(t5, "C", 'a', "A");
    assert t6 == t5["C" := map['a' := {"A"}]];
  }

  /** Its edges lead to its four states only. */
  lemma MainTargets()
    ensures AllTargets(MainTable()) <= {"S", "A", "B", "C"}
  {
    var t := MainTable();
    forall q | q in AllTargets(t) ensures q in {"S", "A", "B", "C"} {
      var p, c :| p in t && c in t[p] && q in t[p][c];
      assert p == "S" || p == "A" || p == "B" || p == "C";
    }
  }

  /** Its start state and edge targets are at most four states, so the subset construction keeps its language. */
  lemma MainNamesFit()
    ensures |AllTargets(MainTable()) + {"S"}| <= 4
  {
    MainTargets();
    var names: set<string> := {"S", "A", "B", "C"};
    assert |names| <= 4 by {
      assert names == {"S"} + {"A"} + {"B"} + {"C"};
    }
    SubsetCard(AllTargets(MainTable()) + {"S"}, names);
  }

  /** isDeterministic answers false for it: S has two a-successors. */
  lemma MainNotDeterministic()
    ensures !Deterministic(MainTable())
  {
    var t := MainTable();
    assert |t["S"]['a']| == 2;
  }

  /** Reading two symbols without ε-moves is two Moves. */
  lemma ReachTwo(t: NTable, x: set<string>, c: char, d: char)
    ensures Reach(t, false, x, [c, d]) == Move(t, Move(t, x, c), d)
  {
    assert Reach(t, false, x, [c]) == Move(t, x, c) by {
      assert [c][..0] == [];
    }
    assert [c, d][..1] == [c];
  }

  /** Wherever S reads a into A and A reads a into B, reading "aa" from {S} can end in B. */
  lemma ReachAa(t: NTable)
    requires "A" in Delta(t, "S", 'a') && "B" in Delta(t, "A", 'a')
    ensures "B" in Reach(t, false, {"S"}, "aa")
  {
    ReachTwo(t, {"S"}, 'a', 'a');
    assert "A" in Move(t, {"S"}, 'a');
  }

  /** Read as an automaton without ε-moves, the main driver's NFA can end in its accept state B on "aa". */
  lemma MainReadsAa()
    ensures Reach(MainTable(), false, {"S"}, "aa") * {"B"} != {}
  {
    var t := MainTable();
    assert "A" in Delta(t, "S", 'a') && "B" in Delta(t, "A", 'a');
    ReachAa(t);
    assert "B" in Reach(t, false, {"S"}, "aa") * {"B"};
  }

  /** The deterministic-check automaton accepts "aa": S -a-> A -a-> S. */
  lemma DfaCheckReadsAa()
    ensures Reach(DfaCheckTable(), false, {"S"}, "aa") * {"S"} != {}
  {
    var t := DfaCheckTable();
    assert "A" in Delta(t, "S", 'a') && "S" in Delta(t, "A", 'a');
    ReachTwo(t, {"S"}, 'a', 'a');
    assert "A" in Move(t, {"S"}, 'a');
    assert "S" in Reach(t, false, {"S"}, "aa") * {"S"};
  }

  /** The deterministic-check automaton rejects "a": S reads a into A only. */
  lemma DfaCheckRejectsA()
    ensures Reach(DfaCheckTable(), false, {"S"}, "a") * {"S"} == {}
  {
    var t := DfaCheckTable();
    assert Reach(t, false, {"S"}, "a") == Move(t, {"S"}, 'a') by {
      assert "a"[..0] == [];
    }
    assert Delta(t, "S", 'a') == {"A"};
    assert "S" !in Move(t, {"S"}, 'a');
  }

  /** The automaton the deterministic-check driver builds with addState, setStartState and addTransition. */
  method BuildDfaCheck() returns (nfa: NDFiniteAutomaton)
    ensures fresh(nfa) && nfa.Valid()
    ensures nfa.nfaTransitions == DfaCheckTable() && nfa.startState == Some("S")
    ensures nfa.states == {"S", "A"} && nfa.acceptStates == {"S"} && nfa.sigma == {'a', 'b'}
  {
    nfa := new NDFiniteAutomaton({'a', 'b'});
    nfa.AddState("S", true);
    nfa.AddState("A", false);
    assert nfa.states == {"S", "A"};
    nfa.SetStartState("S");
    assert "S" in {"S", "A"};
    AddDfaCheckEdges(nfa);
  }

  /** The deterministic-check driver's four addTransition calls, made on its two edgeless rows. */
  method AddDfaCheckEdges(nfa: NDFiniteAutomaton)
    requires nfa.Valid() && nfa.nfaTransitions == map["S" := map[], "A" := map[]]
    modifies nfa
    ensures nfa.Valid() && nfa.nfaTransitions == DfaCheckTable()
    ensures nfa.states == old(nfa.states) && nfa.acceptStates == old(nfa.acceptStates)
    ensures nfa.startState == old(nfa.startState)
  {
    nfa.AddTransition("S", 'a', "A");
    nfa.AddTransition("S", 'b', "S");
    nfa.AddTransition("A", 'a', "S");
    nfa.AddTransition("A", 'b', "A");
    DfaCheckBuilt();
  }

  /**
   * The deterministic-check driver: the automaton it builds is
   * deterministic, its grammar generates its language, and the subset
   * construction accepts the same strings (among them "" and "aa", not "a").
   */
  method DfaCheckDriver() returns (nfa: NDFiniteAutomaton, gr: Result<Grammar>, isDfa: bool, dfa: DFiniteAutomaton)
    ensures nfa.nfaTransitions == DfaCheckTable() && nfa.startState == Some("S")
    ensures nfa.states == {"S", "A"} && nfa.acceptStates == {"S"} && nfa.sigma == {'a', 'b'}
    ensures gr.Success? && forall w :: nfa.Accepts(w) <==> InSigma(nfa.sigma, w) && DerivesEps(gr.value, 'S', w)
    ensures isDfa
    ensures forall w :: dfa.Accepts(w) <==> nfa.Accepts(w)
    ensures dfa.Accepts("") && dfa.Accepts("aa") && !dfa.Accepts("a")
  {
    nfa := BuildDfaCheck();
    var t := DfaCheckTable();
    DfaCheckTargets();
    OneLetterGrammar(t, {"S", "A"});
    gr := nfa.ToRegularGrammar();
    isDfa := nfa.IsDeterministic();
    DfaCheckDeterministic();
    SubsetCard(AllTargets(t) + {"S"}, {"S", "A"});
    ghost var named;
    dfa, named := nfa.ConvertToDFA();
    DfaCheckReadsAa();
    DfaCheckRejectsA();
    assert Reach(t, false, {"S"}, "") == {"S"};
    assert InSigma(nfa.sigma, "") && InSigma(nfa.sigma, "aa") && InSigma(nfa.sigma, "a");
  }

  /** The automaton the main driver builds with addState, setStartState and addTransition. */
  method BuildMain() returns (nfa: NDFiniteAutomaton)
    ensures fresh(nfa) && nfa.Valid()
    ensures nfa.nfaTransitions == MainTable() && nfa.startState == Some("S")
    ensures nfa.states == {"S", "A", "B", "C"} && nfa.acceptStates == {"B"} && nfa.sigma == {'a', 'b'}
  {
    nfa := new NDFiniteAutomaton({'a', 'b'});
    nfa.AddState("S", false);
    nfa.AddState("A", false);
    nfa.AddState("B", true);
    nfa.AddState("C", false);
    assert nfa.states == {"S", "A", "B", "C"};
    nfa.SetStartState("S");
    assert "S" in {"S", "A", "B", "C"};
    AddMainEdges(nfa);
  }

  /** The main driver's six addTransition calls, made on its four edgeless rows. */
  method AddMainEdges(nfa: NDFiniteAutomaton)
    requires nfa.Valid() && nfa.nfaTransitions == map["S" := map[], "A" := map[], "B" := map[], "C" := map[]]
    modifies nfa
    ensures nfa.Valid() && nfa.nfaTransitions == MainTable()
    ensures nfa.states == old(nfa.states) && nfa.acceptStates == old(nfa.acceptStates)
    ensures nfa.startState == old(nfa.startState)
  {
    nfa.AddTransition("S", 'a', "S");
    nfa.AddTransition("S", 'a', "A");
    nfa.AddTransition("A", 'a', "B");
    nfa.AddTransition("A", 'b', "A");
    nfa.AddTransition("B", 'a', "C");
    nfa.AddTransition("C", 'a', "A");
    MainBuilt();
  }

  /** toRegularGrammar on the main driver's automaton succeeds and its grammar generates the automaton's language. */
  method MainGrammar(nfa: NDFiniteAutomaton) returns (gr: Result<Grammar>)
    requires nfa.Valid() && nfa.nfaTransitions == MainTable() && nfa.startState == Some("S")
    requires nfa.states == {"S", "A", "B", "C"}
    ensures gr.Success? && forall w :: nfa.Accepts(w) <==> InSigma(nfa.sigma, w) && DerivesEps(gr.value, 'S', w)
  {
    MainTargets();
    OneLetterGrammar(MainTable(), {"S", "A", "B", "C"});
    gr := nfa.ToRegularGrammar();
  }

  /** convertToDFA on the main driver's automaton keeps its language and accepts "aa". */
  method MainConversion(nfa: NDFiniteAutomaton) returns (dfa: DFiniteAutomaton)
    requires nfa.Valid() && nfa.nfaTransitions == MainTable() && nfa.startState == Some("S")
    requires nfa.acceptStates == {"B"} && nfa.sigma == {'a', 'b'}
    ensures forall w :: dfa.Accepts(w) <==> nfa.Accepts(w)
    ensures dfa.Accepts("aa")
  {
    MainNamesFit();
    ghost var named;
    dfa, named := nfa.ConvertToDFA();
    MainReadsAa();
    assert InSigma(nfa.sigma, "aa");
  }

  /**
   * The main driver: its grammar generates the automaton's language, and
   * the subset construction of the nondeterministic automaton accepts the
   * same strings, "aa" among them.
   */
  method MainDriver() returns (nfa: NDFiniteAutomaton, gr: Result<Grammar>, isDfa: bool, dfa: DFiniteAutomaton)
    ensures nfa.nfaTransitions == MainTable() && nfa.startState == Some("S")
    ensures nfa.states == {"S", "A", "B", "C"} && nfa.acceptStates == {"B"} && nfa.sigma == {'a', 'b'}
    ensures gr.Success? && forall w :: nfa.Accepts(w) <==> InSigma(nfa.sigma, w) && DerivesEps(gr.value, 'S', w)
    ensures !isDfa
    ensures forall w :: dfa.Accepts(w) <==> nfa.Accepts(w)
    ensures dfa.Accepts("aa")
  {
    nfa := BuildMain();
    gr := MainGrammar(nfa);
    isDfa := nfa.IsDeterministic();
    MainNotDeterministic();
    dfa := MainConversion(nfa);
  }
}
