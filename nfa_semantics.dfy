/**
 * The meaning of NDFiniteAutomaton's transition relation: the target sets
 * it records, ε-reachability, the subset successor used by both subset
 * constructions, and the simulation argument that makes a subset automaton
 * accept the same strings as the automaton it was built from. It also
 * holds the two naming schemes of the constructions: the counter-based
 * names "S", "A", "B", … and the sorted, '_'-joined encoding of a set.
 */
module NfaSemantics {
  import opened Outcomes
  import opened TransitionTables
  import opened Strings

  /** nfaTransitions: state -> symbol -> set of target states. */
  type NTable = map<string, map<char, set<string>>>

  /** The character NDFiniteAutomaton reserves for ε-edges. */
  const Epsilon: char := 'ε'

  /** δ(p, c), empty where the table has no entry (getOrDefault). */
  function Delta(t: NTable, p: string, c: char): set<string>
  {
    if p in t && c in t[p] then t[p][c] else {}
  }

  /** addTransition on the table: create the row and the target set if absent, then add q. */
  function AddEdge(t: NTable, p: string, c: char, q: string): NTable
  {
    var row := if p in t then t[p] else map[];
    var targets := if c in row then row[c] else {};
    t[p := row[c := targets + {q}]]
  }

  /** addTransition adds q to δ(p, c) and changes no other target set. */
  lemma AddEdgeDelta(t: NTable, p: string, c: char, q: string, x: string, d: char)
    ensures Delta(AddEdge(t, p, c, q), x, d) == if x == p && d == c then Delta(t, p, c) + {q} else Delta(t, x, d)
    ensures AddEdge(t, p, c, q).Keys == t.Keys + {p}
  {
  }

  /** Adding the same transition twice is adding it once. */
  lemma AddEdgeIdempotent(t: NTable, p: string, c: char, q: string)
    ensures AddEdge(AddEdge(t, p, c, q), p, c, q) == AddEdge(t, p, c, q)
  {
    var row := if p in t then t[p] else map[];
    var targets := if c in row then row[c] else {};
    assert targets + {q} + {q} == targets + {q};
    assert row[c := targets + {q}][c := targets + {q} + {q}] == row[c := targets + {q}];
  }

  /** Every state some edge leads to. */
  function AllTargets(t: NTable): set<string>
  {
    set p, c, q | p in t && c in t[p] && q in t[p][c] :: q
  }

  /** The states reachable from some member of X over one c-edge. */
  function Move(t: NTable, x: set<string>, c: char): (r: set<string>)
    ensures r <= AllTargets(t)
    ensures forall q :: q in r <==> exists p :: p in x && q in Delta(t, p, c)
  {
    set p, q | p in x && q in Delta(t, p, c) :: q
  }

  // ---------------------------------------------------------------- ε-closure

  /** A walk that uses ε-edges only. */
  ghost predicate EpsPath(t: NTable, path: seq<string>)
  {
    && |path| >= 1
    && forall i :: 0 <= i < |path| - 1 ==> path[i + 1] in Delta(t, path[i], Epsilon)
  }

  /** q can be reached from p by zero or more ε-edges. */
  ghost predicate EpsReachable(t: NTable, p: string, q: string)
  {
    exists path :: EpsPath(t, path) && path[0] == p && path[|path| - 1] == q
  }

  lemma EpsReachableRefl(t: NTable, p: string)
    ensures EpsReachable(t, p, p)
  {
    assert EpsPath(t, [p]);
  }

  /** An ε-edge followed by an ε-walk is an ε-walk. */
  lemma EpsReachablePrepend(t: NTable, p: string, q: string, x: string)
    requires q in Delta(t, p, Epsilon) && EpsReachable(t, q, x)
    ensures EpsReachable(t, p, x)
  {
    var path :| EpsPath(t, path) && path[0] == q && path[|path| - 1] == x;
    var path' := [p] + path;
    forall i | 0 <= i < |path'| - 1 ensures path'[i + 1] in Delta(t, path'[i], Epsilon) {
      if i > 0 {
        assert path'[i] == path[i - 1] && path'[i + 1] == path[i];
      }
    }
    assert EpsPath(t, path');
  }

  /** Whatever an ε-walk from p reaches is p itself or the target of some edge. */
  lemma EpsReachableBounded(t: NTable, p: string)
    ensures forall q :: EpsReachable(t, p, q) ==> q in AllTargets(t) + {p}
  {
    forall q | EpsReachable(t, p, q) ensures q in AllTargets(t) + {p} {
      var path :| EpsPath(t, path) && path[0] == p && path[|path| - 1] == q;
      if |path| > 1 {
        var n := |path| - 1;
        assert path[n] in Delta(t, path[n - 1], Epsilon);
      }
    }
  }

  /** A set closed under ε-edges holds everything ε-reachable from its members. */
  lemma {:induction false} EpsClosedContains(t: NTable, s: set<string>, path: seq<string>)
    requires forall x :: x in s ==> Delta(t, x, Epsilon) <= s
    requires EpsPath(t, path) && path[0] in s
    ensures path[|path| - 1] in s
    decreases |path|
  {
    if |path| > 1 {
      var init := path[..|path| - 1];
      assert EpsPath(t, init);
      EpsClosedContains(t, s, init);
      assert path[|path| - 1] in Delta(t, path[|path| - 2], Epsilon);
    }
  }

  /** The ε-closure of p: every state ε-reachable from p. */
  ghost function EClose(t: NTable, p: string): (r: set<string>)
    ensures forall q :: q in r <==> EpsReachable(t, p, q)
  {
    EpsReachableBounded(t, p);
    set q | q in AllTargets(t) + {p} && EpsReachable(t, p, q)
  }

  /** The only ε-closed set that contains p and only states ε-reachable from p is EClose(p). */
  lemma EpsClosureUnique(t: NTable, p: string, s: set<string>)
    requires p in s
    requires forall x :: x in s ==> Delta(t, x, Epsilon) <= s
    requires forall x :: x in s ==> EpsReachable(t, p, x)
    ensures s == EClose(t, p)
  {
    forall q | EpsReachable(t, p, q) ensures q in s {
      var path :| EpsPath(t, path) && path[0] == p && path[|path| - 1] == q;
      EpsClosedContains(t, s, path);
    }
  }

  /** The union of the ε-closures of the members of x. */
  ghost function ECloseSet(t: NTable, x: set<string>): (r: set<string>)
    ensures forall q :: q in r <==> exists p :: p in x && q in EClose(t, p)
  {
    set p, q | p in x && q in EClose(t, p) :: q
  }

  // ------------------------------------------------------ subset construction

  /**
   * The subset reached from C on c: the c-successors of its members, closed
   * under ε when eps holds (convertEpsilonNfaToDfa) and taken as they are
   * otherwise (convertToDFA).
   */
  ghost function Next(t: NTable, eps: bool, c: set<string>, a: char): set<string>
  {
    if eps then ECloseSet(t, Move(t, c, a)) else Move(t, c, a)
  }

  /** The subset reached from x by reading w. */
  ghost function Reach(t: NTable, eps: bool, x: set<string>, w: string): set<string>
    decreases |w|
  {
    if w == [] then x
    else Next(t, eps, Reach(t, eps, x, w[..|w| - 1]), w[|w| - 1])
  }

  lemma NextOfEmpty(t: NTable, eps: bool, a: char)
    ensures Next(t, eps, {}, a) == {}
  {
    assert Move(t, {}, a) == {};
  }

  /** p accepts w read from the front: one edge per symbol, ending in f ('ε' read like any other symbol). */
  ghost predicate AcceptsFrom(t: NTable, f: set<string>, p: string, w: string)
    decreases |w|
  {
    if w == [] then p in f
    else exists q :: q in Delta(t, p, w[0]) && AcceptsFrom(t, f, q, w[1..])
  }

  /** Reading c and then u is reading u from the c-successors. */
  lemma {:induction false} ReachFront(t: NTable, x: set<string>, c: char, u: string)
    ensures Reach(t, false, x, [c] + u) == Reach(t, false, Move(t, x, c), u)
    decreases |u|
  {
    var w := [c] + u;
    if u == [] {
      assert w[..|w| - 1] == [];
      assert Reach(t, false, x, w) == Next(t, false, Reach(t, false, x, []), c);
    } else {
      var init, d := u[..|u| - 1], u[|u| - 1];
      ReachFront(t, x, c, init);
      assert w[..|w| - 1] == [c] + init && w[|w| - 1] == d;
      calc {
        Reach(t, false, x, w);
        Next(t, false, Reach(t, false, x, [c] + init), d);
        Next(t, false, Reach(t, false, Move(t, x, c), init), d);
        Reach(t, false, Move(t, x, c), u);
      }
    }
  }

  /** The subset reached from x meets f exactly when some member of x accepts w. */
  lemma {:induction false} ReachAcceptsFrom(t: NTable, f: set<string>, x: set<string>, w: string)
    ensures Reach(t, false, x, w) * f != {} <==> exists p :: p in x && AcceptsFrom(t, f, p, w)
    decreases |w|
  {
    if w == [] {
      assert Reach(t, false, x, w) == x;
      if x * f != {} {
        var p :| p in x * f;
        assert AcceptsFrom(t, f, p, w);
      }
      if exists p :: p in x && AcceptsFrom(t, f, p, w) {
        var p :| p in x && AcceptsFrom(t, f, p, w);
        assert p in x * f;
      }
    } else {
      var c, u := w[0], w[1..];
      assert w == [c] + u;
      ReachFront(t, x, c, u);
      ReachAcceptsFrom(t, f, Move(t, x, c), u);
      if exists q :: q in Move(t, x, c) && AcceptsFrom(t, f, q, u) {
        var q :| q in Move(t, x, c) && AcceptsFrom(t, f, q, u);
        var p :| p in x && q in Delta(t, p, c);
        assert AcceptsFrom(t, f, p, w);
      }
      if exists p :: p in x && AcceptsFrom(t, f, p, w) {
        var p :| p in x && AcceptsFrom(t, f, p, w);
        var q :| q in Delta(t, p, c) && AcceptsFrom(t, f, q, u);
        assert q in Move(t, x, c);
      }
    }
  }

  /** Distinct subsets get distinct names. */
  ghost predicate Injective(n: map<set<string>, string>)
  {
    forall c, d :: c in n && d in n && n[c] == n[d] ==> c == d
  }

  /**
   * The row of n[C] in dt holds exactly the edges for the symbols in done:
   * an edge on a symbol of sigma to the name of the nonempty successor, and
   * nothing else.
   */
  ghost predicate RowDone(t: NTable, eps: bool, sigma: set<char>, n: map<set<string>, string>, dt: Table,
                          c: set<string>, done: set<char>)
    requires c in n
  {
    forall a ::
      if a in done && a in sigma && Next(t, eps, c, a) != {} then
        Next(t, eps, c, a) in n && Step(dt, n[c], a) == Some(n[Next(t, eps, c, a)])
      else
        Step(dt, n[c], a) == None
  }

  /**
   * (dt, dAccept) is a subset automaton of t under the naming n: names are
   * distinct, every named subset has its complete row, and a name accepts
   * iff its subset meets f.
   */
  ghost predicate Simulates(t: NTable, eps: bool, sigma: set<char>, f: set<string>,
                            n: map<set<string>, string>, dt: Table, dAccept: set<string>)
  {
    && Injective(n)
    && (forall c :: c in n ==> RowDone(t, eps, sigma, n, dt, c, sigma))
    && (forall c :: c in n ==> (n[c] in dAccept <==> c * f != {}))
  }

  /** The walk of the subset automaton follows Reach as long as the subset is nonempty. */
  lemma {:induction false} SimulationRun(t: NTable, eps: bool, sigma: set<char>, f: set<string>,
                                        n: map<set<string>, string>, dt: Table, dAccept: set<string>,
                                        x0: set<string>, w: string)
    requires Simulates(t, eps, sigma, f, n, dt, dAccept) && x0 in n && x0 != {}
    ensures InSigma(sigma, w) && Reach(t, eps, x0, w) != {} ==>
      Reach(t, eps, x0, w) in n && Run(dt, n[x0], w) == Some(n[Reach(t, eps, x0, w)])
    ensures !(InSigma(sigma, w) && Reach(t, eps, x0, w) != {}) ==> Run(dt, n[x0], w) == None
    decreases |w|
  {
    if w != [] {
      var init := w[..|w| - 1];
      var a := w[|w| - 1];
      SimulationRun(t, eps, sigma, f, n, dt, dAccept, x0, init);
      var r := Reach(t, eps, x0, init);
      assert InSigma(sigma, w) <==> InSigma(sigma, init) && a in sigma by {
        if InSigma(sigma, init) && a in sigma {
          forall i | 0 <= i < |w| ensures w[i] in sigma {
            if i < |w| - 1 {
              assert w[i] == init[i];
            }
          }
        }
      }
      if r == {} {
        NextOfEmpty(t, eps, a);
      } else if InSigma(sigma, init) {
        assert RowDone(t, eps, sigma, n, dt, r, sigma);
      }
    }
  }

  /**
   * A row stays done when the naming only grows and the row of n[c] is
   * untouched.
   */
  lemma RowDoneFrame(t: NTable, eps: bool, sigma: set<char>, n: map<set<string>, string>, n2: map<set<string>, string>,
                     dt: Table, dt2: Table, c: set<string>, done: set<char>)
    requires c in n
    requires forall d :: d in n ==> d in n2 && n2[d] == n[d]
    requires forall a :: Step(dt2, n[c], a) == Step(dt, n[c], a)
    requires RowDone(t, eps, sigma, n, dt, c, done)
    ensures c in n2 && RowDone(t, eps, sigma, n2, dt2, c, done)
  {
  }

  /** An element of a nonempty set, the same one every time. */
  ghost function Pick(u: set<string>): string
    requires u != {}
  {
    var x :| x in u; x
  }

  /** All subsets of u: the subset constructions name finitely many subsets. */
  ghost function Powerset(u: set<string>): set<set<string>>
    decreases u
  {
    if u == {} then {{}}
    else
      var rest := Powerset(u - {Pick(u)});
      rest + set s | s in rest :: s + {Pick(u)}
  }

  lemma {:induction false} PowersetContains(u: set<string>, s: set<string>)
    requires s <= u
    ensures s in Powerset(u)
    decreases u
  {
    if u != {} {
      var x := Pick(u);
      var rest := Powerset(u - {x});
      assert Powerset(u) == rest + set s' | s' in rest :: s' + {x};
      PowersetContains(u - {x}, s - {x});
      if x in s {
        assert s - {x} in rest;
        assert (s - {x}) + {x} in (set s' | s' in rest :: s' + {x});
        assert s == (s - {x}) + {x};
      } else {
        assert s == s - {x};
      }
    } else {
      assert s == {};
    }
  }

  /** 2 to the power k. */
  function Pow2(k: nat): (r: nat)
    ensures r >= 1
  {
    if k == 0 then 1 else 2 * Pow2(k - 1)
  }

  lemma {:induction false} Pow2Monotone(i: nat, j: nat)
    requires i <= j
    ensures Pow2(i) <= Pow2(j)
    decreases j
  {
    if i < j {
      Pow2Monotone(i, j - 1);
    }
  }

  /** Adding x to every member of rest gives at most |rest| sets. */
  lemma {:induction false} ImageCard(rest: set<set<string>>, x: string)
    ensures |set s | s in rest :: s + {x}| <= |rest|
    decreases rest
  {
    var image := set s | s in rest :: s + {x};
    if rest == {} {
      assert image == {};
    } else {
      var e :| e in rest;
      ImageCard(rest - {e}, x);
      assert image == (set s | s in rest - {e} :: s + {x}) + {e + {x}};
    }
  }

  /** A set of k names has at most 2^k subsets: a subset construction over them names at most that many. */
  lemma {:induction false} PowersetCard(u: set<string>)
    ensures |Powerset(u)| <= Pow2(|u|)
    decreases u
  {
    if u != {} {
      var x := Pick(u);
      var rest := Powerset(u - {x});
      PowersetCard(u - {x});
      ImageCard(rest, x);
      assert Powerset(u) == rest + set s | s in rest :: s + {x};
    }
  }

  /** The subset automaton accepts w iff w is over sigma and the subset reached meets f. */
  lemma SimulationAccepts(t: NTable, eps: bool, sigma: set<char>, f: set<string>,
                          n: map<set<string>, string>, dt: Table, dAccept: set<string>,
                          x0: set<string>, w: string)
    requires Simulates(t, eps, sigma, f, n, dt, dAccept) && x0 in n && x0 != {}
    ensures (Run(dt, n[x0], w).Some? && Run(dt, n[x0], w).value in dAccept)
      <==> InSigma(sigma, w) && Reach(t, eps, x0, w) * f != {}
  {
    SimulationRun(t, eps, sigma, f, n, dt, dAccept, x0, w);
  }

  /** With at most one target per (state, symbol), reading w from {p} reaches at most one state. */
  lemma {:induction false} DeterministicReach(t: NTable, p: string, w: string)
    requires forall q, a :: |Delta(t, q, a)| <= 1
    ensures |Reach(t, false, {p}, w)| <= 1
    decreases |w|
  {
    if w != [] {
      var init := w[..|w| - 1];
      var a := w[|w| - 1];
      DeterministicReach(t, p, init);
      var r := Reach(t, false, {p}, init);
      if r != {} {
        var q :| q in r;
        SingletonOf(r, q);
        assert Move(t, r, a) == Delta(t, q, a);
      } else {
        NextOfEmpty(t, false, a);
      }
    }
  }

  /** A set of at most one member that holds q is {q}. */
  lemma SingletonOf(r: set<string>, q: string)
    requires |r| <= 1 && q in r
    ensures r == {q}
  {
    forall x | x in r ensures x == q {
      if x != q {
        assert {x, q} <= r;
        assert |{x, q}| == 2;
        SubsetCard({x, q}, r);
      }
    }
  }

  lemma SubsetCard<T>(a: set<T>, b: set<T>)
    requires a <= b
    ensures |a| <= |b|
  {
    assert b == a + (b - a);
  }

  // ------------------------------------------------------------------- names

  /**
   * (char) code: the low 16 bits of code as a UTF-16 code unit. A lone
   * surrogate has no char in this model and is shown as U+FFFD.
   */
  function CodeUnit(code: nat): char
  {
    var u := code % 0x1_0000;
    if 0xD800 <= u < 0xE000 then '\U{FFFD}' else u as char
  }

  /** getStateName in convertToDFA: "S" for 0, then (char)('A' + counter - 1). */
  function StateName(counter: nat): string
  {
    if counter == 0 then "S" else [CodeUnit('A' as int + counter - 1)]
  }

  /** The cast keeps every code below the surrogates; past them it keeps the low 16 bits or shows U+FFFD. */
  lemma CodeUnitCast(code: nat)
    ensures code < 0xD800 ==> CodeUnit(code) as int == code
    ensures CodeUnit(code) as int == code % 0x1_0000 || CodeUnit(code) == '\U{FFFD}'
  {
  }

  /** Every name is one character: "S" for 0, then 'A' + counter - 1, an upper-case letter up to 26. */
  lemma StateNameShape(counter: nat)
    ensures |StateName(counter)| == 1
    ensures counter == 0 ==> StateName(counter) == "S"
    ensures 0 < counter < 0xD800 - 0x40 ==> StateName(counter)[0] as int == 'A' as int + counter - 1
    ensures 0 < counter <= 26 ==> 'A' <= StateName(counter)[0] <= 'Z'
  {
    if 0 < counter {
      CodeUnitCast('A' as int + counter - 1);
    }
  }

  /** The first 19 names, "S" and "A" to "R", are pairwise distinct. */
  lemma StateNamesDistinct(i: nat, j: nat)
    requires i < j < 19
    ensures StateName(i) != StateName(j)
  {
    if i == 0 {
      assert StateName(j)[0] == CodeUnit(65 + j - 1);
      assert StateName(j)[0] != 'S';
    } else {
      assert StateName(i)[0] != StateName(j)[0];
    }
  }

  /** The twentieth name, 'A' + 18, is 'S' again. */
  lemma StateNameRepeats()
    ensures StateName(19) == StateName(0)
  {
  }

  /**
   * From counter 55232 on, the cast reaches the surrogate range, which this
   * model shows as U+FFFD: two counters Java names differently share a name here.
   */
  lemma StateNameSurrogates()
    ensures StateName(0xD800 - 0x40) == StateName(0xFFFD - 0x40)
    ensures 0xD800 - 0x40 != 0xFFFD - 0x40
  {
    assert CodeUnit('A' as int + (0xD800 - 0x40) - 1) == '\U{FFFD}';
  }

  /** encodeState: the members in sorted order joined by '_'. */
  function EncodeState(s: set<string>): (r: string)
    ensures s == {} ==> r == ""
  {
    Join(SortedMembers(s), '_')
  }

  /** Two nonempty sets of '_'-free names with the same encoding are the same set. */
  lemma EncodeStateInjective(a: set<string>, b: set<string>)
    requires a != {} && b != {}
    requires forall x :: x in a + b ==> '_' !in x
    requires EncodeState(a) == EncodeState(b)
    ensures a == b
  {
    var xs, ys := SortedMembers(a), SortedMembers(b);
    SplitJoin(xs, '_');
    SplitJoin(ys, '_');
    assert xs == ys;
    forall x ensures x in a <==> x in b {
      assert x in a <==> x in xs;
      assert x in b <==> x in ys;
    }
  }
}
