/**
 * Deterministic transition tables as both DFiniteAutomaton and the older
 * FiniteAutomaton keep them: Map<String, Map<Character, String>>, one row
 * per state, at most one target per (state, symbol).
 */
module TransitionTables {
  import opened Outcomes

  type Row = map<char, string>
  type Table = map<string, Row>

  /** The target of the edge (p, c), if the table has one. */
  function Step(t: Table, p: string, c: char): Option<string>
  {
    if p in t && c in t[p] then Some(t[p][c]) else None
  }

  /**
   * The extended transition function: the state reached from q by reading w,
   * or None once some symbol has no edge.
   */
  function Run(t: Table, q: string, w: string): Option<string>
    decreases |w|
  {
    if w == [] then Some(q)
    else
      match Run(t, q, w[..|w| - 1])
      case None => None
      case Some(p) => Step(t, p, w[|w| - 1])
  }

  /**
   * transitions.putIfAbsent(p, new HashMap<>()); transitions.get(p).put(c, q)
   */
  function SetEdge(t: Table, p: string, c: char, q: string): Table
  {
    t[p := (if p in t then t[p] else map[])[c := q]]
  }

  /** After SetEdge, (p, c) leads to q and every other edge is as before. */
  lemma SetEdgeStep(t: Table, p: string, c: char, q: string, x: string, d: char)
    ensures Step(SetEdge(t, p, c, q), x, d) == if x == p && d == c then Some(q) else Step(t, x, d)
  {
  }

  /** Two writes to the same (p, c): the last one wins. */
  lemma SetEdgeLastWriteWins(t: Table, p: string, c: char, q1: string, q2: string)
    ensures SetEdge(SetEdge(t, p, c, q1), p, c, q2) == SetEdge(t, p, c, q2)
  {
    var row := if p in t then t[p] else map[];
    assert row[c := q1][c := q2] == row[c := q2];
  }

  /** Once a run is stuck, no continuation of the input revives it. */
  lemma {:induction false} RunStuck(t: Table, q: string, u: string, v: string)
    requires Run(t, q, u) == None
    ensures Run(t, q, u + v) == None
    decreases |v|
  {
    if v != [] {
      var v' := v[..|v| - 1];
      RunStuck(t, q, u, v');
      assert (u + v)[..|u + v| - 1] == u + v';
    } else {
      assert u + v == u;
    }
  }

  /** Reading u and then v is reading u + v. */
  lemma {:induction false} RunConcat(t: Table, q: string, u: string, v: string)
    ensures Run(t, q, u + v) == match Run(t, q, u) case None => None case Some(p) => Run(t, p, v)
    decreases |v|
  {
    if v == [] {
      assert u + v == u;
    } else {
      var v' := v[..|v| - 1];
      RunConcat(t, q, u, v');
      assert (u + v)[..|u + v| - 1] == u + v';
      assert (u + v)[|u + v| - 1] == v[|v| - 1];
    }
  }

  /** Reading c and then u: the first edge, then the rest of the walk. */
  lemma RunFront(t: Table, q: string, c: char, u: string)
    ensures Run(t, q, [c] + u) == match Step(t, q, c) case None => None case Some(p) => Run(t, p, u)
  {
    RunConcat(t, q, [c], u);
    assert [c][..0] == [];
  }

  /** Every symbol of w is in sigma. */
  predicate InSigma(sigma: set<char>, w: string)
  {
    forall i :: 0 <= i < |w| ==> w[i] in sigma
  }

  /** A run that is stuck on a prefix is stuck on every longer prefix. */
  lemma StuckOnLongerPrefixes(t: Table, q: string, w: string, i: nat)
    requires i <= |w| && Run(t, q, w[..i]) == None
    ensures forall k :: i <= k <= |w| ==> Run(t, q, w[..k]) == None
  {
    forall k | i <= k <= |w|
      ensures Run(t, q, w[..k]) == None
    {
      RunStuck(t, q, w[..i], w[i..k]);
      assert w[..i] + w[i..k] == w[..k];
    }
  }

  /** Every state a run reaches is its origin or the target of some edge. */
  lemma {:induction false} RunEndsAtTarget(t: Table, q: string, w: string)
    requires Run(t, q, w).Some?
    ensures Run(t, q, w).value == q || Run(t, q, w).value in Targets(t)
    decreases |w|
  {
    if w != [] {
      var p := Run(t, q, w[..|w| - 1]).value;
      var c := w[|w| - 1];
      assert t[p][c] in Targets(t);
    }
  }

  /** Every state some edge leads to. */
  function Targets(t: Table): set<string>
  {
    set p, c | p in t && c in t[p] :: t[p][c]
  }
}
