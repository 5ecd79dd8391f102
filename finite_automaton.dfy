/**
 * FiniteAutomaton.java: the older deterministic automaton that
 * Grammar.toFiniteAutomaton builds. Its builders update the states,
 * acceptStates and transitions fields; accepts walks the table and, unlike
 * DFiniteAutomaton, first checks the symbol against sigma and dereferences
 * the current state's row without a null check.
 */
module FiniteAutomata {
  import opened Outcomes
  import opened TransitionTables

  class FiniteAutomaton {
    var states: set<string>
    const sigma: set<char>
    var transitions: Table
    var startState: Option<string>   // null until setStartState is called
    var acceptStates: set<string>

    /** The start state and the accept states are states. */
    ghost predicate Valid()
      reads this
    {
      && (startState.Some? ==> startState.value in states)
      && acceptStates <= states
    }

    constructor (sigma: set<char>)
      ensures Valid()
      ensures this.sigma == sigma
      ensures states == {} && transitions == map[] && startState == None && acceptStates == {}
    {
      this.sigma := sigma;
      states := {};
      transitions := map[];
      startState := None;
      acceptStates := {};
    }

    /** Records the start state and adds it to the states; no row is created. */
    method SetStartState(state: string)
      requires Valid()
      modifies this
      ensures Valid()
      ensures startState == Some(state)
      ensures states == old(states) + {state}
      ensures acceptStates == old(acceptStates) && transitions == old(transitions)
    {
      startState := Some(state);
      states := states + {state};
    }

    /**
     * Adds the state, makes it accepting when flagged (never un-flags it) and
     * gives it an empty row unless it already has one.
     */
    method AddState(state: string, isAcceptState: bool)
      requires Valid()
      modifies this
      ensures Valid()
      ensures states == old(states) + {state}
      ensures acceptStates == if isAcceptState then old(acceptStates) + {state} else old(acceptStates)
      ensures transitions == if state in old(transitions) then old(transitions) else old(transitions)[state := map[]]
      ensures state in transitions && startState == old(startState)
    {
      states := states + {state};
      if isAcceptState {
        acceptStates := acceptStates + {state};
      }
      if state !in transitions {
        transitions := transitions[state := map[]];
      }
    }

    /** Sets the edge (fromState, input), overwriting any earlier target. */
    method AddTransition(fromState: string, input: char, toState: string)
      requires Valid()
      modifies this
      ensures Valid()
      ensures transitions == SetEdge(old(transitions), fromState, input, toState)
      ensures states == old(states) && acceptStates == old(acceptStates) && startState == old(startState)
    {
      transitions := SetEdge(transitions, fromState, input, toState);
    }

    /** The walk over w uses only symbols of sigma, ends, and ends in an accept state. */
    ghost predicate Accepted(w: string)
      reads this
    {
      && InSigma(sigma, w)
      && startState.Some?
      && Run(transitions, startState.value, w).Some?
      && Run(transitions, startState.value, w).value in acceptStates
    }

    /**
     * Reading w[i] dereferences a missing row: every symbol so far is in
     * sigma, the walk reached a state (or the start is still null), and that
     * state has no row in the table.
     */
    ghost predicate CrashesAt(w: string, i: nat)
      reads this
      requires i < |w|
    {
      && InSigma(sigma, w[..i + 1])
      && (|| startState.None?
          || (Run(transitions, startState.value, w[..i]).Some?
              && Run(transitions, startState.value, w[..i]).value !in transitions))
    }

    ghost predicate Crashes(w: string)
      reads this
    {
      exists i :: 0 <= i < |w| && CrashesAt(w, i)
    }

    /** Every state a walk can reach has a row, so no walk can crash. */
    ghost predicate RowsPresent()
      reads this
    {
      && startState.Some?
      && startState.value in transitions
      && Targets(transitions) <= transitions.Keys
    }

    /**
     * accepts: rejects at the first symbol outside sigma or without an edge,
     * throws NullPointerException at a state without a row, and otherwise
     * answers whether the walk ends in an accept state.
     */
    method Accepts(input: string) returns (r: Result<bool>)
      ensures r.Failure? <==> Crashes(input)
      ensures r.Failure? ==> r.error == NullPointer
      ensures r.Success? ==> (r.value <==> Accepted(input))
      ensures input == [] ==> r == Success(startState.Some? && startState.value in acceptStates)
    {
      var current := startState;
      for i := 0 to |input|
        invariant InSigma(sigma, input[..i])
        invariant startState.None? ==> i == 0 && current.None?
        invariant startState.Some? ==> current.Some? && Run(transitions, startState.value, input[..i]) == current
        invariant forall k :: 0 <= k < i ==> !CrashesAt(input, k)
      {
        var symbol := input[i];
        assert input[..i + 1][..i] == input[..i];
        if symbol !in sigma {
          forall k | i <= k < |input|
            ensures !CrashesAt(input, k)
          {
            assert input[..k + 1][i] == symbol;
          }
          assert input[..|input|][i] == symbol;
          assert input[..|input|] == input;
          return Success(false);
        }
        if current.None? || current.value !in transitions {
          assert CrashesAt(input, i);
          return Failure(NullPointer);
        }
        if symbol !in transitions[current.value] {
          var q := startState.value;
          assert Run(transitions, q, input[..i + 1]) == None;
          StuckOnLongerPrefixes(transitions, q, input, i + 1);
          assert input[..|input|] == input;
          forall k | i < k < |input|
            ensures !CrashesAt(input, k)
          {
          }
          return Success(false);
        }
        current := Some(transitions[current.value][symbol]);
      }
      assert input[..|input|] == input;
      r := Success(current.Some? && current.value in acceptStates);
    }

    /** With a row for every reachable state, accepts never throws. */
    lemma RowsPresentNeverCrash(w: string)
      requires RowsPresent()
      ensures !Crashes(w)
    {
      forall i | 0 <= i < |w|
        ensures !CrashesAt(w, i)
      {
        var q := startState.value;
        if Run(transitions, q, w[..i]).Some? {
          RunEndsAtTarget(transitions, q, w[..i]);
        }
      }
    }
  }
}
