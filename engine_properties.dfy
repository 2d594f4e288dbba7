/** Properties of the conjugation rules and of the driver's trace. */
module EngineProperties {
  import opened PauliErrors
  import opened Circuit
  import opened Engine

  // ---------------------------------------------------------------------
  // Hadamard
  // ---------------------------------------------------------------------

  /** H twice on the same qubit restores the original state. */
  lemma HInvolution(s: ErrorState, q: nat)
    ensures HRule(HRule(s, q), q) == s
  {
  }

  /** An absent qubit stays absent: H adds no key and changes nothing. */
  lemma HAbsentUnchanged(s: ErrorState, q: nat)
    requires q !in s
    ensures HRule(s, q) == s
  {
  }

  /** H maps {0:X} to {0:Z} and {0:Z} to {0:X}. */
  lemma HSingleQubitCases()
    ensures HRule(map[0 := X], 0) == map[0 := Z]
    ensures HRule(map[0 := Z], 0) == map[0 := X]
    ensures HRule(map[0 := Y], 0) == map[0 := Y]
  {
  }

  // ---------------------------------------------------------------------
  // Group law used by CNOT
  // ---------------------------------------------------------------------

  /** Multiplying by X twice is the identity on the state. */
  lemma MulXInvolution(s: ErrorState, q: nat)
    ensures MulX(MulX(s, q), q) == s
  {
  }

  /** Multiplying by Z twice is the identity on the state. */
  lemma MulZInvolution(s: ErrorState, q: nat)
    ensures MulZ(MulZ(s, q), q) == s
  {
  }

  // ---------------------------------------------------------------------
  // CNOT
  // ---------------------------------------------------------------------

  /** X on the control together with Z on the target: both become Y. */
  lemma CnotBothComponents(s: ErrorState, c: nat, t: nat)
    requires c != t && HasX(s, c) && HasZ(s, t)
    ensures CnotRule(s, c, t).Keys == s.Keys
    ensures CnotRule(s, c, t)[c] == Y && CnotRule(s, c, t)[t] == Y
  {
  }

  /**
    Only the control's X component: the control keeps its label, an absent
    target becomes X and an X on the target cancels.
   */
  lemma CnotXSpread(s: ErrorState, c: nat, t: nat)
    requires c != t && HasX(s, c) && !HasZ(s, t)
    ensures c in CnotRule(s, c, t) && CnotRule(s, c, t)[c] == s[c]
    ensures t !in s ==> CnotRule(s, c, t) == s[t := X]
    ensures t in s ==> s[t] == X && CnotRule(s, c, t) == s - {t}
  {
  }

  /**
    Only the target's Z component: the target keeps its label, an absent
    control becomes Z and a Z on the control cancels.
   */
  lemma CnotZSpread(s: ErrorState, c: nat, t: nat)
    requires c != t && !HasX(s, c) && HasZ(s, t)
    ensures t in CnotRule(s, c, t) && CnotRule(s, c, t)[t] == s[t]
    ensures c !in s ==> CnotRule(s, c, t) == s[c := Z]
    ensures c in s ==> s[c] == Z && CnotRule(s, c, t) == s - {c}
  {
  }

  /** Neither component present: CNOT changes nothing. */
  lemma CnotNoSpread(s: ErrorState, c: nat, t: nat)
    requires !HasX(s, c) && !HasZ(s, t)
    ensures CnotRule(s, c, t) == s
  {
  }

  /** CNOT leaves the state unchanged exactly when nothing spreads or both ends are already Y. */
  lemma CnotFixedPoint(s: ErrorState, c: nat, t: nat)
    requires c != t
    ensures CnotRule(s, c, t) == s <==>
            (!HasX(s, c) && !HasZ(s, t)) || (c in s && t in s && s[c] == Y && s[t] == Y)
  {
  }

  /** X on the control and X on the target: the target's key is removed. */
  lemma CnotCancelX(s: ErrorState, c: nat, t: nat)
    requires c != t && c in s && t in s && s[c] == X && s[t] == X
    ensures CnotRule(s, c, t) == s - {t}
  {
  }

  /** Z on the control and Z on the target: the control's key is removed. */
  lemma CnotCancelZ(s: ErrorState, c: nat, t: nat)
    requires c != t && c in s && t in s && s[c] == Z && s[t] == Z
    ensures CnotRule(s, c, t) == s - {c}
  {
  }

  /** The single-gate CNOT(0,1) cases that the tests assert. */
  lemma CnotTestedCases()
    ensures CnotRule(map[0 := X], 0, 1) == map[0 := X, 1 := X]
    ensures CnotRule(map[1 := Z], 0, 1) == map[0 := Z, 1 := Z]
    ensures CnotRule(map[0 := X, 1 := Z], 0, 1) == map[0 := Y, 1 := Y]
    ensures CnotRule(map[0 := Z], 0, 1) == map[0 := Z]
  {
  }

  /** The tested rule is not its own inverse: {0:X,1:Z} goes to {0:Y,1:Y}, which CNOT then fixes. */
  lemma CnotNotSelfInverse()
    ensures CnotRule(CnotRule(map[0 := X, 1 := Z], 0, 1), 0, 1) == map[0 := Y, 1 := Y]
    ensures CnotRule(CnotRule(map[0 := X, 1 := Z], 0, 1), 0, 1) != map[0 := X, 1 := Z]
  {
  }

  // ---------------------------------------------------------------------
  // Driver
  // ---------------------------------------------------------------------

  /** Step i of the trace records the i-th gate of the circuit. */
  lemma {:induction false} TraceGateAt(circuit: seq<Gate>, s: ErrorState, i: nat)
    requires i < |circuit|
    ensures Trace(circuit, s)[i].gate == circuit[i]
  {
    if i > 0 {
      TraceGateAt(circuit[1..], GateRule(circuit[0], s), i - 1);
    }
  }

  /** Step 0 is the first gate's rule applied to the initial state. */
  lemma TraceFirstStep(circuit: seq<Gate>, s: ErrorState)
    requires |circuit| > 0
    ensures Trace(circuit, s)[0].errorsAfter == GateRule(circuit[0], s)
  {
  }

  /** Step i + 1 is the rule of gate i + 1 applied to step i's state. */
  lemma {:induction false} TraceChaining(circuit: seq<Gate>, s: ErrorState, i: nat)
    requires i + 1 < |circuit|
    ensures Trace(circuit, s)[i + 1].errorsAfter == GateRule(circuit[i + 1], Trace(circuit, s)[i].errorsAfter)
  {
    var next := GateRule(circuit[0], s);
    if i > 0 {
      TraceChaining(circuit[1..], next, i - 1);
    }
  }

  /** Running a concatenation runs the two parts in turn. */
  lemma {:induction false} RunAppend(c1: seq<Gate>, c2: seq<Gate>, s: ErrorState)
    ensures Run(c1 + c2, s) == Run(c2, Run(c1, s))
  {
    if c1 == [] {
      assert c1 + c2 == c2;
    } else {
      assert (c1 + c2)[1..] == c1[1..] + c2;
      RunAppend(c1[1..], c2, GateRule(c1[0], s));
    }
  }

  /** Step i's state is the result of running the first i + 1 gates. */
  lemma {:induction false} TraceAtIsRun(circuit: seq<Gate>, s: ErrorState, i: nat)
    requires i < |circuit|
    ensures Trace(circuit, s)[i].errorsAfter == Run(circuit[..i + 1], s)
  {
    var next := GateRule(circuit[0], s);
    assert circuit[..i + 1][1..] == circuit[1..][..i];
    if i > 0 {
      TraceAtIsRun(circuit[1..], next, i - 1);
    }
  }

  /** The last snapshot is the final state of the whole circuit. */
  lemma TraceLastIsRun(circuit: seq<Gate>, s: ErrorState)
    requires |circuit| > 0
    ensures Trace(circuit, s)[|circuit| - 1].errorsAfter == Run(circuit, s)
  {
  }

  // ---------------------------------------------------------------------
  // Scenarios of tests/test_simple.py, through the driver
  // ---------------------------------------------------------------------

  lemma ScenarioHadamard()
    ensures Trace([H(0)], InitialState([PauliError(0, X)])) == [TraceStep(H(0), map[0 := Z])]
    ensures Trace([H(0)], InitialState([PauliError(0, Z)])) == [TraceStep(H(0), map[0 := X])]
  {
    assert InitialState([PauliError(0, X)]) == map[0 := X];
    assert InitialState([PauliError(0, Z)]) == map[0 := Z];
    HSingleQubitCases();
  }

  lemma ScenarioCnot()
    ensures Trace([CNOT(0, 1)], InitialState([PauliError(0, X)]))
         == [TraceStep(CNOT(0, 1), map[0 := X, 1 := X])]
    ensures Trace([CNOT(0, 1)], InitialState([PauliError(1, Z)]))
         == [TraceStep(CNOT(0, 1), map[0 := Z, 1 := Z])]
    ensures Trace([CNOT(0, 1)], InitialState([PauliError(0, X), PauliError(1, Z)]))
         == [TraceStep(CNOT(0, 1), map[0 := Y, 1 := Y])]
  {
    CnotTestedCases();
    assert InitialState([PauliError(0, X), PauliError(1, Z)]) == map[0 := X, 1 := Z];
  }

  /** H then CNOT from {0:X}: {0:Z} after each step; a Z on the control does not spread. */
  lemma ScenarioMultiGate()
    ensures Trace([H(0), CNOT(0, 1)], InitialState([PauliError(0, X)]))
         == [TraceStep(H(0), map[0 := Z]), TraceStep(CNOT(0, 1), map[0 := Z])]
  {
    assert InitialState([PauliError(0, X)]) == map[0 := X];
    HSingleQubitCases();
    CnotTestedCases();
    assert [H(0), CNOT(0, 1)][1..] == [CNOT(0, 1)];
  }
}
