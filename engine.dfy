/**
  The Pauli-error propagation engine: per-gate conjugation rules and the
  driver that pushes an error state through a circuit, recording one
  snapshot per gate.
 */
module Engine {
  import opened PauliErrors
  import opened Circuit

  /** One trace entry: the gate just applied and the state after it. */
  datatype TraceStep = TraceStep(gate: Gate, errorsAfter: ErrorState)

  // ---------------------------------------------------------------------
  // Hadamard rule
  // ---------------------------------------------------------------------

  /** Conjugation by H on one label: X and Z swap, Y is fixed. */
  function HSwap(p: Pauli): (r: Pauli)
    ensures p == X <==> r == Z
    ensures p == Z <==> r == X
    ensures p == Y <==> r == Y
  {
    match p
    case X => Z
    case Z => X
    case Y => Y
  }

  /**
    The H rule on qubit q: q's label is conjugated, an absent q stays
    absent, and every other qubit keeps its entry.
   */
  function HRule(s: ErrorState, q: nat): (r: ErrorState)
    ensures r.Keys == s.Keys
    ensures forall k :: k in s && k != q ==> r[k] == s[k]
    ensures q in s ==> r[q] == HSwap(s[q])
  {
    if q in s then s[q := HSwap(s[q])] else s
  }

  // ---------------------------------------------------------------------
  // CNOT rule
  // ---------------------------------------------------------------------

  /** The qubit carries an X component: its label is X or Y. */
  predicate HasX(s: ErrorState, q: nat)
  {
    q in s && s[q] in {X, Y}
  }

  /** The qubit carries a Z component: its label is Z or Y. */
  predicate HasZ(s: ErrorState, q: nat)
  {
    q in s && s[q] in {Z, Y}
  }

  /**
    Multiplies qubit q's label by an incoming X component, phase ignored:
    identity becomes X, X cancels (the key is removed), Z becomes Y and
    Y becomes Z. Nothing else changes.
   */
  function MulX(s: ErrorState, q: nat): (r: ErrorState)
    ensures HasX(r, q) <==> !HasX(s, q)
    ensures HasZ(r, q) <==> HasZ(s, q)
    ensures forall k :: k != q ==> (k in r <==> k in s)
    ensures forall k :: k in s && k != q ==> r[k] == s[k]
  {
    if q !in s then s[q := X]
    else match s[q]
      case X => s - {q}
      case Z => s[q := Y]
      case Y => s[q := Z]
  }

  /**
    Multiplies qubit q's label by an incoming Z component, phase ignored:
    identity becomes Z, Z cancels (the key is removed), X becomes Y and
    Y becomes X. Nothing else changes.
   */
  function MulZ(s: ErrorState, q: nat): (r: ErrorState)
    ensures HasZ(r, q) <==> !HasZ(s, q)
    ensures HasX(r, q) <==> HasX(s, q)
    ensures forall k :: k != q ==> (k in r <==> k in s)
    ensures forall k :: k in s && k != q ==> r[k] == s[k]
  {
    if q !in s then s[q := Z]
    else match s[q]
      case Z => s - {q}
      case X => s[q := Y]
      case Y => s[q := X]
  }

  /**
    The CNOT rule with control c and target t, evaluated on the pre-gate
    state. When the control carries an X component and the target a Z
    component, both become Y. Otherwise the control's X component spreads
    onto the target, or the target's Z component spreads onto the control.
    Qubits other than c and t keep their entries.

    The live apply_gate_rules has this branch commented out and returns
    an unchanged copy for a CNOT; this function is the rule that the
    CNOT tests assert (see module Draft for the live behaviour).
   */
  function CnotRule(s: ErrorState, c: nat, t: nat): (r: ErrorState)
    ensures forall k :: k != c && k != t ==> (k in r <==> k in s)
    ensures forall k :: k in s && k != c && k != t ==> r[k] == s[k]
    ensures r.Keys <= s.Keys + {c, t}
  {
    var xc, zt := HasX(s, c), HasZ(s, t);
    if xc && zt then s[c := Y][t := Y]
    else if xc then MulX(s, t)
    else if zt then MulZ(s, c)
    else s
  }

  /** The rule table: the rule that matches the gate's kind. */
  function GateRule(g: Gate, s: ErrorState): (r: ErrorState)
  {
    match g
    case H(q) => HRule(s, q)
    case CNOT(c, t) => CnotRule(s, c, t)
  }

  /**
    apply_gate_rules: copies the input state and rewrites the copy in
    place, one key at a time, for the gate's kind. Its H branch follows the
    live code; its CNOT branch is the rule the tests assert, not the live
    pass-through that returns the copy unchanged (see module Draft).
   */
  method ApplyGateRules(gate: Gate, errors: ErrorState) returns (newErrors: ErrorState)
    ensures newErrors == GateRule(gate, errors)
  {
    newErrors := errors;
    match gate {
      case H(q) =>
        if q in newErrors {
          if newErrors[q] == X {
            newErrors := newErrors[q := Z];
          } else if newErrors[q] == Z {
            newErrors := newErrors[q := X];
          }
        }
      case CNOT(c, t) =>
        var xc := c in errors && (errors[c] == X || errors[c] == Y);
        var zt := t in errors && (errors[t] == Z || errors[t] == Y);
        if xc && zt {
          newErrors := newErrors[c := Y];
          newErrors := newErrors[t := Y];
        } else if xc {
          // the target carries no Z component, so it is absent or X
          if t !in newErrors {
            newErrors := newErrors[t := X];
          } else {
            newErrors := newErrors - {t};
          }
        } else if zt {
          // the control carries no X component, so it is absent or Z
          if c !in newErrors {
            newErrors := newErrors[c := Z];
          } else {
            newErrors := newErrors - {c};
          }
        }
    }
  }

  // ---------------------------------------------------------------------
  // Driver
  // ---------------------------------------------------------------------

  /** The state after running a whole circuit from s: the fold of the rule table. */
  function Run(circuit: seq<Gate>, s: ErrorState): (r: ErrorState)
  {
    if circuit == [] then s else Run(circuit[1..], GateRule(circuit[0], s))
  }

  /** The trace of running circuit from s: one snapshot per gate, in order. */
  function Trace(circuit: seq<Gate>, s: ErrorState): (trace: seq<TraceStep>)
    ensures |trace| == |circuit|
  {
    if circuit == [] then []
    else
      var next := GateRule(circuit[0], s);
      [TraceStep(circuit[0], next)] + Trace(circuit[1..], next)
  }

  /**
    propagate_errors: builds the initial state from the injected errors,
    then for each gate applies its rule to the current state, appends a
    snapshot of the result and advances the current state.
   */
  method PropagateErrors(circuit: seq<Gate>, errors: seq<PauliError>) returns (trace: seq<TraceStep>)
    ensures trace == Trace(circuit, InitialState(errors))
    ensures |trace| == |circuit|
    ensures forall i :: 0 <= i < |circuit| ==> trace[i].gate == circuit[i]
    ensures |circuit| > 0 ==> trace[0].errorsAfter == GateRule(circuit[0], InitialState(errors))
    ensures forall i :: 0 <= i < |circuit| - 1 ==>
              trace[i + 1].errorsAfter == GateRule(circuit[i + 1], trace[i].errorsAfter)
  {
    trace := [];
    var current := InitialState(errors);
    var i := 0;
    while i < |circuit|
      invariant 0 <= i <= |circuit|
      invariant |trace| == i
      invariant forall j :: 0 <= j < i ==> trace[j].gate == circuit[j]
      invariant i == 0 ==> current == InitialState(errors)
      invariant i > 0 ==> trace[0].errorsAfter == GateRule(circuit[0], InitialState(errors))
      invariant i > 0 ==> current == trace[i - 1].errorsAfter
      invariant forall j :: 0 <= j < i - 1 ==>
                  trace[j + 1].errorsAfter == GateRule(circuit[j + 1], trace[j].errorsAfter)
      invariant trace + Trace(circuit[i..], current) == Trace(circuit, InitialState(errors))
    {
      var newErrors := ApplyGateRules(circuit[i], current);
      assert Trace(circuit[i..], current)
          == [TraceStep(circuit[i], newErrors)] + Trace(circuit[i + 1..], newErrors);
      trace := trace + [TraceStep(circuit[i], newErrors)];
      current := newErrors;
      i := i + 1;
    }
  }
}
