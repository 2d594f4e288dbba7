/**
  Pauli labels, injected errors and the sparse per-qubit error state.
  Identity is never stored: a qubit with no error has no key.
 */
module PauliErrors {

  /** A non-identity single-qubit Pauli label, phase and sign ignored. */
  datatype Pauli = X | Z | Y

  /** One injected error: qubit index and its label. */
  datatype PauliError = PauliError(qubit: nat, kind: Pauli)

  /** The error on each qubit; a missing key means identity. */
  type ErrorState = map<nat, Pauli>

  /** The qubits named by a list of injected errors. */
  ghost function Qubits(errors: seq<PauliError>): set<nat>
  {
    set e | e in errors :: e.qubit
  }

  /**
    The initial state built by the driver's dictionary comprehension:
    entries are inserted in list order, so a later entry for the same
    qubit overwrites an earlier one.
   */
  function InitialState(errors: seq<PauliError>): (s: ErrorState)
    ensures s.Keys == Qubits(errors)
    ensures forall q :: q in s ==> exists e :: e in errors && e.qubit == q && e.kind == s[q]
    decreases |errors|
  {
    if errors == [] then map[]
    else
      var init, last := errors[..|errors| - 1], errors[|errors| - 1];
      assert errors == init + [last];
      assert Qubits(errors) == Qubits(init) + {last.qubit};
      InitialState(init)[last.qubit := last.kind]
  }

  /** The entry that wins for a qubit is its last occurrence in the list. */
  lemma {:induction false} InitialStateLastWins(errors: seq<PauliError>, i: nat)
    requires i < |errors|
    requires forall j :: i < j < |errors| ==> errors[j].qubit != errors[i].qubit
    ensures errors[i].qubit in InitialState(errors)
    ensures InitialState(errors)[errors[i].qubit] == errors[i].kind
  {
    if i < |errors| - 1 {
      var init := errors[..|errors| - 1];
      assert init[i] == errors[i];
      forall j | i < j < |init| ensures init[j].qubit != init[i].qubit {
        assert init[j] == errors[j];
      }
      InitialStateLastWins(init, i);
    }
  }
}
