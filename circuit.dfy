/** Gates of a stabilizer circuit. */
module Circuit {

  /**
    A gate: a Hadamard on one qubit, or a CNOT with its control first and
    its target second. The closed variant fixes each kind's arity.
   */
  datatype Gate = H(q: nat) | CNOT(c: nat, t: nat)

  /** A CNOT whose control and target are the same qubit is degenerate. */
  predicate WellFormed(g: Gate)
  {
    g.CNOT? ==> g.c != g.t
  }
}
