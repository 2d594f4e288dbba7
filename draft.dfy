/**
  The CNOT behaviour of engine.py as it stands, kept beside the rule the
  tests assert: the live apply_gate_rules passes every non-H gate through
  unchanged, and the CNOT branch exists only as a commented-out draft.
 */
module Draft {
  import opened PauliErrors
  import opened Circuit
  import opened Engine
  import EngineProperties

  /** The live rule table: H is rewritten, any other gate returns the copy unchanged. */
  function LiveGateRule(g: Gate, s: ErrorState): (r: ErrorState)
    ensures r.Keys == s.Keys
    ensures forall k :: k in s && !(g.H? && k == g.q) ==> r[k] == s[k]
    ensures g.H? ==> r == GateRule(g, s)
  {
    match g
    case H(q) => HRule(s, q)
    case CNOT(_, _) => s
  }

  /** The live rule leaves {0:X} unchanged under CNOT(0,1), where the tested rule spreads X to qubit 1. */
  lemma LiveCnotDoesNotSpread()
    ensures LiveGateRule(CNOT(0, 1), map[0 := X]) == map[0 := X]
    ensures GateRule(CNOT(0, 1), map[0 := X]) == map[0 := X, 1 := X]
    ensures LiveGateRule(CNOT(0, 1), map[0 := X]) != GateRule(CNOT(0, 1), map[0 := X])
  {
  }

  /**
    For a well-formed gate, the live rule agrees with the tested rule exactly
    when the gate is H, or the CNOT has nothing to spread, or both of its
    endpoints already carry Y.
   */
  lemma LiveAgreesWithTested(g: Gate, s: ErrorState)
    requires WellFormed(g)
    ensures LiveGateRule(g, s) == GateRule(g, s) <==>
            g.H? || (!HasX(s, g.c) && !HasZ(s, g.t)) ||
            (g.c in s && g.t in s && s[g.c] == Y && s[g.t] == Y)
  {
    if g.CNOT? {
      EngineProperties.CnotFixedPoint(s, g.c, g.t);
    }
  }

  /** What running the draft does: a finished state, or the KeyError raised on reading an absent qubit. */
  datatype DraftOutcome = Done(state: ErrorState) | KeyError(qubit: nat)

  /**
    The commented-out CNOT draft, read as written: the X block on the
    control runs first and the Z block on the target then reads the state
    the first block left. Each block indexes the other endpoint without
    checking that it is present, and the last line of the Z block compares
    instead of assigning.
   */
  function DraftCnot(s: ErrorState, c: nat, t: nat): (o: DraftOutcome)
    ensures o.KeyError? ==> o.qubit !in s && (o.qubit == c || o.qubit == t)
    ensures o.Done? ==> forall k :: k != c && k != t ==> (k in o.state <==> k in s)
    ensures o.Done? ==> forall k :: k in s && k != c && k != t ==> o.state[k] == s[k]
  {
    var afterX :=
      if c in s && s[c] == X then
        if t !in s then KeyError(t)
        else if s[t] == X then Done(s - {t})
        else if s[t] == Z then Done(s[t := Y])
        else Done(s[t := X])
      else Done(s);
    match afterX
    case KeyError(q) => KeyError(q)
    case Done(m) =>
      if t in m && m[t] == Z then
        if c !in m then KeyError(c)
        else if m[c] == Z then Done(m - {c})
        else if m[c] == X then Done(m[c := Y])
        else Done(m)
      else Done(m)
  }

  /** An X on the control with nothing on the target makes the draft raise, where the tests expect X to spread. */
  lemma DraftRaisesOnAbsentTarget(s: ErrorState, c: nat, t: nat)
    requires c in s && s[c] == X && t !in s
    ensures DraftCnot(s, c, t) == KeyError(t)
    ensures CnotRule(s, c, t) == s[t := X]
  {
  }

  /** A Z on the target with nothing on the control makes the draft raise, where the tests expect Z to spread. */
  lemma DraftRaisesOnAbsentControl(s: ErrorState, c: nat, t: nat)
    requires c != t && c !in s && t in s && s[t] == Z
    ensures DraftCnot(s, c, t) == KeyError(c)
    ensures CnotRule(s, c, t) == s[c := Z]
  {
  }

  /**
    X on the control and Z on the target: the draft's first block turns the
    target into Y, so its second block no longer sees a Z and the control
    stays X; the tested rule makes both Y.
   */
  lemma DraftBlocksInSequence(s: ErrorState, c: nat, t: nat)
    requires c != t && c in s && t in s && s[c] == X && s[t] == Z
    ensures DraftCnot(s, c, t) == Done(s[t := Y])
    ensures CnotRule(s, c, t) == s[c := Y][t := Y]
    ensures DraftCnot(s, c, t) != Done(CnotRule(s, c, t))
  {
    assert s[c := Y][t := Y][c] == Y;
  }

  /**
    X on the control and Y on the target: the draft's catch-all branch
    writes X on the target, whereas the tested rule makes both endpoints Y.
   */
  lemma DraftYTargetBecomesX(s: ErrorState, c: nat, t: nat)
    requires c != t && c in s && t in s && s[c] == X && s[t] == Y
    ensures DraftCnot(s, c, t) == Done(s[t := X])
    ensures CnotRule(s, c, t) == s[c := Y][t := Y]
    ensures DraftCnot(s, c, t) != Done(CnotRule(s, c, t))
  {
    assert s[c := Y][t := Y][c] == Y;
  }

  /**
    A Y on the control never spreads under the draft, whose first block
    asks for exactly X: with no Z component on the target the draft leaves
    the state as it was, while the tested rule adds an X onto the target.
   */
  lemma DraftYControlDoesNotSpread(s: ErrorState, c: nat, t: nat)
    requires c != t && c in s && s[c] == Y && !HasZ(s, t)
    ensures DraftCnot(s, c, t) == Done(s)
    ensures CnotRule(s, c, t) == MulX(s, t)
    ensures t !in s ==> CnotRule(s, c, t) == s[t := X]
    ensures t in s ==> CnotRule(s, c, t) == s - {t}
    ensures DraftCnot(s, c, t) != Done(CnotRule(s, c, t))
  {
    assert (t in CnotRule(s, c, t)) != (t in s);
  }

  /**
    A Y on the target never spreads under the draft, whose second block
    asks for exactly Z: with no X component on the control the draft leaves
    the state as it was, while the tested rule adds a Z onto the control.
   */
  lemma DraftYTargetDoesNotSpread(s: ErrorState, c: nat, t: nat)
    requires c != t && t in s && s[t] == Y && !HasX(s, c)
    ensures DraftCnot(s, c, t) == Done(s)
    ensures CnotRule(s, c, t) == MulZ(s, c)
    ensures c !in s ==> CnotRule(s, c, t) == s[c := Z]
    ensures c in s ==> CnotRule(s, c, t) == s - {c}
    ensures DraftCnot(s, c, t) != Done(CnotRule(s, c, t))
  {
    assert (c in CnotRule(s, c, t)) != (c in s);
  }

  /** The comparison on the draft's last line: a Y control with a Z target is left as it was. */
  lemma DraftComparisonIsNoOp(s: ErrorState, c: nat, t: nat)
    requires c != t && c in s && t in s && s[c] == Y && s[t] == Z
    ensures DraftCnot(s, c, t) == Done(s)
    ensures CnotRule(s, c, t) == s[t := Y]
    ensures DraftCnot(s, c, t) != Done(CnotRule(s, c, t))
  {
    assert CnotRule(s, c, t)[t] == Y;
  }
}
