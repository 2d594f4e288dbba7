# SpiderTrace error-propagation engine in Dafny

SpiderTrace pushes a Pauli error (X, Z or Y on some qubits; an absent qubit
carries identity) forward through a circuit of Hadamard and CNOT gates. It
returns a trace with one snapshot per gate. This project models that engine:

- `error.dfy`, module `PauliErrors`: the labels `X | Z | Y`, the injected
  `PauliError(qubit, kind)` record, the sparse state `map<nat, Pauli>`, and
  the initial state built from a list of injected errors, where the last
  entry for a qubit wins.
- `circuit.dfy`, module `Circuit`: `Gate = H(q) | CNOT(c, t)`, with control
  first and target second. The predicate `WellFormed` says a CNOT's two
  operands differ. The source never checks this, so the engine does not
  require it. The CNOT lemmas that need distinct operands require `c != t`,
  and the gate-level lemma `Draft.LiveAgreesWithTested` requires
  `WellFormed`.
- `engine.dfy`, module `Engine`: the H rule, the CNOT rule the tests assert,
  the rule table `GateRule`, and the imperative `ApplyGateRules`, which
  copies the state and rewrites the copy key by key. It also holds the
  specification of the driver (`Trace`, and the fold `Run`) and the
  imperative driver `PropagateErrors`, whose loop appends one `TraceStep`
  per gate.
- `engine_properties.dfy`, module `EngineProperties`: H is an involution and
  only touches its qubit. The CNOT case table covers spreading, merging into
  Y, cancellation and the frame. The trace has one step per gate, in
  circuit order, with each step chained to the one before. The scenarios of
  `tests/test_simple.py` are restated through the driver.
- `draft.dfy`, module `Draft`: the CNOT behaviour of `engine.py` as written,
  both the live pass-through and the commented-out draft. For the live
  code, an all-inputs lemma states exactly when it agrees with the tested
  rule. For the draft, lemmas give families of inputs on which it departs
  from the tested rule.

Where the code and the tests disagree on CNOT, the driver uses the rule the
tests assert. The live code returns an unchanged copy for every gate other
than H. The commented-out draft has defects. Both are modelled in `Draft`
and listed under "## Findings".

In the CNOT rule, a lone spreading effect multiplies the other endpoint's
label by the incoming component, ignoring phase (`MulX`, `MulZ`). Inside
the rule only the identity and cancelling cases of that product are reached,
because a Z on the target or an X on the control sends the rule to the
both-Y branch. An existing Y on the other endpoint is not split into its X
and Z parts, as in the source.

## Model

| member | source | states |
|---|---|---|
| PauliErrors.InitialState | spidertrace/engine.py:18 | the initial state's keys are exactly the qubits listed, and each qubit's label is the kind of some listed entry for it |
| PauliErrors.InitialStateLastWins | spidertrace/engine.py:18 | when a qubit is listed more than once, its label is the kind of its last entry |
| Engine.HSwap | spidertrace/engine.py:42-48 | conjugation by H maps X to Z and Z to X and fixes Y, each as an if-and-only-if |
| Engine.HRule | spidertrace/engine.py:37-48 | H on q keeps the key set, conjugates q's label, and leaves every other qubit's label as it was; an absent q gets no key |
| Engine.MulX | spidertrace/engine.py:53-59 | adding an X component flips whether the qubit carries X, keeps whether it carries Z, and changes no other qubit |
| Engine.MulZ | spidertrace/engine.py:60-66 | adding a Z component flips whether the qubit carries Z, keeps whether it carries X, and changes no other qubit |
| Engine.CnotRule | tests/test_simple.py:57-114 | CNOT changes only its control and target: other qubits keep their presence and labels, and the key set grows by at most c and t |
| Engine.ApplyGateRules | spidertrace/engine.py:28-68 | the in-place rewrite of a copy of the state yields the rule table's state for that gate |
| Engine.Trace | spidertrace/engine.py:17-26 | the specified trace has one step per gate |
| Engine.PropagateErrors | spidertrace/engine.py:11-26 | the driver returns one step per gate; step i records gate i; step 0 is gate 0's rule applied to the initial state; step i+1 is gate i+1's rule applied to step i's state; the whole trace equals the specified trace |
| EngineProperties.HInvolution | spidertrace/engine.py:43-46 | applying H twice on the same qubit restores the original state |
| EngineProperties.HAbsentUnchanged | spidertrace/engine.py:42 | H on a qubit with no error returns the state unchanged |
| EngineProperties.HSingleQubitCases | tests/test_simple.py:17-54 | H sends {0:X} to {0:Z} and {0:Z} to {0:X}, and fixes {0:Y} |
| EngineProperties.MulXInvolution | spidertrace/engine.py:53-59 | adding an X component twice restores the state, since X*X is the identity |
| EngineProperties.MulZInvolution | spidertrace/engine.py:60-66 | adding a Z component twice restores the state, since Z*Z is the identity |
| EngineProperties.CnotBothComponents | tests/test_simple.py:97-114 | X on the control with Z on the target makes both Y and adds or removes no key |
| EngineProperties.CnotXSpread | tests/test_simple.py:57-74 | X on the control alone: the control's label is kept; an absent target becomes X, and an X target is removed |
| EngineProperties.CnotZSpread | tests/test_simple.py:77-94 | Z on the target alone: the target's label is kept; an absent control becomes Z, and a Z control is removed |
| EngineProperties.CnotNoSpread | tests/test_simple.py:133-139 | with no X on the control and no Z on the target, CNOT returns the state unchanged |
| EngineProperties.CnotFixedPoint | tests/test_simple.py:57-139 | CNOT leaves a state unchanged exactly when nothing spreads or both endpoints are already Y |
| EngineProperties.CnotCancelX | spidertrace/engine.py:53-55 | X on both control and target removes the target's key and changes nothing else |
| EngineProperties.CnotCancelZ | spidertrace/engine.py:60-62 | Z on both control and target removes the control's key and changes nothing else |
| EngineProperties.CnotTestedCases | tests/test_simple.py:57-114 | CNOT(0,1) sends {0:X} to {0:X,1:X}, {1:Z} to {0:Z,1:Z} and {0:X,1:Z} to {0:Y,1:Y}, and fixes {0:Z} |
| EngineProperties.CnotNotSelfInverse | tests/test_simple.py:97-114 | CNOT applied twice to {0:X,1:Z} gives {0:Y,1:Y}, not the original state |
| EngineProperties.TraceGateAt | spidertrace/engine.py:20-23 | step i of the trace records the i-th gate of the circuit |
| EngineProperties.TraceFirstStep | spidertrace/engine.py:18-23 | step 0's state is the first gate's rule applied to the initial state |
| EngineProperties.TraceChaining | spidertrace/engine.py:20-24 | step i+1's state is gate i+1's rule applied to step i's state |
| EngineProperties.RunAppend | spidertrace/engine.py:20-24 | running two circuits one after the other equals running their concatenation |
| EngineProperties.TraceAtIsRun | spidertrace/engine.py:20-24 | step i's state is the fold of the rule table over the first i+1 gates |
| EngineProperties.TraceLastIsRun | spidertrace/engine.py:20-26 | the last snapshot is the final state of the whole circuit |
| EngineProperties.ScenarioHadamard | tests/test_simple.py:17-54 | the driver turns [H(0)] with X on qubit 0 into the single step {0:Z}, and with Z into {0:X} |
| EngineProperties.ScenarioCnot | tests/test_simple.py:57-114 | the driver on [CNOT(0,1)] gives {0:X,1:X}, {0:Z,1:Z} and {0:Y,1:Y} for the three tested injections |
| EngineProperties.ScenarioMultiGate | tests/test_simple.py:117-141 | the driver on [H(0), CNOT(0,1)] with X on qubit 0 gives {0:Z} after each of the two steps |
| Draft.LiveGateRule | spidertrace/engine.py:37-68 | the live rule table never adds or removes a key and changes no label except the H qubit's, so every CNOT returns the state unchanged; on H it agrees with the tested rule table |
| Draft.LiveAgreesWithTested | spidertrace/engine.py:37-68 | for a well-formed gate, the live rule equals the tested rule exactly when the gate is H, or the CNOT has nothing to spread, or both endpoints already carry Y |
| Draft.LiveCnotDoesNotSpread | spidertrace/engine.py:49-68 | under the live code CNOT(0,1) leaves {0:X} unchanged, while the tested rule gives {0:X,1:X} |
| Draft.DraftCnot | spidertrace/engine.py:49-66 | the draft raises KeyError only for an absent control or target; when it finishes, qubits other than those two keep their presence and their labels |
| Draft.DraftRaisesOnAbsentTarget | spidertrace/engine.py:53-54 | the draft raises KeyError on an X control with no error on the target, where the tested rule writes X on the target |
| Draft.DraftRaisesOnAbsentControl | spidertrace/engine.py:60-61 | the draft raises KeyError on a Z target with no error on the control, where the tested rule writes Z on the control |
| Draft.DraftBlocksInSequence | spidertrace/engine.py:53-66 | the draft runs X on control with Z on target block by block and ends with the control still X and the target Y; the tested rule makes both Y |
| Draft.DraftYTargetBecomesX | spidertrace/engine.py:53-59 | with X on the control and Y on the target, the draft's catch-all branch writes X on the target; the tested rule makes both Y |
| Draft.DraftYControlDoesNotSpread | spidertrace/engine.py:53 | the draft leaves a Y control, with no Z component on the target, unchanged, while the tested rule writes X on an absent target or removes an X one |
| Draft.DraftYTargetDoesNotSpread | spidertrace/engine.py:60 | the draft leaves a Y target, with no X component on the control, unchanged, while the tested rule writes Z on an absent control or removes a Z one |
| Draft.DraftComparisonIsNoOp | spidertrace/engine.py:63-66 | the draft leaves a Y control with a Z target unchanged, because its last line compares instead of assigning |

## Left out

- Diagram drawing and file output (spidertrace/zx_visual.py, spidertrace/display_all_zx.py): these build graphs with an external library and write images.
- tests/test_custom.py, tests/test_zx_visual.py and tests/test_engine.py: they read input, print or save files, and assert nothing.
- spidertrace/__init__.py only re-exports names.
- Gate validation: the code never checks a gate's kind, arity or operands. The closed `Gate` variant makes a bad kind or arity impossible to write. The source itself returns the copy unchanged for any name other than "H" (engine.py:39, 68), raises IndexError for an H with no operands (engine.py:40), and uses only the first operand of an H with several. A CNOT whose control equals its target is representable, and `Circuit.WellFormed` names the condition, but no operation rejects it. The CNOT lemmas that need distinct operands require `c != t`.
- Label strings: the source stores labels as strings. The closed `Pauli` type leaves out strings other than "X", "Z" and "Y", which the live H rule would pass through unchanged.
- Global phase and sign of Paulis, and qubit-range checks: the code tracks neither.
- Negative qubit indices: the source's dictionary would store a negative index like any other key. The model types qubit indices as `nat`, so negative indices cannot be written. The rules treat every key alike, so this changes nothing for non-negative indices.
- CNOT self-inverse: no code or test claims it, and it is false under the tested rule (`EngineProperties.CnotNotSelfInverse`).
- Determinism, and the fact that the input map is not altered: Dafny functions and map values give both by construction. The `copy()` at engine.py:23 and :37 therefore has no aliasing to model.
- The `Gate` annotation at engine.py:28 refers to a name the module never imports. This is a Python name-resolution detail with no bearing on the rules.

## Findings

| source | as written | input that shows it | evidently intended | confidence | as-written member | corrected member |
|---|---|---|---|---|---|---|
| spidertrace/engine.py:49-68 | the CNOT branch is commented out, so every CNOT returns an unchanged copy | CNOT(0,1) on {0:X} gives {0:X} | {0:X,1:X}, as tests/test_simple.py:57-74 asserts | not executed | Draft.LiveCnotDoesNotSpread | EngineProperties.CnotXSpread |
| spidertrace/engine.py:54 | the draft reads the target's label without checking that the key exists | CNOT(0,1) on {0:X} raises KeyError(1) | an absent target becomes X | not executed | Draft.DraftRaisesOnAbsentTarget | EngineProperties.CnotXSpread |
| spidertrace/engine.py:61 | the draft reads the control's label without checking that the key exists | CNOT(0,1) on {1:Z} raises KeyError(0) | an absent control becomes Z | not executed | Draft.DraftRaisesOnAbsentControl | EngineProperties.CnotZSpread |
| spidertrace/engine.py:53-66 | the two blocks run in sequence, and the second one reads the first one's output | CNOT(0,1) on {0:X,1:Z} gives {0:X,1:Y} | {0:Y,1:Y}, as tests/test_simple.py:97-114 asserts | not executed | Draft.DraftBlocksInSequence | EngineProperties.CnotBothComponents |
| spidertrace/engine.py:66 | `==` compares where an assignment was meant, so the control is never written | CNOT(0,1) on {0:Y,1:Z} gives {0:Y,1:Z} | an assignment, which alone would give {0:Z,1:Z}; the tested rule, which counts a Y control as carrying X, gives {0:Y,1:Y} | not executed | Draft.DraftComparisonIsNoOp | EngineProperties.CnotBothComponents |
| spidertrace/engine.py:58-59 | the draft's catch-all branch writes X on a target that carries Y | CNOT(0,1) on {0:X,1:Y} gives {0:X,1:X} | {0:Y,1:Y}, since a Y target carries a Z component | not executed | Draft.DraftYTargetBecomesX | EngineProperties.CnotBothComponents |
| spidertrace/engine.py:53 | the draft's first guard asks for exactly X on the control, so a Y control never spreads | CNOT(0,1) on {0:Y} gives {0:Y} | {0:Y,1:X}, since Y carries an X component; plausible only, because engine.py:33 and error.py:8 document only X and Z labels | not executed | Draft.DraftYControlDoesNotSpread | EngineProperties.CnotXSpread |
| spidertrace/engine.py:60 | the draft's second guard asks for exactly Z on the target, so a Y target never spreads | CNOT(0,1) on {1:Y} gives {1:Y} | {0:Z,1:Y}, since Y carries a Z component; plausible only, because engine.py:33 and error.py:8 document only X and Z labels | not executed | Draft.DraftYTargetDoesNotSpread | EngineProperties.CnotZSpread |
