# Echo State Network orchestrator

A Dafny model of `ESNBase`, the object that couples one reservoir and one
readout in the AutoESN library, and of the readout widths its four
subclass constructors compute.

`ESNBase` keeps a transient length and one flag, `initial_state`. The flag
is true after construction and after `reset_hidden`. A `fit` made while it
is true sends `input[:transient]` to the reservoir's `washout`, maps
`input[transient:]` through the reservoir and fits the readout against
`target[transient:]`. Every other `fit` maps the whole input and fits
against the whole target. `forward` always clears the flag, then returns
`readout(reservoir(input))`. `reset_hidden` sets the flag and resets the
reservoir, never the readout.

Modules:

- `Slicing`: Python's `s[:t]` and `s[t:]` for any integer `t`. A bound past
  the end is clamped to the length. A negative bound counts from the end.
  The transient is a plain Python `int` that nothing checks, so both cases
  are modelled.
- `Reservoirs`: the reservoir as a class. It holds a hidden state and a
  ghost log of the calls it received. It is parametrised by one time step,
  `step: (H, X) -> (H, Y)`. `Run` is the specification of mapping a whole
  sequence. `Forward` and `Washout` are loops proved against `Run`.
- `Readouts`: the readout as a class. `solve` computes new weights from the
  old weights and one batch. `apply` maps one time step's features.
  `Predict` fails with `NotFitted` before the first fit.
- `Esn`: `ESNBase` as the class `EsnBase`, with the methods `Fit`, `Forward`
  and `ResetHidden`. It also holds the main lemma: washing out `input[:t]`
  and then mapping `input[t:]` gives the same result as mapping all of
  `input` and dropping the first `t` outputs. The final hidden state is the
  same too. `Serve` makes a caller's sequence of calls on one orchestrator and
  ties the washouts its reservoir logs to the `Protocol` count.
- `Protocol`: the fresh/running flag as a pure state machine, and a count of
  the washouts a sequence of calls triggers.
- `Shapes`: the reservoir topology each subclass constructor builds, and the
  readout width it passes. `Consistent` says the readout's width equals the
  reservoir's per-step output width.

## Model

| member | source | states |
|---|---|---|
| Slicing.Take | esn/esn.py:22 | `input[:t]` is a prefix of the input. Its length is `t` when `0 <= t <= len`, and it is the whole input when `t >= len`. A negative `t` counts from the end, clamped at 0. |
| Slicing.Drop | esn/esn.py:22-24 | `input[:t] + input[t:] == input` for every `t`. The suffix is empty when `t` exceeds the length. Its element `i` is the input's element at the split point plus `i`. |
| Slicing.DropAligned | esn/esn.py:23-24 | An input and a target of equal length are cut at the same time step, so `input[t:]` and `target[t:]` stay aligned. |
| Reservoirs.Run | esn/esn.py:23 | The reservoir produces exactly one output per input time step. |
| Reservoirs.RunAppend | esn/esn.py:22-23 | Mapping `a + b` equals mapping `a` and then `b` from the hidden state `a` left: the hidden states agree and the outputs concatenate. |
| Reservoirs.RunPrefix | esn/esn.py:31 | The reservoir is causal: the outputs for a prefix of the input are the same prefix of the outputs. |
| Reservoirs.Reservoir.Forward | esn/esn.py:26 | Returns `Run`'s outputs, moves the hidden state to `Run`'s final state, and logs one forward call of exactly `xs`. |
| Reservoirs.Reservoir.Washout | esn/esn.py:22 | Advances the hidden state exactly as a forward over `xs` would, returns nothing, and logs one washout of exactly `xs`. |
| Reservoirs.Reservoir.ResetHidden | esn/esn.py:37 | The hidden state returns to its initial value, and one reset is logged. |
| Readouts.Readout.Fit | esn/esn.py:24 | The weights become `solve(old weights, states, targets)`, and the batch is logged. |
| Readouts.Readout.Predict | esn/esn.py:33 | Fails if and only if the readout was never fitted. Otherwise it gives one prediction per time step, each the weights applied to that step's features. |
| Esn.WashoutThenForward | esn/esn.py:20-24 | Washing out `input[:t]` and then mapping `input[t:]` leaves the hidden state where one run over `input` would. The outputs are that run's outputs with the first `t` steps dropped. |
| Esn.EsnBase.constructor | esn/esn.py:11-17 | A new orchestrator holds the given reservoir and readout, is fresh, and its transient defaults to 30. |
| Esn.EsnBase.Fit | esn/esn.py:19-27 | Fresh: logs a washout of exactly `input[:transient]` and then a forward of exactly `input[transient:]`, and fits the readout on that forward's outputs against `target[transient:]`. Running: logs a single forward of the whole input, no washout, and fits against the whole target. The flag ends running, the washout count grows by one only in the fresh case, and the hidden state ends where one run over the whole input takes it. |
| Esn.EsnBase.Forward | esn/esn.py:29-33 | The flag ends running whatever it was. One forward of `input` is logged and the washout count is unchanged. The result is the readout's prediction for the reservoir's outputs over `input`. The readout is outside the frame. |
| Esn.EsnBase.ResetHidden | esn/esn.py:35-37 | The flag ends fresh, the reservoir's hidden state is the initial one, and one reset is logged, with the washout count unchanged. The readout is outside the frame. |
| Esn.Serve | esn/esn.py:19-37 | A caller's sequence of `fit`/`forward`/`reset_hidden` calls on one orchestrator adds exactly as many washouts to the reservoir's log as the flag machine predicts, and at most one when the sequence holds no reset. |
| Protocol.NoWashoutWhileRunning | esn/esn.py:20-27 | From the running state, no sequence of `fit`/`forward` calls without a reset washes out. |
| Protocol.AtMostOneWashoutBetweenResets | esn/esn.py:19-37 | Between resets, any sequence of `fit`/`forward` calls washes out at most once. It washes out exactly once if and only if it starts fresh and its first call is a `fit`. |
| Protocol.ForwardSuppressesWashout | esn/esn.py:29-31 | A `forward` first means no later `fit` washes out until the next reset. |
| Protocol.WashoutsBoundedByResets | esn/esn.py:19-37 | Over any sequence of calls, the washouts number at most one for a fresh start plus one per reset. |
| Protocol.ResetIdempotent | esn/esn.py:35-37 | Two resets in a row leave the flag as one does, and every later sequence of calls washes out as often after either. |
| Shapes.CellsWidth | esn/esn.py:49-51 | A deep, grouped or group-of reservoir of `n` cells of `hidden` units emits `hidden * n` features per step. |
| Shapes.DeepMembersWidth | esn/esn.py:92-94 | A group of deep members emits `hidden` features for each layer of each member. |
| Shapes.DeepEsn | esn/esn.py:44-52 | `DeepESN`'s readout takes `hidden_size * num_layers` features, which is what its deep reservoir emits. |
| Shapes.GroupedEsn | esn/esn.py:54-63 | `GroupedESN`'s readout takes `hidden_size * groups` features, which is what its grouped reservoir emits. |
| Shapes.GroupOfEsn | esn/esn.py:65-74 | `GroupOfESN`'s readout takes `hidden_size * groups` features, which is what its group of cells emits. |
| Shapes.GroupDeepHomoAsWritten | esn/esn.py:86-96 | `GroupDeepHomo` as written: the readout takes `hidden_size * groups` features, while its group of deep members emits `hidden_size * sum(num_layers)`. |
| Shapes.GroupDeepHomoAsWrittenIgnoresDepth | esn/esn.py:92-95 | As written, `GroupDeepHomo`'s readout width does not depend on the per-member `num_layers`. |
| Shapes.GroupDeepHomoAsWrittenMismatch | esn/esn.py:86-96 | With `GroupDeepHomo`'s default arguments, the reservoir emits 1000 features but the readout takes 500. |
| Shapes.GroupDeepHomo | esn/esn.py:86-96 | Corrected `GroupDeepHomo`: the readout takes `hidden_size * sum(num_layers)` features, which is what the reservoir emits, for every argument. The reservoir is the one the source builds. |
| Shapes.GroupDeepHomoAgreesWhenShallow | esn/esn.py:92-95 | When every member has one layer and `groups` counts the members, the corrected width equals the source's. |

## Findings

| source | as written | input that shows it | evidently intended | confidence | as-written member | corrected member |
|---|---|---|---|---|---|---|
| esn/esn.py:92-95 | `GroupDeepHomo` sizes its readout `hidden_size * groups`, but its reservoir is a group of deep cells, one per entry of `num_layers`. Each member emits `hidden_size` features per layer, as `DeepESN` at line 51 shows, so the reservoir emits `hidden_size * sum(num_layers)`. `groups` does not reach the reservoir at all. | the defaults: `hidden_size=250, groups=2, num_layers=(2, 2)` give 1000 reservoir features against a readout of width 500 | readout width `hidden_size * sum(num_layers)` | medium, not executed; relies on the cell classes emitting every layer's state and concatenating members, which their files (not part of this model) would confirm | Shapes.GroupDeepHomoAsWritten, Shapes.GroupDeepHomoAsWrittenMismatch | Shapes.GroupDeepHomo |

## Left out

- Reservoir dynamics: the leaky-integrator step, the spectral-radius scaling and the weight initialisation are floating-point linear algebra in files that are not part of this model. The reservoir is any map that works one time step after another over a hidden state (`step`).
- The composite cells themselves: `Shapes.Width` assumes that a deep cell emits every layer's state and that grouped and group-of cells concatenate their members. That is how the width arithmetic of `DeepESN`, `GroupedESN` and `GroupOfESN` reads, and the cell files are not part of this model.
- Readouts.Readout.Predict: failing with `NotFitted` before the first `fit` is assumed of `SVDReadout`, whose file is not part of this model. The regularised least-squares solve is the parameter `solve`. It receives the previous weights, so a repeated `fit` may either refit from the newest batch or refine the earlier weights.
- Readouts.Readout.Fit: a readout `fit` that raises (shape mismatch, SVD not converging) is not modelled. `solve` is total.
- Shape errors: tensor shapes and dtypes are not modelled. Tensors are sequences over an abstract element type indexed by time. A target shorter or longer than the input is passed on as it is, as the source does.
- `to_cuda` (esn/esn.py:39-41): device placement, with no effect on the values computed.
- `FlexDeepESN` (esn/esn.py:77-84): the caller passes the readout, so there is no width arithmetic to state. Its orchestration is `EsnBase`'s.
- Constructor arguments that affect neither orchestration nor widths: `input_size`, `bias`, `initializer`, `activation`, `regularization`, `leaky_rate`, `act_radius`, `act_grow`.
- `nn.Module` registration and the `__call__` dispatch to `forward` are library plumbing.
- Protocol.ResetIdempotent: it is about the flag and later washouts. The reservoir's log still records two reset calls, and the reservoir's reset is called twice.
