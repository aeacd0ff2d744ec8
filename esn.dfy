/** `ESNBase`: one reservoir, one readout, a transient length and the flag
    that decides whether the next `fit` washes the reservoir out. */
module Esn {
  import opened Wrappers
  import opened Slicing
  import opened Reservoirs
  import opened Readouts
  import Protocol

  /** The transient length `ESNBase` and every subclass use when none is given. */
  const DefaultTransient: int := 30

  /** What a `fit` made with the flag at `initialState` passes on of a sequence:
      the part after the transient on a fresh call, all of it otherwise. */
  function Trimmed<T>(initialState: bool, transient: int, s: seq<T>): seq<T>
  {
    if initialState then Drop(s, transient) else s
  }

  /** A washout over `input[:t]` followed by a forward over `input[t:]` leaves
      the reservoir where one forward over all of `input` would, and yields
      the outputs of that forward with the first `t` time steps dropped. */
  lemma WashoutThenForward<H, X, Y>(step: (H, X) -> (H, Y), h: H, input: seq<X>, t: int)
    ensures Run(step, Run(step, h, Take(input, t)).0, Drop(input, t)).0 == Run(step, h, input).0
    ensures Run(step, Run(step, h, Take(input, t)).0, Drop(input, t)).1 == Drop(Run(step, h, input).1, t)
  {
    RunAppend(step, h, Take(input, t), Drop(input, t));
  }

  class EsnBase<H, X, Y, W, Z> {
    const reservoir: Reservoir<H, X, Y>
    const readout: Readout<Y, Z, W>
    const transient: int
    /** `initial_state`: true until the first `fit` or `forward` after construction or reset. */
    var initialState: bool

    constructor (reservoir: Reservoir<H, X, Y>, readout: Readout<Y, Z, W>, transient: int := DefaultTransient)
      ensures this.reservoir == reservoir && this.readout == readout && this.transient == transient
      ensures initialState
    {
      this.reservoir := reservoir;
      this.readout := readout;
      this.transient := transient;
      initialState := true;
    }

    /** Fresh: washout over `input[:transient]`, forward over
        `input[transient:]`, readout fitted against `target[transient:]`.
        Running: forward over all of `input`, readout fitted against all of
        `target`. Either way the flag ends running, and the reservoir's hidden
        state ends where one run over all of `input` takes it. */
    method Fit(input: seq<X>, target: seq<Z>)
      modifies this, reservoir, readout
      ensures initialState == Protocol.Next(old(initialState), Protocol.FitCall)
      ensures reservoir.log == old(reservoir.log) +
        (if Protocol.WashesOut(old(initialState), Protocol.FitCall)
         then [WashedOut(Take(input, transient)), Forwarded(Drop(input, transient))]
         else [Forwarded(input)])
      ensures WashoutCount(reservoir.log) ==
        WashoutCount(old(reservoir.log)) + if Protocol.WashesOut(old(initialState), Protocol.FitCall) then 1 else 0
      ensures reservoir.hidden == Run(reservoir.step, old(reservoir.hidden), input).0
      ensures readout.fits == old(readout.fits) +
        [(Trimmed(old(initialState), transient, Run(reservoir.step, old(reservoir.hidden), input).1),
          Trimmed(old(initialState), transient, target))]
      ensures readout.weights == Some(readout.solve(old(readout.weights),
        Trimmed(old(initialState), transient, Run(reservoir.step, old(reservoir.hidden), input).1),
        Trimmed(old(initialState), transient, target)))
    {
      ghost var h0 := reservoir.hidden;
      ghost var log0 := reservoir.log;
      if initialState {
        initialState := false;
        reservoir.Washout(Take(input, transient));
        var mapped := reservoir.Forward(Drop(input, transient));
        readout.Fit(mapped, Drop(target, transient));
        WashoutThenForward(reservoir.step, h0, input, transient);
        assert reservoir.log == log0 + [WashedOut(Take(input, transient))] + [Forwarded(Drop(input, transient))];
        WashoutCountSnoc(log0, WashedOut(Take(input, transient)));
        WashoutCountSnoc(log0 + [WashedOut(Take(input, transient))], Forwarded(Drop(input, transient)));
      } else {
        var mapped := reservoir.Forward(input);
        readout.Fit(mapped, target);
        WashoutCountSnoc(log0, Forwarded(input));
      }
    }

    /** Marks the orchestrator running, whatever it was, and returns the
        readout's predictions for the reservoir's outputs over `input`. The
        readout is not modified. */
    method Forward(input: seq<X>) returns (r: Result<seq<Z>>)
      modifies this, reservoir
      ensures initialState == Protocol.Next(old(initialState), Protocol.ForwardCall)
      ensures reservoir.log == old(reservoir.log) + [Forwarded(input)]
      ensures WashoutCount(reservoir.log) == WashoutCount(old(reservoir.log))
      ensures reservoir.hidden == Run(reservoir.step, old(reservoir.hidden), input).0
      ensures r == readout.Predict(Run(reservoir.step, old(reservoir.hidden), input).1)
    {
      initialState := false;
      ghost var log0 := reservoir.log;
      var mapped := reservoir.Forward(input);
      r := readout.Predict(mapped);
      WashoutCountSnoc(log0, Forwarded(input));
    }

    /** Makes the orchestrator fresh again and resets the reservoir's hidden
        state; the readout's weights are kept. */
    method ResetHidden()
      modifies this, reservoir
      ensures initialState == Protocol.Next(old(initialState), Protocol.ResetCall)
      ensures reservoir.hidden == reservoir.initial
      ensures reservoir.log == old(reservoir.log) + [HiddenReset]
      ensures WashoutCount(reservoir.log) == WashoutCount(old(reservoir.log))
    {
      initialState := true;
      ghost var log0 := reservoir.log;
      reservoir.ResetHidden();
      WashoutCountSnoc(log0, HiddenReset);
    }
  }

  /** One call a caller makes on an orchestrator, with its arguments. */
  datatype Request<X, Z> = FitRequest(input: seq<X>, target: seq<Z>) | ForwardRequest(input: seq<X>) | ResetRequest

  function CallOf<X, Z>(r: Request<X, Z>): Protocol.Call
  {
    match r
    case FitRequest(_, _) => Protocol.FitCall
    case ForwardRequest(_) => Protocol.ForwardCall
    case ResetRequest => Protocol.ResetCall
  }

  function CallsOf<X, Z>(rs: seq<Request<X, Z>>): seq<Protocol.Call>
  {
    seq(|rs|, i requires 0 <= i < |rs| => CallOf(rs[i]))
  }

  /** A caller's sequence of calls on `e`, made in order. The reservoir sees
      exactly as many washouts as the flag machine predicts for those calls;
      so, between resets, at most one, and one only when the first call is a
      `fit` made while fresh. */
  method Serve<H, X, Y, W, Z>(e: EsnBase<H, X, Y, W, Z>, rs: seq<Request<X, Z>>)
    modifies e, e.reservoir, e.readout
    ensures WashoutCount(e.reservoir.log) ==
      old(WashoutCount(e.reservoir.log)) + Protocol.Washouts(old(e.initialState), CallsOf(rs))
    ensures Protocol.ResetCall !in CallsOf(rs) ==>
      WashoutCount(e.reservoir.log) <= old(WashoutCount(e.reservoir.log)) + 1
  {
    ghost var total := Protocol.Washouts(e.initialState, CallsOf(rs));
    var i := 0;
    while i < |rs|
      invariant 0 <= i <= |rs|
      invariant WashoutCount(e.reservoir.log) + Protocol.Washouts(e.initialState, CallsOf(rs)[i..]) ==
        old(WashoutCount(e.reservoir.log)) + total
    {
      assert CallsOf(rs)[i..][1..] == CallsOf(rs)[i + 1..];
      match rs[i] {
        case FitRequest(input, target) => e.Fit(input, target);
        case ForwardRequest(input) => var _ := e.Forward(input);
        case ResetRequest => e.ResetHidden();
      }
      i := i + 1;
    }
    if Protocol.ResetCall !in CallsOf(rs) {
      Protocol.AtMostOneWashoutBetweenResets(old(e.initialState), CallsOf(rs));
    }
  }
}
