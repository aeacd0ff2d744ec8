/** The reservoir the orchestrator owns, seen only through what the
    orchestrator relies on: it keeps a hidden state, maps a sequence one time
    step after another (`forward`), can advance over a sequence while
    discarding what it produces (`washout`), and can return to its initial
    hidden state (`reset_hidden`). The recurrence itself (leaky integrator,
    spectral-radius scaling, deep/grouped composition) is the parameter
    `step`; every call is recorded in a ghost event log. */
module Reservoirs {

  /** One call the reservoir received. */
  datatype Event<X> = WashedOut(xs: seq<X>) | Forwarded(xs: seq<X>) | HiddenReset

  /** Running `step` over `xs` from hidden state `h`: the final hidden state
      and one output per time step. */
  function Run<H, X, Y>(step: (H, X) -> (H, Y), h: H, xs: seq<X>): (r: (H, seq<Y>))
    ensures |r.1| == |xs|
    decreases |xs|
  {
    if xs == [] then (h, [])
    else
      var (h', ys) := Run(step, h, xs[..|xs| - 1]);
      var (h'', y) := step(h', xs[|xs| - 1]);
      (h'', ys + [y])
  }

  /** Running over `a + b` is running over `a`, then over `b` from where `a` left the hidden state. */
  lemma {:induction false} RunAppend<H, X, Y>(step: (H, X) -> (H, Y), h: H, a: seq<X>, b: seq<X>)
    ensures Run(step, h, a + b).0 == Run(step, Run(step, h, a).0, b).0
    ensures Run(step, h, a + b).1 == Run(step, h, a).1 + Run(step, Run(step, h, a).0, b).1
    decreases |b|
  {
    if b == [] {
      assert a + b == a;
    } else {
      var b' := b[..|b| - 1];
      assert (a + b)[..|a + b| - 1] == a + b';
      assert (a + b)[|a + b| - 1] == b[|b| - 1];
      RunAppend(step, h, a, b');
    }
  }

  /** The reservoir is causal: the outputs for a prefix of the input are the
      prefix of the outputs for the whole input. */
  lemma RunPrefix<H, X, Y>(step: (H, X) -> (H, Y), h: H, xs: seq<X>, k: nat)
    requires k <= |xs|
    ensures Run(step, h, xs[..k]).1 == Run(step, h, xs).1[..k]
  {
    assert xs[..k] + xs[k..] == xs;
    RunAppend(step, h, xs[..k], xs[k..]);
  }

  /** Number of washouts in an event log. */
  function WashoutCount<X>(log: seq<Event<X>>): nat
  {
    if log == [] then 0
    else WashoutCount(log[..|log| - 1]) + (if log[|log| - 1].WashedOut? then 1 else 0)
  }

  lemma WashoutCountSnoc<X>(log: seq<Event<X>>, e: Event<X>)
    ensures WashoutCount(log + [e]) == WashoutCount(log) + if e.WashedOut? then 1 else 0
  {
    assert (log + [e])[..|log + [e]| - 1] == log;
  }

  class Reservoir<H, X, Y> {
    /** One time step of the recurrence: new hidden state and this step's output. */
    const step: (H, X) -> (H, Y)
    /** The hidden state `reset_hidden` returns to. */
    const initial: H
    var hidden: H
    ghost var log: seq<Event<X>>

    constructor (step: (H, X) -> (H, Y), initial: H)
      ensures this.step == step && this.initial == initial
      ensures hidden == initial && log == []
    {
      this.step := step;
      this.initial := initial;
      hidden := initial;
      log := [];
    }

    /** Maps `xs` to one output per time step, advancing the hidden state. */
    method Forward(xs: seq<X>) returns (ys: seq<Y>)
      modifies this
      ensures (hidden, ys) == Run(step, old(hidden), xs)
      ensures log == old(log) + [Forwarded(xs)]
    {
      ghost var h0 := hidden;
      ys := [];
      var i := 0;
      while i < |xs|
        invariant 0 <= i <= |xs|
        invariant (hidden, ys) == Run(step, h0, xs[..i])
        invariant log == old(log)
      {
        assert xs[..i + 1][..i] == xs[..i];
        var (h, y) := step(hidden, xs[i]);
        hidden, ys := h, ys + [y];
        i := i + 1;
      }
      assert xs[..|xs|] == xs;
      log := log + [Forwarded(xs)];
    }

    /** Advances the hidden state over `xs` exactly as `Forward` would, producing nothing. */
    method Washout(xs: seq<X>)
      modifies this
      ensures hidden == Run(step, old(hidden), xs).0
      ensures log == old(log) + [WashedOut(xs)]
    {
      ghost var h0 := hidden;
      var i := 0;
      while i < |xs|
        invariant 0 <= i <= |xs|
        invariant hidden == Run(step, h0, xs[..i]).0
        invariant log == old(log)
      {
        assert xs[..i + 1][..i] == xs[..i];
        var (h, _) := step(hidden, xs[i]);
        hidden := h;
        i := i + 1;
      }
      assert xs[..|xs|] == xs;
      log := log + [WashedOut(xs)];
    }

    method ResetHidden()
      modifies this
      ensures hidden == initial
      ensures log == old(log) + [HiddenReset]
    {
      hidden := initial;
      log := log + [HiddenReset];
    }
  }
}
