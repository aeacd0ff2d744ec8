/** The orchestrator's two-regime flag as a pure state machine. The flag
    (`initial_state` in the source) is `true` when the orchestrator is fresh:
    just constructed or just reset. Only a `fit` made while fresh washes the
    reservoir out. */
module Protocol {

  datatype Call = FitCall | ForwardCall | ResetCall

  /** The flag after `c`: `fit` and `forward` leave it running, `reset_hidden` makes it fresh. */
  function Next(initialState: bool, c: Call): bool
  {
    c == ResetCall
  }

  /** Whether `c`, made with the flag at `initialState`, sends a prefix of the input to the reservoir's washout. */
  predicate WashesOut(initialState: bool, c: Call)
  {
    initialState && c == FitCall
  }

  /** Number of washouts a sequence of calls triggers, starting from `initialState`. */
  function Washouts(initialState: bool, cs: seq<Call>): nat
    decreases |cs|
  {
    if cs == [] then 0
    else (if WashesOut(initialState, cs[0]) then 1 else 0) + Washouts(Next(initialState, cs[0]), cs[1..])
  }

  function Resets(cs: seq<Call>): nat
  {
    if cs == [] then 0 else (if cs[0] == ResetCall then 1 else 0) + Resets(cs[1..])
  }

  /** Once running, no `fit` or `forward` washes out until the next reset. */
  lemma {:induction false} NoWashoutWhileRunning(cs: seq<Call>)
    requires ResetCall !in cs
    ensures Washouts(false, cs) == 0
  {
    if cs != [] {
      assert ResetCall !in cs[1..] by { assert forall c :: c in cs[1..] ==> c in cs; }
      NoWashoutWhileRunning(cs[1..]);
    }
  }

  /** Between two resets, any sequence of `fit`/`forward` calls washes out at
      most once, and exactly once when the flag starts fresh and the first
      call is a `fit`. */
  lemma {:induction false} AtMostOneWashoutBetweenResets(initialState: bool, cs: seq<Call>)
    requires ResetCall !in cs
    ensures Washouts(initialState, cs) <= 1
    ensures Washouts(initialState, cs) == 1 <==> initialState && |cs| > 0 && cs[0] == FitCall
  {
    if cs != [] {
      assert ResetCall !in cs[1..] by { assert forall c :: c in cs[1..] ==> c in cs; }
      NoWashoutWhileRunning(cs[1..]);
    }
  }

  /** A `forward` before any `fit` suppresses the washout of every later `fit` up to the next reset. */
  lemma ForwardSuppressesWashout(initialState: bool, cs: seq<Call>)
    requires ResetCall !in cs
    ensures Washouts(initialState, [ForwardCall] + cs) == 0
  {
    assert ([ForwardCall] + cs)[1..] == cs;
    NoWashoutWhileRunning(cs);
  }

  /** Over any sequence of calls, washouts are bounded by one for the
      starting fresh state plus one per reset. */
  lemma {:induction false} WashoutsBoundedByResets(initialState: bool, cs: seq<Call>)
    ensures Washouts(initialState, cs) <= (if initialState then 1 else 0) + Resets(cs)
    decreases |cs|
  {
    if cs != [] {
      WashoutsBoundedByResets(Next(initialState, cs[0]), cs[1..]);
    }
  }

  /** Resetting twice in a row has the same effect on every later call as resetting once. */
  lemma ResetIdempotent(initialState: bool, cs: seq<Call>)
    ensures Next(Next(initialState, ResetCall), ResetCall) == Next(initialState, ResetCall)
    ensures Washouts(initialState, [ResetCall, ResetCall] + cs) == Washouts(initialState, [ResetCall] + cs)
  {
    assert ([ResetCall, ResetCall] + cs)[1..] == [ResetCall] + cs;
    assert ([ResetCall] + cs)[1..] == cs;
  }
}
