/** The readout the orchestrator owns, seen only through what the orchestrator
    relies on: `fit(states, targets)` computes new weights, `forward(states)`
    maps reservoir features to predictions one time step at a time, and
    fails before any fit. The least-squares solution (a ridge regression
    solved by singular value decomposition) is the parameter `solve`, which
    may use the previous weights or ignore them. */
module Readouts {
  import opened Wrappers

  class Readout<Y, Z, W> {
    /** New weights from the previous ones (if any) and one batch of features and targets. */
    const solve: (Option<W>, seq<Y>, seq<Z>) -> W
    /** The prediction for one time step's features. */
    const apply: (W, Y) -> Z
    var weights: Option<W>
    ghost var fits: seq<(seq<Y>, seq<Z>)>

    constructor (solve: (Option<W>, seq<Y>, seq<Z>) -> W, apply: (W, Y) -> Z)
      ensures this.solve == solve && this.apply == apply
      ensures weights == None && fits == []
    {
      this.solve := solve;
      this.apply := apply;
      weights := None;
      fits := [];
    }

    method Fit(states: seq<Y>, targets: seq<Z>)
      modifies this
      ensures weights == Some(solve(old(weights), states, targets))
      ensures fits == old(fits) + [(states, targets)]
    {
      weights := Some(solve(weights, states, targets));
      fits := fits + [(states, targets)];
    }

    /** Predictions for `states`: one per time step, or NotFitted before the first fit. */
    function Predict(states: seq<Y>): (r: Result<seq<Z>>)
      reads this
      ensures r.Failure? <==> weights == None
      ensures r.Success? ==> |r.value| == |states|
      ensures r.Success? ==> forall i :: 0 <= i < |states| ==> r.value[i] == apply(weights.value, states[i])
    {
      match weights
      case None => Failure(NotFitted)
      case Some(w) => Success(seq(|states|, i requires 0 <= i < |states| => apply(w, states[i])))
    }
  }
}
