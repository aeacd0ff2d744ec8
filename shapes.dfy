/** Feature widths of the ESN variants. Each subclass constructor builds a
    reservoir of a given topology and a readout whose input width it computes
    from its arguments; the two must agree, since the readout consumes the
    reservoir's per-step output. A composite reservoir's per-step output is
    the concatenation of its parts' outputs, so its width is the sum of theirs. */
module Shapes {
  import opened Esn

  const DefaultOutputDim: nat := 1

  datatype Topology =
    | Cell(hidden: nat)                 // one leaky-integrator cell
    | Deep(layers: seq<Topology>)       // a stack of layers, every layer's state concatenated
    | Grouped(groups: seq<Topology>)    // cells over slices of the input channels
    | GroupOf(members: seq<Topology>)   // independent reservoirs over the whole input

  function Sum(ns: seq<nat>): nat
  {
    if ns == [] then 0 else ns[0] + Sum(ns[1..])
  }

  /** Width of the reservoir's output at one time step. */
  function Width(t: Topology): nat
  {
    match t
    case Cell(h) => h
    case Deep(ps) => Sum(seq(|ps|, i requires 0 <= i < |ps| => Width(ps[i])))
    case Grouped(ps) => Sum(seq(|ps|, i requires 0 <= i < |ps| => Width(ps[i])))
    case GroupOf(ps) => Sum(seq(|ps|, i requires 0 <= i < |ps| => Width(ps[i])))
  }

  /** `n` cells of `hidden` units each: the layers of a deep cell, or the members of a grouped one. */
  function Cells(hidden: nat, n: nat): seq<Topology>
  {
    seq(n, _ => Cell(hidden))
  }

  /** One deep member per entry of `numLayers`, all of `hidden` units per layer. */
  function DeepMembers(hidden: nat, numLayers: seq<nat>): seq<Topology>
  {
    seq(|numLayers|, i requires 0 <= i < |numLayers| => Deep(Cells(hidden, numLayers[i])))
  }

  lemma {:induction false} SumOfConstant(ns: seq<nat>, c: nat)
    requires forall i :: 0 <= i < |ns| ==> ns[i] == c
    ensures Sum(ns) == c * |ns|
    decreases |ns|
  {
    if ns != [] {
      SumOfConstant(ns[1..], c);
    }
  }

  lemma {:induction false} SumScaled(ns: seq<nat>, ms: seq<nat>, c: nat)
    requires |ns| == |ms|
    requires forall i :: 0 <= i < |ns| ==> ns[i] == c * ms[i]
    ensures Sum(ns) == c * Sum(ms)
    decreases |ns|
  {
    if ns != [] {
      SumScaled(ns[1..], ms[1..], c);
    }
  }

  /** A stack (or group) of `n` cells of `hidden` units outputs `hidden * n` features. */
  lemma CellsWidth(hidden: nat, n: nat)
    ensures Width(Deep(Cells(hidden, n))) == hidden * n
    ensures Width(Grouped(Cells(hidden, n))) == hidden * n
    ensures Width(GroupOf(Cells(hidden, n))) == hidden * n
  {
    var ps := Cells(hidden, n);
    var ws := seq(|ps|, i requires 0 <= i < |ps| => Width(ps[i]));
    SumOfConstant(ws, hidden);
  }

  /** A group of deep members outputs `hidden` features per layer of every member. */
  lemma DeepMembersWidth(hidden: nat, numLayers: seq<nat>)
    ensures Width(GroupOf(DeepMembers(hidden, numLayers))) == hidden * Sum(numLayers)
  {
    var ps := DeepMembers(hidden, numLayers);
    var ws := seq(|ps|, i requires 0 <= i < |ps| => Width(ps[i]));
    forall i | 0 <= i < |ws| ensures ws[i] == hidden * numLayers[i] {
      CellsWidth(hidden, numLayers[i]);
    }
    SumScaled(ws, numLayers, hidden);
  }

  /** What a constructor builds: the reservoir's topology, the readout's input
      and output widths, and the transient length. */
  datatype EsnShape = EsnShape(reservoir: Topology, features: nat, outputDim: nat, transient: int)

  /** The readout consumes exactly what the reservoir emits. */
  predicate Consistent(e: EsnShape)
  {
    Width(e.reservoir) == e.features
  }

  /** `DeepESN`: a deep cell of `numLayers` layers; the readout takes `hidden * numLayers` features. */
  function DeepEsn(hidden: nat := 500, outputDim: nat := DefaultOutputDim, numLayers: nat := 2,
                   transient: int := DefaultTransient): (e: EsnShape)
    ensures e.features == hidden * numLayers
    ensures Consistent(e)
  {
    CellsWidth(hidden, numLayers);
    EsnShape(Deep(Cells(hidden, numLayers)), hidden * numLayers, outputDim, transient)
  }

  /** `GroupedESN`: `groups` cells over the input channels; the readout takes `hidden * groups` features. */
  function GroupedEsn(hidden: nat := 250, outputDim: nat := DefaultOutputDim, groups: nat := 4,
                      transient: int := DefaultTransient): (e: EsnShape)
    ensures e.features == hidden * groups
    ensures Consistent(e)
  {
    CellsWidth(hidden, groups);
    EsnShape(Grouped(Cells(hidden, groups)), hidden * groups, outputDim, transient)
  }

  /** `GroupOfESN`: `groups` independent cells over the whole input; the readout takes `hidden * groups` features. */
  function GroupOfEsn(hidden: nat := 250, outputDim: nat := DefaultOutputDim, groups: nat := 4,
                      transient: int := DefaultTransient): (e: EsnShape)
    ensures e.features == hidden * groups
    ensures Consistent(e)
  {
    CellsWidth(hidden, groups);
    EsnShape(GroupOf(Cells(hidden, groups)), hidden * groups, outputDim, transient)
  }

  /** `GroupDeepHomo` as the source writes it: one deep member per entry of
      `numLayers`, but a readout of `hidden * groups` features. */
  function GroupDeepHomoAsWritten(hidden: nat := 250, outputDim: nat := DefaultOutputDim, groups: nat := 2,
                                  numLayers: seq<nat> := [2, 2], transient: int := DefaultTransient): (e: EsnShape)
    ensures e.features == hidden * groups
    ensures Width(e.reservoir) == hidden * Sum(numLayers)
  {
    DeepMembersWidth(hidden, numLayers);
    EsnShape(GroupOf(DeepMembers(hidden, numLayers)), hidden * groups, outputDim, transient)
  }

  /** As written, the readout width does not depend on the members' depths at all. */
  lemma GroupDeepHomoAsWrittenIgnoresDepth(hidden: nat, outputDim: nat, groups: nat, layers1: seq<nat>,
                                           layers2: seq<nat>, transient: int)
    ensures GroupDeepHomoAsWritten(hidden, outputDim, groups, layers1, transient).features
         == GroupDeepHomoAsWritten(hidden, outputDim, groups, layers2, transient).features
  {
  }

  /** With its own default arguments (250 units, groups 2, depths (2, 2)) the
      reservoir as written emits 1000 features per step and the readout takes 500. */
  lemma GroupDeepHomoAsWrittenMismatch()
    ensures Width(GroupDeepHomoAsWritten().reservoir) == 1000
    ensures GroupDeepHomoAsWritten().features == 500
    ensures !Consistent(GroupDeepHomoAsWritten())
  {
    DeepMembersWidth(250, [2, 2]);
    assert Sum([2, 2]) == 4 by {
      assert [2, 2][1..] == [2];
      assert [2][1..] == [];
    }
  }

  /** `GroupDeepHomo` with the readout sized to what its members emit:
      `hidden` features per layer of every member. */
  function GroupDeepHomo(hidden: nat := 250, outputDim: nat := DefaultOutputDim, groups: nat := 2,
                         numLayers: seq<nat> := [2, 2], transient: int := DefaultTransient): (e: EsnShape)
    ensures e.features == hidden * Sum(numLayers)
    ensures Consistent(e)
    ensures e.reservoir == GroupDeepHomoAsWritten(hidden, outputDim, groups, numLayers, transient).reservoir
  {
    DeepMembersWidth(hidden, numLayers);
    EsnShape(GroupOf(DeepMembers(hidden, numLayers)), hidden * Sum(numLayers), outputDim, transient)
  }

  /** Where every member has a single layer and `groups` counts the members,
      the source's readout width is the right one. */
  lemma GroupDeepHomoAgreesWhenShallow(hidden: nat, outputDim: nat, numLayers: seq<nat>, transient: int)
    requires forall i :: 0 <= i < |numLayers| ==> numLayers[i] == 1
    ensures GroupDeepHomo(hidden, outputDim, |numLayers|, numLayers, transient)
         == GroupDeepHomoAsWritten(hidden, outputDim, |numLayers|, numLayers, transient)
  {
    SumOfConstant(numLayers, 1);
  }
}
