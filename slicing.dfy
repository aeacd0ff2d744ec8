/** Python's slicing of a sequence along its leading (time) axis by one
    integer bound: `s[:t]` and `s[t:]`. A bound past the end is clamped to
    the length; a negative bound counts from the end and is clamped at 0. */
module Slicing {

  /** The index where `s[:t]` stops and `s[t:]` starts, for a sequence of length `n`. */
  function SplitPoint(n: nat, t: int): (k: nat)
    ensures k <= n
  {
    if t >= 0 then (if t <= n then t else n)
    else if n + t >= 0 then n + t else 0
  }

  /** `s[:t]` */
  function Take<T>(s: seq<T>, t: int): (r: seq<T>)
    ensures |r| <= |s| && r == s[..|r|]
    ensures 0 <= t <= |s| ==> |r| == t
    ensures t >= |s| ==> r == s
    ensures t < 0 ==> |r| == if |s| + t >= 0 then |s| + t else 0
  {
    s[..SplitPoint(|s|, t)]
  }

  /** `s[t:]` */
  function Drop<T>(s: seq<T>, t: int): (r: seq<T>)
    ensures Take(s, t) + r == s
    ensures |r| == |s| - |Take(s, t)|
    ensures forall i :: 0 <= i < |r| ==> r[i] == s[|Take(s, t)| + i]
    ensures t >= |s| ==> r == []
    ensures t == 0 ==> r == s
  {
    s[SplitPoint(|s|, t)..]
  }

  /** Two sequences of the same length are cut at the same index, so
      `input[t:]` and `target[t:]` stay aligned time step by time step. */
  lemma DropAligned<T, U>(a: seq<T>, b: seq<U>, t: int, i: nat)
    requires |a| == |b|
    requires i < |Drop(a, t)|
    ensures i < |Drop(b, t)|
    ensures Drop(a, t)[i] == a[SplitPoint(|a|, t) + i]
    ensures Drop(b, t)[i] == b[SplitPoint(|a|, t) + i]
  {
  }
}
