/** The two "find the maximum" candidates under comparison: a loop that keeps
    a running maximum, and a tail recursion that threads the index and the
    maximum so far, run under an explicit call-depth ceiling. */
module MaxAlgorithms {
  import opened Outcomes

  /** `m` is the largest element of `s`: it occurs in `s` and no element exceeds it. */
  predicate IsMax(s: seq<int>, m: int) {
    m in s && forall k :: 0 <= k < |s| ==> s[k] <= m
  }

  /** Reference definition of the maximum, independent of both candidates:
      the larger of the last element and the maximum of the rest. */
  function SeqMax(s: seq<int>): (m: int)
    requires |s| > 0
    ensures IsMax(s, m)
  {
    if |s| == 1 then s[0]
    else
      var init := s[..|s| - 1];
      var rest := SeqMax(init);
      assert s == init + [s[|s| - 1]];
      if s[|s| - 1] > rest then s[|s| - 1] else rest
  }

  /** A sequence has only one maximum. */
  lemma MaxUnique(s: seq<int>, a: int, b: int)
    requires IsMax(s, a) && IsMax(s, b)
    ensures a == b
  {
  }

  /** The iterative candidate: start from the first element and replace the
      running maximum by every later element that is strictly larger. */
  method FindMaxIterative(data: seq<int>) returns (currentMax: int)
    requires |data| > 0
    ensures IsMax(data, currentMax)
    ensures currentMax == SeqMax(data)
  {
    currentMax := data[0];
    for i := 1 to |data|
      invariant currentMax in data[..i]
      invariant forall k :: 0 <= k < i ==> data[k] <= currentMax
    {
      if data[i] > currentMax {
        currentMax := data[i];
      }
      assert data[..i + 1] == data[..i] + [data[i]];
    }
    assert data[..|data|] == data;
    MaxUnique(data, currentMax, SeqMax(data));
  }

  /** The deepest call-stack depth reached by the recursive helper when its
      frame for index `idx` runs at depth `depth`: one further frame for each
      index from `idx + 1` up to `|data|`. */
  function DeepestFrame(data: seq<int>, idx: nat, depth: nat): nat {
    if idx < |data| then depth + (|data| - idx) else depth
  }

  /** Each frame that still has an index to handle calls one more frame, one
      level deeper, and the frame past the last index is the deepest; so the
      first call, at depth 1 for index 1, reaches depth |data|. */
  lemma DeepestFrameCounts(data: seq<int>, idx: nat, depth: nat)
    ensures depth <= DeepestFrame(data, idx, depth)
    ensures idx < |data| ==> DeepestFrame(data, idx, depth) == DeepestFrame(data, idx + 1, depth + 1)
    ensures idx >= |data| ==> DeepestFrame(data, idx, depth) == depth
    ensures |data| >= 1 ==> DeepestFrame(data, 1, 1) == |data|
  {
  }

  /** The recursive helper, one frame per index. `currentMax` is the maximum
      found so far; `depth` is the number of frames live while this one runs,
      and a frame beyond `ceiling` fails with DepthExceeded. */
  function MaxFrom(data: seq<int>, idx: nat, currentMax: int, depth: nat, ceiling: nat): (r: Outcome<int>)
    ensures r.DepthExceeded? <==> DeepestFrame(data, idx, depth) > ceiling
    ensures r.Success? ==>
              currentMax <= r.value &&
              (r.value == currentMax || exists k :: idx <= k < |data| && data[k] == r.value) &&
              forall k :: idx <= k < |data| ==> data[k] <= r.value
    decreases |data| - idx
  {
    if depth > ceiling then DepthExceeded
    else if idx >= |data| then Success(currentMax)
    else
      var next := if data[idx] > currentMax then data[idx] else currentMax;
      var r := MaxFrom(data, idx + 1, next, depth + 1, ceiling);
      r
  }

  /** The recursive candidate's entry point: the first frame handles index 1
      with the first element as the maximum so far, at depth 1. */
  function FindMaxRecursive(data: seq<int>, ceiling: nat): (r: Outcome<int>)
    requires |data| > 0
    ensures r.DepthExceeded? <==> |data| > ceiling
    ensures r.Success? ==> IsMax(data, r.value)
  {
    var r := MaxFrom(data, 1, data[0], 1, ceiling);
    assert data == [data[0]] + data[1..];
    r
  }

  /** Both candidates compute the same value whenever the recursive one does
      not run past the ceiling, and the recursive one fails exactly when the
      input is longer than the ceiling. */
  lemma RecursiveAgreesWithIterative(data: seq<int>, ceiling: nat)
    requires |data| > 0
    ensures FindMaxRecursive(data, ceiling) ==
              if |data| > ceiling then DepthExceeded else Success(SeqMax(data))
  {
    var r := FindMaxRecursive(data, ceiling);
    if r.Success? {
      MaxUnique(data, r.value, SeqMax(data));
    }
  }
}
