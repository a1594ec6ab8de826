/**
 * The host program's test harness around the pipeline: how it fills the
 * input and output memories, and how it checks the sink's results once the
 * pipeline has finished.
 */
module Harness {

  /** The input the host writes: 1 at even indices, -1 at odd ones. */
  function Fill(n: nat): (s: seq<int>)
    ensures |s| == n
  {
    seq(n, i => if i % 2 == 0 then 1 else -1)
  }

  /** Fills the source memory with `Fill` and clears the sink memory. */
  method FillInputs(srcMem: array<int>, sinkMem: array<int>)
    requires srcMem.Length == sinkMem.Length && srcMem != sinkMem
    modifies srcMem, sinkMem
    ensures srcMem[..] == Fill(srcMem.Length)
    ensures forall i :: 0 <= i < sinkMem.Length ==> sinkMem[i] == 0
  {
    var i := 0;
    while i < srcMem.Length
      invariant 0 <= i <= srcMem.Length
      invariant forall j :: 0 <= j < i ==> srcMem[j] == (if j % 2 == 0 then 1 else -1) && sinkMem[j] == 0
    {
      if i % 2 == 0 {
        srcMem[i] := 1;
      } else {
        srcMem[i] := -1;
      }
      sinkMem[i] := 0;
      i := i + 1;
    }
  }

  /** The value the checker expects for source value `x`: +1 below the threshold, +3 otherwise. */
  function Expected(x: int, threshold: int): int
  {
    if x < threshold then x + 1 else x + 3
  }

  /** The number of indices at which `sink` differs from the expected value. */
  function Mismatches(src: seq<int>, sink: seq<int>, threshold: int): (n: nat)
    requires |src| == |sink|
    ensures n <= |src|
    decreases |src|
  {
    if |src| == 0 then 0
    else
      var last := if sink[|sink| - 1] != Expected(src[|src| - 1], threshold) then 1 else 0;
      Mismatches(src[..|src| - 1], sink[..|sink| - 1], threshold) + last
  }

  /** The indices at which `sink` differs from the expected value. */
  ghost function MismatchSet(src: seq<int>, sink: seq<int>, threshold: int): set<nat>
    requires |src| == |sink|
  {
    set i: nat | i < |src| && sink[i] != Expected(src[i], threshold)
  }

  /** The count is the number of differing indices. */
  lemma {:induction false} MismatchesCount(src: seq<int>, sink: seq<int>, threshold: int)
    requires |src| == |sink|
    ensures Mismatches(src, sink, threshold) == |MismatchSet(src, sink, threshold)|
    decreases |src|
  {
    if |src| > 0 {
      var n := |src| - 1;
      var p, q := src[..n], sink[..n];
      MismatchesCount(p, q, threshold);
      var before := MismatchSet(p, q, threshold);
      if sink[n] != Expected(src[n], threshold) {
        assert MismatchSet(src, sink, threshold) == before + {n};
      } else {
        assert MismatchSet(src, sink, threshold) == before;
      }
    }
  }

  /** No mismatch is counted exactly when every index holds its expected value. */
  lemma {:induction false} MismatchesZero(src: seq<int>, sink: seq<int>, threshold: int)
    requires |src| == |sink|
    ensures Mismatches(src, sink, threshold) == 0 <==>
            forall i :: 0 <= i < |src| ==> sink[i] == Expected(src[i], threshold)
    decreases |src|
  {
    if |src| > 0 {
      var n := |src| - 1;
      MismatchesZero(src[..n], sink[..n], threshold);
      assert forall i :: 0 <= i < n ==> src[..n][i] == src[i] && sink[..n][i] == sink[i];
    }
  }

  /**
   * The result check: counts the indices whose sink value differs from the
   * expected one, and reports a pass exactly when there are none.
   */
  method CheckSink(srcMem: array<int>, sinkMem: array<int>, threshold: int) returns (fail: nat, passed: bool)
    requires srcMem.Length == sinkMem.Length
    ensures fail == Mismatches(srcMem[..], sinkMem[..], threshold)
    ensures passed <==> forall i :: 0 <= i < srcMem.Length ==> sinkMem[i] == Expected(srcMem[i], threshold)
  {
    fail := 0;
    var i := 0;
    while i < srcMem.Length
      invariant 0 <= i <= srcMem.Length
      invariant fail == Mismatches(srcMem[..i], sinkMem[..i], threshold)
    {
      assert srcMem[..i + 1][..i] == srcMem[..i] && sinkMem[..i + 1][..i] == sinkMem[..i];
      var expectedValue: int;
      if srcMem[i] < threshold {
        expectedValue := srcMem[i] + 1;
      } else {
        expectedValue := srcMem[i] + 3;
      }
      if sinkMem[i] != expectedValue {
        fail := fail + 1;
      }
      i := i + 1;
    }
    assert srcMem[..i] == srcMem[..] && sinkMem[..i] == sinkMem[..];
    MismatchesZero(srcMem[..], sinkMem[..], threshold);
    passed := !(fail > 0);
  }
}
