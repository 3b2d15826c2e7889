/** Scans shared by the two sample codecs: constant runs and constant-step ramps. */
module Segments {

  /** First position from `j` on whose sample differs from `v`. */
  function RunEnd(s: seq<int>, j: nat, v: int): (e: nat)
    requires j <= |s|
    ensures j <= e <= |s|
    ensures forall k :: j <= k < e ==> s[k] == v
    ensures e < |s| ==> s[e] != v
    decreases |s| - j
  {
    if j < |s| && s[j] == v then RunEnd(s, j + 1, v) else j
  }

  /** First position from `j` on that does not continue by `step`. */
  function RampEnd(s: seq<int>, j: nat, step: int): (e: nat)
    requires 1 <= j <= |s|
    ensures j <= e <= |s|
    ensures forall k :: j <= k < e ==> s[k] - s[k - 1] == step
    ensures e < |s| ==> s[e] - s[e - 1] != step
    decreases |s| - j
  {
    if j < |s| && s[j] - s[j - 1] == step then RampEnd(s, j + 1, step) else j
  }

  /** The loop that measures a run. */
  method ScanRun(s: seq<int>, j: nat, v: int) returns (e: nat)
    requires j <= |s|
    ensures e == RunEnd(s, j, v)
  {
    e := j;
    while e < |s| && s[e] == v
      invariant e <= |s| && RunEnd(s, e, v) == RunEnd(s, j, v)
    {
      e := e + 1;
    }
  }

  /** The loop that measures a ramp; `cur` trails the scan by one sample. */
  method ScanRamp(s: seq<int>, j: nat, step: int) returns (e: nat)
    requires 1 <= j <= |s|
    ensures e == RampEnd(s, j, step)
  {
    e := j;
    var cur := s[j - 1];
    while e < |s| && s[e] - cur == step
      invariant j <= e <= |s| && cur == s[e - 1]
      invariant RampEnd(s, e, step) == RampEnd(s, j, step)
    {
      cur := s[e];
      e := e + 1;
    }
  }

  /** Inside a ramp every sample is the first one plus a multiple of the step. */
  lemma {:induction false} RampValue(s: seq<int>, j: nat, e: nat, step: int, k: nat)
    requires 1 <= j <= k + 1 && k < e <= |s|
    requires forall m :: j <= m < e ==> s[m] - s[m - 1] == step
    ensures s[k] == s[j - 1] + step * (k - j + 1)
    decreases k + 1 - j
  {
    if k >= j {
      RampValue(s, j, e, step, k - 1);
      assert step * (k - j + 1) == step * (k - j) + step;
    }
  }
}
