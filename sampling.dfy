/**
 * Vertex decimation: the raw indices visited by the inner loop of
 * SetupNetwork, `for (j = 0; j < n; j = j + step)`.
 */
module Sampling {

  /** The indices j, j + step, j + 2*step, ... that are below n, in the order visited. */
  function SampleFrom(j: nat, n: int, step: int): seq<nat>
    requires step >= 1
    decreases n - j
  {
    if j >= n then [] else [j] + SampleFrom(j + step, n, step)
  }

  /** The indices of a vertex list of length n that the decimation keeps. */
  function StrideIndices(n: int, step: int): seq<nat>
    requires step >= 1
  {
    SampleFrom(0, n, step)
  }

  ghost predicate StrictlyIncreasing(s: seq<int>)
  {
    forall a, b :: 0 <= a < b < |s| ==> s[a] < s[b]
  }

  /** Euclidean division is determined by a quotient and a remainder in range. */
  lemma DivModUnique(x: int, d: int, q: int, r: int)
    requires d >= 1 && 0 <= r < d && x == q * d + r
    ensures x / d == q && x % d == r
  {
    var q0, r0 := x / d, x % d;
    assert x == q0 * d + r0;
    if q0 < q {
      assert (q - q0) * d == r0 - r;
      MulAtLeast(q - q0, d);
    } else if q < q0 {
      assert (q0 - q) * d == r - r0;
      MulAtLeast(q0 - q, d);
    }
  }

  lemma MulAtLeast(c: int, d: int)
    requires c >= 1 && d >= 1
    ensures c * d >= d
  {
  }

  lemma ModStep(x: int, step: int)
    requires step >= 1
    ensures (x + step) % step == x % step
  {
    DivModUnique(x + step, step, x / step + 1, x % step);
  }

  /**
   * From j on, exactly the indices below n that are a multiple of step away
   * from j are visited.
   */
  lemma {:induction false} SampleFromMember(j: nat, n: int, step: int, i: int)
    requires step >= 1
    ensures i in SampleFrom(j, n, step) <==> j <= i < n && (i - j) % step == 0
    decreases n - j
  {
    if j < n {
      var rest := SampleFrom(j + step, n, step);
      assert SampleFrom(j, n, step) == [j] + rest;
      assert i in SampleFrom(j, n, step) <==> i == j || i in rest;
      SampleFromMember(j + step, n, step, i);
      if i == j {
        DivModUnique(0, step, 0, 0);
      } else if j < i < j + step {
        DivModUnique(i - j, step, 0, i - j);
      } else if j + step <= i {
        ModStep(i - j - step, step);
      }
    }
  }

  /** The indices are visited in increasing order. */
  lemma {:induction false} SampleFromIncreasing(j: nat, n: int, step: int)
    requires step >= 1
    ensures StrictlyIncreasing(SampleFrom(j, n, step))
    decreases n - j
  {
    if j < n {
      SampleFromIncreasing(j + step, n, step);
      var rest := SampleFrom(j + step, n, step);
      assert SampleFrom(j, n, step) == [j] + rest;
      forall k | 0 <= k < |rest| ensures j < rest[k] {
        SampleFromMember(j + step, n, step, rest[k]);
      }
    }
  }

  /**
   * Sampled indices of a list of length n are exactly the multiples of step
   * below n, in increasing order.
   */
  lemma StrideIndicesExact(n: int, step: int, i: int)
    requires step >= 1
    ensures i in StrideIndices(n, step) <==> 0 <= i < n && i % step == 0
    ensures StrictlyIncreasing(StrideIndices(n, step))
  {
    SampleFromMember(0, n, step, i);
    SampleFromIncreasing(0, n, step);
  }

  lemma DivStep(x: int, step: int)
    requires step >= 1
    ensures (x + step) / step == x / step + 1
  {
    DivModUnique(x + step, step, x / step + 1, x % step);
  }

  /** From j on, ceil((n - j) / step) indices are visited. */
  lemma {:induction false} SampleFromLength(j: nat, n: int, step: int)
    requires step >= 1
    requires j < n + step
    ensures |SampleFrom(j, n, step)| == (n - j + step - 1) / step
    decreases n - j
  {
    if j < n {
      SampleFromLength(j + step, n, step);
      DivStep(n - (j + step) + step - 1, step);
    } else {
      assert 0 <= n - j + step - 1 < step;
    }
  }

  /** A list of n vertices is decimated to ceil(n / step) of them. */
  lemma StrideIndicesLength(n: nat, step: int)
    requires step >= 1
    ensures |StrideIndices(n, step)| == (n + step - 1) / step
    ensures |StrideIndices(n, step)| <= n
  {
    var idx := StrideIndices(n, step);
    SampleFromLength(0, n, step);
    SampleFromIncreasing(0, n, step);
    forall k | 0 <= k < |idx| ensures 0 <= idx[k] < n {
      SampleFromMember(0, n, step, idx[k]);
    }
    BoundedIncreasingLength(idx, n);
  }

  /** A strictly increasing sequence of naturals below n has at most n elements. */
  lemma {:induction false} BoundedIncreasingLength(s: seq<int>, n: nat)
    requires StrictlyIncreasing(s)
    requires forall k :: 0 <= k < |s| ==> 0 <= s[k] < n
    ensures |s| <= n
    decreases |s|
  {
    if |s| > 0 {
      var init := s[..|s| - 1];
      assert forall k :: 0 <= k < |init| ==> init[k] == s[k];
      assert StrictlyIncreasing(init);
      assert forall k :: 0 <= k < |init| ==> 0 <= init[k] < s[|s| - 1];
      BoundedIncreasingLength(init, s[|s| - 1]);
    }
  }

  /** A list of at most one vertex is sampled the same way whatever the step. */
  lemma ShortListStepIrrelevant(n: int, step: int, other: int)
    requires n < 2 && step >= 1 && other >= 1
    ensures StrideIndices(n, step) == StrideIndices(n, other)
  {
    if n >= 1 {
      assert StrideIndices(n, step) == [0] + SampleFrom(step, n, step) == [0];
      assert StrideIndices(n, other) == [0] + SampleFrom(other, n, other) == [0];
    }
  }

  /** Nine vertices with a step of three are sampled at 0, 3 and 6. */
  lemma NineByThree()
    ensures StrideIndices(9, 3) == [0, 3, 6]
  {
    assert SampleFrom(9, 9, 3) == [];
    assert SampleFrom(6, 9, 3) == [6];
    assert SampleFrom(3, 9, 3) == [3, 6];
  }
}
