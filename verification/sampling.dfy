/** The stride rule of the frame loop: which zero-based frame positions are
    handed to the pose detector. */
module Sampling {

  /** A frame at position `idx` is processed unless `stride > 1` and `idx`
      is not a multiple of `stride`; so a stride of 1, 0 or below keeps every
      frame. (Python's `%` and Dafny's agree here: `idx >= 0`, `stride > 1`.) */
  predicate ShouldProcess(idx: nat, stride: int) {
    !(stride > 1 && idx % stride != 0)
  }

  predicate StrictlyIncreasing(s: seq<nat>) {
    forall j, k :: 0 <= j < k < |s| ==> s[j] < s[k]
  }

  /** The positions among the first `n` frames that the stride rule keeps,
      in increasing order. */
  function SampledIndices(n: nat, stride: int): (r: seq<nat>)
    ensures |r| <= n
    ensures forall k :: 0 <= k < |r| ==> r[k] < n && ShouldProcess(r[k], stride)
  {
    if n == 0 then []
    else SampledIndices(n - 1, stride) + (if ShouldProcess(n - 1, stride) then [n - 1] else [])
  }

  /** One more frame: its position is sampled last when the stride rule
      keeps it, and nothing changes otherwise. */
  lemma SampledSnoc(n: nat, stride: int)
    requires n > 0
    ensures ShouldProcess(n - 1, stride) ==> SampledIndices(n, stride) == SampledIndices(n - 1, stride) + [n - 1]
    ensures !ShouldProcess(n - 1, stride) ==> SampledIndices(n, stride) == SampledIndices(n - 1, stride)
  {
  }

  /** The sampled positions come in strictly increasing order. */
  lemma {:induction false} SampledIncreasing(n: nat, stride: int)
    ensures StrictlyIncreasing(SampledIndices(n, stride))
  {
    if n > 0 {
      SampledIncreasing(n - 1, stride);
    }
  }

  /** Membership in the sampled positions is exactly the stride rule. */
  lemma {:induction false} SampledMembership(n: nat, stride: int, i: nat)
    ensures i in SampledIndices(n, stride) <==> i < n && ShouldProcess(i, stride)
  {
    if n > 0 {
      SampledMembership(n - 1, stride, i);
    }
  }

  /** Sampling fewer frames yields a prefix of sampling more. */
  lemma {:induction false} SampledPrefix(m: nat, n: nat, stride: int)
    requires m <= n
    ensures |SampledIndices(m, stride)| <= |SampledIndices(n, stride)|
    ensures SampledIndices(m, stride) == SampledIndices(n, stride)[..|SampledIndices(m, stride)|]
    decreases n - m
  {
    if m < n {
      SampledPrefix(m, n - 1, stride);
      var a := SampledIndices(n - 1, stride);
      assert SampledIndices(n, stride)[..|a|] == a;
    }
  }

  /** With a stride of 1, 0 or a negative number every frame is sampled. */
  lemma {:induction false} SmallStrideKeepsEveryFrame(n: nat, stride: int)
    requires stride <= 1
    ensures SampledIndices(n, stride) == seq(n, i requires 0 <= i => i as nat)
  {
    if n > 0 {
      SmallStrideKeepsEveryFrame(n - 1, stride);
    }
  }

  lemma {:induction false} MulAtLeast(d: int, s: int)
    requires d >= 1 && s > 0
    ensures d * s >= s
  {
    if d > 1 {
      MulAtLeast(d - 1, s);
      assert d * s == (d - 1) * s + s;
    }
  }

  lemma DivUnique(a: int, s: int, q: int, r: int)
    requires s > 0 && 0 <= r < s && a == q * s + r
    ensures a / s == q
  {
    var q' := a / s;
    var r' := a % s;
    assert a == q' * s + r';
    if q' < q {
      MulAtLeast(q - q', s);
    } else if q' > q {
      MulAtLeast(q' - q, s);
    }
  }

  /** One more frame adds one sampled position exactly when it lands on the
      stride: the step of the ceiling-division count. */
  lemma CeilStep(m: nat, s: int)
    requires s >= 1
    ensures (m + 1 + s - 1) / s == (m + s - 1) / s + (if m % s == 0 then 1 else 0)
  {
    var q := m / s;
    var r := m % s;
    assert m == q * s + r;
    DivUnique(m + s, s, q + 1, r);
    if r == 0 {
      DivUnique(m + s - 1, s, q, s - 1);
    } else {
      DivUnique(m + s - 1, s, q + 1, r - 1);
    }
  }

  /** `ceil(n / s)` for a positive `s`. */
  function CeilDiv(n: nat, s: int): int
    requires s >= 1
  {
    (n + s - 1) / s
  }

  /** For a stride `s >= 1` the number of sampled positions among `n`
      frames is `ceil(n / s)`. */
  lemma {:induction false} SampledCount(n: nat, stride: int)
    requires stride >= 1
    ensures |SampledIndices(n, stride)| == CeilDiv(n, stride)
  {
    if n == 0 {
      DivUnique(stride - 1, stride, 0, stride - 1);
    } else {
      SampledCount(n - 1, stride);
      CeilStep(n - 1, stride);
    }
  }

  /** Stride 3 adds one sampled position every three frames, starting at `3 * k`. */
  lemma ThreeMoreFrames(k: nat)
    ensures SampledIndices(3 * k + 3, 3) == SampledIndices(3 * k, 3) + [3 * k]
  {
    assert ShouldProcess(3 * k, 3);
    assert !ShouldProcess(3 * k + 1, 3);
    assert !ShouldProcess(3 * k + 2, 3);
    assert SampledIndices(3 * k + 1, 3) == SampledIndices(3 * k, 3) + [3 * k];
  }

  lemma SixFramesStrideThree()
    ensures SampledIndices(6, 3) == [0, 3]
  {
    ThreeMoreFrames(0);
    ThreeMoreFrames(1);
  }

  /** Ten frames with stride 3 are sampled at 0, 3, 6 and 9. */
  lemma TenFramesStrideThree()
    ensures SampledIndices(10, 3) == [0, 3, 6, 9]
  {
    SixFramesStrideThree();
    ThreeMoreFrames(2);
    assert SampledIndices(10, 3) == SampledIndices(9, 3) + [9];
  }
}
