/**
 The integer dot product of quantized vectors in its two machine forms: four
 64-bit accumulators, and eight 32-bit lanes fed sixteen components at a time.
 */
module Int8Dot {
  type Code = x: int | -128 <= x < 128

  type Codes = seq<Code>

  /** The product of two codes, widened first. */
  function Times(x: int, y: int): int { x * y }

  /** The dot product of the first `n` components. */
  function Dot(a: Codes, b: Codes, n: nat): int
    requires n <= |a| == |b|
  {
    if n == 0 then 0 else Dot(a, b, n - 1) + Times(a[n - 1], b[n - 1])
  }

  /** Products of components at the same place, added up. */
  lemma DotMeans(a: Codes, b: Codes, n: nat)
    requires n < |a| == |b|
    ensures Dot(a, b, 0) == 0
    ensures Dot(a, b, n + 1) == Dot(a, b, n) + (a[n] as int) * (b[n] as int)
  {
  }

  lemma {:induction false} DotOfTail(a: Codes, b: Codes, k: nat, n: nat)
    requires k + n <= |a| == |b|
    ensures Dot(a[k..], b[k..], n) == Dot(a, b, k + n) - Dot(a, b, k)
  {
    if n > 0 { DotOfTail(a, b, k, n - 1); }
  }

  // ----- four accumulators -----------------------------------------------

  method DotPortable(a: Codes, b: Codes) returns (sum: int)
    requires |a| == |b|
    ensures sum == Dot(a, b, |a|)
  {
    var s0: int, s1: int, s2: int, s3: int := 0, 0, 0, 0;
    var i := 0;
    while i + 4 <= |a|
      invariant 0 <= i <= |a| && i % 4 == 0
      invariant s0 + s1 + s2 + s3 == Dot(a, b, i)
    {
      DotStep(a, b, i);
      DotStep(a, b, i + 2);
      s0 := s0 + Times(a[i], b[i]);
      s1 := s1 + Times(a[i + 1], b[i + 1]);
      s2 := s2 + Times(a[i + 2], b[i + 2]);
      s3 := s3 + Times(a[i + 3], b[i + 3]);
      i := i + 4;
    }
    var tail: int := 0;
    while i < |a|
      invariant 0 <= i <= |a|
      invariant s0 + s1 + s2 + s3 + tail == Dot(a, b, i)
    {
      tail := tail + Times(a[i], b[i]);
      i := i + 1;
    }
    sum := s0 + s1 + s2 + s3 + tail;
  }

  lemma DotStep(a: Codes, b: Codes, i: nat)
    requires i + 2 <= |a| == |b|
    ensures Dot(a, b, i + 2) == Dot(a, b, i) + TwoProducts(a, b, i)
  {
    assert Dot(a, b, i + 1) == Dot(a, b, i) + Times(a[i], b[i]);
  }

  // ----- eight lanes -----------------------------------------------------

  /** One 32-bit element of a multiply-add of adjacent 16-bit words. */
  function TwoProducts(a: Codes, b: Codes, i: nat): int
    requires i + 2 <= |a| == |b|
  {
    Times(a[i], b[i]) + Times(a[i + 1], b[i + 1])
  }

  lemma ProductBound(x: Code, y: Code)
    ensures -16384 <= Times(x, y) <= 16384
  {
    if x >= 0 {
      assert Times(x, -128) <= Times(x, y) <= Times(x, 127);
    } else {
      assert Times(x, 127) <= Times(x, y) <= Times(x, -128);
    }
  }

  lemma TwoProductsBound(a: Codes, b: Codes, i: nat)
    requires i + 2 <= |a| == |b|
    ensures -32768 <= TwoProducts(a, b, i) <= 32768
  {
    ProductBound(a[i], b[i]);
    ProductBound(a[i + 1], b[i + 1]);
  }

  /** Addition of 32-bit integers wraps around. */
  function Wrap32(x: int): int { (x + 0x8000_0000) % 0x1_0000_0000 - 0x8000_0000 }

  /** Lane `l` after `k` steps of sixteen components. */
  function Lane(a: Codes, b: Codes, l: nat, k: nat): int
    requires l < 8 && 16 * k <= |a| == |b|
  {
    if k == 0 then 0 else Wrap32(Lane(a, b, l, k - 1) + TwoProducts(a, b, 16 * (k - 1) + 2 * l))
  }

  /** The same lane without wrap-around. */
  ghost function ExactLane(a: Codes, b: Codes, l: nat, k: nat): int
    requires l < 8 && 16 * k <= |a| == |b|
  {
    if k == 0 then 0 else ExactLane(a, b, l, k - 1) + TwoProducts(a, b, 16 * (k - 1) + 2 * l)
  }

  lemma {:induction false} ExactLaneBound(a: Codes, b: Codes, l: nat, k: nat)
    requires l < 8 && 16 * k <= |a| == |b|
    ensures -32768 * k <= ExactLane(a, b, l, k) <= 32768 * k
  {
    if k > 0 {
      ExactLaneBound(a, b, l, k - 1);
      TwoProductsBound(a, b, 16 * (k - 1) + 2 * l);
    }
  }

  /** Short of 65,536 steps no lane can leave the 32-bit range. */
  lemma {:induction false} LaneIsExact(a: Codes, b: Codes, l: nat, k: nat)
    requires l < 8 && 16 * k <= |a| == |b| && k < 65536
    ensures Lane(a, b, l, k) == ExactLane(a, b, l, k)
  {
    if k > 0 {
      LaneIsExact(a, b, l, k - 1);
      ExactLaneBound(a, b, l, k);
    }
  }

  function LaneSum(a: Codes, b: Codes, l: nat, k: nat): int
    requires l <= 8 && 16 * k <= |a| == |b|
  {
    if l == 0 then 0 else LaneSum(a, b, l - 1, k) + Lane(a, b, l - 1, k)
  }

  ghost function ExactSum(a: Codes, b: Codes, l: nat, k: nat): int
    requires l <= 8 && 16 * k <= |a| == |b|
  {
    if l == 0 then 0 else ExactSum(a, b, l - 1, k) + ExactLane(a, b, l - 1, k)
  }

  lemma {:induction false} LaneSumIsExact(a: Codes, b: Codes, l: nat, k: nat)
    requires l <= 8 && 16 * k <= |a| == |b| && k < 65536
    ensures LaneSum(a, b, l, k) == ExactSum(a, b, l, k)
  {
    if l > 0 {
      LaneSumIsExact(a, b, l - 1, k);
      LaneIsExact(a, b, l - 1, k);
    }
  }

  /** One step adds the products of its first `2 * l` components to the first `l` lanes. */
  lemma {:induction false} ExactSumStep(a: Codes, b: Codes, l: nat, k: nat)
    requires l <= 8 && 16 * (k + 1) <= |a| == |b|
    ensures ExactSum(a, b, l, k + 1) == ExactSum(a, b, l, k) + Dot(a, b, 16 * k + 2 * l) - Dot(a, b, 16 * k)
  {
    if l > 0 {
      ExactSumStep(a, b, l - 1, k);
      DotStep(a, b, 16 * k + 2 * (l - 1));
    }
  }

  lemma {:induction false} ExactSumOfNothing(a: Codes, b: Codes, l: nat)
    requires l <= 8 && |a| == |b|
    ensures ExactSum(a, b, l, 0) == 0
  {
    if l > 0 { ExactSumOfNothing(a, b, l - 1); }
  }

  lemma {:induction false} ExactSumIsDot(a: Codes, b: Codes, k: nat)
    requires 16 * k <= |a| == |b|
    ensures ExactSum(a, b, 8, k) == Dot(a, b, 16 * k)
  {
    if k > 0 {
      ExactSumIsDot(a, b, k - 1);
      ExactSumStep(a, b, 8, k - 1);
    } else {
      ExactSumOfNothing(a, b, 8);
    }
  }

  /** One vector instruction: sixteen components into eight lanes. */
  method AddStep(lanes: array<int>, a: Codes, b: Codes, at: nat)
    requires lanes.Length == 8 && at + 16 <= |a| == |b|
    modifies lanes
    ensures forall l: nat :: l < 8 ==> lanes[l] == Wrap32(old(lanes[l]) + TwoProducts(a, b, at + 2 * l))
  {
    for l := 0 to 8
      invariant forall j: nat :: j < l ==> lanes[j] == Wrap32(old(lanes[j]) + TwoProducts(a, b, at + 2 * j))
      invariant forall j: nat :: l <= j < 8 ==> lanes[j] == old(lanes[j])
    {
      lanes[l] := Wrap32(lanes[l] + TwoProducts(a, b, at + 2 * l));
    }
  }

  ghost predicate LanesHold(lanes: seq<int>, a: Codes, b: Codes, k: nat) {
    |lanes| == 8 && 16 * k <= |a| == |b| && forall l: nat {:trigger lanes[l]} :: l < 8 ==> lanes[l] == Lane(a, b, l, k)
  }

  lemma LanesStep(before: seq<int>, after: seq<int>, a: Codes, b: Codes, k: nat)
    requires LanesHold(before, a, b, k) && 16 * (k + 1) <= |a| && |after| == 8
    requires forall l: nat {:trigger after[l]} ::
      l < 8 ==> after[l] == Wrap32(before[l] + TwoProducts(a, b, 16 * k + 2 * l))
    ensures LanesHold(after, a, b, k + 1)
  {
  }

  method FillLanes(a: Codes, b: Codes) returns (lanes: array<int>)
    requires |a| == |b|
    ensures LanesHold(lanes[..], a, b, |a| / 16)
  {
    lanes := new int[8](i => 0);
    var k := 0;
    while 16 * (k + 1) <= |a|
      invariant 16 * k <= |a| && fresh(lanes) && LanesHold(lanes[..], a, b, k)
    {
      ghost var before := lanes[..];
      AddStep(lanes, a, b, 16 * k);
      LanesStep(before, lanes[..], a, b, k);
      k := k + 1;
    }
  }

  method AddLanes(lanes: array<int>, ghost a: Codes, ghost b: Codes, ghost k: nat) returns (sum: int)
    requires LanesHold(lanes[..], a, b, k)
    ensures sum == LaneSum(a, b, 8, k)
  {
    sum := 0;
    for l := 0 to 8
      invariant sum == LaneSum(a, b, l, k)
    {
      assert lanes[..][l] == Lane(a, b, l, k);
      sum := sum + lanes[l];
    }
  }

  /** `quantized_integer_dot_avx2` on vectors of any length. */
  method DotLanes(a: Codes, b: Codes) returns (sum: int)
    requires |a| == |b|
    ensures sum == LaneDot(a, b)
  {
    var vectorized := |a| / 16 * 16;
    var lanes := FillLanes(a, b);
    sum := AddLanes(lanes, a, b, |a| / 16);
    var tail := DotPortable(a[vectorized..], b[vectorized..]);
    DotOfTail(a, b, vectorized, |a| - vectorized);
    sum := sum + tail;
  }

  ghost function LaneDot(a: Codes, b: Codes): int
    requires |a| == |b|
  {
    LaneSum(a, b, 8, |a| / 16) + Dot(a, b, |a|) - Dot(a, b, |a| / 16 * 16)
  }

  /** The worst input: every code is -128. */
  function Extreme(n: nat): Codes { seq(n, i => -128) }

  lemma {:induction false} ExtremeLaneWraps(n: nat, l: nat, k: nat)
    requires l < 8 && 16 * k <= n
    ensures ExactLane(Extreme(n), Extreme(n), l, k) == 32768 * k
    ensures Lane(Extreme(n), Extreme(n), l, k) < 0x8000_0000
  {
    if k > 0 { ExtremeLaneWraps(n, l, k - 1); }
  }

  lemma {:induction false} ExtremeSumFalls(n: nat, l: nat, k: nat)
    requires l <= 8 && 16 * k <= n && k >= 65536
    ensures LaneSum(Extreme(n), Extreme(n), l, k) <= ExactSum(Extreme(n), Extreme(n), l, k) - l
  {
    if l > 0 {
      ExtremeSumFalls(n, l - 1, k);
      ExtremeLaneWraps(n, l - 1, k);
    }
  }

  /** The lane form is right for all inputs of a length if and only if that length has fewer than 65,536 steps. */
  lemma LanesAreExactIff(n: nat)
    ensures (forall a: Codes, b: Codes {:trigger LaneDot(a, b)} :: |a| == |b| == n ==> LaneDot(a, b) == Dot(a, b, n))
      <==> n / 16 < 65536
  {
    var k := n / 16;
    if k < 65536 {
      forall a: Codes, b: Codes | |a| == |b| == n ensures LaneDot(a, b) == Dot(a, b, n) {
        LaneSumIsExact(a, b, 8, k);
        ExactSumIsDot(a, b, k);
      }
    } else {
      var x := Extreme(n);
      ExtremeSumFalls(n, 8, k);
      ExactSumIsDot(x, x, k);
      assert LaneDot(x, x) != Dot(x, x, n);
    }
  }

  /** `quantized_integer_dot`: the guard keeps the lane form far inside its range. */
  method QuantizedIntegerDot(a: Codes, b: Codes, avx2: bool) returns (sum: int)
    requires |a| == |b|
    ensures sum == Dot(a, b, |a|)
  {
    if |a| <= 65536 && avx2 {
      sum := DotLanes(a, b);
      LaneSumIsExact(a, b, 8, |a| / 16);
      ExactSumIsDot(a, b, |a| / 16);
    } else {
      sum := DotPortable(a, b);
    }
  }
}
