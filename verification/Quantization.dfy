/**
 The scale of a quantized vector: its largest magnitude divided by 127, rounded to
 single precision. Of a vector that is not zero but tiny the scale underflows to
 zero, and the reader of a graph refuses it.
 */
module Quantization {
  import opened Bytes
  import opened Collections
  import opened WalCodec
  import opened GraphCodec

  // ----- single precision ------------------------------------------------

  const INFINITE: nat := 0x7f80_0000

  /** A bit pattern without its sign; the order of magnitudes is the order of these numbers. */
  function Magnitude(c: int): nat { c % 0x8000_0000 }

  function Pow2(n: nat): nat { if n == 0 then 1 else 2 * Pow2(n - 1) }

  lemma {:induction false} Pow2IsPositive(n: nat)
    ensures Pow2(n) >= 1
  {
    if n > 0 { Pow2IsPositive(n - 1); }
  }

  /** The number with pattern `p`, in units of 2^-149: subnormals, then eight exponent bits. */
  function Units(p: nat): nat {
    if p < 0x80_0000 then p else (0x80_0000 + p % 0x80_0000) * Pow2(p / 0x80_0000 - 1)
  }

  function Distance(a: nat, b: nat): nat { if a < b then b - a else a - b }

  /** How far 127 times the number `s` is from the number `m`. */
  function Miss(m: nat, s: nat): nat { Distance(127 * Units(s), Units(m)) }

  /** `s` is `m / 127` rounded to nearest, ties to even. */
  ghost predicate IsQuotient(m: nat, s: nat) {
    s < INFINITE && forall r: nat {:trigger Miss(m, r)} :: r < INFINITE && r != s ==>
      Miss(m, s) < Miss(m, r) || (Miss(m, s) == Miss(m, r) && s % 2 == 0)
  }

  lemma UnitsOfNormal(p: nat)
    requires p >= 0x80_0000
    ensures Units(p) >= 0x80_0000
  {
    var n := p / 0x80_0000 - 1;
    Pow2IsPositive(n);
    assert (0x80_0000 + p % 0x80_0000) * Pow2(n) >= 0x80_0000 + p % 0x80_0000;
  }

  /** A quotient by 127 underflows to zero exactly below 64 units. */
  lemma QuotientIsZeroIff(m: nat, s: nat)
    requires IsQuotient(m, s)
    ensures s == 0 <==> m < 64
  {
    assert Units(0) == 0 && Units(1) == 1;
    if m >= 0x80_0000 { UnitsOfNormal(m); }
    if s >= 0x80_0000 { UnitsOfNormal(s); }
    assert Miss(m, 0) == Units(m) && Miss(m, 1) == Distance(127, Units(m));
  }

  // ----- quantization ----------------------------------------------------

  function MaxMagnitude(v: Vector): nat {
    if v == [] then 0
    else
      var before, last := MaxMagnitude(v[..|v| - 1]), Magnitude(v[|v| - 1]);
      if before < last then last else before
  }

  lemma {:induction false} MaxMagnitudeIs(v: Vector)
    ensures forall i :: 0 <= i < |v| ==> Magnitude(v[i]) <= MaxMagnitude(v)
    ensures MaxMagnitude(v) == 0 || exists i :: 0 <= i < |v| && Magnitude(v[i]) == MaxMagnitude(v)
  {
    if v != [] {
      var init := v[..|v| - 1];
      MaxMagnitudeIs(init);
      if MaxMagnitude(v) == MaxMagnitude(init) != 0 {
        var i :| 0 <= i < |init| && Magnitude(init[i]) == MaxMagnitude(init);
        assert v[i] == init[i];
      } else if MaxMagnitude(v) != 0 {
        assert Magnitude(v[|v| - 1]) == MaxMagnitude(v);
      }
      forall i | 0 <= i < |v| ensures Magnitude(v[i]) <= MaxMagnitude(v) {
        if i < |init| { assert init[i] == v[i]; }
      }
    }
  }

  /** The loop over the components. */
  method FindMaximum(v: Vector) returns (maximum: nat)
    ensures maximum == MaxMagnitude(v)
  {
    maximum := 0;
    for i := 0 to |v|
      invariant maximum == MaxMagnitude(v[..i])
    {
      assert v[..i + 1][..i] == v[..i];
      if maximum < Magnitude(v[i]) {
        maximum := Magnitude(v[i]);
      }
    }
    assert v[..|v|] == v;
  }

  /** `QuantizedVector::new`: the scale of a zero vector is one. */
  ghost predicate IsQuantized(v: Vector, x: StoredVector) {
    && x.Codes? && |x.codes| == |v| && (forall i :: 0 <= i < |x.codes| ==> -127 <= x.codes[i] <= 127)
    && (if MaxMagnitude(v) == 0 then x.scale == 0x3f80_0000
        else x.scale >= 0 && IsQuotient(MaxMagnitude(v), x.scale))
  }

  /** The vector is zero, or one of its components is at least 64 units of 2^-149. */
  predicate Quantizable(v: Vector) {
    || (forall i :: 0 <= i < |v| ==> Magnitude(v[i]) == 0)
    || (exists i :: 0 <= i < |v| && Magnitude(v[i]) >= 64)
  }

  /** The reader accepts the quantized form of a vector if and only if the vector is `Quantizable`. */
  lemma QuantizedReadsIff(h: Header, v: Vector, x: StoredVector)
    requires h.storage.ScalarInt8? && |v| == h.dimension && IsQuantized(v, x)
    ensures StoredVectorWritable(h, x) && Decides(StoredVectorCodec(h), x, Quantizable(v))
    ensures StoredVectorWithin(x) <==> Quantizable(v)
  {
    var m := MaxMagnitude(v);
    MaxMagnitudeIs(v);
    if m > 0 { QuotientIsZeroIff(m, x.scale); }
    assert StoredVectorWithin(x) <==> m == 0 || m >= 64;
    assert m >= 64 ==> Quantizable(v);
    StoredVectorDecides(h, x);
  }

  /** The pattern of the smallest positive number, next to a zero. */
  const TINY: Vector := [1, 0]

  /** A finite vector that every metric but the cosine leaves as it is, and that no graph file can hold. */
  lemma TinyVectorIsRefused(h: Header, x: StoredVector)
    requires h.storage.ScalarInt8? && h.dimension == 2 && IsQuantized(TINY, x)
    ensures FiniteVector(TINY) && x.scale == 0 && Refuses(StoredVectorCodec(h), x)
  {
    assert TINY[..1] == [1] && [1][..0] == [];
    assert MaxMagnitude([]) == 0 && MaxMagnitude([1]) == 1 && MaxMagnitude(TINY) == 1;
    QuotientIsZeroIff(1, x.scale);
    QuantizedReadsIff(h, TINY, x);
    assert Magnitude(TINY[0]) == 1;
  }
}
