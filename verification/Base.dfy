/** Results and errors shared by every component of the store. */
module Base {
  datatype Option<+T> = None | Some(value: T)

  /** The error families of the crate; messages are not modelled. */
  datatype Error =
    | InvalidQuery
    | InvalidDimension
    | InvalidVector
    | SequenceOverflow
    | CorruptStorage
    | ResourceExhausted

  datatype Result<+T> = Ok(value: T) | Err(error: Error)

  newtype byte = x: int | 0 <= x < 256

  const U64_MAX: nat := 0xffff_ffff_ffff_ffff

  lemma SubsetSize<T>(a: set<T>, b: set<T>)
    requires a <= b
    ensures |a| <= |b|
    ensures a != b ==> |a| < |b|
  {
    assert b == a + (b - a);
  }

  // ----- bytes as bit vectors --------------------------------------------

  lemma NextPattern(x: bv8)
    requires x != 255
    ensures (x + 1) as nat == x as nat + 1
  {
  }

  lemma {:induction false} Pattern(b: nat) returns (x: bv8)
    requires b < 256
    ensures x as nat == b
  {
    if b == 0 {
      x := 0;
    } else {
      var y := Pattern(b - 1);
      NextPattern(y);
      x := y + 1;
    }
  }

  lemma PatternRoundTrip(x: bv8)
    ensures (x as nat) as bv8 == x
  {
  }

  lemma ByteRoundTrip(b: nat)
    requires b < 256
    ensures (b as bv8) as nat == b
  {
    var x := Pattern(b);
    PatternRoundTrip(x);
  }
}
