/**
 CRC-32C (section 12.1 of RFC 3720) as the store computes it: bit by bit over a
 32-bit register, in one go or chunk by chunk. Any change confined to four
 consecutive bytes changes the checksum.
 */
module Checksums {
  import opened Base

  const POLYNOMIAL: bv32 := 0x82f6_3b78
  const ALL_ONES: bv32 := 0xffff_ffff

  /** One bit: `(crc >> 1) ^ (POLYNOMIAL & -(crc & 1))`. */
  function Shift(crc: bv32): bv32 {
    (crc >> 1) ^ (POLYNOMIAL & (0 - (crc & 1)))
  }

  /** `n` rounds of `shift`. */
  function Rounds<R>(shift: R -> R, r: R, n: nat): R {
    if n == 0 then r else shift(Rounds(shift, r, n - 1))
  }

  function Xor(a: bv32, b: bv32): bv32 { a ^ b }

  /** `u32::from` of a byte. */
  function Bits(b: byte): bv32 { (b as bv8) as bv32 }

  /** One byte of `crc32c_update`. */
  function Feed(crc: bv32, b: byte): bv32 {
    Rounds(Shift, Xor(crc, Bits(b)), 8)
  }

  function Fold<R>(feed: (R, byte) -> R, r: R, bytes: seq<byte>): R
    decreases |bytes|
  {
    if bytes == [] then r else feed(Fold(feed, r, bytes[..|bytes| - 1]), bytes[|bytes| - 1])
  }

  /** `crc32c_update`. */
  function Update(crc: bv32, bytes: seq<byte>): bv32 { Fold(Feed, crc, bytes) }

  function Crc32c(bytes: seq<byte>): bv32 { !Update(ALL_ONES, bytes) }

  /** A register that goes through `states` while it is fed `bytes`. */
  lemma {:induction false} FoldChain<R>(feed: (R, byte) -> R, states: seq<R>, bytes: seq<byte>, n: nat)
    requires |states| == |bytes| + 1 && n <= |bytes|
    requires forall i :: 0 <= i < |bytes| ==> feed(states[i], bytes[i]) == states[i + 1]
    ensures Fold(feed, states[0], bytes[..n]) == states[n]
  {
    if n > 0 {
      FoldChain(feed, states, bytes, n - 1);
      assert bytes[..n][..n - 1] == bytes[..n - 1];
    }
  }

  lemma FeedIs(crc: bv32, b: byte, next: bv32)
    requires Shift(Shift(Shift(Shift(Shift(Shift(Shift(Shift(Xor(crc, Bits(b)))))))))) == next
    ensures Feed(crc, b) == next
  {
    EightRounds(Shift, Xor(crc, Bits(b)));
  }

  lemma DigitSteps()
    ensures Feed(0xffff_ffff, 0x31) == 0x6f0a_661c
    ensures Feed(0x6f0a_661c, 0x32) == 0x8caa_3b9f
    ensures Feed(0x8caa_3b9f, 0x33) == 0xef84_d04d
    ensures Feed(0xef84_d04d, 0x34) == 0x09c5_0b11
    ensures Feed(0x09c5_0b11, 0x35) == 0xe72e_dcca
    ensures Feed(0xe72e_dcca, 0x36) == 0xbeca_8e79
    ensures Feed(0xbeca_8e79, 0x37) == 0xedbd_6815
    ensures Feed(0xedbd_6815, 0x38) == 0x9f78_7f65
    ensures Feed(0x9f78_7f65, 0x39) == 0x1cf9_6d7c
  {
    FeedIs(0xffff_ffff, 0x31, 0x6f0a_661c);
    FeedIs(0x6f0a_661c, 0x32, 0x8caa_3b9f);
    FeedIs(0x8caa_3b9f, 0x33, 0xef84_d04d);
    FeedIs(0xef84_d04d, 0x34, 0x09c5_0b11);
    FeedIs(0x09c5_0b11, 0x35, 0xe72e_dcca);
    FeedIs(0xe72e_dcca, 0x36, 0xbeca_8e79);
    FeedIs(0xbeca_8e79, 0x37, 0xedbd_6815);
    FeedIs(0xedbd_6815, 0x38, 0x9f78_7f65);
    FeedIs(0x9f78_7f65, 0x39, 0x1cf9_6d7c);
  }

  /** The check value of the polynomial: the checksum of "123456789". */
  lemma CrcOfDigits()
    ensures Crc32c([0x31, 0x32, 0x33, 0x34, 0x35, 0x36, 0x37, 0x38, 0x39]) == 0xe306_9283
  {
    var digits: seq<byte> := [0x31, 0x32, 0x33, 0x34, 0x35, 0x36, 0x37, 0x38, 0x39];
    var states: seq<bv32> := [
      0xffff_ffff, 0x6f0a_661c, 0x8caa_3b9f, 0xef84_d04d, 0x09c5_0b11,
      0xe72e_dcca, 0xbeca_8e79, 0xedbd_6815, 0x9f78_7f65, 0x1cf9_6d7c];
    DigitSteps();
    FoldChain(Feed, states, digits, 9);
    assert digits[..9] == digits;
  }

  method FeedLoop(start: bv32, b: byte) returns (crc: bv32)
    ensures crc == Feed(start, b)
  {
    crc := Xor(start, Bits(b));
    for n := 0 to 8
      invariant crc == Rounds(Shift, Xor(start, Bits(b)), n)
    {
      crc := Shift(crc);
    }
  }

  /** The loops of the source. */
  method UpdateLoop(start: bv32, bytes: seq<byte>) returns (crc: bv32)
    ensures crc == Update(start, bytes)
  {
    crc := start;
    for i := 0 to |bytes|
      invariant crc == Fold(Feed, start, bytes[..i])
    {
      assert bytes[..i + 1][..i] == bytes[..i];
      crc := FeedLoop(crc, bytes[i]);
    }
    assert bytes[..|bytes|] == bytes;
  }

  // ----- chunking --------------------------------------------------------

  lemma {:induction false} FoldAppend<R>(feed: (R, byte) -> R, r: R, a: seq<byte>, b: seq<byte>)
    ensures Fold(feed, r, a + b) == Fold(feed, Fold(feed, r, a), b)
    decreases |b|
  {
    if b == [] {
      assert a + b == a;
    } else {
      assert (a + b)[..|a + b| - 1] == a + b[..|b| - 1];
      FoldAppend(feed, r, a, b[..|b| - 1]);
    }
  }

  /** `Crc32cWriter`: however its input is chunked, it ends with the one-shot checksum. */
  class Crc32cWriter {
    var inner: seq<byte>
    var crc: bv32
    var position: nat

    ghost predicate Valid()
      reads this
    {
      crc == Update(ALL_ONES, inner) && position == |inner|
    }

    constructor ()
      ensures Valid() && inner == []
    {
      inner, crc, position := [], ALL_ONES, 0;
    }

    /** The underlying writer may accept only part of the bytes. */
    method Write(bytes: seq<byte>, written: nat)
      requires Valid() && written <= |bytes|
      modifies this
      ensures Valid() && inner == old(inner) + bytes[..written]
    {
      UpdateAppend(ALL_ONES, inner, bytes[..written]);
      inner := inner + bytes[..written];
      crc := UpdateLoop(crc, bytes[..written]);
      position := position + written;
    }

    method Finish() returns (checksum: bv32)
      requires Valid()
      ensures checksum == Crc32c(inner)
    {
      checksum := !crc;
    }
  }

  // ----- registers stay apart --------------------------------------------

  ghost predicate Injective<R(!new)>(shift: R -> R) {
    forall a, b :: shift(a) == shift(b) ==> a == b
  }

  lemma {:induction false} RoundsAreInjective<R(!new)>(shift: R -> R, a: R, b: R, n: nat)
    requires Injective(shift) && Rounds(shift, a, n) == Rounds(shift, b, n)
    ensures a == b
    decreases n
  {
    if n > 0 { RoundsAreInjective(shift, a, b, n - 1); }
  }

  lemma {:induction false} FoldIsInjective<R(!new)>(feed: (R, byte) -> R, a: R, b: R, bytes: seq<byte>)
    requires forall x, y, c :: feed(x, c) == feed(y, c) ==> x == y
    requires Fold(feed, a, bytes) == Fold(feed, b, bytes)
    ensures a == b
    decreases |bytes|
  {
    if bytes != [] { FoldIsInjective(feed, a, b, bytes[..|bytes| - 1]); }
  }

  lemma ShiftCases(x: bv32)
    ensures x & 1 == 0 ==> Shift(x) == x >> 1
    ensures x & 1 != 0 ==> Shift(x) == (x >> 1) ^ POLYNOMIAL
  {
    if x & 1 != 0 { assert x & 1 == 1; }
  }

  lemma ShiftSeparates(a: bv32, b: bv32)
    requires Shift(a) == Shift(b)
    ensures a == b
  {
  }

  lemma ShiftIsInjective()
    ensures Injective(Shift)
  {
    forall a, b | Shift(a) == Shift(b) ensures a == b { ShiftSeparates(a, b); }
  }

  lemma FeedIsInjective()
    ensures forall x, y, c :: Feed(x, c) == Feed(y, c) ==> x == y
  {
    ShiftIsInjective();
    forall x, y, c | Feed(x, c) == Feed(y, c) ensures x == y {
      RoundsAreInjective(Shift, Xor(x, Bits(c)), Xor(y, Bits(c)), 8);
    }
  }

  // ----- bytes as words --------------------------------------------------

  lemma XorShiftRight(a: bv32, b: bv32)
    ensures (a ^ b) >> 1 == (a >> 1) ^ (b >> 1)
  {
  }

  lemma XorParity(a: bv32, b: bv32)
    ensures ((a ^ b) & 1 == 0) <==> ((a & 1 == 0) <==> (b & 1 == 0))
  {
  }

  lemma XorMoves(a: bv32, b: bv32, p: bv32)
    ensures (a ^ p) ^ b == (a ^ b) ^ p
    ensures a ^ (b ^ p) == (a ^ b) ^ p
    ensures (a ^ p) ^ (b ^ p) == a ^ b
  {
  }

  lemma ShiftIsLinear(a: bv32, b: bv32)
    ensures Shift(Xor(a, b)) == Xor(Shift(a), Shift(b))
  {
    ShiftCases(a);
    ShiftCases(b);
    ShiftCases(a ^ b);
    XorShiftRight(a, b);
    XorParity(a, b);
    XorMoves(a >> 1, b >> 1, POLYNOMIAL);
  }

  lemma {:induction false} RoundsAreLinear<R(!new)>(shift: R -> R, xor: (R, R) -> R, a: R, b: R, n: nat)
    requires forall x, y :: shift(xor(x, y)) == xor(shift(x), shift(y))
    ensures Rounds(shift, xor(a, b), n) == xor(Rounds(shift, a, n), Rounds(shift, b, n))
    decreases n
  {
    if n > 0 { RoundsAreLinear(shift, xor, a, b, n - 1); }
  }

  lemma {:induction false} RoundsCompose<R>(shift: R -> R, r: R, m: nat, n: nat)
    ensures Rounds(shift, Rounds(shift, r, m), n) == Rounds(shift, r, m + n)
    decreases n
  {
    if n > 0 { RoundsCompose(shift, r, m, n - 1); }
  }

  function Half(x: bv32): bv32 { x >> 1 }

  /** Dropping a zero bit keeps the zero bits above it. */
  lemma ShiftsOutZero(x: bv32, mask: bv32)
    requires mask & 1 == 1 && x & mask == 0
    ensures Shift(x) == Half(x) && Half(x) & (mask >> 1) == 0
  {
    assert x & 1 == 0 by { LowBit(x, mask); }
    ShiftCases(x);
    MaskHalf(x, mask);
  }

  lemma LowBit(x: bv32, mask: bv32)
    requires mask & 1 == 1 && x & mask == 0
    ensures x & 1 == 0
  {
  }

  lemma MaskHalf(x: bv32, mask: bv32)
    requires x & mask == 0
    ensures (x >> 1) & (mask >> 1) == 0
  {
  }

  lemma EightRounds<R>(shift: R -> R, r: R)
    ensures Rounds(shift, r, 8) == shift(shift(shift(shift(shift(shift(shift(shift(r))))))))
  {
    assert Rounds(shift, r, 4) == shift(shift(shift(shift(r))));
    RoundsCompose(shift, r, 4, 4);
  }

  lemma EightHalves(x: bv32)
    ensures Half(Half(Half(Half(Half(Half(Half(Half(x)))))))) == x >> 8
  {
  }

  lemma HighWord(w: bv32)
    requires w & 0xff00_0000 == 0
    ensures (w << 8) & 0xff == 0 && (w << 8) >> 8 == w
  {
  }

  /** Eight zero bits at the bottom are simply shifted out. */
  lemma RoundsOfHigh(w: bv32)
    requires w & 0xff00_0000 == 0
    ensures Rounds(Shift, w << 8, 8) == w
  {
    HighWord(w);
    ShiftsOutByte(w << 8);
  }

  lemma ShiftsOutByte(x: bv32)
    requires x & 0xff == 0
    ensures Rounds(Shift, x, 8) == x >> 8
  {
    var half := ShiftsOutNibble(x, 0xff);
    var done := ShiftsOutNibble(half, 0xf);
    EightRounds(Shift, x);
    EightHalves(x);
  }

  lemma ShiftsOutNibble(x: bv32, mask: bv32) returns (y: bv32)
    requires (mask == 0xff || mask == 0xf) && x & mask == 0
    ensures y == Shift(Shift(Shift(Shift(x)))) == Half(Half(Half(Half(x)))) && y & (mask >> 4) == 0
  {
    ShiftsOutZero(x, mask);
    ShiftsOutZero(Half(x), mask >> 1);
    ShiftsOutZero(Half(Half(x)), mask >> 2);
    ShiftsOutZero(Half(Half(Half(x))), mask >> 3);
    y := Half(Half(Half(Half(x))));
  }

  lemma BitsAreLow(b: byte)
    ensures Bits(b) & 0xffff_ff00 == 0
  {
  }

  lemma BitsAreInjective(a: byte, b: byte)
    requires Bits(a) == Bits(b)
    ensures a == b
  {
    assert a as bv8 == b as bv8;
    ByteRoundTrip(a as int);
    ByteRoundTrip(b as int);
  }

  lemma UpdateAppend(crc: bv32, a: seq<byte>, b: seq<byte>)
    ensures Update(crc, a + b) == Update(Update(crc, a), b)
  {
    FoldAppend(Feed, crc, a, b);
  }

  // ----- differences between two runs of the register --------------------

  /**
   Walking backwards from equal registers: `join(b, c, d)` is the difference
   before two bytes `b` and `c` whose feeding left the difference `d`.
   */
  function Difference<R>(join: (byte, byte, R) -> R, zero: R, v: seq<byte>, w: seq<byte>, i: nat): R
    requires |v| == |w| && i <= |v|
    decreases |v| - i
  {
    if i == |v| then zero else join(v[i], w[i], Difference(join, zero, v, w, i + 1))
  }

  lemma {:induction false} FoldsDiffer<R(!new)>(
      feed: (R, byte) -> R, diff: (R, R) -> R, join: (byte, byte, R) -> R, zero: R, low: R -> bool,
      r: R, v: seq<byte>, w: seq<byte>, i: nat)
    requires |v| == |w| && i <= |v| && Fold(feed, r, v) == Fold(feed, r, w)
    requires forall x :: diff(x, x) == zero
    requires forall x, y, b, c ::
      low(diff(feed(x, b), feed(y, c))) ==> diff(x, y) == join(b, c, diff(feed(x, b), feed(y, c)))
    requires forall j :: 1 <= j <= |v| ==> low(Difference(join, zero, v, w, j))
    ensures diff(Fold(feed, r, v[..i]), Fold(feed, r, w[..i])) == Difference(join, zero, v, w, i)
    decreases |v| - i
  {
    if i == |v| {
      assert v[..i] == v && w[..i] == w;
    } else {
      FoldsDiffer(feed, diff, join, zero, low, r, v, w, i + 1);
      assert v[..i + 1][..i] == v[..i] && w[..i + 1][..i] == w[..i];
      assert Fold(feed, r, v[..i + 1]) == feed(Fold(feed, r, v[..i]), v[i]);
      assert Fold(feed, r, w[..i + 1]) == feed(Fold(feed, r, w[..i]), w[i]);
    }
  }

  lemma {:induction false} NoDifference<R(!new)>(
      join: (byte, byte, R) -> R, zero: R, low: R -> bool, v: seq<byte>, w: seq<byte>, i: nat)
    requires |v| == |w| && i <= |v| && Difference(join, zero, v, w, i) == zero
    requires forall b, c, d :: low(d) && join(b, c, d) == zero ==> b == c && d == zero
    requires forall j :: 1 <= j <= |v| ==> low(Difference(join, zero, v, w, j))
    ensures v[i..] == w[i..]
    decreases |v| - i
  {
    if i < |v| {
      NoDifference(join, zero, low, v, w, i + 1);
      assert v[i..] == [v[i]] + v[i + 1..] && w[i..] == [w[i]] + w[i + 1..];
    }
  }

  function Join(b: byte, c: byte, d: bv32): bv32 { Xor(Xor(Bits(b), Bits(c)), Up(d)) }

  predicate BelowTop(d: bv32) { d & 0xff00_0000 == 0 }

  function Up(d: bv32): bv32 { d << 8 }

  lemma ShiftLaws()
    ensures ShiftLaw(Shift, Xor, Up, BelowTop)
  {
    ShiftIsInjective();
    forall x, y ensures Shift(Xor(x, y)) == Xor(Shift(x), Shift(y)) { ShiftIsLinear(x, y); }
    forall d | BelowTop(d) ensures Rounds(Shift, Up(d), 8) == d { RoundsOfHigh(d); }
  }

  lemma XorLaws()
    ensures XorLaw(Xor, 0)
  {
    XorSelves();
    XorIdentities();
  }

  lemma XorSelves()
    ensures Cancels(Xor, 0)
  {
    forall x ensures Xor(x, x) == 0 { XorSelf(x); }
  }

  lemma XorIdentities()
    ensures Regroups(Xor)
  {
    XorAssociates();
    XorCommutes();
    XorZero();
    XorSelves();
    forall x, b, y, c ensures Regrouped(Xor, x, b, y, c) { Regroup(Xor, 0, x, b, y, c); }
  }

  lemma XorAssociates()
    ensures Associates(Xor)
  {
    forall x, y, z ensures Xor(Xor(x, y), z) == Xor(x, Xor(y, z)) { XorAssociative(x, y, z); }
  }

  lemma XorAssociative(x: bv32, y: bv32, z: bv32)
    ensures Xor(Xor(x, y), z) == Xor(x, Xor(y, z))
  {
  }

  lemma XorCommutes()
    ensures Commutes(Xor)
  {
    forall x, y ensures Xor(x, y) == Xor(y, x) { XorCommutative(x, y); }
  }

  lemma XorCommutative(x: bv32, y: bv32)
    ensures Xor(x, y) == Xor(y, x)
  {
  }

  lemma XorZero()
    ensures forall x :: Xor(0, x) == x
  {
  }

  /** In any group in which every element is its own inverse. */
  lemma Regroup<R(!new)>(xor: (R, R) -> R, zero: R, p: R, q: R, r: R, s: R)
    requires Associates(xor) && Commutes(xor) && Cancels(xor, zero) && forall x :: xor(zero, x) == x
    ensures Regrouped(xor, p, q, r, s)
  {
    var d, e := xor(q, s), xor(p, r);
    calc {
      xor(xor(p, q), xor(r, s));
      xor(p, xor(q, xor(r, s)));
      xor(p, xor(xor(q, r), s));
      xor(p, xor(xor(r, q), s));
      xor(p, xor(r, d));
      xor(e, d);
      xor(d, e);
    }
    assert xor(d, xor(d, e)) == xor(xor(d, d), e);
  }

  /** The register difference before a byte, from the difference after it. */
  lemma FeedBackwards<R(!new)>(
      shift: R -> R, xor: (R, R) -> R, up: R -> R, low: R -> bool, feed: (R, byte) -> R, bits: byte -> R,
      join: (byte, byte, R) -> R, x: R, b: byte, y: R, c: byte)
    requires Injective(shift)
    requires forall p, q {:trigger shift(xor(p, q))} :: shift(xor(p, q)) == xor(shift(p), shift(q))
    requires forall d :: low(d) ==> Rounds(shift, up(d), 8) == d
    requires Regroups(xor)
    requires forall p, e :: feed(p, e) == Rounds(shift, xor(p, bits(e)), 8)
    requires forall e, f, d :: join(e, f, d) == xor(xor(bits(e), bits(f)), up(d))
    requires low(xor(feed(x, b), feed(y, c)))
    ensures xor(x, y) == join(b, c, xor(feed(x, b), feed(y, c)))
  {
    var p, q := xor(x, bits(b)), xor(y, bits(c));
    RoundsAreLinear(shift, xor, p, q, 8);
    RoundsAreInjective(shift, xor(p, q), up(xor(feed(x, b), feed(y, c))), 8);
    assert Regrouped(xor, x, bits(b), y, bits(c));
  }

  lemma JoinIsZero(b: byte, c: byte, d: bv32)
    requires BelowTop(d) && Join(b, c, d) == 0
    ensures b == c && d == 0
  {
    BitsAreLow(b);
    BitsAreLow(c);
    LowAndHigh(Bits(b), Bits(c), d);
    BitsAreInjective(b, c);
  }

  lemma LowAndHigh(b: bv32, c: bv32, d: bv32)
    requires b & 0xffff_ff00 == 0 && c & 0xffff_ff00 == 0 && d & 0xff00_0000 == 0
    requires (b ^ c) ^ (d << 8) == 0
    ensures b == c && d == 0
  {
  }

  /** The difference of at most three bytes stays clear of the top byte. */
  lemma {:induction false} DifferenceIsLow(v: seq<byte>, w: seq<byte>, i: nat)
    requires |v| == |w| && i <= |v| <= i + 3
    ensures BelowTop(Difference(Join, 0, v, w, i))
    ensures |v| <= i + 2 ==> Difference(Join, 0, v, w, i) & 0xffff_0000 == 0
    ensures |v| <= i + 1 ==> Difference(Join, 0, v, w, i) & 0xffff_ff00 == 0
    decreases |v| - i
  {
    if i < |v| {
      DifferenceIsLow(v, w, i + 1);
      BitsAreLow(v[i]);
      BitsAreLow(w[i]);
      JoinGrows(Bits(v[i]), Bits(w[i]), Difference(Join, 0, v, w, i + 1));
    }
  }

  lemma JoinGrows(b: bv32, c: bv32, d: bv32)
    requires b & 0xffff_ff00 == 0 && c & 0xffff_ff00 == 0
    ensures d & 0xffff_0000 == 0 ==> ((b ^ c) ^ (d << 8)) & 0xff00_0000 == 0
    ensures d & 0xffff_ff00 == 0 ==> ((b ^ c) ^ (d << 8)) & 0xffff_0000 == 0
    ensures d == 0 ==> ((b ^ c) ^ (d << 8)) & 0xffff_ff00 == 0
  {
  }

  lemma JoinLaws()
    ensures JoinLaw(Xor, Up, BelowTop, Bits, Join, 0)
  {
    forall b, c, d | BelowTop(d) && Join(b, c, d) == 0 ensures b == c && d == 0 { JoinIsZero(b, c, d); }
  }

  /** The algebra of the register, as far as the argument needs it. */
  ghost predicate Laws<R(!new)>(
      shift: R -> R, xor: (R, R) -> R, up: R -> R, low: R -> bool, feed: (R, byte) -> R, bits: byte -> R,
      join: (byte, byte, R) -> R, zero: R)
  {
    && ShiftLaw(shift, xor, up, low) && XorLaw(xor, zero)
    && FeedLaw(shift, xor, feed, bits) && JoinLaw(xor, up, low, bits, join, zero)
  }

  ghost predicate ShiftLaw<R(!new)>(shift: R -> R, xor: (R, R) -> R, up: R -> R, low: R -> bool) {
    && Injective(shift)
    && (forall p, q {:trigger shift(xor(p, q))} :: shift(xor(p, q)) == xor(shift(p), shift(q)))
    && (forall d :: low(d) ==> Rounds(shift, up(d), 8) == d)
  }

  ghost predicate XorLaw<R(!new)>(xor: (R, R) -> R, zero: R) {
    Cancels(xor, zero) && Regroups(xor)
  }

  ghost predicate Cancels<R(!new)>(xor: (R, R) -> R, zero: R) {
    forall p :: xor(p, p) == zero
  }

  ghost predicate Associates<R(!new)>(xor: (R, R) -> R) {
    forall p, q, r {:trigger xor(xor(p, q), r)} {:trigger xor(p, xor(q, r))} :: xor(xor(p, q), r) == xor(p, xor(q, r))
  }

  ghost predicate Commutes<R(!new)>(xor: (R, R) -> R) {
    forall p, q :: xor(p, q) == xor(q, p)
  }

  ghost predicate Regroups<R(!new)>(xor: (R, R) -> R) {
    forall p, q, r, s {:trigger Regrouped(xor, p, q, r, s)} :: Regrouped(xor, p, q, r, s)
  }

  ghost predicate Regrouped<R>(xor: (R, R) -> R, p: R, q: R, r: R, s: R) {
    xor(p, r) == xor(xor(q, s), xor(xor(p, q), xor(r, s)))
  }

  ghost predicate FeedLaw<R(!new)>(shift: R -> R, xor: (R, R) -> R, feed: (R, byte) -> R, bits: byte -> R) {
    forall p, e :: feed(p, e) == Rounds(shift, xor(p, bits(e)), 8)
  }

  ghost predicate JoinLaw<R(!new)>(
      xor: (R, R) -> R, up: R -> R, low: R -> bool, bits: byte -> R, join: (byte, byte, R) -> R, zero: R)
  {
    && (forall e, f, d :: join(e, f, d) == xor(xor(bits(e), bits(f)), up(d)))
    && (forall b, c, d :: low(d) && join(b, c, d) == zero ==> b == c && d == zero)
  }

  lemma CrcLaws()
    ensures Laws(Shift, Xor, Up, BelowTop, Feed, Bits, Join, 0)
  {
    ShiftLaws();
    XorLaws();
    JoinLaws();
    FeedLaws();
  }

  lemma FeedLaws()
    ensures FeedLaw(Shift, Xor, Feed, Bits)
  {
  }

  /** The difference before a byte is determined by the difference after it. */
  ghost predicate Backwards<R(!new)>(
      xor: (R, R) -> R, low: R -> bool, feed: (R, byte) -> R, join: (byte, byte, R) -> R, zero: R)
  {
    && (forall x :: xor(x, x) == zero)
    && (forall x, y, b, c :: low(xor(feed(x, b), feed(y, c))) ==> xor(x, y) == join(b, c, xor(feed(x, b), feed(y, c))))
    && (forall b, c, d :: low(d) && join(b, c, d) == zero ==> b == c && d == zero)
  }

  lemma LawsWorkBackwards<R(!new)>(
      shift: R -> R, xor: (R, R) -> R, up: R -> R, low: R -> bool, feed: (R, byte) -> R, bits: byte -> R,
      join: (byte, byte, R) -> R, zero: R)
    requires Laws(shift, xor, up, low, feed, bits, join, zero)
    ensures Backwards(xor, low, feed, join, zero)
  {
    forall x, y, b, c | low(xor(feed(x, b), feed(y, c))) ensures xor(x, y) == join(b, c, xor(feed(x, b), feed(y, c))) {
      FeedBackwards(shift, xor, up, low, feed, bits, join, x, b, y, c);
    }
  }

  lemma WindowsStayApart<R(!new)>(
      xor: (R, R) -> R, low: R -> bool, feed: (R, byte) -> R, join: (byte, byte, R) -> R, zero: R,
      r: R, v: seq<byte>, w: seq<byte>)
    requires Backwards(xor, low, feed, join, zero)
    requires |v| == |w| && forall j :: 1 <= j <= |v| ==> low(Difference(join, zero, v, w, j))
    requires Fold(feed, r, v) == Fold(feed, r, w)
    ensures v == w
  {
    FoldsDiffer(feed, xor, join, zero, low, r, v, w, 0);
    assert v[..0] == w[..0];
    NoDifference(join, zero, low, v, w, 0);
    assert v[0..] == v && w[0..] == w;
  }

  /** From one register, different windows of up to four bytes lead to different registers. */
  lemma WordsStayApart(crc: bv32, v: seq<byte>, w: seq<byte>)
    requires |v| == |w| <= 4 && Update(crc, v) == Update(crc, w)
    ensures v == w
  {
    CrcLaws();
    LawsWorkBackwards(Shift, Xor, Up, BelowTop, Feed, Bits, Join, 0);
    forall j | 1 <= j <= |v| ensures BelowTop(Difference(Join, 0, v, w, j)) { DifferenceIsLow(v, w, j); }
    WindowsStayApart(Xor, BelowTop, Feed, Join, 0, crc, v, w);
  }

  lemma XorSelf(x: bv32)
    ensures Xor(x, x) == 0
  {
  }

  lemma NotIsInjective(a: bv32, b: bv32)
    requires !a == !b
    ensures a == b
  {
  }

  lemma FoldsStayApart<R(!new)>(
      feed: (R, byte) -> R, r: R, before: seq<byte>, v: seq<byte>, w: seq<byte>, after: seq<byte>)
    requires forall x, y, c :: feed(x, c) == feed(y, c) ==> x == y
    requires Fold(feed, Fold(feed, r, before), v) != Fold(feed, Fold(feed, r, before), w)
    ensures Fold(feed, r, before + v + after) != Fold(feed, r, before + w + after)
  {
    FoldAppend(feed, r, before, v);
    FoldAppend(feed, r, before, w);
    FoldAppend(feed, r, before + v, after);
    FoldAppend(feed, r, before + w, after);
    if Fold(feed, r, before + v + after) == Fold(feed, r, before + w + after) {
      FoldIsInjective(feed, Fold(feed, r, before + v), Fold(feed, r, before + w), after);
    }
  }

  /**
   Two payloads that differ only inside a window of up to four consecutive
   bytes never share a checksum, wherever the window lies.
   */
  lemma BurstChangesChecksum(before: seq<byte>, v: seq<byte>, w: seq<byte>, after: seq<byte>)
    requires |v| == |w| <= 4 && v != w
    ensures Crc32c(before + v + after) != Crc32c(before + w + after)
  {
    var crc := Update(ALL_ONES, before);
    if Update(crc, v) == Update(crc, w) { WordsStayApart(crc, v, w); }
    FeedIsInjective();
    FoldsStayApart(Feed, ALL_ONES, before, v, w, after);
    if !Update(ALL_ONES, before + v + after) == !Update(ALL_ONES, before + w + after) {
      NotIsInjective(Update(ALL_ONES, before + v + after), Update(ALL_ONES, before + w + after));
    }
  }

  // ----- the stored form -------------------------------------------------

  function Down(x: bv32): bv32 { x >> 8 }

  function Low(x: bv32): byte { ((x & 0xff) as bv8) as byte }

  /** `to_le_bytes`. */
  function CrcBytes(crc: bv32): (bytes: seq<byte>)
    ensures |bytes| == 4
  {
    [Low(crc), Low(Down(crc)), Low(Down(Down(crc))), Low(Down(Down(Down(crc))))]
  }

  function Checksum(payload: seq<byte>): (bytes: seq<byte>)
    ensures |bytes| == 4
  {
    CrcBytes(Crc32c(payload))
  }

  predicate SameLow(x: bv32, y: bv32) { x & 0xff == y & 0xff }

  lemma LowIsInjective(x: bv32, y: bv32)
    requires Low(x) == Low(y)
    ensures SameLow(x, y)
  {
    SmallIsInjective((x & 0xff) as bv8, (y & 0xff) as bv8);
  }

  lemma SmallIsInjective(a: bv8, b: bv8)
    requires a as int == b as int
    ensures a == b
  {
  }

  lemma WordFromBytes(x: bv32, y: bv32)
    requires SameLow(x, y) && SameLow(Down(x), Down(y)) && SameLow(Down(Down(x)), Down(Down(y)))
    requires SameLow(Down(Down(Down(x))), Down(Down(Down(y))))
    ensures x == y
  {
  }

  lemma LittleEndianDecides<R(!new)>(low: R -> byte, down: R -> R, same: (R, R) -> bool, x: R, y: R)
    requires [low(x), low(down(x)), low(down(down(x))), low(down(down(down(x))))]
      == [low(y), low(down(y)), low(down(down(y))), low(down(down(down(y))))]
    requires forall a, b :: low(a) == low(b) ==> same(a, b)
    requires forall a, b ::
      (&& same(a, b) && same(down(a), down(b)) && same(down(down(a)), down(down(b)))
       && same(down(down(down(a))), down(down(down(b))))) ==> a == b
    ensures x == y
  {
    var a := [low(x), low(down(x)), low(down(down(x))), low(down(down(down(x))))];
    var b := [low(y), low(down(y)), low(down(down(y))), low(down(down(down(y))))];
    assert a[0] == b[0] && a[1] == b[1] && a[2] == b[2] && a[3] == b[3];
  }

  lemma CrcBytesAreInjective(x: bv32, y: bv32)
    requires CrcBytes(x) == CrcBytes(y)
    ensures x == y
  {
    forall a, b | Low(a) == Low(b) ensures SameLow(a, b) { LowIsInjective(a, b); }
    forall a, b | SameLow(a, b) && SameLow(Down(a), Down(b)) && SameLow(Down(Down(a)), Down(Down(b)))
        && SameLow(Down(Down(Down(a))), Down(Down(Down(b))))
      ensures a == b
    {
      WordFromBytes(a, b);
    }
    LittleEndianDecides(Low, Down, SameLow, x, y);
  }

  /** The stored checksum gives such a change away. */
  lemma BurstIsDetected(before: seq<byte>, v: seq<byte>, w: seq<byte>, after: seq<byte>)
    requires |v| == |w| <= 4 && v != w
    ensures Checksum(before + v + after) != Checksum(before + w + after)
  {
    BurstChangesChecksum(before, v, w, after);
    if CrcBytes(Crc32c(before + v + after)) == CrcBytes(Crc32c(before + w + after)) {
      CrcBytesAreInjective(Crc32c(before + v + after), Crc32c(before + w + after));
    }
  }
}
