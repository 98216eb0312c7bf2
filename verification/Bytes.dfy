/**
 Little-endian numbers, counted lists and the position-moving reader that every
 decoder of the store is made of.
 */
module Bytes {
  import opened Base

  /** `part` lies in `bytes` at `pos`. */
  predicate Holds(bytes: seq<byte>, pos: nat, part: seq<byte>) {
    pos + |part| <= |bytes| && bytes[pos..pos + |part|] == part
  }

  lemma HoldsSplit(bytes: seq<byte>, pos: nat, a: seq<byte>, b: seq<byte>)
    requires Holds(bytes, pos, a + b)
    ensures Holds(bytes, pos, a) && Holds(bytes, pos + |a|, b)
  {
    assert bytes[pos..pos + |a|] == bytes[pos..pos + |a + b|][..|a|] == a;
    assert bytes[pos + |a|..pos + |a| + |b|] == bytes[pos..pos + |a + b|][|a|..] == b;
  }

  /** A value read and the position behind it. */
  datatype Parsed<+T> = Parsed(value: T, next: nat)

  /** `Decoder::take`. */
  function Take(bytes: seq<byte>, pos: nat, n: nat): Result<Parsed<seq<byte>>> {
    if pos + n <= |bytes| then Ok(Parsed(bytes[pos..pos + n], pos + n)) else Err(CorruptStorage)
  }

  // ----- numbers ---------------------------------------------------------

  function Limit(k: nat): nat {
    if k == 0 then 1 else 256 * Limit(k - 1)
  }

  /** `n` in `k` little-endian bytes. */
  function PutLe(n: nat, k: nat): (b: seq<byte>)
    ensures |b| == k
  {
    if k == 0 then [] else [(n % 256) as byte] + PutLe(n / 256, k - 1)
  }

  function GetLe(b: seq<byte>): nat {
    if b == [] then 0 else b[0] as nat + 256 * GetLe(b[1..])
  }

  lemma {:induction false} LeRoundTrip(n: nat, k: nat)
    requires n < Limit(k)
    ensures GetLe(PutLe(n, k)) == n
  {
    if k > 0 {
      LeRoundTrip(n / 256, k - 1);
      assert PutLe(n, k)[1..] == PutLe(n / 256, k - 1);
    }
  }

  const U32_LIMIT: nat := 0x1_0000_0000
  const U64_LIMIT: nat := 0x1_0000_0000_0000_0000

  lemma Limits()
    ensures Limit(1) == 256 && Limit(4) == U32_LIMIT && Limit(8) == U64_LIMIT
  {
    assert Limit(2) == 0x1_0000 && Limit(3) == 0x100_0000;
    assert Limit(5) == 0x100_0000_0000 && Limit(6) == 0x1_0000_0000_0000 && Limit(7) == 0x100_0000_0000_0000;
  }

  function ReadLe(bytes: seq<byte>, pos: nat, k: nat): Result<Parsed<nat>> {
    var b := Take(bytes, pos, k);
    if b.Err? then Err(b.error) else Ok(Parsed(GetLe(b.value.value), b.value.next))
  }

  lemma ReadLeHolds(bytes: seq<byte>, pos: nat, n: nat, k: nat)
    requires n < Limit(k) && Holds(bytes, pos, PutLe(n, k))
    ensures ReadLe(bytes, pos, k) == Ok(Parsed(n, pos + k))
  {
    LeRoundTrip(n, k);
  }

  // ----- codecs ----------------------------------------------------------

  type Reader<!T> = (seq<byte>, nat) -> Result<Parsed<T>>

  /** A writer may depend on the position it writes at. */
  type Writer<!T> = (T, nat) -> seq<byte>

  datatype Codec<!T> = Codec(read: Reader<T>, put: Writer<T>)

  /** Wherever the codec wrote `x`, it reads `x` and stops right behind it. */
  ghost predicate Inverts<T>(c: Codec<T>, x: T) {
    forall bytes: seq<byte>, pos: nat {:trigger c.read(bytes, pos)} ::
      Holds(bytes, pos, c.put(x, pos)) ==> c.read(bytes, pos) == Ok(Parsed(x, pos + |c.put(x, pos)|))
  }

  function Le(k: nat): Codec<nat> {
    Codec((bytes: seq<byte>, pos: nat) => ReadLe(bytes, pos, k), (n: nat, pos: nat) => PutLe(n, k))
  }

  lemma LeInverts(n: nat, k: nat)
    requires n < Limit(k)
    ensures Inverts(Le(k), n)
  {
    var c := Le(k);
    forall bytes: seq<byte>, pos: nat | Holds(bytes, pos, c.put(n, pos))
      ensures c.read(bytes, pos) == Ok(Parsed(n, pos + |c.put(n, pos)|))
    {
      ReadLeHolds(bytes, pos, n, k);
    }
  }

  /** Magic bytes. */
  function Fixed(part: seq<byte>): Codec<()> {
    Codec(
      (bytes: seq<byte>, pos: nat) =>
        if Holds(bytes, pos, part) then Ok(Parsed((), pos + |part|)) else Err(CorruptStorage),
      (u: (), pos: nat) => part)
  }

  lemma FixedInverts(part: seq<byte>)
    ensures Inverts(Fixed(part), ())
  {
  }

  /** Two values one after the other. */
  function Pair<A, B>(first: Codec<A>, second: Codec<B>): Codec<(A, B)> {
    Codec(
      (bytes: seq<byte>, pos: nat) =>
        var a := first.read(bytes, pos);
        if a.Err? then Err(a.error)
        else
          var b := second.read(bytes, a.value.next);
          if b.Err? then Err(b.error) else Ok(Parsed((a.value.value, b.value.value), b.value.next)),
      (x: (A, B), pos: nat) => first.put(x.0, pos) + second.put(x.1, pos + |first.put(x.0, pos)|))
  }

  lemma PairInverts<A, B>(first: Codec<A>, second: Codec<B>, x: (A, B))
    requires Inverts(first, x.0) && Inverts(second, x.1)
    ensures Inverts(Pair(first, second), x)
  {
    var c := Pair(first, second);
    forall bytes: seq<byte>, pos: nat | Holds(bytes, pos, c.put(x, pos))
      ensures c.read(bytes, pos) == Ok(Parsed(x, pos + |c.put(x, pos)|))
    {
      HoldsSplit(bytes, pos, first.put(x.0, pos), second.put(x.1, pos + |first.put(x.0, pos)|));
      assert first.read(bytes, pos) == Ok(Parsed(x.0, pos + |first.put(x.0, pos)|));
    }
  }

  /** A value whose codec depends on what was read before it. */
  function Dependent<A, B>(first: Codec<A>, rest: A -> Codec<B>): Codec<(A, B)> {
    Codec(
      (bytes: seq<byte>, pos: nat) =>
        var a := first.read(bytes, pos);
        if a.Err? then Err(a.error)
        else
          var b := rest(a.value.value).read(bytes, a.value.next);
          if b.Err? then Err(b.error) else Ok(Parsed((a.value.value, b.value.value), b.value.next)),
      (x: (A, B), pos: nat) => first.put(x.0, pos) + rest(x.0).put(x.1, pos + |first.put(x.0, pos)|))
  }

  lemma DependentInverts<A, B>(first: Codec<A>, rest: A -> Codec<B>, x: (A, B))
    requires Inverts(first, x.0) && Inverts(rest(x.0), x.1)
    ensures Inverts(Dependent(first, rest), x)
  {
    var c, second := Dependent(first, rest), rest(x.0);
    forall bytes: seq<byte>, pos: nat | Holds(bytes, pos, c.put(x, pos))
      ensures c.read(bytes, pos) == Ok(Parsed(x, pos + |c.put(x, pos)|))
    {
      HoldsSplit(bytes, pos, first.put(x.0, pos), second.put(x.1, pos + |first.put(x.0, pos)|));
      assert first.read(bytes, pos) == Ok(Parsed(x.0, pos + |first.put(x.0, pos)|));
    }
  }

  /** A value stored in another form; `decode` may refuse what it finds. */
  function Convert<A, B>(inner: Codec<A>, decode: A -> Option<B>, encode: B -> A): Codec<B> {
    Codec(
      (bytes: seq<byte>, pos: nat) =>
        var a := inner.read(bytes, pos);
        if a.Err? then Err(a.error)
        else match decode(a.value.value)
          case None => Err(CorruptStorage)
          case Some(b) => Ok(Parsed(b, a.value.next)),
      (b: B, pos: nat) => inner.put(encode(b), pos))
  }

  lemma ConvertInverts<A, B>(inner: Codec<A>, decode: A -> Option<B>, encode: B -> A, b: B)
    requires Inverts(inner, encode(b)) && decode(encode(b)) == Some(b)
    ensures Inverts(Convert(inner, decode, encode), b)
  {
    var c := Convert(inner, decode, encode);
    forall bytes: seq<byte>, pos: nat | Holds(bytes, pos, c.put(b, pos))
      ensures c.read(bytes, pos) == Ok(Parsed(b, pos + |c.put(b, pos)|))
    {
      assert inner.read(bytes, pos) == Ok(Parsed(encode(b), pos + |inner.put(encode(b), pos)|));
    }
  }

  /** A tag byte that selects the codec of the rest. */
  function Tagged<T>(tag: T -> byte, body: byte -> Codec<T>): Codec<T> {
    Codec(
      (bytes: seq<byte>, pos: nat) =>
        var t := Take(bytes, pos, 1);
        if t.Err? then Err(t.error) else body(t.value.value[0]).read(bytes, pos + 1),
      (x: T, pos: nat) => [tag(x)] + body(tag(x)).put(x, pos + 1))
  }

  lemma TaggedInverts<T>(tag: T -> byte, body: byte -> Codec<T>, x: T)
    requires Inverts(body(tag(x)), x)
    ensures Inverts(Tagged(tag, body), x)
  {
    var c, inner := Tagged(tag, body), body(tag(x));
    forall bytes: seq<byte>, pos: nat | Holds(bytes, pos, c.put(x, pos))
      ensures c.read(bytes, pos) == Ok(Parsed(x, pos + |c.put(x, pos)|))
    {
      HoldsSplit(bytes, pos, [tag(x)], inner.put(x, pos + 1));
      assert Take(bytes, pos, 1).value.value[0] == tag(x);
      assert inner.read(bytes, pos + 1) == Ok(Parsed(x, pos + 1 + |inner.put(x, pos + 1)|));
    }
  }

  // ----- lists -----------------------------------------------------------

  /** A decoding loop with `n` turns left: `acc` has been read already. */
  function ReadMany<T>(read: Reader<T>, bytes: seq<byte>, n: nat, pos: nat, acc: seq<T>): Result<Parsed<seq<T>>>
    decreases n
  {
    if n == 0 then Ok(Parsed(acc, pos))
    else
      var item := read(bytes, pos);
      if item.Err? then Err(item.error)
      else ReadMany(read, bytes, n - 1, item.value.next, acc + [item.value.value])
  }

  /** The loop that every decoder runs over a list. */
  method ReadLoop<T>(read: Reader<T>, bytes: seq<byte>, n: nat, pos: nat) returns (r: Result<Parsed<seq<T>>>)
    ensures r == ReadMany(read, bytes, n, pos, [])
  {
    var items: seq<T> := [];
    var position := pos;
    for i := 0 to n
      invariant ReadMany(read, bytes, n, pos, []) == ReadMany(read, bytes, n - i, position, items)
    {
      var item := read(bytes, position);
      if item.Err? {
        return Err(item.error);
      }
      items := items + [item.value.value];
      position := item.value.next;
    }
    r := Ok(Parsed(items, position));
  }

  /** The items from number `i` on, written from position `pos` on. */
  function PutMany<T>(put: Writer<T>, items: seq<T>, i: nat, pos: nat): seq<byte>
    requires i <= |items|
    decreases |items| - i
  {
    if i == |items| then []
    else
      var head := put(items[i], pos);
      head + PutMany(put, items, i + 1, pos + |head|)
  }

  ghost predicate InvertsAll<T>(c: Codec<T>, items: seq<T>) {
    forall j :: 0 <= j < |items| ==> Inverts(c, items[j])
  }

  lemma {:induction false} ReadManyHolds<T>(c: Codec<T>, bytes: seq<byte>, items: seq<T>, i: nat, pos: nat)
    requires i <= |items| && InvertsAll(c, items)
    requires Holds(bytes, pos, PutMany(c.put, items, i, pos))
    ensures ReadMany(c.read, bytes, |items| - i, pos, items[..i])
      == Ok(Parsed(items, pos + |PutMany(c.put, items, i, pos)|))
    decreases |items| - i
  {
    if i == |items| {
      assert items[..i] == items;
    } else {
      var head := c.put(items[i], pos);
      HoldsSplit(bytes, pos, head, PutMany(c.put, items, i + 1, pos + |head|));
      assert Inverts(c, items[i]);
      assert c.read(bytes, pos) == Ok(Parsed(items[i], pos + |head|));
      ReadManyHolds(c, bytes, items, i + 1, pos + |head|);
      assert items[..i] + [items[i]] == items[..i + 1];
    }
  }

  /** A list whose length the reader knows. */
  function Times<T>(n: nat, c: Codec<T>): Codec<seq<T>> {
    Codec(
      (bytes: seq<byte>, pos: nat) => ReadMany(c.read, bytes, n, pos, []),
      (items: seq<T>, pos: nat) => PutMany(c.put, items, 0, pos))
  }

  lemma TimesInverts<T>(c: Codec<T>, items: seq<T>)
    requires InvertsAll(c, items)
    ensures Inverts(Times(|items|, c), items)
  {
    var list := Times(|items|, c);
    forall bytes: seq<byte>, pos: nat | Holds(bytes, pos, list.put(items, pos))
      ensures list.read(bytes, pos) == Ok(Parsed(items, pos + |list.put(items, pos)|))
    {
      ReadManyHolds(c, bytes, items, 0, pos);
      assert items[..0] == [];
    }
  }

  /** A list behind its 32-bit length; the reader refuses lengths above `limit`. */
  function Counted<T>(limit: nat, c: Codec<T>): Codec<seq<T>> {
    Codec(
      (bytes: seq<byte>, pos: nat) =>
        var n := ReadLe(bytes, pos, 4);
        if n.Err? then Err(n.error)
        else if n.value.value > limit then Err(CorruptStorage)
        else ReadMany(c.read, bytes, n.value.value, n.value.next, []),
      (items: seq<T>, pos: nat) => PutLe(|items|, 4) + PutMany(c.put, items, 0, pos + 4))
  }

  lemma CountedInverts<T>(limit: nat, c: Codec<T>, items: seq<T>)
    requires InvertsAll(c, items) && |items| <= limit && |items| < U32_LIMIT
    ensures Inverts(Counted(limit, c), items)
  {
    var list := Counted(limit, c);
    forall bytes: seq<byte>, pos: nat | Holds(bytes, pos, list.put(items, pos))
      ensures list.read(bytes, pos) == Ok(Parsed(items, pos + |list.put(items, pos)|))
    {
      Limits();
      HoldsSplit(bytes, pos, PutLe(|items|, 4), PutMany(c.put, items, 0, pos + 4));
      ReadLeHolds(bytes, pos, |items|, 4);
      ReadManyHolds(c, bytes, items, 0, pos + 4);
      assert items[..0] == [];
    }
  }

  /** A byte string behind its 32-bit length. */
  function Blob(limit: nat): Codec<seq<byte>> {
    Codec(
      (bytes: seq<byte>, pos: nat) =>
        var n := ReadLe(bytes, pos, 4);
        if n.Err? then Err(n.error)
        else if n.value.value > limit then Err(CorruptStorage)
        else Take(bytes, n.value.next, n.value.value),
      (b: seq<byte>, pos: nat) => PutLe(|b|, 4) + b)
  }

  lemma BlobInverts(limit: nat, b: seq<byte>)
    requires |b| <= limit && |b| < U32_LIMIT
    ensures Inverts(Blob(limit), b)
  {
    var c := Blob(limit);
    forall bytes: seq<byte>, pos: nat | Holds(bytes, pos, c.put(b, pos))
      ensures c.read(bytes, pos) == Ok(Parsed(b, pos + |c.put(b, pos)|))
    {
      Limits();
      HoldsSplit(bytes, pos, PutLe(|b|, 4), b);
      ReadLeHolds(bytes, pos, |b|, 4);
    }
  }

  // ----- codecs that refuse ----------------------------------------------

  /** Wherever the codec wrote `x`, it refuses to read. */
  ghost predicate Refuses<T>(c: Codec<T>, x: T) {
    forall bytes: seq<byte>, pos: nat {:trigger c.read(bytes, pos)} ::
      Holds(bytes, pos, c.put(x, pos)) ==> c.read(bytes, pos).Err?
  }

  /** The codec reads back what it wrote exactly when `ok`, and refuses it otherwise. */
  ghost predicate Decides<T>(c: Codec<T>, x: T, ok: bool) {
    if ok then Inverts(c, x) else Refuses(c, x)
  }

  lemma BlobDecides(limit: nat, b: seq<byte>)
    requires |b| < U32_LIMIT
    ensures Decides(Blob(limit), b, |b| <= limit)
  {
    if |b| <= limit {
      BlobInverts(limit, b);
    } else {
      var c := Blob(limit);
      forall bytes: seq<byte>, pos: nat | Holds(bytes, pos, c.put(b, pos)) ensures c.read(bytes, pos).Err? {
        Limits();
        HoldsSplit(bytes, pos, PutLe(|b|, 4), b);
        ReadLeHolds(bytes, pos, |b|, 4);
      }
    }
  }

  lemma PairDecides<A, B>(first: Codec<A>, second: Codec<B>, x: (A, B), a: bool, b: bool)
    requires Decides(first, x.0, a) && (a ==> Decides(second, x.1, b))
    ensures Decides(Pair(first, second), x, a && b)
  {
    if a && b {
      PairInverts(first, second, x);
    } else {
      var c := Pair(first, second);
      forall bytes: seq<byte>, pos: nat | Holds(bytes, pos, c.put(x, pos)) ensures c.read(bytes, pos).Err? {
        HoldsSplit(bytes, pos, first.put(x.0, pos), second.put(x.1, pos + |first.put(x.0, pos)|));
        assert first.read(bytes, pos).Ok? ==> second.read(bytes, pos + |first.put(x.0, pos)|).Err?;
      }
    }
  }

  lemma DependentDecides<A, B>(first: Codec<A>, rest: A -> Codec<B>, x: (A, B), a: bool, b: bool)
    requires Decides(first, x.0, a) && (a ==> Decides(rest(x.0), x.1, b))
    ensures Decides(Dependent(first, rest), x, a && b)
  {
    if a && b {
      DependentInverts(first, rest, x);
    } else {
      var c, second := Dependent(first, rest), rest(x.0);
      forall bytes: seq<byte>, pos: nat | Holds(bytes, pos, c.put(x, pos)) ensures c.read(bytes, pos).Err? {
        HoldsSplit(bytes, pos, first.put(x.0, pos), second.put(x.1, pos + |first.put(x.0, pos)|));
        assert first.read(bytes, pos).Ok? ==> second.read(bytes, pos + |first.put(x.0, pos)|).Err?;
      }
    }
  }

  lemma ConvertDecides<A, B>(inner: Codec<A>, decode: A -> Option<B>, encode: B -> A, b: B, ok: bool)
    requires Decides(inner, encode(b), ok)
    requires ok ==> decode(encode(b)) == Some(b) || decode(encode(b)) == None
    ensures Decides(Convert(inner, decode, encode), b, ok && decode(encode(b)).Some?)
  {
    if ok && decode(encode(b)).Some? {
      ConvertInverts(inner, decode, encode, b);
    } else {
      var c := Convert(inner, decode, encode);
      forall bytes: seq<byte>, pos: nat | Holds(bytes, pos, c.put(b, pos)) ensures c.read(bytes, pos).Err? {
        assert ok ==> inner.read(bytes, pos) == Ok(Parsed(encode(b), pos + |inner.put(encode(b), pos)|));
        assert !ok ==> inner.read(bytes, pos).Err?;
      }
    }
  }

  lemma TaggedDecides<T>(tag: T -> byte, body: byte -> Codec<T>, x: T, ok: bool)
    requires Decides(body(tag(x)), x, ok)
    ensures Decides(Tagged(tag, body), x, ok)
  {
    if ok {
      TaggedInverts(tag, body, x);
    } else {
      var c, inner := Tagged(tag, body), body(tag(x));
      forall bytes: seq<byte>, pos: nat | Holds(bytes, pos, c.put(x, pos)) ensures c.read(bytes, pos).Err? {
        HoldsSplit(bytes, pos, [tag(x)], inner.put(x, pos + 1));
        assert Take(bytes, pos, 1).value.value[0] == tag(x);
        assert inner.read(bytes, pos + 1).Err?;
      }
    }
  }

  ghost predicate DecidesAll<T>(c: Codec<T>, items: seq<T>, ok: T -> bool) {
    forall j :: 0 <= j < |items| ==> Decides(c, items[j], ok(items[j]))
  }

  /** A loop over a list stops at the first item the codec refuses. */
  lemma {:induction false} ReadManyRefuses<T>(
      c: Codec<T>, bytes: seq<byte>, items: seq<T>, ok: T -> bool, i: nat, pos: nat, acc: seq<T>)
    requires i <= |items| && DecidesAll(c, items, ok) && exists j :: i <= j < |items| && !ok(items[j])
    requires Holds(bytes, pos, PutMany(c.put, items, i, pos))
    ensures ReadMany(c.read, bytes, |items| - i, pos, acc).Err?
    decreases |items| - i
  {
    var head := c.put(items[i], pos);
    HoldsSplit(bytes, pos, head, PutMany(c.put, items, i + 1, pos + |head|));
    assert Decides(c, items[i], ok(items[i]));
    if ok(items[i]) {
      assert c.read(bytes, pos) == Ok(Parsed(items[i], pos + |head|));
      ReadManyRefuses(c, bytes, items, ok, i + 1, pos + |head|, acc + [items[i]]);
    } else {
      assert c.read(bytes, pos).Err?;
    }
  }

  lemma DecidedInvert<T>(c: Codec<T>, items: seq<T>, ok: T -> bool)
    requires DecidesAll(c, items, ok) && forall j :: 0 <= j < |items| ==> ok(items[j])
    ensures InvertsAll(c, items)
  {
    forall j | 0 <= j < |items| ensures Inverts(c, items[j]) {
      assert Decides(c, items[j], ok(items[j]));
    }
  }

  lemma TimesDecides<T>(c: Codec<T>, items: seq<T>, ok: T -> bool)
    requires DecidesAll(c, items, ok)
    ensures Decides(Times(|items|, c), items, forall j :: 0 <= j < |items| ==> ok(items[j]))
  {
    if forall j :: 0 <= j < |items| ==> ok(items[j]) {
      DecidedInvert(c, items, ok);
      TimesInverts(c, items);
    } else {
      var list := Times(|items|, c);
      forall bytes: seq<byte>, pos: nat | Holds(bytes, pos, list.put(items, pos)) ensures list.read(bytes, pos).Err? {
        ReadManyRefuses(c, bytes, items, ok, 0, pos, []);
      }
    }
  }

  lemma CountedDecides<T>(limit: nat, c: Codec<T>, items: seq<T>, ok: T -> bool)
    requires |items| < U32_LIMIT && DecidesAll(c, items, ok)
    ensures Decides(Counted(limit, c), items, |items| <= limit && forall j :: 0 <= j < |items| ==> ok(items[j]))
  {
    var fits := forall j :: 0 <= j < |items| ==> ok(items[j]);
    if |items| <= limit && fits {
      DecidedInvert(c, items, ok);
      CountedInverts(limit, c, items);
    } else {
      var list := Counted(limit, c);
      forall bytes: seq<byte>, pos: nat | Holds(bytes, pos, list.put(items, pos)) ensures list.read(bytes, pos).Err? {
        Limits();
        HoldsSplit(bytes, pos, PutLe(|items|, 4), PutMany(c.put, items, 0, pos + 4));
        ReadLeHolds(bytes, pos, |items|, 4);
        if |items| <= limit { ReadManyRefuses(c, bytes, items, ok, 0, pos + 4, []); }
      }
    }
  }

  // ----- lengths ---------------------------------------------------------

  /** The codec writes `x` in `n` bytes, wherever it writes it. */
  ghost predicate Takes<T>(c: Codec<T>, x: T, n: nat) {
    forall pos: nat {:trigger c.put(x, pos)} :: |c.put(x, pos)| == n
  }

  lemma LeTakes(n: nat, k: nat)
    ensures Takes(Le(k), n, k)
  {
  }

  lemma FixedTakes(part: seq<byte>)
    ensures Takes(Fixed(part), (), |part|)
  {
  }

  lemma BlobTakes(limit: nat, b: seq<byte>)
    ensures Takes(Blob(limit), b, 4 + |b|)
  {
  }

  lemma PairTakes<A, B>(first: Codec<A>, second: Codec<B>, x: (A, B), m: nat, n: nat)
    requires Takes(first, x.0, m) && Takes(second, x.1, n)
    ensures Takes(Pair(first, second), x, m + n)
  {
  }

  lemma DependentTakes<A, B>(first: Codec<A>, rest: A -> Codec<B>, x: (A, B), m: nat, n: nat)
    requires Takes(first, x.0, m) && Takes(rest(x.0), x.1, n)
    ensures Takes(Dependent(first, rest), x, m + n)
  {
  }

  lemma ConvertTakes<A, B>(inner: Codec<A>, decode: A -> Option<B>, encode: B -> A, b: B, n: nat)
    requires Takes(inner, encode(b), n)
    ensures Takes(Convert(inner, decode, encode), b, n)
  {
  }

  /** The length of the items from number `i` on, when item `x` takes `len(x)` bytes. */
  function TotalLength<T>(len: T -> nat, items: seq<T>, i: nat): nat
    requires i <= |items|
    decreases |items| - i
  {
    if i == |items| then 0 else len(items[i]) + TotalLength(len, items, i + 1)
  }

  ghost predicate TakesAll<T>(c: Codec<T>, len: T -> nat, items: seq<T>) {
    forall j :: 0 <= j < |items| ==> Takes(c, items[j], len(items[j]))
  }

  lemma {:induction false} ManyLength<T>(c: Codec<T>, len: T -> nat, items: seq<T>, i: nat, pos: nat)
    requires i <= |items| && TakesAll(c, len, items)
    ensures |PutMany(c.put, items, i, pos)| == TotalLength(len, items, i)
    decreases |items| - i
  {
    if i < |items| {
      assert Takes(c, items[i], len(items[i]));
      ManyLength(c, len, items, i + 1, pos + |c.put(items[i], pos)|);
    }
  }

  lemma TimesTakes<T>(n: nat, c: Codec<T>, len: T -> nat, items: seq<T>)
    requires TakesAll(c, len, items)
    ensures Takes(Times(n, c), items, TotalLength(len, items, 0))
  {
    forall pos: nat ensures |Times(n, c).put(items, pos)| == TotalLength(len, items, 0) {
      ManyLength(c, len, items, 0, pos);
    }
  }

  lemma CountedTakes<T>(limit: nat, c: Codec<T>, len: T -> nat, items: seq<T>)
    requires TakesAll(c, len, items)
    ensures Takes(Counted(limit, c), items, 4 + TotalLength(len, items, 0))
  {
    forall pos: nat ensures |Counted(limit, c).put(items, pos)| == 4 + TotalLength(len, items, 0) {
      ManyLength(c, len, items, 0, pos + 4);
    }
  }

  lemma {:induction false} EqualLengths<T>(len: T -> nat, items: seq<T>, i: nat, n: nat)
    requires i <= |items| && forall j :: 0 <= j < |items| ==> len(items[j]) == n
    ensures TotalLength(len, items, i) == (|items| - i) * n
    decreases |items| - i
  {
    if i < |items| {
      EqualLengths(len, items, i + 1, n);
    }
  }
}
