/**
 The framed, checksummed append-only files: the write-ahead log, the Raft
 journal and the state journal differ only in their header bytes and size
 limit. Recovery reads complete frames, cuts a torn tail off and refuses
 anything else.
 */
module Framing {
  import opened Base
  import opened Bytes
  import opened Checksums

  type Payload = seq<byte>

  type Sum = s: seq<byte> | |s| == 4 witness [0, 0, 0, 0]

  /** `header` is the magic, followed by the version byte where the file has one. */
  datatype Format = Format(header: seq<byte>, limit: nat, checksum: Payload -> Sum)

  function Crc(p: Payload): Sum { Checksum(p) }

  const WAL := Format([0x46, 0x56, 0x57, 0x4c], 256 * 1024 * 1024, Crc)             // FVWL
  const RAFT_JOURNAL := Format([0x46, 0x56, 0x52, 0x4a, 1], 64 * 1024 * 1024, Crc)  // FVRJ
  const STATE_JOURNAL := Format([0x46, 0x56, 0x52, 0x53, 1], 256 * 1024 * 1024, Crc) // FVRS

  ghost predicate StoreFormat(fmt: Format) { fmt == WAL || fmt == RAFT_JOURNAL || fmt == STATE_JOURNAL }

  // ----- writing ---------------------------------------------------------

  /** The writer checks the 32-bit length, the reader a smaller limit. */
  predicate Fits(fmt: Format, p: Payload) { |p| <= fmt.limit && |p| < U32_LIMIT }

  function EncodeFrame(fmt: Format, p: Payload): seq<byte>
    requires |p| < U32_LIMIT
  {
    fmt.header + PutLe(|p|, 4) + p + fmt.checksum(p)
  }

  ghost predicate AllFit(fmt: Format, ps: seq<Payload>) {
    forall i :: 0 <= i < |ps| ==> Fits(fmt, ps[i])
  }

  ghost predicate AllWritable(ps: seq<Payload>) {
    forall i :: 0 <= i < |ps| ==> |ps[i]| < U32_LIMIT
  }

  function EncodeLog(fmt: Format, ps: seq<Payload>): seq<byte>
    requires AllWritable(ps)
  {
    if ps == [] then [] else EncodeFrame(fmt, ps[0]) + EncodeLog(fmt, ps[1..])
  }

  // ----- reading ---------------------------------------------------------

  /** The payloads read and the length of the file they occupy. */
  datatype Recovered = Recovered(payloads: seq<Payload>, length: nat)

  /** The first frame of `bytes`: a payload, a torn tail (`None`), or corruption. */
  function ReadFrame(fmt: Format, bytes: seq<byte>): (r: Result<Option<Payload>>)
    ensures r.Ok? && r.value.Some? ==> |bytes| >= FrameLength(fmt, r.value.value)
  {
    var start := |fmt.header| + 4;
    if |bytes| < start then Ok(None)
    else if bytes[..|fmt.header|] != fmt.header then Err(CorruptStorage)
    else
      var length := GetLe(bytes[|fmt.header|..start]);
      if length > fmt.limit then Err(CorruptStorage)
      else if |bytes| < start + length + 4 then Ok(None)
      else
        var p := bytes[start..start + length];
        if fmt.checksum(p) != bytes[start + length..start + length + 4] then Err(CorruptStorage)
        else Ok(Some(p))
  }

  function FrameLength(fmt: Format, p: Payload): nat { |fmt.header| + 4 + |p| + 4 }

  function Prepend(p: Payload, length: nat, r: Result<Recovered>): Result<Recovered> {
    if r.Err? then r else Ok(Recovered([p] + r.value.payloads, length + r.value.length))
  }

  /** The complete frames of a file. */
  function Parse(fmt: Format, bytes: seq<byte>): Result<Recovered>
    decreases |bytes|
  {
    match ReadFrame(fmt, bytes)
    case Err(e) => Err(e)
    case Ok(None) => Ok(Recovered([], 0))
    case Ok(Some(p)) => Prepend(p, FrameLength(fmt, p), Parse(fmt, bytes[FrameLength(fmt, p)..]))
  }

  /**
   Recovery applies each payload as it is read; the result holds the final state
   and the length the file is cut to. `s` came from the first `length` bytes.
   */
  function Recover<S>(fmt: Format, apply: (S, Payload) -> Result<S>, s: S, length: nat, bytes: seq<byte>)
    : Result<(S, nat)>
    decreases |bytes|
  {
    match ReadFrame(fmt, bytes)
    case Err(e) => Err(e)
    case Ok(None) => Ok((s, length))
    case Ok(Some(p)) =>
      var t := apply(s, p);
      if t.Err? then Err(t.error)
      else Recover(fmt, apply, t.value, length + FrameLength(fmt, p), bytes[FrameLength(fmt, p)..])
  }

  /** One turn of the recovery loop, at a position in the file. */
  lemma RecoverStep<S>(
      fmt: Format, apply: (S, Payload) -> Result<S>, s: S, bytes: seq<byte>, position: nat)
    requires position <= |bytes|
    ensures var frame, now := ReadFrame(fmt, bytes[position..]), Recover(fmt, apply, s, position, bytes[position..]);
      && (frame.Err? ==> now == Err(frame.error))
      && (frame.Ok? && frame.value.None? ==> now == Ok((s, position)))
      && (frame.Ok? && frame.value.Some? ==>
            var p := frame.value.value;
            var next := position + FrameLength(fmt, p);
            && next <= |bytes|
            && (apply(s, p).Err? ==> now == Err(apply(s, p).error))
            && (apply(s, p).Ok? ==> now == Recover(fmt, apply, apply(s, p).value, next, bytes[next..])))
  {
    var frame := ReadFrame(fmt, bytes[position..]);
    if frame.Ok? && frame.value.Some? {
      var length := FrameLength(fmt, frame.value.value);
      assert bytes[position..][length..] == bytes[position + length..];
    }
  }

  /** The loop of `recover`, `recover_journal` and `recover_records`. */
  method RecoverFile<S>(fmt: Format, apply: (S, Payload) -> Result<S>, start: S, bytes: seq<byte>)
    returns (r: Result<(S, nat)>)
    ensures r == Recover(fmt, apply, start, 0, bytes)
  {
    var s, position := start, 0;
    ghost var whole := Recover(fmt, apply, start, 0, bytes);
    assert bytes[0..] == bytes;
    while true
      invariant 0 <= position <= |bytes|
      invariant whole == Recover(fmt, apply, s, position, bytes[position..])
      decreases |bytes| - position
    {
      RecoverStep(fmt, apply, s, bytes, position);
      var frame := ReadFrame(fmt, bytes[position..]);
      if frame.Err? {
        return Err(frame.error);
      }
      if frame.value.None? {
        return Ok((s, position));
      }
      var p := frame.value.value;
      var next := apply(s, p);
      if next.Err? {
        return Err(next.error);
      }
      s, position := next.value, position + FrameLength(fmt, p);
    }
  }

  function ApplyAll<S>(apply: (S, Payload) -> Result<S>, s: S, ps: seq<Payload>): Result<S>
    decreases |ps|
  {
    if ps == [] then Ok(s)
    else
      var t := apply(s, ps[0]);
      if t.Err? then t else ApplyAll(apply, t.value, ps[1..])
  }

  /** The same, but a payload over the limit is refused before it is applied. */
  function ApplyFitting<S>(fmt: Format, apply: (S, Payload) -> Result<S>, s: S, ps: seq<Payload>): Result<S>
    decreases |ps|
  {
    if ps == [] then Ok(s)
    else if |ps[0]| > fmt.limit then Err(CorruptStorage)
    else
      var t := apply(s, ps[0]);
      if t.Err? then t else ApplyFitting(fmt, apply, t.value, ps[1..])
  }

  /** The same outcome, and on success the file ends at `length`. */
  ghost predicate Agrees<S>(found: Result<(S, nat)>, applied: Result<S>, length: nat) {
    match applied
    case Err(e) => found == Err(e)
    case Ok(t) => found == Ok((t, length))
  }

  /** A file that parses is recovered by applying its payloads in order. */
  lemma {:induction false} RecoverApplies<S>(
      fmt: Format, apply: (S, Payload) -> Result<S>, s: S, length: nat, bytes: seq<byte>)
    requires Parse(fmt, bytes).Ok?
    ensures var parsed := Parse(fmt, bytes).value;
      Agrees(Recover(fmt, apply, s, length, bytes), ApplyAll(apply, s, parsed.payloads), length + parsed.length)
    decreases |bytes|
  {
    match ReadFrame(fmt, bytes)
    case Ok(Some(p)) =>
      var rest := bytes[FrameLength(fmt, p)..];
      assert Parse(fmt, bytes).value.payloads[1..] == Parse(fmt, rest).value.payloads;
      if apply(s, p).Ok? {
        RecoverApplies(fmt, apply, apply(s, p).value, length + FrameLength(fmt, p), rest);
      }
    case _ =>
  }

  /** A file that does not parse is not recovered, whatever its first payloads do. */
  lemma {:induction false} RecoverRefuses<S>(
      fmt: Format, apply: (S, Payload) -> Result<S>, s: S, length: nat, bytes: seq<byte>)
    requires Parse(fmt, bytes).Err?
    ensures Recover(fmt, apply, s, length, bytes).Err?
    decreases |bytes|
  {
    match ReadFrame(fmt, bytes)
    case Ok(Some(p)) =>
      if apply(s, p).Ok? {
        RecoverRefuses(fmt, apply, apply(s, p).value, length + FrameLength(fmt, p), bytes[FrameLength(fmt, p)..]);
      }
    case _ =>
  }

  /** Continuing after `payloads` were read from the first `position` bytes. */
  ghost function Resume(payloads: seq<Payload>, position: nat, rest: Result<Recovered>): Result<Recovered> {
    if rest.Err? then rest else Ok(Recovered(payloads + rest.value.payloads, position + rest.value.length))
  }

  lemma ResumeNothing(rest: Result<Recovered>)
    ensures Resume([], 0, rest) == rest
  {
    if rest.Ok? { assert [] + rest.value.payloads == rest.value.payloads; }
  }

  // ----- round trips -----------------------------------------------------

  lemma FrameParts(fmt: Format, p: Payload, rest: seq<byte>)
    requires |p| < U32_LIMIT
    ensures var bytes := EncodeFrame(fmt, p) + rest;
      var start := |fmt.header| + 4;
      && |bytes| == FrameLength(fmt, p) + |rest|
      && bytes[..|fmt.header|] == fmt.header
      && bytes[|fmt.header|..start] == PutLe(|p|, 4)
      && bytes[start..start + |p|] == p
      && bytes[start + |p|..start + |p| + 4] == fmt.checksum(p)
      && bytes[FrameLength(fmt, p)..] == rest
  {
  }

  lemma ReadWritten(fmt: Format, p: Payload, rest: seq<byte>)
    requires Fits(fmt, p)
    ensures ReadFrame(fmt, EncodeFrame(fmt, p) + rest) == Ok(Some(p))
  {
    FrameParts(fmt, p, rest);
    Limits();
    LeRoundTrip(|p|, 4);
  }

  lemma ReadTorn(fmt: Format, p: Payload, n: nat)
    requires Fits(fmt, p) && n < |EncodeFrame(fmt, p)|
    ensures ReadFrame(fmt, EncodeFrame(fmt, p)[..n]) == Ok(None)
  {
    FrameParts(fmt, p, []);
    var whole, torn := EncodeFrame(fmt, p), EncodeFrame(fmt, p)[..n];
    assert whole + [] == whole;
    var start := |fmt.header| + 4;
    if n >= start {
      assert torn[..|fmt.header|] == whole[..|fmt.header|];
      assert torn[|fmt.header|..start] == whole[|fmt.header|..start];
      Limits();
      LeRoundTrip(|p|, 4);
    }
  }

  /** A frame over the limit is refused as soon as its length can be read. */
  lemma ReadOversized(fmt: Format, p: Payload, rest: seq<byte>, n: nat)
    requires fmt.limit < |p| < U32_LIMIT && |fmt.header| + 4 <= n <= |EncodeFrame(fmt, p) + rest|
    ensures ReadFrame(fmt, (EncodeFrame(fmt, p) + rest)[..n]) == Err(CorruptStorage)
  {
    FrameParts(fmt, p, rest);
    var whole, start := EncodeFrame(fmt, p) + rest, |fmt.header| + 4;
    assert whole[..n][..|fmt.header|] == whole[..|fmt.header|];
    assert whole[..n][|fmt.header|..start] == whole[|fmt.header|..start];
    Limits();
    LeRoundTrip(|p|, 4);
  }

  lemma ParseFrame(fmt: Format, p: Payload, rest: seq<byte>)
    requires Fits(fmt, p)
    ensures Parse(fmt, EncodeFrame(fmt, p) + rest) == Prepend(p, |EncodeFrame(fmt, p)|, Parse(fmt, rest))
  {
    ReadWritten(fmt, p, rest);
    FrameParts(fmt, p, rest);
  }

  lemma Concat(a: seq<byte>, b: seq<byte>, c: seq<byte>)
    ensures a + b + c == a + (b + c)
  {
  }

  /** Whatever follows complete frames, recovery reads the frames first. */
  lemma {:induction false} ParseAfter(fmt: Format, ps: seq<Payload>, rest: seq<byte>)
    requires AllFit(fmt, ps)
    ensures Parse(fmt, EncodeLog(fmt, ps) + rest) == Resume(ps, |EncodeLog(fmt, ps)|, Parse(fmt, rest))
    decreases |ps|
  {
    if ps == [] {
      assert EncodeLog(fmt, ps) + rest == rest;
      ResumeNothing(Parse(fmt, rest));
    } else {
      var p, tail := ps[0], ps[1..];
      var frame, after := EncodeFrame(fmt, p), EncodeLog(fmt, tail) + rest;
      Concat(frame, EncodeLog(fmt, tail), rest);
      ParseFrame(fmt, p, after);
      ParseAfter(fmt, tail, rest);
      PrependResume(p, |frame|, tail, |EncodeLog(fmt, tail)|, Parse(fmt, rest));
      assert [p] + tail == ps;
    }
  }

  lemma PrependResume(p: Payload, length: nat, tail: seq<Payload>, more: nat, rest: Result<Recovered>)
    ensures Prepend(p, length, Resume(tail, more, rest)) == Resume([p] + tail, length + more, rest)
  {
    if rest.Ok? { assert [p] + (tail + rest.value.payloads) == [p] + tail + rest.value.payloads; }
  }

  lemma {:induction false} EncodeLogAppend(fmt: Format, a: seq<Payload>, b: seq<Payload>)
    requires AllWritable(a) && AllWritable(b)
    ensures AllWritable(a + b)
    ensures EncodeLog(fmt, a + b) == EncodeLog(fmt, a) + EncodeLog(fmt, b)
    decreases |a|
  {
    if a == [] {
      assert a + b == b;
    } else {
      EncodeLogAppend(fmt, a[1..], b);
      assert (a + b)[1..] == a[1..] + b && (a + b)[0] == a[0];
      Concat(EncodeFrame(fmt, a[0]), EncodeLog(fmt, a[1..]), EncodeLog(fmt, b));
    }
  }

  /** Cutting a log `n` bytes into frame `k` leaves `k` whole frames and a piece of one. */
  lemma CutLog(fmt: Format, ps: seq<Payload>, k: nat, n: nat)
    requires AllWritable(ps) && k < |ps| && n < |EncodeFrame(fmt, ps[k])|
    ensures var whole, cut := EncodeLog(fmt, ps), |EncodeLog(fmt, ps[..k])| + n;
      cut <= |whole| && whole[..cut] == EncodeLog(fmt, ps[..k]) + EncodeFrame(fmt, ps[k])[..n]
  {
    var done, last, later := ps[..k], ps[k], ps[k + 1..];
    assert ps == done + ps[k..] && ps[k..][1..] == later;
    EncodeLogAppend(fmt, done, ps[k..]);
    assert EncodeLog(fmt, ps) == EncodeLog(fmt, done) + (EncodeFrame(fmt, last) + EncodeLog(fmt, later));
  }

  /**
   Every byte prefix of a valid file recovers to its complete frames: cut
   anywhere inside frame `k`, the first `k` payloads come back and the file is
   truncated right behind them.
   */
  lemma PrefixRecovers(fmt: Format, ps: seq<Payload>, k: nat, n: nat)
    requires AllFit(fmt, ps) && k < |ps|
    requires n < |EncodeFrame(fmt, ps[k])|
    ensures var whole, cut := EncodeLog(fmt, ps), |EncodeLog(fmt, ps[..k])| + n;
      cut <= |whole| && Parse(fmt, whole[..cut]) == Ok(Recovered(ps[..k], |EncodeLog(fmt, ps[..k])|))
  {
    CutLog(fmt, ps, k, n);
    ReadTorn(fmt, ps[k], n);
    ParseBefore(fmt, ps[..k], EncodeFrame(fmt, ps[k])[..n]);
  }

  /** Frames in front of something that reads as a torn tail. */
  lemma ParseBefore(fmt: Format, ps: seq<Payload>, piece: seq<byte>)
    requires AllFit(fmt, ps) && ReadFrame(fmt, piece) == Ok(None)
    ensures Parse(fmt, EncodeLog(fmt, ps) + piece) == Ok(Recovered(ps, |EncodeLog(fmt, ps)|))
  {
    ParseAfter(fmt, ps, piece);
    assert ps + [] == ps;
  }

  /** Recovery of one written frame, whatever its length. */
  lemma RecoverFrame<S>(
      fmt: Format, apply: (S, Payload) -> Result<S>, s: S, length: nat, p: Payload, later: seq<byte>)
    requires |p| < U32_LIMIT
    ensures var found := Recover(fmt, apply, s, length, EncodeFrame(fmt, p) + later);
      if |p| > fmt.limit then found == Err(CorruptStorage)
      else if apply(s, p).Err? then found == Err(apply(s, p).error)
      else found == Recover(fmt, apply, apply(s, p).value, length + |EncodeFrame(fmt, p)|, later)
  {
    var bytes := EncodeFrame(fmt, p) + later;
    FrameParts(fmt, p, later);
    if |p| <= fmt.limit {
      ReadWritten(fmt, p, later);
    } else {
      assert bytes[..|bytes|] == bytes;
      ReadOversized(fmt, p, later, |bytes|);
    }
  }

  /** Recovery as a function of the state, the length so far and the bytes to come. */
  type Recovery<!S> = (S, nat, seq<byte>) -> Result<(S, nat)>

  function RecoveryOf<S>(fmt: Format, apply: (S, Payload) -> Result<S>): Recovery<S> {
    (s: S, length: nat, bytes: seq<byte>) => Recover(fmt, apply, s, length, bytes)
  }

  ghost predicate ReadsFrame<S>(
      fmt: Format, apply: (S, Payload) -> Result<S>, r: Recovery<S>, s: S, length: nat, p: Payload, later: seq<byte>)
    requires |p| < U32_LIMIT
  {
    var found := r(s, length, EncodeFrame(fmt, p) + later);
    if |p| > fmt.limit then found == Err(CorruptStorage)
    else if apply(s, p).Err? then found == Err(apply(s, p).error)
    else found == r(apply(s, p).value, length + |EncodeFrame(fmt, p)|, later)
  }

  ghost predicate ReadsFrames<S(!new)>(fmt: Format, apply: (S, Payload) -> Result<S>, r: Recovery<S>) {
    forall s: S, length: nat, p: Payload, later: seq<byte> {:trigger ReadsFrame(fmt, apply, r, s, length, p, later)} ::
      |p| < U32_LIMIT ==> ReadsFrame(fmt, apply, r, s, length, p, later)
  }

  lemma {:induction false} AppliesInOrder<S(!new)>(
      fmt: Format, apply: (S, Payload) -> Result<S>, r: Recovery<S>, s: S, length: nat, ps: seq<Payload>,
      tail: seq<byte>)
    requires AllWritable(ps) && ReadsFrames(fmt, apply, r)
    ensures var found, applied := r(s, length, EncodeLog(fmt, ps) + tail), ApplyFitting(fmt, apply, s, ps);
      if applied.Err? then found == Err(applied.error)
      else found == r(applied.value, length + |EncodeLog(fmt, ps)|, tail)
    decreases |ps|
  {
    if ps == [] {
      assert EncodeLog(fmt, ps) + tail == tail;
    } else {
      var frame, later := EncodeFrame(fmt, ps[0]), EncodeLog(fmt, ps[1..]);
      Concat(frame, later, tail);
      assert ReadsFrame(fmt, apply, r, s, length, ps[0], later + tail);
      if |ps[0]| <= fmt.limit && apply(s, ps[0]).Ok? {
        AppliesInOrder(fmt, apply, r, apply(s, ps[0]).value, length + |frame|, ps[1..], tail);
      }
    }
  }

  lemma RecoveryReadsFrames<S(!new)>(fmt: Format, apply: (S, Payload) -> Result<S>)
    ensures ReadsFrames(fmt, apply, RecoveryOf(fmt, apply))
  {
    var r := RecoveryOf(fmt, apply);
    forall t: S, length: nat, p: Payload, later: seq<byte> | |p| < U32_LIMIT
      ensures ReadsFrame(fmt, apply, r, t, length, p, later)
    {
      RecoverFrame(fmt, apply, t, length, p, later);
    }
  }

  /** Whether a tail of `n` bytes of a frame lets its length be read and refused. */
  predicate RefusesTail(fmt: Format, p: Payload, n: nat) { n >= |fmt.header| + 4 && |p| > fmt.limit }

  ghost predicate EndsAt<S(!new)>(r: Recovery<S>, tail: seq<byte>, refused: bool) {
    forall s: S, length: nat {:trigger r(s, length, tail)} ::
      r(s, length, tail) == if refused then Err(CorruptStorage) else Ok((s, length))
  }

  lemma RecoveryEndsTorn<S(!new)>(fmt: Format, apply: (S, Payload) -> Result<S>, p: Payload, n: nat)
    requires |p| < U32_LIMIT && n < |EncodeFrame(fmt, p)|
    ensures EndsAt(RecoveryOf(fmt, apply), EncodeFrame(fmt, p)[..n], RefusesTail(fmt, p, n))
  {
    if |p| <= fmt.limit {
      ReadTorn(fmt, p, n);
    } else if n >= |fmt.header| + 4 {
      assert EncodeFrame(fmt, p) + [] == EncodeFrame(fmt, p);
      ReadOversized(fmt, p, [], n);
    }
  }

  /** What recovery finds when the frames before a tail apply to `applied`. */
  function Outcome<S>(applied: Result<S>, refused: bool, length: nat): Result<(S, nat)> {
    if applied.Err? then Err(applied.error) else if refused then Err(CorruptStorage) else Ok((applied.value, length))
  }

  lemma TailDecides<S(!new)>(
      fmt: Format, apply: (S, Payload) -> Result<S>, r: Recovery<S>, s: S, ps: seq<Payload>, tail: seq<byte>,
      refused: bool)
    requires AllWritable(ps) && ReadsFrames(fmt, apply, r) && EndsAt(r, tail, refused)
    ensures r(s, 0, EncodeLog(fmt, ps) + tail)
      == Outcome(ApplyFitting(fmt, apply, s, ps), refused, |EncodeLog(fmt, ps)|)
  {
    AppliesInOrder(fmt, apply, r, s, 0, ps, tail);
  }

  /**
   The outcome of recovery on a file cut `n` bytes into frame `k`: the first `k` payloads are
   applied and the file is truncated behind them, unless one of them is refused or the
   length of an oversized frame `k` can still be read.
   */
  lemma CutFileDecides<S(!new)>(fmt: Format, apply: (S, Payload) -> Result<S>, s: S, ps: seq<Payload>, k: nat, n: nat)
    requires AllWritable(ps) && k < |ps| && n < |EncodeFrame(fmt, ps[k])|
    ensures var kept, applied := |EncodeLog(fmt, ps[..k])|, ApplyFitting(fmt, apply, s, ps[..k]);
      && kept + n <= |EncodeLog(fmt, ps)|
      && RecoveryOf(fmt, apply)(s, 0, EncodeLog(fmt, ps)[..kept + n])
         == Outcome(applied, RefusesTail(fmt, ps[k], n), kept)
  {
    CutLog(fmt, ps, k, n);
    RecoveryReadsFrames(fmt, apply);
    RecoveryEndsTorn(fmt, apply, ps[k], n);
    var tail := EncodeFrame(fmt, ps[k])[..n];
    TailDecides(fmt, apply, RecoveryOf(fmt, apply), s, ps[..k], tail, RefusesTail(fmt, ps[k], n));
  }

  lemma WholeFileDecides<S(!new)>(fmt: Format, apply: (S, Payload) -> Result<S>, s: S, ps: seq<Payload>)
    requires AllWritable(ps) && fmt.header != []
    ensures RecoveryOf(fmt, apply)(s, 0, EncodeLog(fmt, ps))
      == Outcome(ApplyFitting(fmt, apply, s, ps), false, |EncodeLog(fmt, ps)|)
  {
    RecoveryReadsFrames(fmt, apply);
    assert ReadFrame(fmt, []) == Ok(None);
    assert EndsAt(RecoveryOf(fmt, apply), [], false);
    TailDecides(fmt, apply, RecoveryOf(fmt, apply), s, ps, [], false);
    assert EncodeLog(fmt, ps) + [] == EncodeLog(fmt, ps);
  }

  /** A frame with its checksum field replaced by `sum`. */
  function Sealed(fmt: Format, p: Payload, sum: Sum): seq<byte>
    requires |p| < U32_LIMIT
  {
    fmt.header + PutLe(|p|, 4) + p + sum
  }

  lemma SealedParts(fmt: Format, p: Payload, sum: Sum, rest: seq<byte>)
    requires |p| < U32_LIMIT
    ensures var bytes := Sealed(fmt, p, sum) + rest;
      var start := |fmt.header| + 4;
      && |bytes| >= start + |p| + 4
      && bytes[..|fmt.header|] == fmt.header
      && bytes[|fmt.header|..start] == PutLe(|p|, 4)
      && bytes[start..start + |p|] == p
      && bytes[start + |p|..start + |p| + 4] == sum
  {
  }

  lemma ReadMismatch(fmt: Format, p: Payload, sum: Sum, rest: seq<byte>)
    requires Fits(fmt, p) && fmt.checksum(p) != sum
    ensures ReadFrame(fmt, Sealed(fmt, p, sum) + rest) == Err(CorruptStorage)
  {
    SealedParts(fmt, p, sum, rest);
    Limits();
    LeRoundTrip(|p|, 4);
  }

  /** A frame whose payload does not match its checksum stops recovery, whatever surrounds it. */
  lemma MismatchFailsClosed(fmt: Format, ps: seq<Payload>, found: Payload, sum: Sum, rest: seq<byte>)
    requires AllFit(fmt, ps) && Fits(fmt, found) && fmt.checksum(found) != sum
    ensures Parse(fmt, EncodeLog(fmt, ps) + (Sealed(fmt, found, sum) + rest)) == Err(CorruptStorage)
  {
    ReadMismatch(fmt, found, sum, rest);
    ParseAfter(fmt, ps, Sealed(fmt, found, sum) + rest);
  }

  lemma CrcDetects(before: seq<byte>, v: seq<byte>, w: seq<byte>, after: seq<byte>)
    requires |v| == |w| <= 4 && v != w
    ensures Crc(before + w + after) != Crc(before + v + after)
  {
    BurstIsDetected(before, v, w, after);
  }

  /**
   A payload whose bytes changed inside a window of up to four is never
   accepted: recovery fails closed, whatever precedes and follows it.
   */
  lemma CorruptionFailsClosed(
      fmt: Format, ps: seq<Payload>, before: seq<byte>, v: seq<byte>, w: seq<byte>, after: seq<byte>, rest: seq<byte>)
    requires StoreFormat(fmt) && AllFit(fmt, ps) && Fits(fmt, before + v + after) && |v| == |w| <= 4 && v != w
    ensures var written, found := before + v + after, before + w + after;
      Parse(fmt, EncodeLog(fmt, ps) + (Sealed(fmt, found, fmt.checksum(written)) + rest)) == Err(CorruptStorage)
  {
    CrcDetects(before, v, w, after);
    MismatchFailsClosed(fmt, ps, before + w + after, fmt.checksum(before + v + after), rest);
  }

  // ----- a damaged length field ------------------------------------------

  /** A frame header announcing `n` bytes reads as a torn tail exactly when fewer follow. */
  lemma LengthReadsAsTorn(fmt: Format, n: nat, tail: seq<byte>)
    requires n < U32_LIMIT
    ensures ReadFrame(fmt, fmt.header + PutLe(n, 4) + tail) == Ok(None) <==> n <= fmt.limit && |tail| < n + 4
  {
    var bytes, start := fmt.header + PutLe(n, 4) + tail, |fmt.header| + 4;
    assert bytes[..|fmt.header|] == fmt.header && bytes[|fmt.header|..start] == PutLe(n, 4);
    Limits();
    LeRoundTrip(n, 4);
  }

  /**
   Frames after `ps` whose first length field was overwritten with `n`: they are cut off
   silently if and only if `n` is within the limit and more than what is left of the file.
   The checksum does not cover the length, so nothing else reports it.
   */
  lemma LengthDamageCutsIff(fmt: Format, ps: seq<Payload>, n: nat, tail: seq<byte>)
    requires AllFit(fmt, ps) && n < U32_LIMIT
    ensures Parse(fmt, EncodeLog(fmt, ps) + (fmt.header + PutLe(n, 4) + tail))
        == Ok(Recovered(ps, |EncodeLog(fmt, ps)|))
      <==> n <= fmt.limit && |tail| < n + 4
  {
    var damaged := fmt.header + PutLe(n, 4) + tail;
    ParseAfter(fmt, ps, damaged);
    LengthReadsAsTorn(fmt, n, tail);
    ParseNothing(fmt, damaged);
    ResumesWithNothing(ps, |EncodeLog(fmt, ps)|, Parse(fmt, damaged));
  }

  lemma ParseNothing(fmt: Format, bytes: seq<byte>)
    ensures Parse(fmt, bytes) == Ok(Recovered([], 0)) <==> ReadFrame(fmt, bytes) == Ok(None)
  {
  }

  lemma ResumesWithNothing(payloads: seq<Payload>, position: nat, rest: Result<Recovered>)
    ensures Resume(payloads, position, rest) == Ok(Recovered(payloads, position)) <==> rest == Ok(Recovered([], 0))
  {
    if rest.Ok? {
      assert |payloads + rest.value.payloads| == |payloads| + |rest.value.payloads|;
      assert payloads + [] == payloads;
    }
  }

  /** Raising the length of the frame before `more` to the limit loses that frame and all of `more`. */
  lemma RaisedLengthLoses(fmt: Format, ps: seq<Payload>, p: Payload, more: seq<Payload>)
    requires AllFit(fmt, ps) && AllFit(fmt, [p] + more) && fmt.limit < U32_LIMIT
    requires |EncodeLog(fmt, [p] + more)| < |fmt.header| + 4 + fmt.limit + 4
    ensures var tail := EncodeLog(fmt, [p] + more)[|fmt.header| + 4..];
      Parse(fmt, EncodeLog(fmt, ps) + (fmt.header + PutLe(fmt.limit, 4) + tail))
        == Ok(Recovered(ps, |EncodeLog(fmt, ps)|))
  {
    assert ([p] + more)[1..] == more;
    LengthDamageCutsIff(fmt, ps, fmt.limit, EncodeLog(fmt, [p] + more)[|fmt.header| + 4..]);
  }
}
