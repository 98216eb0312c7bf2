/**
 Which shard an ID belongs to: FNV-1a over its bytes, which unlike the default
 hasher is a stable storage contract.
 */
module Routing {
  import opened Base
  import opened Checksums
  import opened Collections

  /** One byte of FNV-1a. */
  function Mix(hash: bv64, b: byte): bv64 { (hash ^ (b as bv8) as bv64) * 0x100000001b3 }

  function StableHash(bytes: seq<byte>): bv64 { Fold(Mix, 0xcbf29ce484222325, bytes) }

  /** The loop over the bytes of an ID. */
  method FoldLoop<R>(feed: (R, byte) -> R, start: R, bytes: seq<byte>) returns (r: R)
    ensures r == Fold(feed, start, bytes)
  {
    r := start;
    for i := 0 to |bytes|
      invariant r == Fold(feed, start, bytes[..i])
    {
      assert bytes[..i + 1][..i] == bytes[..i];
      r := feed(r, bytes[i]);
    }
    assert bytes[..|bytes|] == bytes;
  }

  lemma HelloSteps()
    ensures Mix(0xcbf29ce484222325, 0x68) == 0xaf63e54c8601fbd7
    ensures Mix(0xaf63e54c8601fbd7, 0x65) == 0x08ba5307b55eaf76
    ensures Mix(0x08ba5307b55eaf76, 0x6c) == 0x334a30192fe3892e
    ensures Mix(0x334a30192fe3892e, 0x6c) == 0x0a98fccc5fa23b26
    ensures Mix(0x0a98fccc5fa23b26, 0x6f) == 0xa430d84680aabd0b
  {
  }

  /** The hash of "hello", which pins the constants. */
  lemma HashOfHello()
    ensures StableHash([0x68, 0x65, 0x6c, 0x6c, 0x6f]) == 0xa430d84680aabd0b
  {
    var hello: seq<byte> := [0x68, 0x65, 0x6c, 0x6c, 0x6f];
    HelloSteps();
    FoldChain(Mix, [
      0xcbf29ce484222325, 0xaf63e54c8601fbd7, 0x08ba5307b55eaf76,
      0x334a30192fe3892e, 0x0a98fccc5fa23b26, 0xa430d84680aabd0b], hello, 5);
    assert hello[..5] == hello;
  }

  lemma PointSteps()
    ensures Mix(0xcbf29ce484222325, 0x70) == 0xaf63ed4c8602096f
    ensures Mix(0xaf63ed4c8602096f, 0x6f) == 0x08d53907b5754b00
    ensures Mix(0x08d53907b5754b00, 0x69) == 0x779b5119564f236b
    ensures Mix(0x779b5119564f236b, 0x6e) == 0x8c0dd30da878817f
    ensures Mix(0x8c0dd30da878817f, 0x74) == 0x73feab3544c345b1
    ensures Mix(0x73feab3544c345b1, 0x2d) == 0xdd028783d7cf4814
    ensures Mix(0xdd028783d7cf4814, 0x34) == 0x5a946507b5378e60
    ensures Mix(0x5a946507b5378e60, 0x32) == 0x21b5fe18ed66d556
  {
  }

  lemma HashOfPoint()
    ensures StableHash([0x70, 0x6f, 0x69, 0x6e, 0x74, 0x2d, 0x34, 0x32]) == 0x21b5fe18ed66d556
  {
    var bytes: seq<byte> := [0x70, 0x6f, 0x69, 0x6e, 0x74, 0x2d, 0x34, 0x32];
    PointSteps();
    FoldChain(Mix, [
      0xcbf29ce484222325, 0xaf63ed4c8602096f, 0x08d53907b5754b00,
      0x779b5119564f236b, 0x8c0dd30da878817f, 0x73feab3544c345b1,
      0xdd028783d7cf4814, 0x5a946507b5378e60, 0x21b5fe18ed66d556], bytes, 8);
    assert bytes[..8] == bytes;
  }

  method HashId(bytes: seq<byte>) returns (hash: bv64)
    ensures hash == StableHash(bytes)
  {
    hash := FoldLoop(Mix, 0xcbf29ce484222325, bytes);
  }

  /** `shard_index`. */
  function ShardIndex(utf8: string -> seq<byte>, shards: nat, id: Id): nat
    requires shards > 0
  {
    StableHash(utf8(id)) as nat % shards
  }

  /** Where "hello" goes among four and five shards, and "point-42" among seven. */
  lemma ShardsOfIds(utf8: string -> seq<byte>)
    requires utf8("hello") == [0x68, 0x65, 0x6c, 0x6c, 0x6f]
    requires utf8("point-42") == [0x70, 0x6f, 0x69, 0x6e, 0x74, 0x2d, 0x34, 0x32]
    ensures ShardIndex(utf8, 4, "hello") == 3
    ensures ShardIndex(utf8, 5, "hello") == 1
    ensures ShardIndex(utf8, 7, "point-42") == 0
  {
    HashOfHello();
    HashOfPoint();
  }

  /** Any assignment of IDs to shards. */
  type Route = Id -> nat

  ghost predicate RoutesTo(route: Route, n: nat) {
    forall id :: route(id) < n
  }

  function HashRoute(utf8: string -> seq<byte>, shards: nat): Route
    requires shards > 0
  {
    (id: Id) => ShardIndex(utf8, shards, id)
  }

  /** The route the store uses sends every ID to one of its shards. */
  lemma HashRouteIsTotal(utf8: string -> seq<byte>, shards: nat)
    requires shards > 0
    ensures RoutesTo(HashRoute(utf8, shards), shards)
  {
  }
}
