/**
 Strict total orders on node indexes, the best and the worst member of a set and
 the sorted listing of a set. A binary heap is a set whose best member is popped.
 */
module Orders {
  // ----- the first member of a set ---------------------------------------

  ghost predicate TotalOn<T>(r: (T, T) -> bool, s: set<T>) {
    && (forall a, b {:trigger r(a, b)} :: a in s && b in s && a != b ==> r(a, b) || r(b, a))
    && (forall a, b, c {:trigger r(a, b), r(b, c)} :: a in s && b in s && c in s && r(a, b) && r(b, c) ==> r(a, c))
  }

  predicate IsFirst<T(==)>(r: (T, T) -> bool, s: set<T>, b: T) {
    b in s && forall x :: x in s && x != b ==> r(b, x)
  }

  lemma {:induction false} FirstExists<T>(r: (T, T) -> bool, s: set<T>) returns (b: T)
    requires TotalOn(r, s) && s != {}
    ensures IsFirst(r, s, b)
    decreases |s|
  {
    b :| b in s;
    if s != {b} {
      var x := b;
      assert x in s && s - {x} != {};
      var rest := FirstExists(r, s - {x});
      b := if r(x, rest) then x else rest;
      forall y | y in s && y != b ensures r(b, y) {
        assert y == x || y == rest || r(rest, y);
      }
    }
  }

  // ----- orders on nodes -------------------------------------------------

  /** `r(a, b)`: `a` ranks before `b`. */
  type Order = (nat, nat) -> bool

  ghost predicate Strict(r: Order, n: nat) {
    && (forall a: nat {:trigger r(a, a)} :: !r(a, a))
    && (forall a: nat, b: nat {:trigger r(a, b)} :: a < n && b < n && a != b ==> r(a, b) || r(b, a))
    && (forall a: nat, b: nat, c: nat {:trigger r(a, b), r(b, c)} :: r(a, b) && r(b, c) ==> r(a, c))
  }

  predicate Within(s: set<nat>, n: nat) {
    forall x :: x in s ==> x < n
  }

  predicate IsBest(r: Order, s: set<nat>, b: nat) { IsFirst(r, s, b) }

  predicate IsWorst(r: Order, s: set<nat>, w: nat) {
    w in s && forall x :: x in s && x != w ==> r(x, w)
  }

  lemma BestExists(r: Order, n: nat, s: set<nat>) returns (b: nat)
    requires Strict(r, n) && Within(s, n) && s != {}
    ensures IsBest(r, s, b)
  {
    b := FirstExists(r, s);
  }

  ghost function Best(r: Order, s: set<nat>): nat {
    if exists b: nat :: IsBest(r, s, b) then var b: nat :| IsBest(r, s, b); b else 0
  }

  lemma BestIs(r: Order, n: nat, s: set<nat>)
    requires Strict(r, n) && Within(s, n) && s != {}
    ensures IsBest(r, s, Best(r, s))
  {
    var b := BestExists(r, n, s);
  }

  lemma BestIsOne(r: Order, n: nat, s: set<nat>, b: nat)
    requires Strict(r, n) && IsBest(r, s, b)
    ensures b == Best(r, s)
  {
    assert !r(b, b);
    assert IsBest(r, s, Best(r, s));
  }

  /** The opposite order. */
  ghost function Reverse(r: Order): Order { (a: nat, b: nat) => r(b, a) }

  ghost function Worst(r: Order, s: set<nat>): nat { Best(Reverse(r), s) }

  lemma WorstIs(r: Order, n: nat, s: set<nat>)
    requires Strict(r, n) && Within(s, n) && s != {}
    ensures IsWorst(r, s, Worst(r, s))
  {
    BestIs(Reverse(r), n, s);
  }

  lemma WorstIsOne(r: Order, n: nat, s: set<nat>, w: nat)
    requires Strict(r, n) && IsWorst(r, s, w)
    ensures w == Worst(r, s)
  {
    BestIsOne(Reverse(r), n, s, w);
  }

  /** The members of `s`, best first. */
  ghost function Sorted(r: Order, s: set<nat>): seq<nat>
    decreases |s|
  {
    var b := Best(r, s);
    if b in s then [b] + Sorted(r, s - {b}) else []
  }

  ghost predicate Ascending(r: Order, list: seq<nat>) {
    forall i, j :: 0 <= i < j < |list| ==> r(list[i], list[j])
  }

  function Members(list: seq<nat>): set<nat> { set x | x in list }

  lemma {:induction false} SortedIs(r: Order, n: nat, s: set<nat>)
    requires Strict(r, n) && Within(s, n)
    ensures Members(Sorted(r, s)) == s && |Sorted(r, s)| == |s| && Ascending(r, Sorted(r, s))
    decreases |s|
  {
    if s != {} {
      BestIs(r, n, s);
      var b := Best(r, s);
      var rest := Sorted(r, s - {b});
      SortedIs(r, n, s - {b});
      PrependAscends(r, b, rest);
    } else {
      assert Best(r, s) !in s;
    }
  }

  lemma PrependAscends(r: Order, b: nat, rest: seq<nat>)
    requires Ascending(r, rest) && forall x :: x in Members(rest) ==> r(b, x)
    ensures Ascending(r, [b] + rest) && Members([b] + rest) == Members(rest) + {b}
  {
    forall i, j | 0 <= i < j <= |rest| ensures r(([b] + rest)[i], ([b] + rest)[j]) {
      assert rest[j - 1] in Members(rest);
    }
  }

  /** Listing a set by popping the best member until none is left. */
  method Sort(r: Order, ghost n: nat, s: set<nat>) returns (list: seq<nat>)
    requires Strict(r, n) && Within(s, n)
    ensures list == Sorted(r, s)
  {
    list := [];
    var rest := s;
    while rest != {}
      invariant rest <= s && list + Sorted(r, rest) == Sorted(r, s)
      decreases |rest|
    {
      ghost var b := BestExists(r, n, rest);
      var next :| IsBest(r, rest, next);
      BestIsOne(r, n, rest, next);
      list := list + [next];
      rest := rest - {next};
    }
    BestOfNone(r);
  }

  lemma BestOfNone(r: Order)
    ensures Sorted(r, {}) == []
  {
  }

  /** The best `k` members of `all`. */
  ghost predicate IsTop(r: Order, top: set<nat>, all: set<nat>, k: nat) {
    && top <= all
    && |top| == (if |all| < k then |all| else k)
    && forall x, y :: x in top && y in all - top ==> r(x, y)
  }

  lemma {:induction false} WithinSize(s: set<nat>, n: nat)
    requires Within(s, n)
    ensures |s| <= n
    decreases n
  {
    if n > 0 {
      WithinSize(s - {n - 1}, n - 1);
    } else {
      assert s == {};
    }
  }
}
