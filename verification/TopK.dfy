/** The bounded heap of `Collection::top_k` and the merge of ranked lists. */
module TopK {
  import opened Base
  import Orders
  import opened Ranking

  predicate After(a: Hit, b: Hit) { Before(b, a) }

  predicate IsBest(s: set<Hit>, b: Hit) {
    b in s && forall h :: h in s && h != b ==> Before(b, h)
  }

  predicate IsWorst(s: set<Hit>, w: Hit) {
    w in s && forall h :: h in s && h != w ==> Before(h, w)
  }

  /** Hits of different IDs are totally ordered, so a set of them has a best and a worst. */
  lemma BeforeIsTotal(s: set<Hit>)
    requires OnePerId(s)
    ensures Orders.TotalOn(Before, s) && Orders.TotalOn(After, s)
  {
    forall a, b | a in s && b in s && a != b ensures Before(a, b) || Before(b, a) { BeforeTotal(a, b); }
    forall a, b, c | a in s && b in s && c in s && Before(a, b) && Before(b, c) ensures Before(a, c) {
      BeforeTransitive(a, b, c);
    }
    forall a, b, c | a in s && b in s && c in s && After(a, b) && After(b, c) ensures After(a, c) {
      BeforeTransitive(c, b, a);
    }
  }

  lemma BestExists(s: set<Hit>)
    requires s != {} && OnePerId(s)
    ensures exists b :: IsBest(s, b)
  {
    BeforeIsTotal(s);
    var b := Orders.FirstExists(Before, s);
    assert IsBest(s, b);
  }

  lemma WorstExists(s: set<Hit>)
    requires s != {} && OnePerId(s)
    ensures exists w :: IsWorst(s, w)
  {
    BeforeIsTotal(s);
    var w := Orders.FirstExists(After, s);
    assert IsWorst(s, w);
  }

  lemma ElementsAppend(r: seq<Hit>, x: Hit)
    ensures Elements(r + [x]) == Elements(r) + {x}
  {
  }

  lemma ElementsConcat(a: seq<Hit>, b: seq<Hit>)
    ensures Elements(a + b) == Elements(a) + Elements(b)
  {
  }

  lemma ElementsNext(hits: seq<Hit>, n: nat)
    requires n < |hits|
    ensures Elements(hits[..n + 1]) == Elements(hits[..n]) + {hits[n]}
  {
    assert hits[..n + 1] == hits[..n] + [hits[n]];
    ElementsAppend(hits[..n], hits[n]);
  }

  /** Sorts the contents of a heap. */
  method SortHeap(heap: set<Hit>) returns (r: seq<Hit>)
    requires OnePerId(heap)
    ensures Ranked(r) && Elements(r) == heap
  {
    r := [];
    var rest := heap;
    while rest != {}
      invariant rest <= heap && Ranked(r) && Elements(r) == heap - rest
      invariant forall i, h :: 0 <= i < |r| && h in rest ==> Before(r[i], h)
      decreases rest
    {
      BestExists(rest);
      var best :| IsBest(rest, best);
      ElementsAppend(r, best);
      r := r + [best];
      rest := rest - {best};
    }
  }

  /** The heap after `seen`: the best `k` so far, everything else behind all of them. */
  ghost predicate HeapInv(heap: set<Hit>, seen: set<Hit>, k: nat) {
    && heap <= seen
    && |heap| == Min(k, |seen|)
    && forall x, h :: x in heap && h in seen && h !in heap ==> Before(x, h)
  }

  lemma HeapReplace(heap: set<Hit>, seen: set<Hit>, k: nat, worst: Hit, next: Hit)
    requires HeapInv(heap, seen, k) && next !in seen && |heap| == k
    requires IsWorst(heap, worst)
    requires Before(next, worst)
    ensures HeapInv(heap - {worst} + {next}, seen + {next}, k)
  {
    var after := heap - {worst} + {next};
    SubsetSize(heap, seen);
    forall x, h | x in after && h in seen + {next} && h !in after ensures Before(x, h) {
      if x == next && h != worst { BeforeTransitive(next, worst, h); }
    }
  }

  lemma HeapSkip(heap: set<Hit>, seen: set<Hit>, k: nat, worst: Hit, next: Hit)
    requires HeapInv(heap, seen, k) && next !in seen && |heap| == k
    requires IsWorst(heap, worst)
    requires !Before(next, worst) && next.id != worst.id
    ensures HeapInv(heap, seen + {next}, k)
  {
    SubsetSize(heap, seen);
    BeforeTotal(next, worst);
    forall x | x in heap ensures Before(x, next) {
      if x != worst { BeforeTransitive(x, worst, next); }
    }
  }

  lemma HeapIsTopK(r: seq<Hit>, heap: set<Hit>, all: set<Hit>, k: nat)
    requires HeapInv(heap, all, k) && Ranked(r) && Elements(r) == heap
    ensures IsTopK(r, all, k)
  {
    RankedSize(r);
    forall h | h in all && h !in r ensures AllBefore(r, h) {
      forall i | 0 <= i < |r| ensures Before(r[i], h) { assert r[i] in Elements(r); }
    }
  }

  lemma HeapGrow(heap: set<Hit>, seen: set<Hit>, k: nat, next: Hit)
    requires HeapInv(heap, seen, k) && next !in seen && |heap| < k
    ensures HeapInv(heap + {next}, seen + {next}, k)
  {
    SubsetSize(heap, seen);
  }

  /** One point meets the heap. */
  method Offer(heap: set<Hit>, ghost seen: set<Hit>, next: Hit, k: nat) returns (after: set<Hit>)
    requires HeapInv(heap, seen, k) && OnePerId(seen + {next}) && next !in seen
    ensures HeapInv(after, seen + {next}, k)
  {
    after := heap;
    if |heap| < k {
      HeapGrow(heap, seen, k, next);
      after := heap + {next};
    } else if heap != {} {
      WorstExists(heap);
      var worst :| IsWorst(heap, worst);
      if Before(next, worst) {
        HeapReplace(heap, seen, k, worst, next);
        after := heap - {worst} + {next};
      } else {
        HeapSkip(heap, seen, k, worst, next);
      }
    }
  }

  ghost predicate DistinctIds(hits: seq<Hit>) {
    forall i, j :: 0 <= i < j < |hits| ==> hits[i].id != hits[j].id
  }

  lemma NextIsNew(hits: seq<Hit>, i: nat)
    requires DistinctIds(hits) && i < |hits|
    ensures hits[i] !in Elements(hits[..i])
    ensures OnePerId(Elements(hits[..i]) + {hits[i]})
  {
  }

  lemma DistinctIsOnePerId(hits: seq<Hit>, some: set<Hit>)
    requires DistinctIds(hits) && some <= Elements(hits)
    ensures OnePerId(some)
  {
  }

  /** `top_k`: one pass over the points with a heap of at most `k` of them. */
  method SelectTop(hits: seq<Hit>, k: nat) returns (r: seq<Hit>)
    requires DistinctIds(hits)
    ensures IsTopK(r, Elements(hits), k)
  {
    var heap: set<Hit> := {};
    for i := 0 to |hits|
      invariant HeapInv(heap, Elements(hits[..i]), k)
    {
      NextIsNew(hits, i);
      ElementsNext(hits, i);
      heap := Offer(heap, Elements(hits[..i]), hits[i], k);
    }
    assert hits[..|hits|] == hits;
    DistinctIsOnePerId(hits, heap);
    r := SortHeap(heap);
    HeapIsTopK(r, heap, Elements(hits), k);
  }

  // ----- merging ---------------------------------------------------------

  ghost predicate Sorted(hits: seq<Hit>) {
    forall i, j :: 0 <= i < j < |hits| ==> !Before(hits[j], hits[i])
  }

  /** `sort_unstable_by`. */
  method SortHits(hits: seq<Hit>) returns (r: seq<Hit>)
    ensures Sorted(r) && multiset(r) == multiset(hits)
  {
    r := [];
    for n := 0 to |hits|
      invariant Sorted(r) && multiset(r) == multiset(hits[..n])
    {
      assert hits[..n + 1] == hits[..n] + [hits[n]];
      r := InsertSorted(r, hits[n]);
    }
    assert hits[..|hits|] == hits;
  }

  method InsertSorted(hits: seq<Hit>, x: Hit) returns (r: seq<Hit>)
    requires Sorted(hits)
    ensures Sorted(r) && multiset(r) == multiset(hits) + multiset{x}
  {
    var i := 0;
    while i < |hits| && !Before(x, hits[i])
      invariant 0 <= i <= |hits|
      invariant forall j :: 0 <= j < i ==> !Before(x, hits[j])
    {
      i := i + 1;
    }
    r := hits[..i] + [x] + hits[i..];
    assert hits == hits[..i] + hits[i..];
    forall j | i <= j < |hits| ensures !Before(hits[j], x) {
      if Before(hits[j], x) {
        BeforeTransitive(hits[j], x, hits[i]);
        BeforeIrreflexive(hits[i]);
      }
    }
  }

  lemma PrefixIsTopK(hits: seq<Hit>, k: nat)
    requires Ranked(hits)
    ensures IsTopK(hits[..Min(k, |hits|)], Elements(hits), k)
  {
    RankedSize(hits);
  }

  /** `dedup_by` on equal IDs. */
  method Dedup(hits: seq<Hit>) returns (r: seq<Hit>)
    requires Sorted(hits) && OnePerId(Elements(hits))
    ensures Ranked(r) && Elements(r) == Elements(hits)
  {
    r := [];
    for n := 0 to |hits|
      invariant Ranked(r) && Elements(r) == Elements(hits[..n])
      invariant n > 0 ==> r != [] && r[|r| - 1] == hits[n - 1]
    {
      var x := hits[n];
      ElementsNext(hits, n);
      if n == 0 {
        r := [x];
        assert Elements(r) == {x};
      } else if r[|r| - 1].id != x.id {
        assert !Before(hits[n], hits[n - 1]);
        BeforeTotal(r[|r| - 1], x);
        forall i | 0 <= i < |r| ensures Before(r[i], x) {
          if i < |r| - 1 { BeforeTransitive(r[i], r[|r| - 1], x); }
        }
        ElementsAppend(r, x);
        r := r + [x];
      } else {
        assert x in Elements(hits) && hits[n - 1] in Elements(hits);
        assert x in hits[..n] by { assert hits[..n][n - 1] == x; }
      }
    }
    assert hits[..|hits|] == hits;
  }

  /** `merge_hits`: sort, drop repeated IDs, keep the first `k`. */
  method MergeHits(hits: seq<Hit>, k: nat) returns (r: seq<Hit>)
    requires OnePerId(Elements(hits))
    ensures IsTopK(r, Elements(hits), k)
  {
    var sorted := SortHits(hits);
    assert Elements(sorted) == Elements(hits) by {
      forall h ensures h in sorted <==> h in hits { assert h in multiset(sorted) <==> h in multiset(hits); }
    }
    var unique := Dedup(sorted);
    PrefixIsTopK(unique, k);
    r := unique[..Min(k, |unique|)];
  }
}
