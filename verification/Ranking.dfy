/**
 Ranked search results. Hits are ordered by descending score and then by
 ascending ID; the score stands for the key `f32::total_cmp` compares. The
 specification of a search is the unique `IsTopK` list of the matching hits.
 */
module Ranking {
  import opened Base
  import opened Filters
  import opened Collections

  datatype Hit = Hit(id: Id, score: int, metadata: Metadata, sequence: nat)

  // ----- the order -------------------------------------------------------

  predicate LexLess(a: string, b: string)
    decreases |b|
  {
    b != "" && (a == "" || a[0] < b[0] || (a[0] == b[0] && LexLess(a[1..], b[1..])))
  }

  lemma {:induction false} LexTotal(a: string, b: string)
    ensures !(LexLess(a, b) && LexLess(b, a))
    ensures a != b ==> LexLess(a, b) || LexLess(b, a)
    decreases |a|
  {
    if a != "" && b != "" {
      LexTotal(a[1..], b[1..]);
      if a[0] == b[0] && a[1..] == b[1..] {
        assert a == [a[0]] + a[1..] == b;
      }
    }
  }

  lemma {:induction false} LexTransitive(a: string, b: string, c: string)
    requires LexLess(a, b) && LexLess(b, c)
    ensures LexLess(a, c)
    decreases |a| + |b| + |c|
  {
    if a != "" && a[0] == b[0] && b[0] == c[0] { LexTransitive(a[1..], b[1..], c[1..]); }
  }

  /** `a` precedes `b` at place `n`: they agree up to there, and `a` ends or has the smaller character. */
  ghost predicate PrecedesAt(a: string, b: string, n: nat) {
    n <= |a| && n < |b| && a[..n] == b[..n] && (n == |a| || a[n] < b[n])
  }

  /** The first place where two strings differ decides. */
  lemma {:induction false} LexByFirstDifference(a: string, b: string)
    ensures LexLess(a, b) <==> exists n: nat :: PrecedesAt(a, b, n)
    decreases |a|
  {
    if a == "" || b == "" || a[0] != b[0] {
      if LexLess(a, b) { assert PrecedesAt(a, b, 0); }
      forall n: nat | PrecedesAt(a, b, n) ensures n == 0 {}
    } else {
      LexByFirstDifference(a[1..], b[1..]);
      if LexLess(a, b) {
        var n: nat :| PrecedesAt(a[1..], b[1..], n);
        assert a[..n + 1] == [a[0]] + a[1..][..n] && b[..n + 1] == [b[0]] + b[1..][..n];
        assert PrecedesAt(a, b, n + 1);
      }
      forall n: nat | PrecedesAt(a, b, n) ensures LexLess(a, b) {
        assert a[1..][..n - 1] == a[..n][1..] && b[1..][..n - 1] == b[..n][1..];
        assert PrecedesAt(a[1..], b[1..], n - 1);
      }
    }
  }

  predicate Before(a: Hit, b: Hit) {
    a.score > b.score || (a.score == b.score && LexLess(a.id, b.id))
  }

  lemma BeforeIrreflexive(a: Hit)
    ensures !Before(a, a)
  {
    LexTotal(a.id, a.id);
  }

  lemma BeforeTotal(a: Hit, b: Hit)
    ensures !(Before(a, b) && Before(b, a))
    ensures a.id != b.id ==> Before(a, b) || Before(b, a)
  {
    LexTotal(a.id, b.id);
  }

  lemma BeforeTransitive(a: Hit, b: Hit, c: Hit)
    requires Before(a, b) && Before(b, c)
    ensures Before(a, c)
  {
    if a.score == b.score == c.score { LexTransitive(a.id, b.id, c.id); }
  }

  // ----- the specification -----------------------------------------------

  /** Hits of one collection: an ID has one hit. */
  ghost predicate OnePerId(all: set<Hit>) {
    forall a, b :: a in all && b in all && a.id == b.id ==> a == b
  }

  ghost predicate Ranked(hits: seq<Hit>) {
    forall i, j :: 0 <= i < j < |hits| ==> Before(hits[i], hits[j])
  }

  function Min(a: nat, b: nat): nat { if a < b then a else b }

  function Elements(hits: seq<Hit>): set<Hit> { set h | h in hits }

  /** `r` lists, in order, the best `k` of `all`. */
  ghost predicate IsTopK(r: seq<Hit>, all: set<Hit>, k: nat) {
    && Ranked(r)
    && |r| == Min(k, |all|)
    && Elements(r) <= all
    && forall h :: h in all && h !in r ==> AllBefore(r, h)
  }

  ghost predicate AllBefore(r: seq<Hit>, h: Hit) {
    forall i :: 0 <= i < |r| ==> Before(r[i], h)
  }

  lemma RankedIsDistinct(r: seq<Hit>, i: nat, j: nat)
    requires Ranked(r) && i < |r| && j < |r| && r[i] == r[j]
    ensures i == j
  {
    BeforeIrreflexive(r[i]);
  }

  lemma {:induction false} RankedSize(r: seq<Hit>)
    requires Ranked(r)
    ensures |Elements(r)| == |r|
    decreases |r|
  {
    if r != [] {
      var init, last := r[..|r| - 1], r[|r| - 1];
      RankedSize(init);
      assert r == init + [last];
      assert Elements(r) == Elements(init) + {last};
      forall i | 0 <= i < |init| ensures init[i] != last {
        assert Before(r[i], r[|r| - 1]);
        BeforeIrreflexive(last);
      }
    }
  }

  /** The best `k` hits in order are unique, so any two plans that both yield them agree. */
  lemma TopKIsUnique(a: seq<Hit>, b: seq<Hit>, all: set<Hit>, k: nat)
    requires OnePerId(all) && IsTopK(a, all, k) && IsTopK(b, all, k)
    ensures a == b
  {
    forall i | 0 <= i < |a| ensures a[i] == b[i] {
      TopKAgrees(a, b, all, k, i);
    }
  }

  lemma {:induction false} TopKAgrees(a: seq<Hit>, b: seq<Hit>, all: set<Hit>, k: nat, i: nat)
    requires OnePerId(all) && IsTopK(a, all, k) && IsTopK(b, all, k) && i < |a|
    ensures a[i] == b[i]
  {
    forall j | 0 <= j < i ensures a[j] == b[j] {
      TopKAgrees(a, b, all, k, j);
    }
    if a[i] != b[i] {
      assert a[i] in Elements(a) && b[i] in Elements(b);
      BeforeTotal(a[i], b[i]);
      if Before(a[i], b[i]) {
        TopKNotEarlier(b, all, k, i, a, a[i]);
      } else {
        TopKNotEarlier(a, all, k, i, b, b[i]);
      }
    }
  }

  /** Nothing that is not in the first `i` places ranks before place `i`. */
  lemma TopKNotEarlier(r: seq<Hit>, all: set<Hit>, k: nat, i: nat, other: seq<Hit>, h: Hit)
    requires IsTopK(r, all, k) && i < |r| && h in all && Ranked(other)
    requires i < |other| && other[i] == h && forall j :: 0 <= j < i ==> other[j] == r[j]
    ensures !Before(h, r[i])
  {
    if h in r {
      var j :| 0 <= j < |r| && r[j] == h;
      if j < i {
        RankedIsDistinct(other, j, i);
      } else {
        BeforeTotal(h, r[i]);
      }
    } else {
      assert AllBefore(r, h);
      BeforeTotal(h, r[i]);
    }
  }

  // ----- merging ---------------------------------------------------------

  /** At least `k` of the candidates rank before `h`. */
  ghost predicate Dominated(h: Hit, candidates: set<Hit>, k: nat) {
    exists better :: Beats(better, h) && better <= candidates && |better| == k
  }

  ghost predicate Beats(better: set<Hit>, h: Hit) {
    forall b :: b in better ==> Before(b, h)
  }

  /**
   Candidates may stand for the whole: leaving out hits that `k` candidates
   already beat does not change the best `k`.
   */
  lemma TopKOfCandidates(r: seq<Hit>, candidates: set<Hit>, all: set<Hit>, k: nat)
    requires OnePerId(all) && candidates <= all
    requires forall h :: h in all && h !in candidates ==> Dominated(h, candidates, k)
    requires IsTopK(r, candidates, k)
    ensures IsTopK(r, all, k)
  {
    SubsetSize(candidates, all);
    if candidates != all {
      var h :| h in all && h !in candidates;
      assert Dominated(h, candidates, k);
      var better :| Beats(better, h) && better <= candidates && |better| == k;
      SubsetSize(better, candidates);
      assert |r| == k;
    }
    forall h | h in all && h !in r ensures AllBefore(r, h) {
      if h !in candidates { DominatedIsAfter(r, candidates, all, k, h); }
    }
  }

  lemma DominatedIsAfter(r: seq<Hit>, candidates: set<Hit>, all: set<Hit>, k: nat, h: Hit)
    requires OnePerId(all) && candidates <= all && IsTopK(r, candidates, k) && |r| == k
    requires h in all && h !in candidates && Dominated(h, candidates, k)
    ensures AllBefore(r, h)
  {
    var better :| Beats(better, h) && better <= candidates && |better| == k;
    forall i | 0 <= i < |r| ensures Before(r[i], h) {
      var x := r[i];
      assert x in Elements(r);
      BeforeTotal(x, h);
      if Before(h, x) {
        // Then all of `better` and `x` itself are among the k listed hits.
        forall b | b in better ensures b in Elements(r) && b != x {
          BeforeTransitive(b, h, x);
          BeforeTotal(b, x);
          assert b !in r ==> AllBefore(r, b);
        }
        SubsetSize(better + {x}, Elements(r));
        RankedSize(r);
      }
    }
  }

  /** What a top-`k` list drops is beaten by `k` hits of the list. */
  lemma DroppedIsDominated(r: seq<Hit>, all: set<Hit>, k: nat, h: Hit, candidates: set<Hit>)
    requires IsTopK(r, all, k) && h in all && h !in r && Elements(r) <= candidates
    ensures Dominated(h, candidates, k)
  {
    RankedSize(r);
    SubsetSize(Elements(r), all);
    assert AllBefore(r, h);
    assert Beats(Elements(r), h);
  }

  /** Merging two top-`k` lists yields the top `k` of the union. */
  lemma MergeTopK(a: seq<Hit>, b: seq<Hit>, left: set<Hit>, right: set<Hit>, r: seq<Hit>, k: nat)
    requires OnePerId(left + right) && IsTopK(a, left, k) && IsTopK(b, right, k)
    requires IsTopK(r, Elements(a) + Elements(b), k)
    ensures IsTopK(r, left + right, k)
  {
    var candidates := Elements(a) + Elements(b);
    forall h | h in left + right && h !in candidates ensures Dominated(h, candidates, k) {
      if h in left {
        DroppedIsDominated(a, left, k, h, candidates);
      } else {
        DroppedIsDominated(b, right, k, h, candidates);
      }
    }
    TopKOfCandidates(r, candidates, left + right, k);
  }

  /** Of one part its best `k` may stand for the whole part. */
  lemma HalfMergeTopK(left: set<Hit>, b: seq<Hit>, right: set<Hit>, r: seq<Hit>, k: nat)
    requires OnePerId(left + right) && IsTopK(b, right, k) && IsTopK(r, left + Elements(b), k)
    ensures IsTopK(r, left + right, k)
  {
    var candidates := left + Elements(b);
    forall h | h in left + right && h !in candidates ensures Dominated(h, candidates, k) {
      DroppedIsDominated(b, right, k, h, candidates);
    }
    TopKOfCandidates(r, candidates, left + right, k);
  }
}
