/**
 The exact plan for filtered queries, shared by the single-node and the
 replicated engine: rank the clean candidates of the metadata index and the
 dirty IDs separately, then merge.
 */
module FilteredSearch {
  import opened Base
  import opened Filters
  import opened Collections
  import opened MetadataIndexes
  import opened CollectionStore
  import opened Ranking
  import opened TopK

  /** Outside the dirty set the indexed points are the live points. */
  ghost predicate AgreeOutside(indexed: Points, points: Points, dirty: set<Id>) {
    forall id :: id !in dirty ==> SameOn(indexed, points, id)
  }

  ghost function CleanMatches(indexed: Points, dirty: set<Id>, f: Filter): set<Id> {
    set id | id in MatchingIds(indexed, f) && id !in dirty
  }

  /** Clean candidates and dirty IDs together hold every matching live point. */
  lemma CleanAndDirty(points: Points, indexed: Points, dirty: set<Id>, f: Filter, score: Vector -> int)
    requires AgreeOutside(indexed, points, dirty)
    ensures HitsAmong(points, CleanMatches(indexed, dirty, f), Some(f), score)
      + HitsAmong(points, dirty, Some(f), score) == AllHits(points, Some(f), score)
  {
    var clean := CleanMatches(indexed, dirty, f);
    forall id | id in points && Passes(Some(f), points[id]) ensures id in clean || id in dirty {
      assert id !in dirty ==> SameOn(indexed, points, id);
    }
  }

  method CleanCandidates(index: Index, ghost indexed: Points, dirty: set<Id>, f: Filter) returns (ids: set<Id>)
    requires Indexes(index, indexed)
    ensures ids == CleanMatches(indexed, dirty, f)
  {
    ids := Candidates(index, indexed, f);
    ids := set id | id in ids && id !in dirty;
  }

  lemma MergedIsExact(
      points: Points, indexed: Points, dirty: set<Id>, f: Filter, score: Vector -> int, k: nat,
      clean: seq<Hit>, pending: seq<Hit>, r: seq<Hit>)
    requires WellKeyed(points) && AgreeOutside(indexed, points, dirty)
    requires IsTopK(clean, HitsAmong(points, CleanMatches(indexed, dirty, f), Some(f), score), k)
    requires IsTopK(pending, HitsAmong(points, dirty, Some(f), score), k)
    requires IsTopK(r, Elements(clean + pending), k)
    ensures IsTopK(r, AllHits(points, Some(f), score), k)
  {
    var left := HitsAmong(points, CleanMatches(indexed, dirty, f), Some(f), score);
    var right := HitsAmong(points, dirty, Some(f), score);
    CleanAndDirty(points, indexed, dirty, f, score);
    HitsAreOnePerId(points, points.Keys, Some(f), score);
    assert Elements(clean + pending) == Elements(clean) + Elements(pending);
    MergeTopK(clean, pending, left, right, r, k);
  }

  lemma ListedAreHits(
      points: Points, indexed: Points, dirty: set<Id>, f: Filter, score: Vector -> int, k: nat,
      clean: seq<Hit>, pending: seq<Hit>)
    requires WellKeyed(points) && AgreeOutside(indexed, points, dirty)
    requires IsTopK(clean, HitsAmong(points, CleanMatches(indexed, dirty, f), Some(f), score), k)
    requires IsTopK(pending, HitsAmong(points, dirty, Some(f), score), k)
    ensures Elements(clean + pending) <= AllHits(points, Some(f), score)
    ensures OnePerId(Elements(clean + pending))
  {
    CleanAndDirty(points, indexed, dirty, f, score);
    HitsAreOnePerId(points, points.Keys, Some(f), score);
    assert Elements(clean + pending) == Elements(clean) + Elements(pending);
  }

  method ExactPlan(
      points: Points, index: Index, ghost indexed: Points, dirty: set<Id>, k: nat, f: Filter, score: Vector -> int)
    returns (r: seq<Hit>)
    requires WellKeyed(points) && Indexes(index, indexed) && AgreeOutside(indexed, points, dirty)
    ensures IsTopK(r, AllHits(points, Some(f), score), k)
  {
    var candidates := CleanCandidates(index, indexed, dirty, f);
    var clean := RankIds(points, k, candidates, Some(f), score);
    var pending := RankIds(points, k, dirty, Some(f), score);
    ListedAreHits(points, indexed, dirty, f, score, k, clean, pending);
    r := MergeHits(clean + pending, k);
    MergedIsExact(points, indexed, dirty, f, score, k, clean, pending, r);
  }
}
