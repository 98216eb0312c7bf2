/**
 The metadata index: posting sets for scalar equality and ordered numeric
 postings for ranges. Its answer to a filter is exactly the set of IDs that
 the direct evaluator accepts.
 */
module MetadataIndexes {
  import opened Base
  import opened Filters
  import opened Collections

  /** Hashable equality keys; floats are keyed by the bits of their canonical form. */
  datatype ScalarKey = KeywordKey(text: string) | IntegerKey(number: int) | FloatKey(bits: F64) | BooleanKey(flag: bool)

  datatype Index = Index(
    allIds: set<Id>,
    equality: map<string, map<ScalarKey, set<Id>>>,
    numeric: map<string, map<F64, set<Id>>>)

  /** Both key types fold the negative zero into the positive one. */
  function Canonical(x: F64): F64 {
    if x.NegZero? then Finite(0.0) else x
  }

  function KeyOf(v: Value): Option<ScalarKey> {
    match v
    case Keyword(s) => Some(KeywordKey(s))
    case Integer(n) => Some(IntegerKey(n))
    case Float(x) => if x.NaN? then None else Some(FloatKey(Canonical(x)))
    case Boolean(b) => Some(BooleanKey(b))
  }

  /** `OrderedF64::new` of the numeric value. */
  function NumberOf(v: Value): Option<F64> {
    match NumericValue(v)
    case None => None
    case Some(x) => Some(Canonical(x))
  }

  /** `f64::total_cmp` on values that are not NaN. */
  predicate TotalLess(a: F64, b: F64) {
    Lt(a, b) || (a.NegZero? && b == Finite(0.0))
  }

  // ----- building --------------------------------------------------------

  predicate InPosting<K(==)>(postings: map<string, map<K, set<Id>>>, field: string, key: K, id: Id) {
    field in postings && key in postings[field] && id in postings[field][key]
  }

  /** `entry(field).or_default().entry(key).or_default().insert(id)`. */
  function AddPosting<K(!new)>(postings: map<string, map<K, set<Id>>>, field: string, key: K, id: Id)
    : (r: map<string, map<K, set<Id>>>)
    ensures forall f, k, i ::
      InPosting(r, f, k, i) <==> InPosting(postings, f, k, i) || (f == field && k == key && i == id)
  {
    var inner := if field in postings then postings[field] else map[];
    var ids := if key in inner then inner[key] else {};
    postings[field := inner[key := ids + {id}]]
  }

  function AddField(index: Index, id: Id, field: string, value: Value): Index {
    var key, number := KeyOf(value), NumberOf(value);
    index.(equality := if key.Some? then AddPosting(index.equality, field, key.value, id) else index.equality,
           numeric := if number.Some? then AddPosting(index.numeric, field, number.value, id) else index.numeric)
  }

  /** Field `field` of point `id` is among the fields in `done`. */
  ghost predicate Done(points: Points, done: set<(Id, string)>, id: Id, field: string) {
    (id, field) in done && id in points && field in points[id].metadata
  }

  /** The postings hold exactly the fields in `done`. */
  ghost predicate Posted(index: Index, points: Points, done: set<(Id, string)>) {
    && (forall field, key, id :: InPosting(index.equality, field, key, id) <==>
          Done(points, done, id, field) && KeyOf(points[id].metadata[field]) == Some(key))
    && (forall field, key, id :: InPosting(index.numeric, field, key, id) <==>
          Done(points, done, id, field) && NumberOf(points[id].metadata[field]) == Some(key))
  }

  /** The index of a set of points. */
  ghost predicate Indexes(index: Index, points: Points) {
    && index.allIds == points.Keys
    && Posted(index, points, AllFields(points))
  }

  ghost function AllFields(points: Points): set<(Id, string)> {
    set id, field | id in points && field in points[id].metadata :: (id, field)
  }

  lemma AddFieldPosts(index: Index, points: Points, done: set<(Id, string)>, id: Id, field: string)
    requires Posted(index, points, done) && id in points && field in points[id].metadata
    ensures Posted(AddField(index, id, field, points[id].metadata[field]), points, done + {(id, field)})
  {
    var value := points[id].metadata[field];
    var after := AddField(index, id, field, value);
    forall f, key, i ensures InPosting(after.equality, f, key, i) <==>
      Done(points, done + {(id, field)}, i, f) && KeyOf(points[i].metadata[f]) == Some(key)
    {
      assert Done(points, done + {(id, field)}, i, f) <==> Done(points, done, i, f) || (i == id && f == field);
    }
    forall f, key, i ensures InPosting(after.numeric, f, key, i) <==>
      Done(points, done + {(id, field)}, i, f) && NumberOf(points[i].metadata[f]) == Some(key)
    {
      assert Done(points, done + {(id, field)}, i, f) <==> Done(points, done, i, f) || (i == id && f == field);
    }
  }

  /** Adds every field of one point. */
  method AddPoint(index: Index, points: Points, id: Id, ghost done: set<(Id, string)>) returns (r: Index)
    requires Posted(index, points, done) && id in points
    ensures r.allIds == index.allIds + {id}
    ensures Posted(r, points, done + set field | field in points[id].metadata :: (id, field))
  {
    r := index.(allIds := index.allIds + {id});
    var fields := points[id].metadata.Keys;
    ghost var pairs := done;
    while fields != {}
      invariant fields <= points[id].metadata.Keys
      invariant r.allIds == index.allIds + {id}
      invariant pairs == done + set field | field in points[id].metadata && field !in fields :: (id, field)
      invariant Posted(r, points, pairs)
      decreases fields
    {
      var field :| field in fields;
      AddFieldPosts(r, points, pairs, id, field);
      r := AddField(r, id, field, points[id].metadata[field]);
      pairs := pairs + {(id, field)};
      fields := fields - {field};
    }
    assert pairs == done + set field | field in points[id].metadata :: (id, field);
  }

  method Build(points: Points) returns (index: Index)
    ensures Indexes(index, points)
  {
    index := Index({}, map[], map[]);
    var ids := points.Keys;
    ghost var done: set<(Id, string)> := {};
    while ids != {}
      invariant ids <= points.Keys && index.allIds == points.Keys - ids
      invariant done == set p | p in AllFields(points) && p.0 !in ids
      invariant Posted(index, points, done)
      decreases ids
    {
      var id :| id in ids;
      index := AddPoint(index, points, id, done);
      done := done + set field | field in points[id].metadata :: (id, field);
      ids := ids - {id};
    }
    assert done == AllFields(points);
  }

  // ----- answering -------------------------------------------------------

  ghost function MatchingIds(points: Points, f: Filter): set<Id> {
    set id | id in points && Matches(f, points[id].metadata)
  }

  lemma EqualityByKey(a: Value, b: Value)
    ensures KeyOf(b).Some? ==> (SameValue(a, b) <==> KeyOf(a) == KeyOf(b))
    ensures KeyOf(b).None? ==> !SameValue(a, b)
  {
  }

  lemma EqualityMember(index: Index, points: Points, field: string, value: Value, id: Id)
    requires Indexes(index, points)
    ensures KeyOf(value).Some? && InPosting(index.equality, field, KeyOf(value).value, id)
      <==> id in MatchingIds(points, Eq(field, value))
  {
    assert Done(points, AllFields(points), id, field) <==> id in points && field in points[id].metadata;
    if id in points && field in points[id].metadata { EqualityByKey(points[id].metadata[field], value); }
  }

  method Equality(index: Index, ghost points: Points, field: string, value: Value) returns (ids: set<Id>)
    requires Indexes(index, points)
    ensures ids == MatchingIds(points, Eq(field, value))
  {
    var key := KeyOf(value);
    ids := {};
    if key.Some? && field in index.equality && key.value in index.equality[field] {
      ids := index.equality[field][key.value];
    }
    forall id ensures id in ids <==> id in MatchingIds(points, Eq(field, value)) {
      EqualityMember(index, points, field, value, id);
    }
  }

  predicate InBounds(key: F64, gte: Option<F64>, lt: Option<F64>) {
    && (gte.Some? ==> !TotalLess(key, Canonical(gte.value)))
    && (lt.Some? ==> TotalLess(key, Canonical(lt.value)))
  }

  /** Ordered keys decide a range exactly as the comparison operators do. */
  lemma BoundsAreRange(x: F64, gte: Option<F64>, lt: Option<F64>)
    requires !x.NaN? && (gte.Some? ==> !gte.value.NaN?) && (lt.Some? ==> !lt.value.NaN?)
    ensures InBounds(Canonical(x), gte, lt) <==> InRange(x, gte, lt)
  {
  }

  /** `MetadataIndex::range`; the bounds handed to the ordered map are never inverted. */
  method InRangeIds(index: Index, ghost points: Points, field: string, gte: Option<F64>, lt: Option<F64>)
    returns (ids: set<Id>)
    requires Indexes(index, points)
    ensures ids == MatchingIds(points, Range(field, gte, lt))
  {
    if (gte.Some? && gte.value.NaN?) || (lt.Some? && lt.value.NaN?) {
      return {};
    }
    if gte.Some? && lt.Some? && Ge(gte.value, lt.value) {
      return {};
    }
    if field !in index.numeric {
      ids := {};
    } else {
      assert gte.Some? && lt.Some? ==> TotalLess(Canonical(gte.value), Canonical(lt.value));
      var values := index.numeric[field];
      ids := set key, id | key in values && InBounds(key, gte, lt) && id in values[key] :: id;
    }
    forall id ensures id in ids <==> id in MatchingIds(points, Range(field, gte, lt)) {
      assert id in ids <==> exists key :: InPosting(index.numeric, field, key, id) && InBounds(key, gte, lt);
      RangeMember(index, points, field, gte, lt, id);
    }
  }

  lemma RangeMember(index: Index, points: Points, field: string, gte: Option<F64>, lt: Option<F64>, id: Id)
    requires Indexes(index, points)
    requires (gte.Some? ==> !gte.value.NaN?) && (lt.Some? ==> !lt.value.NaN?)
    ensures (exists key :: InPosting(index.numeric, field, key, id) && InBounds(key, gte, lt))
      <==> id in MatchingIds(points, Range(field, gte, lt))
  {
    assert Done(points, AllFields(points), id, field) <==> id in points && field in points[id].metadata;
    if id in points && field in points[id].metadata && NumberOf(points[id].metadata[field]).Some? {
      var v := points[id].metadata[field];
      assert InPosting(index.numeric, field, NumberOf(v).value, id);
      BoundsAreRange(NumericValue(v).value, gte, lt);
    }
  }

  lemma MatchingAnd(points: Points, filters: seq<Filter>, i: nat)
    requires 0 < i <= |filters|
    ensures MatchingIds(points, And(filters[..i]))
      == MatchingIds(points, And(filters[..i - 1])) * MatchingIds(points, filters[i - 1])
  {
    var init := filters[..i - 1];
    assert filters[..i] == init + [filters[i - 1]];
    forall id | id in points
      ensures Matches(And(filters[..i]), points[id].metadata) ==
              (Matches(And(init), points[id].metadata) && Matches(filters[i - 1], points[id].metadata))
    {
      AndAppend(init, filters[i - 1], points[id].metadata);
    }
  }

  lemma AndAppend(init: seq<Filter>, last: Filter, metadata: Metadata)
    ensures Matches(And(init + [last]), metadata) <==> Matches(And(init), metadata) && Matches(last, metadata)
  {
    var all := init + [last];
    assert all[|init|] == last;
    assert forall i :: 0 <= i < |init| ==> all[i] == init[i];
  }

  lemma MatchingOr(points: Points, filters: seq<Filter>, i: nat)
    requires 0 < i <= |filters|
    ensures MatchingIds(points, Or(filters[..i]))
      == MatchingIds(points, Or(filters[..i - 1])) + MatchingIds(points, filters[i - 1])
  {
    var init := filters[..i - 1];
    assert filters[..i] == init + [filters[i - 1]];
    forall id | id in points
      ensures Matches(Or(filters[..i]), points[id].metadata) ==
              (Matches(Or(init), points[id].metadata) || Matches(filters[i - 1], points[id].metadata))
    {
      OrAppend(init, filters[i - 1], points[id].metadata);
    }
  }

  lemma OrAppend(init: seq<Filter>, last: Filter, metadata: Metadata)
    ensures Matches(Or(init + [last]), metadata) <==> Matches(Or(init), metadata) || Matches(last, metadata)
  {
    var all := init + [last];
    assert all[|init|] == last;
    assert forall i :: 0 <= i < |init| ==> all[i] == init[i];
  }

  /** Once no candidate is left, no further filter can bring one back. */
  lemma {:induction false} EmptyStaysEmpty(points: Points, filters: seq<Filter>, i: nat)
    requires i <= |filters| && MatchingIds(points, And(filters[..i])) == {}
    ensures MatchingIds(points, And(filters)) == {}
    decreases |filters| - i
  {
    if i < |filters| {
      MatchingAnd(points, filters, i + 1);
      EmptyStaysEmpty(points, filters, i + 1);
    } else {
      assert filters[..i] == filters;
    }
  }

  method Conjunction(index: Index, ghost points: Points, filters: seq<Filter>) returns (ids: set<Id>)
    requires Indexes(index, points)
    ensures ids == MatchingIds(points, And(filters))
    decreases filters, 0
  {
    if filters == [] {
      return index.allIds;
    }
    ids := Candidates(index, points, filters[0]);
    MatchingAnd(points, filters, 1);
    assert MatchingIds(points, And(filters[..0])) == points.Keys;
    for i := 1 to |filters|
      invariant ids == MatchingIds(points, And(filters[..i]))
    {
      var next := Candidates(index, points, filters[i]);
      ids := set id | id in ids && id in next;
      MatchingAnd(points, filters, i + 1);
      if ids == {} {
        EmptyStaysEmpty(points, filters, i + 1);
        return;
      }
    }
    assert filters[..|filters|] == filters;
  }

  method Disjunction(index: Index, ghost points: Points, filters: seq<Filter>) returns (ids: set<Id>)
    requires Indexes(index, points)
    ensures ids == MatchingIds(points, Or(filters))
    decreases filters, 0
  {
    ids := {};
    for i := 0 to |filters|
      invariant ids == MatchingIds(points, Or(filters[..i]))
    {
      var more := Candidates(index, points, filters[i]);
      ids := ids + more;
      MatchingOr(points, filters, i + 1);
    }
    assert filters[..|filters|] == filters;
  }

  /** `candidates`: the index answers every filter exactly. */
  method Candidates(index: Index, ghost points: Points, f: Filter) returns (ids: set<Id>)
    requires Indexes(index, points)
    ensures ids == MatchingIds(points, f)
    decreases f, 1
  {
    match f
    case MatchAll => ids := index.allIds;
    case Eq(field, value) => ids := Equality(index, points, field, value);
    case Range(field, gte, lt) => ids := InRangeIds(index, points, field, gte, lt);
    case And(filters) => ids := Conjunction(index, points, filters);
    case Or(filters) => ids := Disjunction(index, points, filters);
    case Not(filter) =>
      var excluded := Candidates(index, points, filter);
      ids := index.allIds - excluded;
  }
}
