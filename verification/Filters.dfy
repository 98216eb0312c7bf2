/** Metadata values and the direct filter evaluator. */
module Filters {
  import opened Base

  /**
   IEEE doubles as far as comparison sees them: NaN, the infinities, the two
   zeros and the other finite values. `Finite(0.0)` is the positive zero.
   */
  datatype F64 = NaN | NegInf | PosInf | NegZero | Finite(r: real)

  datatype Value =
    | Keyword(text: string)
    | Integer(number: int)
    | Float(float: F64)
    | Boolean(flag: bool)

  type Metadata = map<string, Value>

  datatype Filter =
    | MatchAll
    | Eq(field: string, value: Value)
    | Range(field: string, gte: Option<F64>, lt: Option<F64>)
    | And(filters: seq<Filter>)
    | Or(filters: seq<Filter>)
    | Not(filter: Filter)

  function Real(a: F64): real {
    if a.Finite? then a.r else 0.0
  }

  /** The operator `<` on doubles. */
  predicate Lt(a: F64, b: F64) {
    && !a.NaN? && !b.NaN? && a != b
    && (a.NegInf? || b.PosInf? || (!a.PosInf? && !b.NegInf? && Real(a) < Real(b)))
  }

  /** The operator `>=`: false as soon as a NaN is involved. */
  predicate Ge(a: F64, b: F64) {
    !a.NaN? && !b.NaN? && !Lt(a, b)
  }

  /** The operator `==`: a NaN equals nothing and the zeros equal each other. */
  predicate SameFloat(a: F64, b: F64) {
    Ge(a, b) && Ge(b, a)
  }

  predicate SameValue(a: Value, b: Value) {
    if a.Float? && b.Float? then SameFloat(a.float, b.float) else a == b
  }

  function NumericValue(v: Value): Option<F64> {
    match v
    case Integer(n) => Some(Finite(n as real))
    case Float(x) => if x.Finite? || x.NegZero? then Some(x) else None
    case _ => None
  }

  predicate InRange(x: F64, gte: Option<F64>, lt: Option<F64>) {
    (gte.Some? ==> Ge(x, gte.value)) && (lt.Some? ==> Lt(x, lt.value))
  }

  /** `Filter::matches`. */
  predicate Matches(f: Filter, metadata: Metadata) {
    match f
    case MatchAll => true
    case Eq(field, value) => field in metadata && SameValue(metadata[field], value)
    case Range(field, gte, lt) =>
      && field in metadata && NumericValue(metadata[field]).Some?
      && InRange(NumericValue(metadata[field]).value, gte, lt)
    case And(filters) => forall i :: 0 <= i < |filters| ==> Matches(filters[i], metadata)
    case Or(filters) => exists i :: 0 <= i < |filters| && Matches(filters[i], metadata)
    case Not(filter) => !Matches(filter, metadata)
  }

  // ----- what a filter means ---------------------------------------------

  /** The number `x` is stored: an integer or a finite float, but no text, truth value, infinity or NaN. */
  ghost predicate HoldsNumber(v: Value, x: real) {
    match v
    case Integer(n) => x == n as real
    case Float(Finite(r)) => x == r
    case Float(NegZero) => x == 0.0
    case _ => false
  }

  /** `x` reaches the bound `b`; nothing reaches a NaN or positive infinity. */
  ghost predicate NotBelow(x: real, b: F64) {
    match b
    case NaN => false
    case NegInf => true
    case PosInf => false
    case NegZero => x >= 0.0
    case Finite(r) => x >= r
  }

  /** `x` stays below the bound `b`; nothing stays below a NaN or negative infinity. */
  ghost predicate Under(x: real, b: F64) {
    match b
    case NaN => false
    case NegInf => false
    case PosInf => true
    case NegZero => x < 0.0
    case Finite(r) => x < r
  }

  /** A range accepts exactly the stored numbers between its bounds, the lower one included. */
  lemma RangeMeans(field: string, gte: Option<F64>, lt: Option<F64>, metadata: Metadata)
    ensures Matches(Range(field, gte, lt), metadata) <==>
      field in metadata && exists x: real ::
        HoldsNumber(metadata[field], x) && (gte.Some? ==> NotBelow(x, gte.value)) && (lt.Some? ==> Under(x, lt.value))
  {
    if field in metadata && NumericValue(metadata[field]).Some? {
      var x := Real(NumericValue(metadata[field]).value);
      assert HoldsNumber(metadata[field], x);
    }
  }

  /** Equal as a filter sees it: the same kind and content; the zeros are equal and a NaN equals nothing. */
  ghost predicate Alike(a: Value, b: Value) {
    match (a, b)
    case (Keyword(s), Keyword(t)) => s == t
    case (Integer(m), Integer(n)) => m == n
    case (Boolean(p), Boolean(q)) => p == q
    case (Float(x), Float(y)) =>
      || (x == y && !x.NaN?)
      || (x == NegZero && y == Finite(0.0)) || (x == Finite(0.0) && y == NegZero)
    case _ => false
  }

  /** Every form of a filter but the range. */
  lemma FilterMeans(field: string, value: Value, f: Filter, filters: seq<Filter>, metadata: Metadata)
    ensures Matches(MatchAll, metadata)
    ensures Matches(Eq(field, value), metadata) <==> field in metadata && Alike(metadata[field], value)
    ensures Matches(Not(f), metadata) <==> !Matches(f, metadata)
    ensures Matches(And(filters), metadata) <==> forall g :: g in filters ==> Matches(g, metadata)
    ensures Matches(Or(filters), metadata) <==> exists g :: g in filters && Matches(g, metadata)
  {
    AndMeans(filters, metadata);
    OrMeans(filters, metadata);
  }

  lemma AndMeans(filters: seq<Filter>, metadata: Metadata)
    ensures Matches(And(filters), metadata) <==> forall g :: g in filters ==> Matches(g, metadata)
  {
    if Matches(And(filters), metadata) {
      forall g | g in filters ensures Matches(g, metadata) {
        var i :| 0 <= i < |filters| && filters[i] == g;
      }
    } else {
      var i :| 0 <= i < |filters| && !Matches(filters[i], metadata);
      assert filters[i] in filters;
    }
  }

  lemma OrMeans(filters: seq<Filter>, metadata: Metadata)
    ensures Matches(Or(filters), metadata) <==> exists g :: g in filters && Matches(g, metadata)
  {
    if Matches(Or(filters), metadata) {
      var i :| 0 <= i < |filters| && Matches(filters[i], metadata);
      assert filters[i] in filters;
    }
    if g :| g in filters && Matches(g, metadata) {
      var i :| 0 <= i < |filters| && filters[i] == g;
    }
  }
}
