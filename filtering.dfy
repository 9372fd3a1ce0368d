/**
 * Narrowing a course list (src/evaluate.rs:154-250): a single qualification
 * with counter truncation and optional sort+dedup, the boolean closure of
 * qualifications, and the two forms of a requirement's filter.
 */
module Filtering {
  import opened Basics
  import opened Records
  import opened CourseExpr
  import opened Qualifications
  import opened Counter
  import opened Filters
  import opened SeqUtil
  import opened CourseOrder
  import opened Sorting
  import opened Matching

  /** `impl PartialEq<SingleQualification> for Course`: no course is equal to
      any qualification. */
  predicate SatisfiesQualification(c: Course, clause: SingleQualification) {
    false
  }

  function Satisfies(clause: SingleQualification): Course -> bool {
    c => SatisfiesQualification(c, clause)
  }

  /** The tail of `filter_by_qualification`: an `=` or `<=` counter with a
      number keeps that many courses from the front; then, when `distinct`,
      sort and dedup. */
  function CountAndDistinct(kept: seq<Course>, distinct: bool, counter: Option<ExpressionCounter>): seq<Course> {
    var counted := if counter.Some? && Truncates(counter.value) then Take(kept, counter.value.num.value) else kept;
    if distinct then SortDedup(counted, CourseLe) else counted
  }

  /** `filter_by_qualification` as a value. Since no course equals a
      qualification, nothing ever passes it. */
  function QualificationFilter(filtered: seq<Course>, clause: SingleQualification, distinct: bool,
                               counter: Option<ExpressionCounter>): (r: seq<Course>)
    ensures r == []
  {
    FilterKeepsNone(filtered, Satisfies(clause));
    CountAndDistinct(Filter(filtered, Satisfies(clause)), distinct, counter)
  }

  /** What counting and dedup do to a list: they only remove courses; an
      `=`/`<=` counter bounds the length; a `>=` counter or none, without
      `distinct`, leaves the list as it is; `distinct` leaves it strictly sorted. */
  lemma CountAndDistinctSpec(kept: seq<Course>, distinct: bool, counter: Option<ExpressionCounter>)
    ensures multiset(CountAndDistinct(kept, distinct, counter)) <= multiset(kept)
    ensures counter.Some? && Truncates(counter.value) ==>
              |CountAndDistinct(kept, distinct, counter)| <= counter.value.num.value
    ensures !distinct && (counter.None? || !Truncates(counter.value)) ==>
              CountAndDistinct(kept, distinct, counter) == kept
    ensures distinct ==> StrictlySorted(CountAndDistinct(kept, distinct, counter), CourseLe)
  {
    var counted := if counter.Some? && Truncates(counter.value) then Take(kept, counter.value.num.value) else kept;
    TakeSubMultiset(kept, if counter.Some? && counter.value.num.Some? then counter.value.num.value else 0);
    CourseLeTotalOrder();
    SortDedupSpec(counted, CourseLe);
    if distinct && counter.Some? && Truncates(counter.value) {
      assert |SortDedup(counted, CourseLe)| <= |counted| by {
        assert |multiset(SortDedup(counted, CourseLe))| <= |multiset(counted)| by {
          MultisetCardinality(multiset(SortDedup(counted, CourseLe)), multiset(counted));
        }
      }
    }
  }

  lemma MultisetCardinality(a: multiset<Course>, b: multiset<Course>)
    requires a <= b
    ensures |a| <= |b|
  {
    assert b == a + (b - a);
  }

  /** `filter_by_qualification` (the function-valued MIN/MAX branch computes
      nothing and is not modelled). */
  method FilterByQualification(filtered: seq<Course>, clause: SingleQualification, distinct: bool,
                               counter: Option<ExpressionCounter>) returns (r: seq<Course>)
    ensures r == QualificationFilter(filtered, clause, distinct, counter)
    ensures multiset(r) <= multiset(filtered)
    ensures counter.Some? && Truncates(counter.value) ==> |r| <= counter.value.num.value
    ensures distinct ==> StrictlySorted(r, CourseLe)
    ensures r == []
  {
    r := Filter(filtered, Satisfies(clause));
    FilterSubMultiset(filtered, Satisfies(clause));
    CountAndDistinctSpec(r, distinct, counter);
    FilterKeepsNone(filtered, Satisfies(clause));
    if counter.Some? && counter.value.num.Some? {
      match counter.value.operator
      case Lte =>
        r := Take(r, counter.value.num.value);
      case Eq =>
        r := Take(r, counter.value.num.value);
      case Gte =>
    }
    if distinct {
      r := Sort(r, CourseLe);
      r := Dedup(r);
    }
  }

  /** `filter_by_where_clause` as a value: a single qualification filters;
      `BooleanAnd` feeds each sub-filter the previous one's output; `BooleanOr`
      appends each sub-filter's output (computed from the list so far) to the
      list and finally sorts and dedups it. */
  function WhereFilter(filtered: seq<Course>, clause: Qualification, distinct: bool,
                       counter: Option<ExpressionCounter>): seq<Course>
    decreases clause, 1
  {
    match clause
    case Single(q) => QualificationFilter(filtered, q, distinct, counter)
    case BooleanAnd(values) => AndFold(filtered, values, distinct, counter)
    case BooleanOr(values) => SortDedup(OrFold(filtered, values, distinct, counter), CourseLe)
  }

  /** The `BooleanAnd` loop after the sub-filters `values`. */
  function AndFold(filtered: seq<Course>, values: seq<Qualification>, distinct: bool,
                   counter: Option<ExpressionCounter>): seq<Course>
    decreases values, 0
  {
    if values == [] then filtered
    else WhereFilter(AndFold(filtered, values[..|values| - 1], distinct, counter),
                     values[|values| - 1], distinct, counter)
  }

  /** The `BooleanOr` loop after the sub-filters `values`, before sort and dedup. */
  function OrFold(filtered: seq<Course>, values: seq<Qualification>, distinct: bool,
                  counter: Option<ExpressionCounter>): seq<Course>
    decreases values, 0
  {
    if values == [] then filtered
    else
      var acc := OrFold(filtered, values[..|values| - 1], distinct, counter);
      acc + WhereFilter(acc, values[|values| - 1], distinct, counter)
  }

  /** Every where-filter only removes courses from its input. */
  lemma {:induction false} WhereFilterSubMultiset(filtered: seq<Course>, clause: Qualification, distinct: bool,
                                                  counter: Option<ExpressionCounter>)
    ensures multiset(WhereFilter(filtered, clause, distinct, counter)) <= multiset(filtered)
    decreases clause, 1
  {
    match clause
    case Single(q) =>
      FilterSubMultiset(filtered, Satisfies(q));
      CountAndDistinctSpec(Filter(filtered, Satisfies(q)), distinct, counter);
    case BooleanAnd(values) =>
      AndFoldSubMultiset(filtered, values, distinct, counter);
    case BooleanOr(values) =>
      WhereOrKeepsElements(filtered, values, distinct, counter);
      CourseLeTotalOrder();
      SortDedupSpec(OrFold(filtered, values, distinct, counter), CourseLe);
      SortDedupSpec(filtered, CourseLe);
      SortDedupBySet(OrFold(filtered, values, distinct, counter), filtered, CourseLe);
  }

  lemma {:induction false} AndFoldSubMultiset(filtered: seq<Course>, values: seq<Qualification>, distinct: bool,
                                              counter: Option<ExpressionCounter>)
    ensures multiset(AndFold(filtered, values, distinct, counter)) <= multiset(filtered)
    decreases values, 0
  {
    if values != [] {
      var init := values[..|values| - 1];
      AndFoldSubMultiset(filtered, init, distinct, counter);
      WhereFilterSubMultiset(AndFold(filtered, init, distinct, counter), values[|values| - 1], distinct, counter);
    }
  }

  /** The `BooleanOr` loop only appends courses already in the input, so its
      list always holds exactly the input's courses. */
  lemma {:induction false} WhereOrKeepsElements(filtered: seq<Course>, values: seq<Qualification>, distinct: bool,
                                                counter: Option<ExpressionCounter>)
    ensures forall x :: x in OrFold(filtered, values, distinct, counter) <==> x in filtered
    decreases values, 0
  {
    if values != [] {
      var init := values[..|values| - 1];
      var acc := OrFold(filtered, init, distinct, counter);
      WhereOrKeepsElements(filtered, init, distinct, counter);
      var sub := WhereFilter(acc, values[|values| - 1], distinct, counter);
      WhereFilterSubMultiset(acc, values[|values| - 1], distinct, counter);
      forall x | x in sub ensures x in acc {
        assert x in multiset(sub);
      }
    }
  }

  /** `BooleanOr` returns the input's courses sorted and without duplicates,
      whatever its sub-filters, `distinct` and counter are. */
  lemma WhereOrIsSortDedup(filtered: seq<Course>, values: seq<Qualification>, distinct: bool,
                           counter: Option<ExpressionCounter>)
    ensures WhereFilter(filtered, BooleanOr(values), distinct, counter) == SortDedup(filtered, CourseLe)
    ensures StrictlySorted(WhereFilter(filtered, BooleanOr(values), distinct, counter), CourseLe)
    ensures forall x :: x in WhereFilter(filtered, BooleanOr(values), distinct, counter) <==> x in filtered
  {
    WhereOrKeepsElements(filtered, values, distinct, counter);
    CourseLeTotalOrder();
    SortDedupBySet(OrFold(filtered, values, distinct, counter), filtered, CourseLe);
    SortDedupSpec(filtered, CourseLe);
  }

  /** A `BooleanAnd` applies its sub-filters left to right: the filter of
      `values + [q]` is `q` applied to the filter of `values`, and with no
      sub-filters the input comes back unchanged. */
  lemma WhereAndIsLeftFold(filtered: seq<Course>, values: seq<Qualification>, q: Qualification, distinct: bool,
                           counter: Option<ExpressionCounter>)
    ensures WhereFilter(filtered, BooleanAnd([]), distinct, counter) == filtered
    ensures WhereFilter(filtered, BooleanAnd(values + [q]), distinct, counter)
         == WhereFilter(WhereFilter(filtered, BooleanAnd(values), distinct, counter), q, distinct, counter)
  {
    assert (values + [q])[..|values + [q]| - 1] == values;
  }

  /** `filter_by_where_clause`, with its two loops. */
  method FilterByWhereClause(filtered: seq<Course>, clause: Qualification, distinct: bool,
                             counter: Option<ExpressionCounter>) returns (r: seq<Course>)
    ensures r == WhereFilter(filtered, clause, distinct, counter)
    ensures multiset(r) <= multiset(filtered)
    ensures clause.BooleanOr? ==> r == SortDedup(filtered, CourseLe) && StrictlySorted(r, CourseLe)
    decreases clause
  {
    match clause
    case Single(q) =>
      r := FilterByQualification(filtered, q, distinct, counter);
    case BooleanAnd(values) =>
      r := filtered;
      for i := 0 to |values|
        invariant r == AndFold(filtered, values[..i], distinct, counter)
      {
        assert values[..i + 1][..i] == values[..i];
        r := FilterByWhereClause(r, values[i], distinct, counter);
      }
      assert values[..|values|] == values;
      AndFoldSubMultiset(filtered, values, distinct, counter);
    case BooleanOr(values) =>
      r := filtered;
      for i := 0 to |values|
        invariant r == OrFold(filtered, values[..i], distinct, counter)
      {
        assert values[..i + 1][..i] == values[..i];
        var sub := FilterByWhereClause(r, values[i], distinct, counter);
        r := r + sub;
      }
      assert values[..|values|] == values;
      r := Sort(r, CourseLe);
      r := Dedup(r);
      WhereOrIsSortDedup(filtered, values, distinct, counter);
      CourseLeTotalOrder();
      SortDedupSpec(filtered, CourseLe);
  }

  /** A course matches an `Of` filter when some course predicate of it matches. */
  function MatchesAny(of: seq<CourseExpression>): Course -> bool {
    c => exists e :: e in of && CompareCourses(e, c)
  }

  /** `apply_filter`: an `Of` filter keeps the matching courses in order; a
      `Where` filter runs the where-clause with no dedup and no counter. */
  function ApplyFilter(filter: FilterExpression, courses: seq<Course>): seq<Course> {
    match filter
    case Of(_, of) => Filter(courses, MatchesAny(of))
    case Where(_, q) => WhereFilter(courses, q, false, Option.None)
  }

  /** A filter never adds a course, nor a second copy of one. */
  lemma ApplyFilterSubMultiset(filter: FilterExpression, courses: seq<Course>)
    ensures multiset(ApplyFilter(filter, courses)) <= multiset(courses)
  {
    match filter
    case Of(_, of) => FilterSubMultiset(courses, MatchesAny(of));
    case Where(_, q) => WhereFilterSubMultiset(courses, q, false, Option.None);
  }

  /** An `Of` filter keeps exactly the courses some predicate of it matches,
      in input order (it distributes over concatenation), and its `distinct`
      flag changes nothing. */
  lemma ApplyFilterOf(distinct: bool, of: seq<CourseExpression>, courses: seq<Course>, more: seq<Course>)
    ensures forall c :: c in ApplyFilter(Of(distinct, of), courses) <==>
                        c in courses && exists e :: e in of && CompareCourses(e, c)
    ensures ApplyFilter(Of(distinct, of), courses + more)
         == ApplyFilter(Of(distinct, of), courses) + ApplyFilter(Of(distinct, of), more)
    ensures ApplyFilter(Of(distinct, of), courses) == ApplyFilter(Of(!distinct, of), courses)
  {
    forall c ensures c in Filter(courses, MatchesAny(of)) <==> c in courses && MatchesAny(of)(c) {
      FilterMembership(courses, MatchesAny(of), c);
    }
    FilterAppend(courses, more, MatchesAny(of));
  }

  /** A `Where` filter is the where-clause without dedup or counter, whatever
      the filter's own `distinct` flag says. */
  lemma ApplyFilterWhere(distinct: bool, q: Qualification, courses: seq<Course>)
    ensures ApplyFilter(Where(distinct, q), courses) == WhereFilter(courses, q, false, Option.None)
    ensures ApplyFilter(Where(distinct, q), courses) == ApplyFilter(Where(!distinct, q), courses)
  {
  }
}
