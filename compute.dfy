/**
 * Evaluating one expression against a course list and the requirement's
 * children (src/compute.rs). EvalExpression is the value every evaluation
 * yields; the methods are the source's loops, proved to compute it.
 */
module Compute {
  import opened Basics
  import opened Records
  import opened CourseExpr
  import opened Reference
  import opened Expressions
  import opened SeqUtil
  import opened Matching

  function MatchesExpression(expression: CourseExpression): Course -> bool {
    c => CompareCourses(expression, c)
  }

  /** The index of the first child with the given name (`children.iter().find`). */
  function FindChild(children: seq<Requirement>, name: string): (r: Option<nat>)
    ensures r.Some? ==> r.value < |children| && children[r.value].name == name
                        && forall j :: 0 <= j < r.value ==> children[j].name != name
    ensures r.None? ==> forall j :: 0 <= j < |children| ==> children[j].name != name
  {
    if children == [] then None
    else if children[0].name == name then Some(0)
    else
      match FindChild(children[1..], name)
      case None => None
      case Some(i) => Some(i + 1)
  }

  /** `expr_reference`: the stored evaluation of the first child with the
      referenced name; failure with no courses when there is no such child
      or it has not been evaluated. */
  function ExprReference(reference: ReferenceExpression, children: seq<Requirement>): (r: ExpressionResult)
    ensures r.expression == HansonExpression.Reference(reference)
    ensures forall i :: 0 <= i < |children| && children[i].name == reference.requirement
                        && (forall j :: 0 <= j < i ==> children[j].name != reference.requirement) ==>
              if children[i].evaluated.Some?
              then r.success == children[i].evaluated.value.success
                   && r.matchedCourses == children[i].evaluated.value.matchedCourses
              else !r.success && r.matchedCourses == []
    ensures (forall i :: 0 <= i < |children| ==> children[i].name != reference.requirement) ==>
              !r.success && r.matchedCourses == []
  {
    var found := FindChild(children, reference.requirement);
    if found.Some? && children[found.value].evaluated.Some? then
      var detail := children[found.value].evaluated.value;
      ExpressionResult(HansonExpression.Reference(reference), detail.matchedCourses, detail.success)
    else
      ExpressionResult(HansonExpression.Reference(reference), [], false)
  }

  /** The result of `compute_expression`. Course matches keep the matching
      courses and never succeed; OR and AND concatenate their operands'
      matches, OR succeeding when one operand does and AND folding from
      `false`; references read a child; every other form yields nothing. */
  function EvalExpression(e: HansonExpression, children: seq<Requirement>, courses: seq<Course>): (r: ExpressionResult)
    ensures r.expression == e
    decreases e, 1
  {
    match e
    case Course(expression) =>
      ExpressionResult(e, Filter(courses, MatchesExpression(expression)), false)
    case BooleanOr(values) =>
      var rs := EvalAll(values, children, courses);
      ExpressionResult(e, ConcatMatched(rs), AnySucceeded(rs))
    case BooleanAnd(values) =>
      var rs := EvalAll(values, children, courses);
      ExpressionResult(e, ConcatMatched(rs), AllSucceededFrom(false, rs))
    case Reference(reference) => ExprReference(reference, children)
    case Of(_, _) => ExpressionResult(e, [], false)
    case Modifier(_) => ExpressionResult(e, [], false)
    case Occurrence(_, _) => ExpressionResult(e, [], false)
    case Where(_, _, _) => ExpressionResult(e, [], false)
  }

  /** The results of the operands of an OR or AND, in order. */
  function EvalAll(values: seq<HansonExpression>, children: seq<Requirement>, courses: seq<Course>): (rs: seq<ExpressionResult>)
    ensures |rs| == |values|
    decreases values, 0
  {
    seq(|values|, i requires 0 <= i < |values| => EvalExpression(values[i], children, courses))
  }

  /** `matched_courses.extend_from_slice` over the results, in order. */
  function ConcatMatched(rs: seq<ExpressionResult>): seq<Course> {
    if rs == [] then [] else ConcatMatched(rs[..|rs| - 1]) + rs[|rs| - 1].matchedCourses
  }

  /** `have_any_been_true = have_any_been_true || result.success`, from `false`. */
  function AnySucceeded(rs: seq<ExpressionResult>): bool {
    if rs == [] then false else AnySucceeded(rs[..|rs| - 1]) || rs[|rs| - 1].success
  }

  /** `have_all_been_true = have_all_been_true && result.success`, from `start`. */
  function AllSucceededFrom(start: bool, rs: seq<ExpressionResult>): bool {
    if rs == [] then start else AllSucceededFrom(start, rs[..|rs| - 1]) && rs[|rs| - 1].success
  }

  /** The OR flag is set exactly when some result succeeded. */
  lemma {:induction false} AnySucceededSpec(rs: seq<ExpressionResult>)
    ensures AnySucceeded(rs) <==> exists i :: 0 <= i < |rs| && rs[i].success
  {
    if rs != [] {
      var init := rs[..|rs| - 1];
      AnySucceededSpec(init);
      if AnySucceeded(init) {
        var i :| 0 <= i < |init| && init[i].success;
        assert rs[i].success;
      }
      if exists i :: 0 <= i < |rs| && rs[i].success {
        var i :| 0 <= i < |rs| && rs[i].success;
        if i < |init| {
          assert init[i].success;
        }
      }
    }
  }

  /** Folding AND from `false` can never succeed; from `true` it succeeds
      exactly when every result did. */
  lemma {:induction false} AllSucceededFromSpec(rs: seq<ExpressionResult>)
    ensures !AllSucceededFrom(false, rs)
    ensures AllSucceededFrom(true, rs) <==> forall i :: 0 <= i < |rs| ==> rs[i].success
  {
    if rs != [] {
      var init := rs[..|rs| - 1];
      AllSucceededFromSpec(init);
      assert forall i :: 0 <= i < |init| ==> init[i] == rs[i];
    }
  }

  /** A course is in the concatenation exactly when some result matched it. */
  lemma {:induction false} ConcatMatchedMembership(rs: seq<ExpressionResult>, c: Course)
    ensures c in ConcatMatched(rs) <==> exists i :: 0 <= i < |rs| && c in rs[i].matchedCourses
  {
    if rs != [] {
      var init := rs[..|rs| - 1];
      ConcatMatchedMembership(init, c);
      if c in ConcatMatched(init) {
        var i :| 0 <= i < |init| && c in init[i].matchedCourses;
        assert rs[i] == init[i];
      }
      if exists i :: 0 <= i < |rs| && c in rs[i].matchedCourses {
        var i :| 0 <= i < |rs| && c in rs[i].matchedCourses;
        if i < |init| {
          assert rs[i] == init[i];
        }
      }
    }
  }

  /** Only a reference can succeed: a successful evaluation rests on some
      child whose stored evaluation succeeded. */
  lemma {:induction false} SuccessNeedsSuccessfulChild(e: HansonExpression, children: seq<Requirement>, courses: seq<Course>)
    requires EvalExpression(e, children, courses).success
    ensures exists k :: 0 <= k < |children| && children[k].evaluated.Some? && children[k].evaluated.value.success
    decreases e
  {
    match e
    case BooleanOr(values) =>
      var rs := EvalAll(values, children, courses);
      AnySucceededSpec(rs);
      var i :| 0 <= i < |rs| && rs[i].success;
      SuccessNeedsSuccessfulChild(values[i], children, courses);
    case BooleanAnd(values) =>
      AllSucceededFromSpec(EvalAll(values, children, courses));
    case Reference(reference) =>
      var i := FindChild(children, reference.requirement);
    case Course(_) =>
    case Of(_, _) =>
    case Modifier(_) =>
    case Occurrence(_, _) =>
    case Where(_, _, _) =>
  }

  /** Matched courses come from the course list, except under a reference,
      where they come from the referenced child's stored evaluation. */
  lemma {:induction false} MatchedComeFromCoursesOrChildren(e: HansonExpression, children: seq<Requirement>,
                                                            courses: seq<Course>, c: Course)
    requires c in EvalExpression(e, children, courses).matchedCourses
    ensures || c in courses
            || exists k :: 0 <= k < |children| && children[k].evaluated.Some?
                           && c in children[k].evaluated.value.matchedCourses
    decreases e
  {
    match e
    case Course(expression) =>
      FilterMembership(courses, MatchesExpression(expression), c);
    case BooleanOr(values) =>
      var rs := EvalAll(values, children, courses);
      ConcatMatchedMembership(rs, c);
      var i :| 0 <= i < |rs| && c in rs[i].matchedCourses;
      MatchedComeFromCoursesOrChildren(values[i], children, courses, c);
    case BooleanAnd(values) =>
      var rs := EvalAll(values, children, courses);
      ConcatMatchedMembership(rs, c);
      var i :| 0 <= i < |rs| && c in rs[i].matchedCourses;
      MatchedComeFromCoursesOrChildren(values[i], children, courses, c);
    case Reference(reference) =>
      var i := FindChild(children, reference.requirement);
    case Of(_, _) =>
    case Modifier(_) =>
    case Occurrence(_, _) =>
    case Where(_, _, _) =>
  }

  /** With no child evaluated successfully, as when the children have not been
      evaluated at all, no expression succeeds. */
  lemma UnevaluatedChildrenNeverSucceed(e: HansonExpression, children: seq<Requirement>, courses: seq<Course>)
    requires forall k :: 0 <= k < |children| ==> children[k].evaluated.None?
    ensures !EvalExpression(e, children, courses).success
  {
    if EvalExpression(e, children, courses).success {
      SuccessNeedsSuccessfulChild(e, children, courses);
    }
  }

  /** `compute_expression`: dispatch on the form of the expression. The
      fulfillment argument is not consulted. */
  method ComputeExpression(e: HansonExpression, children: seq<Requirement>, courses: seq<Course>,
                           fulfillment: Option<Course>) returns (r: ExpressionResult)
    ensures r == EvalExpression(e, children, courses)
    ensures r.expression == e
    ensures e.Of? || e.Modifier? || e.Occurrence? || e.Where? ==> !r.success && r.matchedCourses == []
    decreases e, 1
  {
    match e
    case Course(expression) =>
      r := ExprCourse(expression, courses);
    case Of(_, _) =>
      r := ExpressionResult(e, [], false);
    case Reference(reference) =>
      r := ExprReference(reference, children);
    case BooleanOr(values) =>
      r := ExprBooleanOr(values, children, courses);
    case BooleanAnd(values) =>
      r := ExprBooleanAnd(values, children, courses);
    case Modifier(_) =>
      r := ExpressionResult(e, [], false);
    case Occurrence(_, _) =>
      r := ExpressionResult(e, [], false);
    case Where(_, _, _) =>
      r := ExpressionResult(e, [], false);
  }

  /** `expr_course`: the courses the predicate matches, in input order; the
      result never succeeds. */
  method ExprCourse(expression: CourseExpression, courses: seq<Course>) returns (r: ExpressionResult)
    ensures r.expression == HansonExpression.Course(expression)
    ensures r.matchedCourses == Filter(courses, MatchesExpression(expression))
    ensures forall c :: c in r.matchedCourses <==> c in courses && CompareCourses(expression, c)
    ensures multiset(r.matchedCourses) <= multiset(courses)
    ensures !r.success
  {
    var success := false;
    var matchedCourses := [];
    for i := 0 to |courses|
      invariant matchedCourses == Filter(courses[..i], MatchesExpression(expression))
    {
      assert courses[..i + 1][..i] == courses[..i];
      if CompareCourses(expression, courses[i]) {
        matchedCourses := matchedCourses + [courses[i]];
      }
    }
    assert courses[..|courses|] == courses;
    forall c ensures c in matchedCourses <==> c in courses && CompareCourses(expression, c) {
      FilterMembership(courses, MatchesExpression(expression), c);
    }
    FilterSubMultiset(courses, MatchesExpression(expression));
    r := ExpressionResult(HansonExpression.Course(expression), matchedCourses, success);
  }

  /** `expr_boolean_or`: the operands' matches concatenated in operand order;
      success when some operand succeeded. */
  method ExprBooleanOr(values: seq<HansonExpression>, children: seq<Requirement>, courses: seq<Course>)
    returns (r: ExpressionResult)
    ensures r == EvalExpression(HansonExpression.BooleanOr(values), children, courses)
    ensures r.matchedCourses == ConcatMatched(EvalAll(values, children, courses))
    ensures r.success <==> exists i :: 0 <= i < |values| && EvalExpression(values[i], children, courses).success
    decreases values, 0
  {
    ghost var rs := EvalAll(values, children, courses);
    var matchedCourses := [];
    var haveAnyBeenTrue := false;
    for i := 0 to |values|
      invariant matchedCourses == ConcatMatched(rs[..i])
      invariant haveAnyBeenTrue == AnySucceeded(rs[..i])
    {
      assert rs[..i + 1][..i] == rs[..i];
      var result := ComputeExpression(values[i], children, courses, None);
      matchedCourses := matchedCourses + result.matchedCourses;
      haveAnyBeenTrue := haveAnyBeenTrue || result.success;
    }
    assert rs[..|values|] == rs;
    AnySucceededSpec(rs);
    assert forall i :: 0 <= i < |values| ==> rs[i] == EvalExpression(values[i], children, courses);
    r := ExpressionResult(HansonExpression.BooleanOr(values), matchedCourses, haveAnyBeenTrue);
  }

  /** `expr_boolean_and`: the operands' matches concatenated in operand order;
      the flag starts `false` and is only ever and-ed, so it never succeeds. */
  method ExprBooleanAnd(values: seq<HansonExpression>, children: seq<Requirement>, courses: seq<Course>)
    returns (r: ExpressionResult)
    ensures r == EvalExpression(HansonExpression.BooleanAnd(values), children, courses)
    ensures r.matchedCourses == ConcatMatched(EvalAll(values, children, courses))
    ensures !r.success
    decreases values, 0
  {
    ghost var rs := EvalAll(values, children, courses);
    var matchedCourses := [];
    var haveAllBeenTrue := false;
    for i := 0 to |values|
      invariant matchedCourses == ConcatMatched(rs[..i])
      invariant haveAllBeenTrue == AllSucceededFrom(false, rs[..i])
    {
      assert rs[..i + 1][..i] == rs[..i];
      var result := ComputeExpression(values[i], children, courses, None);
      matchedCourses := matchedCourses + result.matchedCourses;
      haveAllBeenTrue := haveAllBeenTrue && result.success;
    }
    assert rs[..|values|] == rs;
    AllSucceededFromSpec(rs);
    r := ExpressionResult(HansonExpression.BooleanAnd(values), matchedCourses, haveAllBeenTrue);
  }
}
