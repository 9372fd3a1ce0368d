/**
 * Matching a course against a course predicate (src/evaluate.rs:110-152):
 * `compare_departments` and `compare_courses`, which also back the
 * `PartialEq` between `Course` and `CourseExpression`.
 */
module Matching {
  import opened Basics
  import opened Records
  import opened CourseExpr

  /** The two department lists hold the same set of names: their symmetric
      difference is empty. Order and repetition do not matter. */
  function CompareDepartments(lhs: seq<string>, rhs: seq<string>): (r: bool)
    ensures r <==> forall d :: d in lhs <==> d in rhs
  {
    var selfDepts := set d | d in lhs;
    var otherDepts := set d | d in rhs;
    var diff := (selfDepts - otherDepts) + (otherDepts - selfDepts);
    assert |diff| == 0 <==> diff == {};
    assert diff == {} <==> forall d :: d in lhs <==> d in rhs by {
      if diff == {} {
        forall d ensures d in lhs <==> d in rhs {
          assert d !in diff;
        }
      } else {
        var d :| d in diff;
        assert d in lhs <==> d !in rhs;
      }
    }
    |diff| == 0
  }

  /** Whether `rhs` matches the predicate `lhs`. The level is not consulted;
      a year or semester given in the predicate REJECTS a course with that
      same year or semester (the test is inverted in the source). */
  function CompareCourses(lhs: CourseExpression, rhs: Course): (r: bool)
    ensures r <==>
      && (forall d :: d in lhs.department <==> d in rhs.department)
      && lhs.number == rhs.number
      && (lhs.year.Some? ==> lhs.year.value != rhs.year)
      && (lhs.semester.Some? ==> lhs.semester.value != rhs.semester)
  {
    if !CompareDepartments(lhs.department, rhs.department) then false
    else if lhs.number != rhs.number then false
    else if lhs.year.Some? && lhs.year.value == rhs.year then false
    else if lhs.semester.Some? && lhs.semester.value == rhs.semester then false
    else true
  }

  /** Department comparison is an equivalence on department lists. */
  lemma CompareDepartmentsIsEquivalence(a: seq<string>, b: seq<string>, c: seq<string>)
    ensures CompareDepartments(a, a)
    ensures CompareDepartments(a, b) == CompareDepartments(b, a)
    ensures CompareDepartments(a, b) && CompareDepartments(b, c) ==> CompareDepartments(a, c)
  {
  }

  /** Reordering or repeating departments does not change a match. */
  lemma CompareCoursesUpToDepartmentSet(lhs: CourseExpression, depts: seq<string>, rhs: Course)
    requires forall d :: d in depts <==> d in lhs.department
    ensures CompareCourses(lhs.(department := depts), rhs) == CompareCourses(lhs, rhs)
  {
  }

  /** The predicate's level never affects the outcome. */
  lemma CompareCoursesIgnoresLevel(lhs: CourseExpression, level: Option<i32>, rhs: Course)
    ensures CompareCourses(lhs.(level := level), rhs) == CompareCourses(lhs, rhs)
  {
  }

  /** As written, naming the course's own year or semester in the predicate
      makes the course fail to match. */
  lemma SameYearOrSemesterRejects(lhs: CourseExpression, rhs: Course)
    requires lhs.year == Some(rhs.year) || lhs.semester == Some(rhs.semester)
    ensures !CompareCourses(lhs, rhs)
  {
  }

  /** A predicate with the course's departments and number, and no optional
      constraints, matches it. */
  lemma MatchesWithoutOptions(lhs: CourseExpression, rhs: Course)
    requires lhs.department == rhs.department && lhs.number == rhs.number
    requires lhs.year.None? && lhs.semester.None?
    ensures CompareCourses(lhs, rhs)
  {
  }

  /** The two unit tests of src/expression/course.rs, on the same course. */
  lemma CourseExpressionTests()
    ensures CompareCourses(CourseExpression(["CSCI"], 101, None, None, None), TestCourse())
    ensures !CompareCourses(CourseExpression(["ASIAN"], 101, None, None, None), TestCourse())
  {
    assert "CSCI" !in ["ASIAN"];
  }

  function TestCourse(): Course {
    Course("1", 1, "1", ["CSCI"], Some("1"), Some("R"), Some("A"), 100, 101, 1, 2000)
  }
}
