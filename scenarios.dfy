/**
 * One small area evaluated end to end: a major whose only requirement "R"
 * asks for CSCI 121 and whose root expression refers to "R", for a student
 * who took CSCI 121.
 */
module Scenarios {
  import opened Basics
  import opened Records
  import opened CourseExpr
  import opened Reference
  import opened Expressions
  import opened Evaluate

  function Csci121(): Course {
    Records.Course("0001", 1, "0001", ["CSCI"], None, None, None, 100, 121, 1, 2020)
  }

  function RequirementR(): Requirement {
    Requirement("R", Some(HansonExpression.Course(CourseExpression(["CSCI"], 121, None, None, None))),
                None, None, None, [], None)
  }

  function Major(): AreaOfStudy {
    AreaOfStudy("major", "AreaName", "2018-19", None,
                HansonExpression.Reference(ReferenceExpression("R")), [RequirementR()], None)
  }

  /** The key every requirement of the area is looked up under. */
  lemma MajorKey()
    ensures MakeRequirementPath(["AreaName", "major"]) == "areaname" + [Separator] + "major"
  {
    assert Join(["AreaName", "major"], Separator) == "AreaName" + [Separator] + "major";
  }

  /** Without overrides: R matches the course but does not succeed (a course
      expression never does), the root reference reads R as it was before
      evaluation and fails, and the progress is (0, 1). */
  lemma MajorWithoutOverrides()
    ensures var r := EvaluateArea([Csci121()], map[], map[], Major());
            && r.children[0].evaluated == Some(RequirementEvaluation(None, [Csci121()], false, false))
            && r.evaluated == Some(AreaOfStudyEvaluation((0, 1), None, false))
  {
    var r := EvaluateArea([Csci121()], map[], map[], Major());
    assert r.children[0].evaluated.value.matchedCourses == [Csci121()];
  }

  /** An override stored under the key of the area's own path reaches R, whose
      parent path it is; one stored under R's full path does not. */
  lemma MajorOverrides()
    ensures var r := EvaluateArea([Csci121()], map["areaname" + [Separator] + "major" := true], map[], Major());
            && r.children[0].evaluated.value.success && r.children[0].evaluated.value.overridden
            && r.evaluated.value.progress == (1, 1)
    ensures var r := EvaluateArea([Csci121()], map["areaname" + [Separator] + "major" + [Separator] + "r" := true],
                                  map[], Major());
            && !r.children[0].evaluated.value.success && !r.children[0].evaluated.value.overridden
  {
    MajorKey();
  }
}
