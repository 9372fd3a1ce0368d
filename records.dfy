/**
 * The records of src/evaluate.rs: a student's course, a requirement node with
 * the evaluation attached to it, the area of study, and the result of
 * evaluating one expression (src/compute.rs builds these).
 */
module Records {
  import opened Basics
  import opened Expressions
  import opened Filters

  /** A course the student has taken. `credits` is a float in the source; it
      only takes part in the derived ordering, so an int stands for it. */
  datatype Course = Course(
    clbid: string,
    credits: int,
    crsid: string,
    department: seq<string>,
    groupid: Option<string>,
    grouptype: Option<string>,
    section: Option<string>,
    level: i32,
    number: i32,
    semester: i32,
    year: i32)

  type Fulfillment = Course

  /** Path string to manually forced success. */
  type OverrideMap = map<string, bool>

  /** Path string to the course that manually fulfils a requirement. */
  type FulfillmentMap = map<string, Fulfillment>

  datatype RequirementEvaluation = RequirementEvaluation(
    appliedFulfillment: Option<Fulfillment>,
    matchedCourses: seq<Course>,
    success: bool,
    overridden: bool)

  datatype Requirement = Requirement(
    name: string,
    result: Option<HansonExpression>,
    message: Option<string>,
    filter: Option<FilterExpression>,
    childrenShareCourses: Option<bool>,
    children: seq<Requirement>,
    evaluated: Option<RequirementEvaluation>)

  datatype AreaOfStudyEvaluation = AreaOfStudyEvaluation(
    progress: (nat, nat),
    error: Option<string>,
    success: bool)

  datatype AreaOfStudy = AreaOfStudy(
    areaType: string,
    areaName: string,
    areaRevision: string,
    areaUrl: Option<string>,
    result: HansonExpression,
    children: seq<Requirement>,
    evaluated: Option<AreaOfStudyEvaluation>)

  /** What evaluating one expression yields: the expression itself, the
      courses it matched and whether it succeeded. */
  datatype ExpressionResult = ExpressionResult(
    expression: HansonExpression,
    matchedCourses: seq<Course>,
    success: bool)
}
