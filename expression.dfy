// Data model of the requirement language: the types of src/expression/*.rs.
// One module per Rust source file, so that variant names that repeat across
// files (Eq, BooleanOr, Where, ...) stay qualified by their file.

/** Small shared types: Rust's Option and its fixed-width integers. */
module Basics {
  datatype Option<+T> = None | Some(value: T)

  /** Rust `i32`. */
  type i32 = x: int | -0x8000_0000 <= x < 0x8000_0000

  /** Rust `u32`. */
  type u32 = x: int | 0 <= x < 0x1_0000_0000
}

/** src/expression/counter.rs: how many matches an expression asks for. */
module Counter {
  import Basics

  datatype Operator = Eq | Gte | Lte

  /** The shorthand (`all`, `any`, `none`) the counter was written with. */
  datatype Shorthand = All | Any | None

  datatype ExpressionCounter = ExpressionCounter(
    operator: Operator,
    was: Basics.Option<Shorthand>,
    num: Basics.Option<Basics.u32>)

  /** The counters that truncate a filtered list: `=` or `<=` with a number. */
  predicate Truncates(counter: ExpressionCounter) {
    counter.num.Some? && (counter.operator == Eq || counter.operator == Lte)
  }
}

/** src/expression/course.rs: a course-matching predicate. */
module CourseExpr {
  import opened Basics

  datatype CourseExpression = CourseExpression(
    department: seq<string>,
    number: i32,
    level: Option<i32>,
    semester: Option<i32>,
    year: Option<i32>)
}

/** src/expression/qualification.rs: field predicates and their boolean closure. */
module Qualifications {
  import opened Basics

  /** A JSON constant, kept as its text: the evaluator never inspects it. */
  type StaticValue = string

  datatype FunctionNameEnum = Max | Min

  datatype FieldNameEnum = GeReq | Year | Department | Level

  datatype QualificationValue =
    | NumericValue(number: i32)
    | StringValue(text: string)
    | BooleanOrValue(values: seq<StaticValue>)
    | BooleanAndValue(values: seq<StaticValue>)
    | FunctionValue(name: FunctionNameEnum, prop: FieldNameEnum,
                    qualifier: Qualification, computedValue: Option<StaticValue>)

  datatype QualificationOperator = Lte | Lt | Eq | Gte | Gt | Neq

  datatype SingleQualification = SingleQualification(
    key: FieldNameEnum,
    value: QualificationValue,
    operator: QualificationOperator)

  datatype Qualification =
    | Single(single: SingleQualification)
    | BooleanOr(values: seq<Qualification>)
    | BooleanAnd(values: seq<Qualification>)
}

/** src/expression/reference.rs: a reference to a requirement by name. */
module Reference {
  datatype ReferenceExpression = ReferenceExpression(requirement: string)
}

/** src/expression/filter.rs: the filter a requirement applies to its courses. */
module Filters {
  import opened CourseExpr
  import opened Qualifications

  datatype FilterExpression =
    | Of(distinct: bool, of: seq<CourseExpression>)
    | Where(distinct: bool, qualification: Qualification)
}

/** src/expression/modifier.rs: the (unevaluated) modifier expressions. */
module Modifiers {
  import opened Basics
  import opened Counter
  import opened CourseExpr
  import opened Qualifications
  import opened Reference

  datatype WhatEnum = Course | Credit | Department

  datatype ModifierExpression =
    | Where(count: ExpressionCounter, what: WhatEnum, besides: Option<CourseExpression>,
            qualification: Qualification)
    | Filter(count: ExpressionCounter, what: WhatEnum, besides: Option<CourseExpression>)
    | FilterWhere(count: ExpressionCounter, what: WhatEnum, besides: Option<CourseExpression>,
                  qualification: Qualification)
    | Children(count: ExpressionCounter, what: WhatEnum, besides: Option<CourseExpression>,
               children: seq<ReferenceExpression>)
    | ChildrenWhere(count: ExpressionCounter, what: WhatEnum, besides: Option<CourseExpression>,
                    children: seq<ReferenceExpression>, qualification: Qualification)
}

/** src/expression/mod.rs: the body of a requirement or an area. */
module Expressions {
  import opened Counter
  import opened CourseExpr
  import opened Qualifications
  import opened Reference
  import opened Modifiers

  datatype HansonExpression =
    | BooleanAnd(values: seq<HansonExpression>)
    | BooleanOr(values: seq<HansonExpression>)
    | Course(course: CourseExpression)
    | Modifier(modifier: ModifierExpression)
    | Occurrence(course: CourseExpression, count: ExpressionCounter)
    | Of(count: ExpressionCounter, of: seq<HansonExpression>)
    | Reference(reference: ReferenceExpression)
    | Where(qualification: Qualification, count: ExpressionCounter, distinct: bool)
}
