# Requirement evaluation engine of a degree audit, in Dafny

This project models the evaluation engine of a degree-audit tool. An area of
study (a major, minor or concentration) is a tree of named requirements. Each
requirement carries an expression over course-matching predicates. The engine
walks the tree, evaluates every expression against a student's courses and
attaches to every node the courses it matched and whether it succeeded. It also
applies manual overrides and fulfillments, which are looked up by a path key.

The model follows the Rust code as written, file by file:

- `expression.dfy`: the expression language of `src/expression/*.rs`. Most
  source files get a module of their own: `Counter`, `CourseExpr`,
  `Qualifications`, `Reference`, `Filters` and `Modifiers`. `Expressions` holds
  `src/expression/mod.rs` together with the small types of `boolean.rs`,
  `of.rs`, `occurrence.rs` and `where_expr.rs`. `Basics` holds `Option` and the
  `i32`/`u32` ranges.
- `records.dfy`: the records of `src/evaluate.rs` (`Course`, `Requirement`,
  `RequirementEvaluation`, `AreaOfStudy`, `AreaOfStudyEvaluation`) and the
  `ExpressionResult` that `src/compute.rs` builds.
- `order.dfy`: the ordering Rust derives for `Course`, proved to be a total
  order.
- `sort.dfy`: `Vec::sort` followed by `Vec::dedup`, for any total order.
- `sequtil.dfy`: the iterator `filter` and `take` used by the code.
- `matching.dfy`: `compare_departments` and `compare_courses`.
- `filtering.dfy`: `filter_by_qualification`, `filter_by_where_clause` and
  `apply_filter`.
- `compute.dfy`: `compute_expression` and its helpers. `EvalExpression` is the
  value. The methods follow the source's loops and its dispatch, and each is
  proved to compute that value.
- `evaluate.dfy`: `make_requirement_path`, `apply_fulfillment_to_expression`,
  `compute_requirement`, `compute_progress` and `evaluate_area`.
- `scenarios.dfy`: one small area evaluated end to end.

The source is imperative where it accumulates into a list or a flag in a
`for` loop. Those functions are Dafny methods with loop invariants, each proved
equal to a specification function:

- `FilterByWhereClause`
- `ExprCourse`, `ExprBooleanOr` and `ExprBooleanAnd`

Two more source functions are statement code without a loop, and they are
methods too, proved equal to their specification function:

- `FilterByQualification` reassigns a local list step by step (filter, then
  truncate, then sort and dedup).
- `ComputeExpression` dispatches on the kind of expression.

Everything else builds values and is modelled by functions. That covers
`compute_requirement` and `evaluate_area`, which only map over children and
build new records.

## Where the code differs from its evident intent

The code is modelled as written. Where it does something other than what it
evidently means to do, the lemmas below state what the code actually does:

- **Year and semester test.** `compare_courses` *rejects* a course whose year
  (semester) equals the predicate's year (semester). The optional `year` and
  `semester` fields of `CourseExpression` evidently narrow a match to that year
  or semester, so such a course should be matched
  (`Matching.SameYearOrSemesterRejects`).
- **Course expressions never succeed.** A course expression reports
  `success = false` even when it matches courses (`Compute.ExprCourse`).
- **AND starts from `false`.** The accumulator of `expr_boolean_and` starts at
  `false`, so a conjunction never succeeds (`Compute.AllSucceededFromSpec`,
  `Compute.ExprBooleanAnd`).
- **Lookups use the parent path.** `compute_requirement` looks up overrides and
  fulfillments under the key of the path it was *given*, not that path plus its
  own name. It also hands that same path to its children. So every node of a
  top-level requirement's tree is looked up under the area's key
  `[name, type]` (`Evaluate.OneKeyForTheWholeTree`, `Scenarios.MajorOverrides`).
- **References read the unevaluated children.** A reference is resolved against
  the children as they were passed in, not against the freshly evaluated ones.
  On a fresh input every reference fails. Together with the two points above,
  nothing succeeds without an override (`Evaluate.FreshTreeFails`,
  `Evaluate.FreshAreaFails`, `Scenarios.MajorWithoutOverrides`).
- **A `Where` filter passes `distinct = false`.** It does not pass the filter's
  own `distinct` flag (`Filtering.ApplyFilterWhere`).
- **`BooleanOr` feeds the growing list to each sub-filter.** Each sub-filter
  gets the list as extended so far, not the original one. The list is then
  always sorted and deduplicated, whatever `distinct` says. Sub-filters only
  remove courses, so the result is the sorted, duplicate-free input
  (`Filtering.WhereOrIsSortDedup`).
- **A requirement without a `result`** gets `evaluated = None`, not a failed
  evaluation (`Evaluate.ComputeRequirement`).

## Model

| member | source | states |
|---|---|---|
| Matching.CompareDepartments | src/evaluate.rs:110-116 | true exactly when the two department lists hold the same set of names (order and repetition ignored) |
| Matching.CompareDepartmentsIsEquivalence | src/evaluate.rs:110-116 | department comparison is reflexive, symmetric and transitive |
| Matching.CompareCourses | src/evaluate.rs:118-140 | a match holds exactly when departments are set-equal, numbers are equal, and a given year or semester differs from the course's |
| Matching.CompareCoursesUpToDepartmentSet | src/evaluate.rs:118-121 | reordering or repeating the predicate's departments never changes a match |
| Matching.CompareCoursesIgnoresLevel | src/evaluate.rs:118-140 | the predicate's level never changes a match |
| Matching.SameYearOrSemesterRejects | src/evaluate.rs:127-137 | a predicate naming the course's own year or semester does not match it |
| Matching.MatchesWithoutOptions | src/expression/course.rs:17-42 | a predicate with the course's departments and number and no year or semester matches it |
| Matching.CourseExpressionTests | src/expression/course.rs:17-69 | the two unit tests: CSCI 101 matches the test course, ASIAN 101 does not |
| CourseOrder.CourseLaws | src/evaluate.rs:70-83 | the derived comparison of courses is antisymmetric (flipping the arguments flips the answer), Equal means equality, and Less, Greater and Equal compose transitively |
| CourseOrder.CmpCourse | src/evaluate.rs:70-83 | the derived `Ord` of `Course`: fields compared lexicographically in declaration order, strings and lists of strings lexicographically, `None` below `Some` |
| CourseOrder.CourseLeTotalOrder | src/evaluate.rs:70-83 | the derived `<=` on courses is total, transitive and antisymmetric, as sort and dedup require |
| Sorting.SortSpec | src/evaluate.rs:191 | sorting yields a sorted permutation of the input |
| Sorting.SortedUnique | src/evaluate.rs:191 | two sorted permutations of one list are equal, so the result does not depend on the sorting algorithm |
| Sorting.DedupStrictlySorted | src/evaluate.rs:191-192 | dedup of a sorted list is strictly increasing (no duplicates at all) |
| Sorting.SortDedupSpec | src/evaluate.rs:190-193 | sort then dedup gives a strictly increasing list with exactly the input's elements, never more copies than the input |
| Sorting.SortDedupBySet | src/evaluate.rs:233-234 | sort then dedup depends only on the set of elements of its input |
| SeqUtil.Filter | src/evaluate.rs:177 | the filtered list is no longer than the input and every element satisfies the predicate |
| SeqUtil.FilterCount | src/evaluate.rs:177 | filtering keeps every copy of a satisfying course and no copy of any other |
| SeqUtil.FilterAppend | src/evaluate.rs:242-245 | filtering distributes over concatenation, so kept courses stay in input order |
| SeqUtil.Take | src/evaluate.rs:183 | take(n) is a prefix of the input of length n, or the whole input when it is shorter |
| Filtering.SatisfiesQualification | src/evaluate.rs:98-108 | the equality between a course and a single qualification: false for every course and every qualification |
| Filtering.CountAndDistinctSpec | src/evaluate.rs:179-193 | counting and dedup only remove courses; an `=`/`<=` counter with N bounds the length by N; `>=` or no counter without distinct leaves the list unchanged; distinct leaves it strictly sorted |
| Filtering.QualificationFilter | src/evaluate.rs:154-196 | the value of `filter_by_qualification`: keep the courses equal to the qualification, truncate by an `=`/`<=` counter, sort and dedup when distinct; since no course equals a qualification, the result is always empty |
| Filtering.FilterByQualification | src/evaluate.rs:154-196 | equals the qualification filter; its output is a sub-multiset of its input, bounded by an `=`/`<=` counter, strictly sorted when distinct, and, because no course equals a qualification, always empty |
| Filtering.WhereFilter | src/evaluate.rs:198-238 | the value of `filter_by_where_clause`: a single qualification filters; BooleanAnd feeds each sub-filter the previous output; BooleanOr appends each sub-filter's output on the list so far, then sorts and dedups |
| Filtering.WhereFilterSubMultiset | src/evaluate.rs:198-238 | every where-clause filter returns a sub-multiset of its input |
| Filtering.WhereAndIsLeftFold | src/evaluate.rs:209-221 | BooleanAnd is a left fold of its sub-filters; with none it returns the input unchanged |
| Filtering.WhereOrKeepsElements | src/evaluate.rs:222-232 | the BooleanOr loop's list always holds exactly the input's courses |
| Filtering.WhereOrIsSortDedup | src/evaluate.rs:222-236 | BooleanOr returns the input sorted and duplicate-free (containing every input course), whatever distinct and the counter are |
| Filtering.FilterByWhereClause | src/evaluate.rs:198-238 | the loops compute the where-clause filter; the result is a sub-multiset of the input, and for BooleanOr it is the input sorted and deduplicated |
| Filtering.ApplyFilter | src/evaluate.rs:240-250 | the value of `apply_filter`: an Of filter keeps, in order, the courses some of its predicates match; a Where filter runs the where-clause with distinct false and no counter |
| Filtering.ApplyFilterSubMultiset | src/evaluate.rs:240-250 | a filter never adds a course or a copy of one |
| Filtering.ApplyFilterOf | src/evaluate.rs:242-245 | an Of filter keeps exactly the courses some predicate in it matches, in input order, and ignores distinct |
| Filtering.ApplyFilterWhere | src/evaluate.rs:246-248 | a Where filter runs the where-clause with distinct false and no counter, whatever its own distinct flag |
| Compute.FindChild | src/compute.rs:88 | finds the first child with the name, or reports that none has it |
| Compute.ExprReference | src/compute.rs:84-100 | copies success and matched courses from the first child of that name when it is evaluated; otherwise fails with no courses |
| Compute.EvalExpression | src/compute.rs:102-150 | every result echoes the evaluated expression |
| Compute.AnySucceededSpec | src/compute.rs:49 | the OR flag is set exactly when some sub-result succeeded |
| Compute.AllSucceededFromSpec | src/compute.rs:67-74 | folded from false the AND flag is never set; folded from true it would be set exactly when all sub-results succeed |
| Compute.ConcatMatchedMembership | src/compute.rs:47 | a course is in the concatenated matches exactly when some sub-result matched it |
| Compute.SuccessNeedsSuccessfulChild | src/compute.rs:102-150 | an expression succeeds only if some child's stored evaluation succeeded |
| Compute.MatchedComeFromCoursesOrChildren | src/compute.rs:102-150 | every matched course comes from the course list or from a child's stored evaluation |
| Compute.UnevaluatedChildrenNeverSucceed | src/compute.rs:84-100 | against unevaluated children no expression succeeds |
| Compute.ComputeExpression | src/compute.rs:102-150 | computes the expression's value, echoes the expression, ignores the fulfillment, and yields failure with no courses for Of, Modifier, Occurrence and Where |
| Compute.ExprCourse | src/compute.rs:7-32 | the matches are exactly the input courses the predicate accepts, in input order; the result never succeeds |
| Compute.ExprBooleanOr | src/compute.rs:34-57 | matches are the sub-results' matches concatenated in order; success exactly when some operand succeeds |
| Compute.ExprBooleanAnd | src/compute.rs:59-82 | matches are the sub-results' matches concatenated in order; the result never succeeds |
| Evaluate.SplitJoin | src/evaluate.rs:252-254 | joining separator-free segments can be undone by splitting at the separator |
| Evaluate.ToLowerJoin | src/evaluate.rs:253 | lower-casing the joined path lower-cases each segment |
| Evaluate.RequirementPathKeys | src/evaluate.rs:252-254 | two paths of separator-free segments share a key exactly when they agree segment by segment up to case |
| Evaluate.MakeRequirementPath | src/evaluate.rs:252-254 | the key of a path: its segments joined by the separator character U+001C, lower-cased |
| Evaluate.ApplyFulfillmentToExpression | src/evaluate.rs:256-261 | the expression is returned unchanged |
| Evaluate.ComputeRequirement | src/evaluate.rs:263-351 | copies the five descriptive fields; evaluates each child with the parent's path and unfiltered courses; evaluates exactly when there is a result; records the fulfillment under the path's key; an override there replaces success and sets overridden, leaving matched courses as computed |
| Evaluate.ComputeRequirementShape | src/evaluate.rs:325-350 | evaluation keeps the whole tree's shape and evaluates exactly the nodes with a result, at every depth |
| Evaluate.OneKeyForTheWholeTree | src/evaluate.rs:276-323 | every node of the tree is looked up under the same key, the one of the path given at the top |
| Evaluate.FreshTreeFails | src/evaluate.rs:289-323 | a tree evaluated for the first time fails at every node unless an override applies |
| Evaluate.FulfillmentsOnlyRecorded | src/evaluate.rs:299-314 | two fulfillment maps give trees that differ only in the recorded fulfillment |
| Evaluate.IrrelevantFulfillmentsIgnored | src/evaluate.rs:299-314 | a fulfillment map with nothing under the tree's key gives the same tree as an empty one |
| Evaluate.ComputeProgress | src/evaluate.rs:353-363 | the total is the number of requirements and the count of passes is at most that |
| Evaluate.ComputeProgressSpec | src/evaluate.rs:353-363 | progress is complete exactly when every requirement passed and zero exactly when none did |
| Evaluate.EvaluateArea | src/evaluate.rs:365-417 | keeps the area's fields; evaluates each child under [name, type] with all courses; success is the root expression's against the incoming children; progress counts the evaluated children; no error |
| Evaluate.FreshAreaFails | src/evaluate.rs:365-417 | an area whose requirements are unevaluated fails, and without an override makes no progress |
| Scenarios.MajorKey | src/evaluate.rs:374-376 | the area's key is the lower-cased name and type joined by the separator |
| Scenarios.MajorWithoutOverrides | src/evaluate.rs:365-417 | a matching CSCI 121 course is recorded but R does not succeed, the root reference fails and progress is (0, 1) |
| Scenarios.MajorOverrides | src/evaluate.rs:319-323 | an override under the area's key forces R to succeed; one under R's own full path is not consulted |

## Left out

- src/main.rs, src/parse.rs and src/print.rs are not part of this model. They
  handle command-line parsing, reading JSON and YAML, and printing, which are
  all I/O.
- src/course.rs is not part of this model. It is a catalog record that the
  evaluator never uses.
- src/expressions.rs is not part of this model. It holds an older copy of the
  expression types. Where src/compute.rs reads a child's `detail`, the model
  reads the child's `evaluated`.
- `println!` tracing in `compute_expression` has no effect on results.
- The function-valued (MIN/MAX) qualification branch of
  `filter_by_qualification` computes nothing.
- Filtering.FilterByQualification, Filtering.FilterByWhereClause: these drop the
  `all_courses` parameter, which only that MIN/MAX branch reads.
- Compute.ComputeExpression, Compute.ExprCourse, Compute.ExprBooleanOr,
  Compute.ExprBooleanAnd: these drop the `dirty` and `is_needed` parameters,
  which are only passed along and never read.
- The `matched_courses` and `result` fields on expression and qualification
  structs are never read or written by the engine and are not modelled. JSON
  static values are kept as opaque text. Serde attributes are not modelled.
- Records.Course: `credits` is an `f32` with a total order. An integer stands
  for it, because it only takes part in the derived ordering.
- Evaluate.MakeRequirementPath: lower-cases ASCII letters only, not Unicode's
  full `to_lowercase`.
- Sorting.Sort: the standard library's sort is stated as an insertion sort.
  `SortedUnique` shows that any correct sort gives the same list.
- `children_share_courses` is copied through and never read.
- The `path_to_here` local of `compute_requirement` is built and never used, so
  it is not modelled.
