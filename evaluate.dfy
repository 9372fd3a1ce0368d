/**
 * Evaluating a requirement tree and an area of study (src/evaluate.rs:252-417):
 * the lookup key of a path, `compute_requirement`, `compute_progress` and
 * `evaluate_area`. Everything here builds new values; nothing is updated in
 * place.
 */
module Evaluate {
  import opened Basics
  import opened Records
  import opened Expressions
  import opened SeqUtil
  import opened Filtering
  import opened Compute

  /** The separator `make_requirement_path` puts between segments. */
  const Separator: char := '\U{1C}'

  /** `segments.join(sep)`. */
  function Join(segments: seq<string>, sep: char): string {
    if |segments| == 0 then ""
    else if |segments| == 1 then segments[0]
    else segments[0] + [sep] + Join(segments[1..], sep)
  }

  /** The index of the first `c` in `s`. */
  ghost function IndexOf(s: string, c: char): (i: nat)
    requires c in s
    ensures i < |s| && s[i] == c && c !in s[..i]
  {
    if s[0] == c then 0 else 1 + IndexOf(s[1..], c)
  }

  /** A position holding `c` with no `c` before it is the first index of `c`. */
  lemma {:induction false} IndexOfUnique(s: string, c: char, j: nat)
    requires j < |s| && s[j] == c && c !in s[..j]
    ensures IndexOf(s, c) == j
  {
    if j > 0 {
      assert s[0] in s[..j];
      assert s[1..][..j - 1] == s[..j][1..];
      IndexOfUnique(s[1..], c, j - 1);
    }
  }

  /** `s.split(sep)`: the inverse of Join for segments free of `sep`. */
  ghost function Split(s: string, sep: char): (r: seq<string>)
    ensures |r| > 0
    decreases |s|
  {
    if sep !in s then [s]
    else
      var i := IndexOf(s, sep);
      [s[..i]] + Split(s[i + 1..], sep)
  }

  /** Lower-cases the ASCII letters and leaves every other character alone. */
  function LowerChar(c: char): (r: char)
    ensures 'A' <= c <= 'Z' ==> 'a' <= r <= 'z'
    ensures !('A' <= c <= 'Z') ==> r == c
  {
    if 'A' <= c <= 'Z' then (c as int - 'A' as int + 'a' as int) as char else c
  }

  function ToLower(s: string): (r: string)
    ensures |r| == |s|
  {
    seq(|s|, i requires 0 <= i < |s| => LowerChar(s[i]))
  }

  function LowerAll(segments: seq<string>): (r: seq<string>)
    ensures |r| == |segments|
  {
    seq(|segments|, i requires 0 <= i < |segments| => ToLower(segments[i]))
  }

  /** `make_requirement_path`: the lower-cased join of the path's segments. */
  function MakeRequirementPath(path: seq<string>): (r: string) {
    ToLower(Join(path, Separator))
  }

  /** Splitting a join gives back the segments, when none contains the separator. */
  lemma {:induction false} SplitJoin(segments: seq<string>, sep: char)
    requires |segments| > 0
    requires forall i :: 0 <= i < |segments| ==> sep !in segments[i]
    ensures Split(Join(segments, sep), sep) == segments
    decreases |segments|
  {
    if |segments| > 1 {
      var s := Join(segments, sep);
      var first := segments[0];
      assert s == first + [sep] + Join(segments[1..], sep);
      assert s[|first|] == sep && s[..|first|] == first;
      assert sep in s;
      IndexOfUnique(s, sep, |first|);
      assert s[|first| + 1..] == Join(segments[1..], sep);
      SplitJoin(segments[1..], sep);
      assert segments == [segments[0]] + segments[1..];
    }
  }

  /** Lower-casing a join lower-cases each segment, since the separator is
      not a letter. */
  lemma {:induction false} ToLowerJoin(segments: seq<string>)
    ensures ToLower(Join(segments, Separator)) == Join(LowerAll(segments), Separator)
    decreases |segments|
  {
    if |segments| > 1 {
      ToLowerJoin(segments[1..]);
      assert LowerAll(segments)[1..] == LowerAll(segments[1..]);
      var a := segments[0];
      var b := Join(segments[1..], Separator);
      assert ToLower(a + [Separator] + b) == ToLower(a) + [Separator] + ToLower(b);
    }
  }

  /** Two non-empty paths of separator-free segments have the same key exactly
      when they agree segment by segment up to ASCII case. */
  lemma RequirementPathKeys(p: seq<string>, q: seq<string>)
    requires |p| > 0 && |q| > 0
    requires forall i :: 0 <= i < |p| ==> Separator !in p[i]
    requires forall i :: 0 <= i < |q| ==> Separator !in q[i]
    ensures MakeRequirementPath(p) == MakeRequirementPath(q) <==> LowerAll(p) == LowerAll(q)
  {
    ToLowerJoin(p);
    ToLowerJoin(q);
    LowerKeepsSeparatorOut(p);
    LowerKeepsSeparatorOut(q);
    if MakeRequirementPath(p) == MakeRequirementPath(q) {
      SplitJoin(LowerAll(p), Separator);
      SplitJoin(LowerAll(q), Separator);
    }
  }

  lemma LowerKeepsSeparatorOut(p: seq<string>)
    requires forall i :: 0 <= i < |p| ==> Separator !in p[i]
    ensures forall i :: 0 <= i < |p| ==> Separator !in LowerAll(p)[i]
  {
    forall i | 0 <= i < |p| ensures Separator !in LowerAll(p)[i] {
      assert forall k :: 0 <= k < |p[i]| ==> p[i][k] != Separator;
      assert forall k :: 0 <= k < |p[i]| ==> LowerAll(p)[i][k] == LowerChar(p[i][k]);
    }
  }

  /** `apply_fulfillment_to_expression`: the expression is returned as it is. */
  function ApplyFulfillmentToExpression(resultExpr: HansonExpression, fulfillment: Course): (r: HansonExpression)
    ensures r == resultExpr
  {
    resultExpr
  }

  function Lookup<V>(m: map<string, V>, key: string): (r: Option<V>)
    ensures r.Some? <==> key in m
    ensures r.Some? ==> r.value == m[key]
  {
    if key in m then Some(m[key]) else None
  }

  /** `compute_requirement`. Every child is evaluated with the parent's `path`
      and the unfiltered courses. A requirement without a `result` is left
      unevaluated. Otherwise its filter narrows the courses, its expression is
      evaluated against its own (not yet evaluated) children, and the
      fulfillment and override stored under the key of `path` are applied:
      the override replaces the success, the fulfillment is only recorded. */
  function ComputeRequirement(req: Requirement, path: seq<string>, courses: seq<Course>,
                              overrides: OverrideMap, fulfillments: FulfillmentMap): (r: Requirement)
    ensures r.name == req.name && r.result == req.result && r.message == req.message
    ensures r.filter == req.filter && r.childrenShareCourses == req.childrenShareCourses
    ensures |r.children| == |req.children|
    ensures forall i :: 0 <= i < |req.children| ==>
              r.children[i] == ComputeRequirement(req.children[i], path, courses, overrides, fulfillments)
    ensures r.evaluated.Some? <==> req.result.Some?
    ensures r.evaluated.Some? ==>
              var key := MakeRequirementPath(path);
              var filtered := if req.filter.Some? then ApplyFilter(req.filter.value, courses) else courses;
              var computed := EvalExpression(req.result.value, req.children, filtered);
              && r.evaluated.value.appliedFulfillment == Lookup(fulfillments, key)
              && r.evaluated.value.matchedCourses == computed.matchedCourses
              && r.evaluated.value.overridden == (key in overrides)
              && r.evaluated.value.success == (if key in overrides then overrides[key] else computed.success)
    decreases req
  {
    var childrenResults := seq(|req.children|, i requires 0 <= i < |req.children| =>
                             ComputeRequirement(req.children[i], path, courses, overrides, fulfillments));
    match req.result
    case None =>
      Requirement(req.name, req.result, req.message, req.filter, req.childrenShareCourses, childrenResults, None)
    case Some(resultExpr) =>
      var filtered := if req.filter.Some? then ApplyFilter(req.filter.value, courses) else courses;
      var key := MakeRequirementPath(path);
      var appliedFulfillment := Lookup(fulfillments, key);
      var expr := if key in fulfillments then ApplyFulfillmentToExpression(resultExpr, fulfillments[key]) else resultExpr;
      var computed := EvalExpression(expr, req.children, filtered);
      var success := if key in overrides then overrides[key] else computed.success;
      var evaluation := RequirementEvaluation(appliedFulfillment, computed.matchedCourses, success, key in overrides);
      Requirement(req.name, req.result, req.message, req.filter, req.childrenShareCourses, childrenResults, Some(evaluation))
  }

  /** Two trees that differ at most in their `evaluated` fields. */
  predicate SameShape(a: Requirement, b: Requirement)
    decreases a
  {
    && a.name == b.name && a.result == b.result && a.message == b.message
    && a.filter == b.filter && a.childrenShareCourses == b.childrenShareCourses
    && |a.children| == |b.children|
    && forall i :: 0 <= i < |a.children| ==> SameShape(a.children[i], b.children[i])
  }

  /** `p` holds of every evaluation stored anywhere in the tree. */
  predicate AllEvaluations(r: Requirement, p: RequirementEvaluation -> bool)
    decreases r
  {
    && (r.evaluated.Some? ==> p(r.evaluated.value))
    && forall i :: 0 <= i < |r.children| ==> AllEvaluations(r.children[i], p)
  }

  /** Every node of the tree that has a `result` is evaluated, and no other. */
  predicate EvaluatedExactlyWithResult(r: Requirement)
    decreases r
  {
    && (r.evaluated.Some? <==> r.result.Some?)
    && forall i :: 0 <= i < |r.children| ==> EvaluatedExactlyWithResult(r.children[i])
  }

  /** A tree no part of which has been evaluated yet. */
  predicate Unevaluated(r: Requirement)
    decreases r
  {
    && r.evaluated.None?
    && forall i :: 0 <= i < |r.children| ==> Unevaluated(r.children[i])
  }

  /** Evaluation keeps the whole tree's shape and evaluates exactly the nodes
      that have a `result`, at every depth. */
  lemma {:induction false} ComputeRequirementShape(req: Requirement, path: seq<string>, courses: seq<Course>,
                                                   overrides: OverrideMap, fulfillments: FulfillmentMap)
    ensures SameShape(ComputeRequirement(req, path, courses, overrides, fulfillments), req)
    ensures EvaluatedExactlyWithResult(ComputeRequirement(req, path, courses, overrides, fulfillments))
    decreases req
  {
    forall i | 0 <= i < |req.children| {
      ComputeRequirementShape(req.children[i], path, courses, overrides, fulfillments);
    }
  }

  /** The evaluations a lookup under `key` produces: the fulfillment stored
      under it is recorded, and the override stored under it, if any, decides
      the success. */
  function UsesLookup(key: string, overrides: OverrideMap, fulfillments: FulfillmentMap): RequirementEvaluation -> bool {
    (ev: RequirementEvaluation) => && ev.appliedFulfillment == Lookup(fulfillments, key)
          && ev.overridden == (key in overrides)
          && (key in overrides ==> ev.success == overrides[key])
  }

  /** Because every node is looked up under its parent's path, and that path is
      handed down unchanged, every node of the tree is looked up under the same
      key: one override or fulfillment applies to the whole tree. */
  lemma {:induction false} OneKeyForTheWholeTree(req: Requirement, path: seq<string>, courses: seq<Course>,
                                                 overrides: OverrideMap, fulfillments: FulfillmentMap)
    ensures AllEvaluations(ComputeRequirement(req, path, courses, overrides, fulfillments),
                           UsesLookup(MakeRequirementPath(path), overrides, fulfillments))
    decreases req
  {
    forall i | 0 <= i < |req.children| {
      OneKeyForTheWholeTree(req.children[i], path, courses, overrides, fulfillments);
    }
  }

  /** Evaluating a tree that has not been evaluated before fails everywhere
      unless an override says otherwise: references read the unevaluated
      children, and no other expression can succeed. */
  lemma {:induction false} FreshTreeFails(req: Requirement, path: seq<string>, courses: seq<Course>,
                                          overrides: OverrideMap, fulfillments: FulfillmentMap)
    requires Unevaluated(req)
    requires MakeRequirementPath(path) !in overrides
    ensures AllEvaluations(ComputeRequirement(req, path, courses, overrides, fulfillments),
                           (ev: RequirementEvaluation) => !ev.success)
    decreases req
  {
    var r := ComputeRequirement(req, path, courses, overrides, fulfillments);
    if req.result.Some? {
      var filtered := if req.filter.Some? then ApplyFilter(req.filter.value, courses) else courses;
      UnevaluatedChildrenNeverSucceed(req.result.value, req.children, filtered);
    }
    forall i | 0 <= i < |req.children| {
      FreshTreeFails(req.children[i], path, courses, overrides, fulfillments);
    }
  }

  /** Clears the recorded fulfillment throughout a tree. */
  function WithoutFulfillments(r: Requirement): (s: Requirement)
    ensures SameShape(s, r)
    decreases r
  {
    var children := seq(|r.children|, i requires 0 <= i < |r.children| => WithoutFulfillments(r.children[i]));
    var evaluated := if r.evaluated.Some? then Some(r.evaluated.value.(appliedFulfillment := None)) else None;
    r.(children := children, evaluated := evaluated)
  }

  /** A fulfillment is recorded but changes nothing else: two fulfillment maps
      give trees that differ only in `appliedFulfillment`. */
  lemma {:induction false} FulfillmentsOnlyRecorded(req: Requirement, path: seq<string>, courses: seq<Course>,
                                                    overrides: OverrideMap, f1: FulfillmentMap, f2: FulfillmentMap)
    ensures WithoutFulfillments(ComputeRequirement(req, path, courses, overrides, f1))
         == WithoutFulfillments(ComputeRequirement(req, path, courses, overrides, f2))
    decreases req
  {
    var r1 := ComputeRequirement(req, path, courses, overrides, f1);
    var r2 := ComputeRequirement(req, path, courses, overrides, f2);
    forall i | 0 <= i < |req.children|
      ensures WithoutFulfillments(r1.children[i]) == WithoutFulfillments(r2.children[i])
    {
      FulfillmentsOnlyRecorded(req.children[i], path, courses, overrides, f1, f2);
    }
    assert WithoutFulfillments(r1).children == WithoutFulfillments(r2).children;
  }

  /** A fulfillment map with nothing under the tree's key gives the same
      tree as no fulfillments at all. */
  lemma {:induction false} IrrelevantFulfillmentsIgnored(req: Requirement, path: seq<string>, courses: seq<Course>,
                                                         overrides: OverrideMap, fulfillments: FulfillmentMap)
    requires MakeRequirementPath(path) !in fulfillments
    ensures ComputeRequirement(req, path, courses, overrides, fulfillments)
         == ComputeRequirement(req, path, courses, overrides, map[])
    decreases req
  {
    var r1 := ComputeRequirement(req, path, courses, overrides, fulfillments);
    var r2 := ComputeRequirement(req, path, courses, overrides, map[]);
    forall i | 0 <= i < |req.children| ensures r1.children[i] == r2.children[i] {
      IrrelevantFulfillmentsIgnored(req.children[i], path, courses, overrides, fulfillments);
    }
    assert r1.children == r2.children;
  }

  /** Whether a requirement has been evaluated and succeeded. */
  predicate Passed(r: Requirement) {
    r.evaluated.Some? && r.evaluated.value.success
  }

  /** `compute_progress`: (how many requirements passed, how many there are). */
  function ComputeProgress(results: seq<Requirement>): (r: (nat, nat))
    ensures r.1 == |results| && r.0 <= r.1
  {
    (|Filter(results, Passed)|, |results|)
  }

  /** Progress is complete exactly when every requirement passed, and zero
      exactly when none did. */
  lemma ComputeProgressSpec(results: seq<Requirement>)
    ensures ComputeProgress(results).0 == ComputeProgress(results).1 <==>
              forall i :: 0 <= i < |results| ==> Passed(results[i])
    ensures ComputeProgress(results).0 == 0 <==>
              forall i :: 0 <= i < |results| ==> !Passed(results[i])
  {
    FilterKeepsAll(results, Passed);
    FilterKeepsNone(results, Passed);
  }

  /** `evaluate_area`: the children are evaluated under the path
      [name, type] with all the courses; the area succeeds when its own
      expression does, evaluated against the children as they came in; the
      progress counts the evaluated children that passed. */
  function EvaluateArea(courses: seq<Course>, overrides: OverrideMap, fulfillments: FulfillmentMap,
                        area: AreaOfStudy): (r: AreaOfStudy)
    ensures r.areaType == area.areaType && r.areaName == area.areaName
    ensures r.areaRevision == area.areaRevision && r.areaUrl == area.areaUrl && r.result == area.result
    ensures |r.children| == |area.children|
    ensures forall i :: 0 <= i < |area.children| ==>
              r.children[i] == ComputeRequirement(area.children[i], [area.areaName, area.areaType],
                                                  courses, overrides, fulfillments)
    ensures r.evaluated.Some? && r.evaluated.value.error.None?
    ensures r.evaluated.value.success == EvalExpression(area.result, area.children, courses).success
    ensures r.evaluated.value.progress == ComputeProgress(r.children)
    ensures r.evaluated.value.progress.1 == |area.children|
  {
    var path := [area.areaName, area.areaType];
    var results := seq(|area.children|, i requires 0 <= i < |area.children| =>
                     ComputeRequirement(area.children[i], path, courses, overrides, fulfillments));
    var result := EvalExpression(area.result, area.children, courses);
    var progress := ComputeProgress(results);
    area.(children := results, evaluated := Some(AreaOfStudyEvaluation(progress, None, result.success)))
  }

  /** An area none of whose requirements has been evaluated before fails, and,
      without an override under its key, makes no progress. */
  lemma FreshAreaFails(courses: seq<Course>, overrides: OverrideMap, fulfillments: FulfillmentMap, area: AreaOfStudy)
    requires forall i :: 0 <= i < |area.children| ==> Unevaluated(area.children[i])
    ensures !EvaluateArea(courses, overrides, fulfillments, area).evaluated.value.success
    ensures MakeRequirementPath([area.areaName, area.areaType]) !in overrides ==>
              EvaluateArea(courses, overrides, fulfillments, area).evaluated.value.progress.0 == 0
  {
    var r := EvaluateArea(courses, overrides, fulfillments, area);
    UnevaluatedChildrenNeverSucceed(area.result, area.children, courses);
    if MakeRequirementPath([area.areaName, area.areaType]) !in overrides {
      forall i | 0 <= i < |r.children| ensures !Passed(r.children[i]) {
        FreshTreeFails(area.children[i], [area.areaName, area.areaType], courses, overrides, fulfillments);
      }
      ComputeProgressSpec(r.children);
    }
  }
}
