/**
 * The total order Rust derives for `Course` (src/evaluate.rs:70): fields
 * compared lexicographically in declaration order, strings and vectors
 * lexicographically by element, `None` before `Some`. The proofs establish
 * that it is a total order, which `sort` and `dedup` rely on.
 */
module CourseOrder {
  import opened Basics
  import opened Records
  import Sorting

  datatype Ordering = Less | Equal | Greater

  function Flip(o: Ordering): Ordering {
    match o
    case Less => Greater
    case Equal => Equal
    case Greater => Less
  }

  /** Lexicographic combination: the first comparison decides unless it is Equal. */
  function Then(first: Ordering, rest: Ordering): Ordering {
    if first == Equal then rest else first
  }

  /** `ab`, `bc` and `ac` compare three values a, b, c the way a total order
      would: equal values are interchangeable, and Less (Greater) is transitive. */
  predicate Consistent(ab: Ordering, bc: Ordering, ac: Ordering) {
    && (ab == Equal ==> ac == bc)
    && (bc == Equal ==> ac == ab)
    && (ab == Less && bc == Less ==> ac == Less)
    && (ab == Greater && bc == Greater ==> ac == Greater)
  }

  lemma ThenConsistent(p: Ordering, q: Ordering, r: Ordering, p': Ordering, q': Ordering, r': Ordering)
    requires Consistent(p, q, r) && Consistent(p', q', r')
    ensures Consistent(Then(p, p'), Then(q, q'), Then(r, r'))
  {
  }

  function CmpInt(a: int, b: int): Ordering {
    if a < b then Less else if a == b then Equal else Greater
  }

  function CmpChar(a: char, b: char): Ordering {
    if a < b then Less else if a == b then Equal else Greater
  }

  /** Lexicographic order on sequences; a proper prefix comes first. */
  function CmpSeq<T>(a: seq<T>, b: seq<T>, cmp: (T, T) -> Ordering): Ordering {
    if |a| == 0 && |b| == 0 then Equal
    else if |a| == 0 then Less
    else if |b| == 0 then Greater
    else Then(cmp(a[0], b[0]), CmpSeq(a[1..], b[1..], cmp))
  }

  /** `None` comes before every `Some`. */
  function CmpOption<T>(a: Option<T>, b: Option<T>, cmp: (T, T) -> Ordering): Ordering {
    match (a, b)
    case (None, None) => Equal
    case (None, Some(_)) => Less
    case (Some(_), None) => Greater
    case (Some(x), Some(y)) => cmp(x, y)
  }

  /** Strings compare by code point, which is byte order for UTF-8. */
  function CmpStr(a: string, b: string): Ordering {
    CmpSeq(a, b, CmpChar)
  }

  /** The derived `Ord` of `Course`. */
  function CmpCourse(a: Course, b: Course): Ordering {
    Then(CmpStr(a.clbid, b.clbid),
    Then(CmpInt(a.credits, b.credits),
    Then(CmpStr(a.crsid, b.crsid),
    Then(CmpSeq(a.department, b.department, CmpStr),
         CmpMiddle(a, b)))))
  }

  /** The comparison from `groupid` on. */
  function CmpMiddle(a: Course, b: Course): Ordering {
    Then(CmpOption(a.groupid, b.groupid, CmpStr),
    Then(CmpOption(a.grouptype, b.grouptype, CmpStr),
    Then(CmpOption(a.section, b.section, CmpStr),
         CmpTail(a, b))))
  }

  /** The comparison of the last four fields: level, number, semester, year. */
  function CmpTail(a: Course, b: Course): Ordering {
    Then(CmpInt(a.level, b.level),
    Then(CmpInt(a.number, b.number),
    Then(CmpInt(a.semester, b.semester),
         CmpInt(a.year, b.year))))
  }

  /** `a <= b` in the derived order. */
  predicate CourseLe(a: Course, b: Course) {
    CmpCourse(a, b) != Greater
  }

  /** The three laws of a total order whose Equal is equality, for the
      comparisons among three values a, b, c. */
  predicate OrderLaws(ab: Ordering, ba: Ordering, bc: Ordering, ac: Ordering, abEqual: bool) {
    && (ab == Equal <==> abEqual)
    && ba == Flip(ab)
    && Consistent(ab, bc, ac)
  }

  lemma {:induction false} StrLaws(a: string, b: string, c: string)
    ensures OrderLaws(CmpStr(a, b), CmpStr(b, a), CmpStr(b, c), CmpStr(a, c), a == b)
  {
    if |a| > 0 && |b| > 0 {
      var c' := if |c| > 0 then c[1..] else a[1..];
      StrLaws(a[1..], b[1..], c');
      if |c| > 0 {
        ThenConsistent(CmpChar(a[0], b[0]), CmpChar(b[0], c[0]), CmpChar(a[0], c[0]),
                       CmpStr(a[1..], b[1..]), CmpStr(b[1..], c[1..]), CmpStr(a[1..], c[1..]));
      }
      if CmpStr(a, b) == Equal {
        assert a == [a[0]] + a[1..] && b == [b[0]] + b[1..];
      }
    }
  }

  lemma {:induction false} DepartmentsLaws(a: seq<string>, b: seq<string>, c: seq<string>)
    ensures OrderLaws(CmpSeq(a, b, CmpStr), CmpSeq(b, a, CmpStr), CmpSeq(b, c, CmpStr),
                      CmpSeq(a, c, CmpStr), a == b)
  {
    if |a| > 0 && |b| > 0 {
      var c' := if |c| > 0 then c[1..] else a[1..];
      var c0 := if |c| > 0 then c[0] else a[0];
      DepartmentsLaws(a[1..], b[1..], c');
      StrLaws(a[0], b[0], c0);
      if |c| > 0 {
        ThenConsistent(CmpStr(a[0], b[0]), CmpStr(b[0], c[0]), CmpStr(a[0], c[0]),
                       CmpSeq(a[1..], b[1..], CmpStr), CmpSeq(b[1..], c[1..], CmpStr),
                       CmpSeq(a[1..], c[1..], CmpStr));
      }
      if CmpSeq(a, b, CmpStr) == Equal {
        assert a == [a[0]] + a[1..] && b == [b[0]] + b[1..];
      }
    }
  }

  lemma OptionStrLaws(a: Option<string>, b: Option<string>, c: Option<string>)
    ensures OrderLaws(CmpOption(a, b, CmpStr), CmpOption(b, a, CmpStr), CmpOption(b, c, CmpStr),
                      CmpOption(a, c, CmpStr), a == b)
  {
    if a.Some? && b.Some? {
      StrLaws(a.value, b.value, if c.Some? then c.value else a.value);
    }
  }

  /** The derived order on courses is a total order whose Equal is equality. */
  lemma CourseLaws(a: Course, b: Course, c: Course)
    ensures OrderLaws(CmpCourse(a, b), CmpCourse(b, a), CmpCourse(b, c), CmpCourse(a, c), a == b)
  {
    CourseEqual(a, b);
    CourseFlip(a, b);
    CourseConsistent(a, b, c);
  }

  lemma CourseEqual(a: Course, b: Course)
    ensures CmpCourse(a, b) == Equal <==> a == b
  {
    StrLaws(a.clbid, b.clbid, a.clbid);
    StrLaws(a.crsid, b.crsid, a.crsid);
    DepartmentsLaws(a.department, b.department, a.department);
    OptionStrLaws(a.groupid, b.groupid, a.groupid);
    OptionStrLaws(a.grouptype, b.grouptype, a.grouptype);
    OptionStrLaws(a.section, b.section, a.section);
  }

  lemma CourseFlip(a: Course, b: Course)
    ensures CmpCourse(b, a) == Flip(CmpCourse(a, b))
  {
    StrLaws(a.clbid, b.clbid, a.clbid);
    StrLaws(a.crsid, b.crsid, a.crsid);
    DepartmentsLaws(a.department, b.department, a.department);
    OptionStrLaws(a.groupid, b.groupid, a.groupid);
    OptionStrLaws(a.grouptype, b.grouptype, a.grouptype);
    OptionStrLaws(a.section, b.section, a.section);
  }

  lemma CourseConsistent(a: Course, b: Course, c: Course)
    ensures Consistent(CmpCourse(a, b), CmpCourse(b, c), CmpCourse(a, c))
  {
    StrLaws(a.clbid, b.clbid, c.clbid);
    StrLaws(a.crsid, b.crsid, c.crsid);
    DepartmentsLaws(a.department, b.department, c.department);
    MiddleConsistent(a, b, c);
    var t1, t2, t3 := CmpMiddle(a, b), CmpMiddle(b, c), CmpMiddle(a, c);
    var s1, s2, s3 := CmpSeq(a.department, b.department, CmpStr), CmpSeq(b.department, c.department, CmpStr), CmpSeq(a.department, c.department, CmpStr);
    ThenConsistent(s1, s2, s3, t1, t2, t3);
    t1, t2, t3 := Then(s1, t1), Then(s2, t2), Then(s3, t3);
    s1, s2, s3 := CmpStr(a.crsid, b.crsid), CmpStr(b.crsid, c.crsid), CmpStr(a.crsid, c.crsid);
    ThenConsistent(s1, s2, s3, t1, t2, t3);
    t1, t2, t3 := Then(s1, t1), Then(s2, t2), Then(s3, t3);
    s1, s2, s3 := CmpInt(a.credits, b.credits), CmpInt(b.credits, c.credits), CmpInt(a.credits, c.credits);
    ThenConsistent(s1, s2, s3, t1, t2, t3);
    t1, t2, t3 := Then(s1, t1), Then(s2, t2), Then(s3, t3);
    s1, s2, s3 := CmpStr(a.clbid, b.clbid), CmpStr(b.clbid, c.clbid), CmpStr(a.clbid, c.clbid);
    ThenConsistent(s1, s2, s3, t1, t2, t3);
  }

  /** The group and section fields and the integer tail. */
  lemma MiddleConsistent(a: Course, b: Course, c: Course)
    ensures Consistent(CmpMiddle(a, b), CmpMiddle(b, c), CmpMiddle(a, c))
  {
    OptionStrLaws(a.groupid, b.groupid, c.groupid);
    OptionStrLaws(a.grouptype, b.grouptype, c.grouptype);
    OptionStrLaws(a.section, b.section, c.section);
    TailConsistent(a, b, c);
    var t1, t2, t3 := CmpTail(a, b), CmpTail(b, c), CmpTail(a, c);
    var s1, s2, s3 := CmpOption(a.section, b.section, CmpStr), CmpOption(b.section, c.section, CmpStr), CmpOption(a.section, c.section, CmpStr);
    ThenConsistent(s1, s2, s3, t1, t2, t3);
    t1, t2, t3 := Then(s1, t1), Then(s2, t2), Then(s3, t3);
    s1, s2, s3 := CmpOption(a.grouptype, b.grouptype, CmpStr), CmpOption(b.grouptype, c.grouptype, CmpStr), CmpOption(a.grouptype, c.grouptype, CmpStr);
    ThenConsistent(s1, s2, s3, t1, t2, t3);
    t1, t2, t3 := Then(s1, t1), Then(s2, t2), Then(s3, t3);
    s1, s2, s3 := CmpOption(a.groupid, b.groupid, CmpStr), CmpOption(b.groupid, c.groupid, CmpStr), CmpOption(a.groupid, c.groupid, CmpStr);
    ThenConsistent(s1, s2, s3, t1, t2, t3);
  }

  /** The four integer fields that close the comparison. */
  lemma TailConsistent(a: Course, b: Course, c: Course)
    ensures Consistent(CmpTail(a, b), CmpTail(b, c), CmpTail(a, c))
  {
    var t1, t2, t3 := CmpInt(a.year, b.year), CmpInt(b.year, c.year), CmpInt(a.year, c.year);
    var s1, s2, s3 := CmpInt(a.semester, b.semester), CmpInt(b.semester, c.semester), CmpInt(a.semester, c.semester);
    ThenConsistent(s1, s2, s3, t1, t2, t3);
    t1, t2, t3 := Then(s1, t1), Then(s2, t2), Then(s3, t3);
    s1, s2, s3 := CmpInt(a.number, b.number), CmpInt(b.number, c.number), CmpInt(a.number, c.number);
    ThenConsistent(s1, s2, s3, t1, t2, t3);
    t1, t2, t3 := Then(s1, t1), Then(s2, t2), Then(s3, t3);
    s1, s2, s3 := CmpInt(a.level, b.level), CmpInt(b.level, c.level), CmpInt(a.level, c.level);
    ThenConsistent(s1, s2, s3, t1, t2, t3);
  }

  /** The derived order on courses is a total order, as `sort` and `dedup`
      require. */
  lemma CourseLeTotalOrder()
    ensures Sorting.TotalOrder(CourseLe)
  {
    forall a, b ensures CourseLe(a, b) || CourseLe(b, a) {
      CourseFlip(a, b);
    }
    forall a, b, c | CourseLe(a, b) && CourseLe(b, c) ensures CourseLe(a, c) {
      CourseConsistent(a, b, c);
    }
    forall a, b | CourseLe(a, b) && CourseLe(b, a) ensures a == b {
      CourseFlip(a, b);
      CourseEqual(a, b);
    }
  }
}
