/**
 * The lesson data model and the small predicates over lessons: the time
 * overlap test, class-group and lesson equality, the lesson identifier,
 * "is this lesson ongoing" and the semester lookup of a module's lessons.
 */
module Lessons {
  import opened Wrappers
  import opened Strings
  import LessonTypes

  /** A lesson as the module catalogue lists it (times are zero-padded `"HHMM"`). */
  datatype RawLesson = RawLesson(
    classNo: string,
    lessonType: string,
    day: string,
    startTime: string,
    endTime: string,
    venue: string,
    weeks: seq<int>)

  /**
   * A lesson on a timetable: the catalogue lesson tagged with its module's
   * code and title; `isActive` / `isAvailable` are the optional marks the
   * active-selection resolver sets (an absent mark is `false`).
   */
  datatype Lesson = Lesson(
    raw: RawLesson,
    moduleCode: string,
    title: string,
    isActive: bool,
    isAvailable: bool)

  datatype SemesterData = SemesterData(semester: int, timetable: seq<RawLesson>)

  datatype Module = Module(title: string, semesterData: seq<SemesterData>)

  /** A module's chosen class group for each lesson type, in insertion order. */
  type ModuleLessonConfig = seq<(string, string)>

  /** A semester timetable: each module's lesson configuration, in insertion order. */
  type SemTimetableConfig = seq<(string, ModuleLessonConfig)>

  /** A semester number is one of the four the catalogue knows. */
  function IsValidSemester(semester: int): (r: bool)
    ensures r <==> semester in {1, 2, 3, 4}
  {
    semester >= 1 && semester <= 4
  }

  // ---------------------------------------------------------------------
  // Overlap
  // ---------------------------------------------------------------------

  /** Same day, and the half-open intervals [start, end) intersect. */
  predicate DoLessonsOverlap(a: RawLesson, b: RawLesson)
  {
    a.day == b.day && StrLt(a.startTime, b.endTime) && StrLt(b.startTime, a.endTime)
  }

  /** A lesson that ends before (or exactly when) another starts does not overlap it, in either order. */
  lemma {:induction false} TouchingLessonsDoNotOverlap(a: RawLesson, b: RawLesson)
    requires StrLe(a.endTime, b.startTime)
    ensures !DoLessonsOverlap(a, b) && !DoLessonsOverlap(b, a)
  {
    StrLtTotal(a.endTime, b.startTime);
    if a.endTime == b.startTime {
      StrLtIrreflexive(b.startTime);
    }
    if StrLt(b.startTime, a.endTime) {
      StrLtAsymmetric(b.startTime, a.endTime);
    }
  }

  /** The overlap test is symmetric and never holds across days. */
  lemma OverlapSymmetric(a: RawLesson, b: RawLesson)
    ensures DoLessonsOverlap(a, b) == DoLessonsOverlap(b, a)
    ensures a.day != b.day ==> !DoLessonsOverlap(a, b)
  {
  }

  /** Two lessons on one day that both contain a time `t` (start <= t < end) overlap. */
  lemma {:induction false} SharedInstantOverlap(a: RawLesson, b: RawLesson, t: string)
    requires a.day == b.day
    requires StrLe(a.startTime, t) && StrLt(t, a.endTime)
    requires StrLe(b.startTime, t) && StrLt(t, b.endTime)
    ensures DoLessonsOverlap(a, b)
  {
    StrLeLtTransitive(a.startTime, t, b.endTime);
    StrLeLtTransitive(b.startTime, t, a.endTime);
  }

  // ---------------------------------------------------------------------
  // Identity of lessons
  // ---------------------------------------------------------------------

  /** `areLessonsSameClass`: same module, same lesson type, same class group. */
  predicate AreLessonsSameClass(a: Lesson, b: Lesson)
  {
    a.moduleCode == b.moduleCode && a.raw.lessonType == b.raw.lessonType && a.raw.classNo == b.raw.classNo
  }

  /** `isSameLesson`: same class group and the same slot (day, times, weeks); venue, title and marks are ignored. */
  predicate IsSameLesson(a: Lesson, b: Lesson)
  {
    && a.raw.lessonType == b.raw.lessonType
    && a.raw.classNo == b.raw.classNo
    && a.moduleCode == b.moduleCode
    && a.raw.startTime == b.raw.startTime
    && a.raw.endTime == b.raw.endTime
    && a.raw.day == b.raw.day
    && a.raw.weeks == b.raw.weeks
  }

  /** Being the same lesson is an equivalence that refines being the same class. */
  lemma SameLessonIsEquivalence(a: Lesson, b: Lesson, c: Lesson)
    ensures IsSameLesson(a, a)
    ensures IsSameLesson(a, b) ==> IsSameLesson(b, a)
    ensures IsSameLesson(a, b) && IsSameLesson(b, c) ==> IsSameLesson(a, c)
    ensures IsSameLesson(a, b) ==> AreLessonsSameClass(a, b)
    ensures IsSameLesson(a, b) ==> (DoLessonsOverlap(a.raw, c.raw) <==> DoLessonsOverlap(b.raw, c.raw))
  {
  }

  /** The abbreviation as a template literal shows it: `undefined` for an unlisted type. */
  function AbbrevText(lessonType: string): string
  {
    match LessonTypes.TypeToAbbrev(lessonType)
    case Some(a) => a
    case None => "undefined"
  }

  /** `getLessonIdentifier`: `"<moduleCode>-<abbreviation>-<classNo>"`. */
  function GetLessonIdentifier(l: Lesson): string
  {
    l.moduleCode + "-" + AbbrevText(l.raw.lessonType) + "-" + l.raw.classNo
  }

  /** Splitting at the first `-`: two prefixes free of `-` followed by `-` must agree. */
  lemma DashSeparated(a: string, x: string, b: string, y: string)
    requires '-' !in a && '-' !in b
    requires a + "-" + x == b + "-" + y
    ensures a == b && x == y
  {
    var s := a + "-" + x;
    FirstDash(a, x);
    FirstDash(b, y);
    assert a == s[..|a|] == b;
    assert x == s[|a| + 1..] == y;
  }

  lemma {:induction false} FirstDash(a: string, x: string)
    requires '-' !in a
    ensures IndexOf(a + "-" + x, '-') == |a|
  {
    if |a| > 0 {
      assert (a + "-" + x)[1..] == a[1..] + "-" + x;
      FirstDash(a[1..], x);
    }
  }

  /**
   * The identifier is unique per class group: with module codes free of `-`
   * and listed lesson types, two lessons have the same identifier exactly
   * when they are the same class.
   */
  lemma {:induction false} IdentifierIdentifiesClass(l1: Lesson, l2: Lesson)
    requires '-' !in l1.moduleCode && '-' !in l2.moduleCode
    requires LessonTypes.IsLessonType(l1.raw.lessonType) && LessonTypes.IsLessonType(l2.raw.lessonType)
    ensures GetLessonIdentifier(l1) == GetLessonIdentifier(l2) <==> AreLessonsSameClass(l1, l2)
  {
    if GetLessonIdentifier(l1) == GetLessonIdentifier(l2) {
      var t1, t2 := l1.raw.lessonType, l2.raw.lessonType;
      var a1, a2 := AbbrevText(t1), AbbrevText(t2);
      ListedAbbrevText(t1);
      ListedAbbrevText(t2);
      Regroup(l1.moduleCode, a1, l1.raw.classNo);
      Regroup(l2.moduleCode, a2, l2.raw.classNo);
      DashSeparated(l1.moduleCode, a1 + "-" + l1.raw.classNo, l2.moduleCode, a2 + "-" + l2.raw.classNo);
      DashSeparated(a1, l1.raw.classNo, a2, l2.raw.classNo);
      LessonTypes.AbbrevInjective(t1, t2);
    }
  }

  lemma Regroup(m: string, a: string, c: string)
    ensures m + "-" + a + "-" + c == m + "-" + (a + "-" + c)
  {
  }

  lemma ListedAbbrevText(t: string)
    requires LessonTypes.IsLessonType(t)
    ensures LessonTypes.TypeToAbbrev(t) == Some(AbbrevText(t))
    ensures '-' !in AbbrevText(t)
  {
    LessonTypes.TypeRoundTrip(t);
    LessonTypes.AbbrevShape(t);
  }

  // ---------------------------------------------------------------------
  // Ongoing lessons
  // ---------------------------------------------------------------------

  /** `isLessonOngoing`: `parseInt(start) <= now < parseInt(end)`; a comparison with `NaN` is false. */
  predicate IsLessonOngoing(l: Lesson, currentTime: int)
  {
    && ParseInt(l.raw.startTime).Some? && ParseInt(l.raw.startTime).value <= currentTime
    && ParseInt(l.raw.endTime).Some? && currentTime < ParseInt(l.raw.endTime).value
  }

  predicate IsHHMM(t: string)
  {
    |t| == 4 && AllDigits(t)
  }

  /**
   * For `"HHMM"` times the numeric test agrees with the string comparisons
   * the overlap test uses: a lesson is ongoing at time `now` exactly when
   * `start <= now < end` as strings.
   */
  lemma {:induction false} OngoingMatchesStringOrder(l: Lesson, now: string)
    requires IsHHMM(l.raw.startTime) && IsHHMM(l.raw.endTime) && IsHHMM(now)
    ensures IsLessonOngoing(l, DigitsValue(now)) <==> StrLe(l.raw.startTime, now) && StrLt(now, l.raw.endTime)
  {
    ParseIntOfDigits(l.raw.startTime);
    ParseIntOfDigits(l.raw.endTime);
    DigitStringOrder(now, l.raw.startTime);
    DigitStringOrder(now, l.raw.endTime);
  }

  // ---------------------------------------------------------------------
  // A module's lessons for a semester
  // ---------------------------------------------------------------------

  /** `semesterData.find(d => d.semester === semester)`. */
  function FindSemester(data: seq<SemesterData>, semester: int): (r: Option<SemesterData>)
    ensures r.None? <==> forall i :: 0 <= i < |data| ==> data[i].semester != semester
    ensures r.Some? ==> exists i :: 0 <= i < |data| && data[i] == r.value && data[i].semester == semester
                                   && forall j :: 0 <= j < i ==> data[j].semester != semester
  {
    if |data| == 0 then None
    else if data[0].semester == semester then Some(data[0])
    else
      var r := FindSemester(data[1..], semester);
      assert r.Some? ==> exists i :: 1 <= i < |data| && data[i] == r.value && data[i].semester == semester
                                    && forall j :: 0 <= j < i ==> data[j].semester != semester by {
        if r.Some? {
          var i :| 0 <= i < |data[1..]| && data[1..][i] == r.value && data[1..][i].semester == semester
                   && forall j :: 0 <= j < i ==> data[1..][j].semester != semester;
          assert forall j :: 0 <= j < i + 1 ==> data[j].semester != semester by {
            forall j | 0 <= j < i + 1 ensures data[j].semester != semester {
              if j > 0 { assert data[j] == data[1..][j - 1]; }
            }
          }
        }
      }
      r
  }

  /** `modSemData?.timetable || []`: the semester's lessons, or none. */
  function SemesterTimetable(m: Module, semester: int): seq<RawLesson>
  {
    match FindSemester(m.semesterData, semester)
    case Some(d) => d.timetable
    case None => []
  }

  /** `getModuleRawLessons`: the chosen semester's lessons of the module, or none when the module or semester is missing. */
  function ModuleRawLessons(modules: map<string, Module>, moduleCode: string, semester: int): seq<RawLesson>
  {
    if moduleCode in modules then SemesterTimetable(modules[moduleCode], semester) else []
  }

  /** Copy a catalogue lesson onto a timetable, tagged with its module (marks absent). */
  function Tag(raw: RawLesson, moduleCode: string, title: string): Lesson
  {
    Lesson(raw, moduleCode, title, false, false)
  }
}
