/**
 * Choosing lessons: the lessons of one type, whether a lesson type offers
 * more than one class group, the resolver that shows every alternative of
 * the lesson being dragged, and the expansion of a timetable configuration
 * into the lessons it selects.
 */
module Selection {
  import opened Lessons

  // ---------------------------------------------------------------------
  // Filtering (Array.prototype.filter)
  // ---------------------------------------------------------------------

  /** The elements of `s` satisfying `p`, in their original order. */
  function Filter<T>(s: seq<T>, p: T -> bool): (r: seq<T>)
    ensures |r| <= |s|
    ensures forall k :: 0 <= k < |r| ==> p(r[k])
  {
    if |s| == 0 then [] else Filter(s[..|s| - 1], p) + (if p(s[|s| - 1]) then [s[|s| - 1]] else [])
  }

  /** Filtering distributes over concatenation, so it keeps the relative order of what it keeps. */
  lemma {:induction false} FilterAppend<T>(a: seq<T>, b: seq<T>, p: T -> bool)
    ensures Filter(a + b, p) == Filter(a, p) + Filter(b, p)
  {
    if |b| > 0 {
      assert (a + b)[..|a + b| - 1] == a + b[..|b| - 1];
      FilterAppend(a, b[..|b| - 1], p);
    } else {
      assert a + b == a;
    }
  }

  /** A filter that rejects nothing is the identity; one that keeps nothing is empty. */
  lemma {:induction false} FilterAllOrNothing<T>(s: seq<T>, p: T -> bool)
    ensures (forall k :: 0 <= k < |s| ==> p(s[k])) ==> Filter(s, p) == s
    ensures (forall k :: 0 <= k < |s| ==> !p(s[k])) ==> Filter(s, p) == []
  {
    if |s| > 0 {
      FilterAllOrNothing(s[..|s| - 1], p);
      assert s == s[..|s| - 1] + [s[|s| - 1]];
    }
  }

  /** Every element is kept as often as it occurs when it satisfies the predicate, and never otherwise. */
  lemma {:induction false} FilterCount<T>(s: seq<T>, p: T -> bool, x: T)
    ensures multiset(Filter(s, p))[x] == if p(x) then multiset(s)[x] else 0
  {
    if |s| > 0 {
      FilterCount(s[..|s| - 1], p, x);
      assert s == s[..|s| - 1] + [s[|s| - 1]];
    }
  }

  /** An element is kept exactly when it occurs and satisfies the predicate. */
  lemma FilterMember<T>(s: seq<T>, p: T -> bool, x: T)
    ensures x in Filter(s, p) <==> x in s && p(x)
  {
    FilterCount(s, p, x);
    assert x in Filter(s, p) <==> multiset(Filter(s, p))[x] > 0;
    assert x in s <==> multiset(s)[x] > 0;
  }

  // ---------------------------------------------------------------------
  // lessonsForLessonType, areOtherClassesAvailable
  // ---------------------------------------------------------------------

  /** `lessonsForLessonType`: the lessons of one type, in their original order. */
  function LessonsForLessonType(lessons: seq<RawLesson>, lessonType: string): (r: seq<RawLesson>)
    ensures forall l :: l in r <==> l in lessons && l.lessonType == lessonType
  {
    var r := Filter(lessons, (l: RawLesson) => l.lessonType == lessonType);
    assert forall l :: l in r <==> l in lessons && l.lessonType == lessonType by {
      forall l ensures l in r <==> l in lessons && l.lessonType == lessonType {
        FilterMember(lessons, (l: RawLesson) => l.lessonType == lessonType, l);
      }
    }
    r
  }

  /** Each lesson of the type is kept as often as it occurs; lessons of other types are dropped. */
  lemma LessonsForLessonTypeCount(lessons: seq<RawLesson>, lessonType: string, l: RawLesson)
    ensures multiset(LessonsForLessonType(lessons, lessonType))[l] ==
      if l.lessonType == lessonType then multiset(lessons)[l] else 0
  {
    FilterCount(lessons, (l: RawLesson) => l.lessonType == lessonType, l);
  }

  /** The class groups occurring among some lessons (the keys of `groupBy(·, classNo)`). */
  function ClassNos(lessons: seq<RawLesson>): set<string>
  {
    set l | l in lessons :: l.classNo
  }

  /**
   * `areOtherClassesAvailable`: `false` when no lesson has the type, and
   * otherwise whether that type's lessons fall into more than one class group.
   */
  function AreOtherClassesAvailable(lessons: seq<RawLesson>, lessonType: string): bool
  {
    var group := LessonsForLessonType(lessons, lessonType);
    if |group| == 0 then false else |ClassNos(group)| > 1
  }

  /** A set has more than one element exactly when it holds two different ones. */
  lemma MoreThanOne(s: set<string>)
    ensures |s| > 1 <==> exists a, b :: a in s && b in s && a != b
  {
    if |s| > 1 {
      var a :| a in s;
      assert |s - {a}| == |s| - 1;
      var b :| b in s - {a};
      assert a in s && b in s && a != b;
    }
    if exists a, b :: a in s && b in s && a != b {
      var a, b :| a in s && b in s && a != b;
      assert {a, b} <= s;
      assert |{a, b}| == 2;
      CardinalityOfSubset({a, b}, s);
    }
  }

  lemma {:induction false} CardinalityOfSubset(a: set<string>, b: set<string>)
    requires a <= b
    ensures |a| <= |b|
  {
    if a != {} {
      var x :| x in a;
      CardinalityOfSubset(a - {x}, b - {x});
    }
  }

  /** Other classes are available exactly when two lessons of the type belong to different class groups. */
  lemma OtherClassesAvailableIff(lessons: seq<RawLesson>, lessonType: string)
    ensures AreOtherClassesAvailable(lessons, lessonType) <==>
      exists a, b :: a in lessons && b in lessons
        && a.lessonType == lessonType && b.lessonType == lessonType && a.classNo != b.classNo
  {
    var group := LessonsForLessonType(lessons, lessonType);
    MoreThanOne(ClassNos(group));
    if AreOtherClassesAvailable(lessons, lessonType) {
      var a, b :| a in ClassNos(group) && b in ClassNos(group) && a != b;
      var la :| la in group && la.classNo == a;
      var lb :| lb in group && lb.classNo == b;
      assert la in lessons && lb in lessons && la.lessonType == lessonType && lb.lessonType == lessonType;
    }
    if exists a, b :: a in lessons && b in lessons
        && a.lessonType == lessonType && b.lessonType == lessonType && a.classNo != b.classNo {
      var a, b :| a in lessons && b in lessons
        && a.lessonType == lessonType && b.lessonType == lessonType && a.classNo != b.classNo;
      assert a in group && b in group;
      assert a.classNo in ClassNos(group) && b.classNo in ClassNos(group);
    }
  }

  // ---------------------------------------------------------------------
  // populateActiveLessonClasses
  // ---------------------------------------------------------------------

  /** The title the copies carry: the active module's, or empty when the module is unknown (no copies are made then). */
  function ModuleTitle(modules: map<string, Module>, moduleCode: string): string
  {
    if moduleCode in modules then modules[moduleCode].title else ""
  }

  /** A displayed lesson outside the active lesson's class group. */
  predicate Kept(active: Lesson, l: Lesson)
  {
    !AreLessonsSameClass(l, active)
  }

  /**
   * One copy of a module lesson, tagged with the active module: marked
   * `isActive` when it is in the active class group, otherwise `isAvailable`
   * when it has the active lesson type.
   */
  function MarkCopy(raw: RawLesson, active: Lesson, title: string): Lesson
  {
    var copy := Tag(raw, active.moduleCode, title);
    if AreLessonsSameClass(copy, active) then copy.(isActive := true)
    else if raw.lessonType == active.raw.lessonType then copy.(isAvailable := true)
    else copy
  }

  /** The module lessons of the active lesson's type. */
  function Alternatives(active: Lesson, currentSem: int, modules: map<string, Module>): seq<RawLesson>
  {
    LessonsForLessonType(ModuleRawLessons(modules, active.moduleCode, currentSem), active.raw.lessonType)
  }

  /** The marked copies of all alternatives, in module order. */
  function Copies(active: Lesson, currentSem: int, modules: map<string, Module>): seq<Lesson>
  {
    var same := Alternatives(active, currentSem, modules);
    seq(|same|, k requires 0 <= k < |same| => MarkCopy(same[k], active, ModuleTitle(modules, active.moduleCode)))
  }

  /** What `populateActiveLessonClasses` returns: the kept lessons, then the marked copies. */
  function ActiveLessonClasses(active: Lesson, timetableLessons: seq<Lesson>, currentSem: int,
                               modules: map<string, Module>): seq<Lesson>
  {
    Filter(timetableLessons, (l: Lesson) => Kept(active, l)) + Copies(active, currentSem, modules)
  }

  /** `populateActiveLessonClasses`: filter out the active class group, then push one marked copy per alternative. */
  method PopulateActiveLessonClasses(active: Lesson, timetableLessons: seq<Lesson>, currentSem: int,
                                     modules: map<string, Module>) returns (r: seq<Lesson>)
    ensures r == ActiveLessonClasses(active, timetableLessons, currentSem, modules)
  {
    var title := ModuleTitle(modules, active.moduleCode);
    var moduleLessons := ModuleRawLessons(modules, active.moduleCode, currentSem);
    r := Filter(timetableLessons, (l: Lesson) => Kept(active, l));
    var sameLessonType := LessonsForLessonType(moduleLessons, active.raw.lessonType);
    ghost var kept := r;
    ghost var copies := Copies(active, currentSem, modules);
    assert sameLessonType == Alternatives(active, currentSem, modules);
    assert |copies| == |sameLessonType|;
    var i := 0;
    while i < |sameLessonType|
      invariant 0 <= i <= |sameLessonType|
      invariant r == kept + copies[..i]
    {
      var copy := Tag(sameLessonType[i], active.moduleCode, title);
      if AreLessonsSameClass(copy, active) {
        copy := copy.(isActive := true);
      } else if sameLessonType[i].lessonType == active.raw.lessonType {
        copy := copy.(isAvailable := true);
      }
      assert copy == MarkCopy(sameLessonType[i], active, title) == copies[i];
      assert copies[..i + 1] == copies[..i] + [copy];
      r := r + [copy];
      i := i + 1;
    }
    assert copies[..i] == copies;
  }

  /**
   * The result is the kept lessons in their original order followed by one
   * copy per alternative in module order, each copy carrying the alternative's
   * catalogue data and the active module's code and title.
   */
  lemma ActiveLessonClassesShape(active: Lesson, timetableLessons: seq<Lesson>, currentSem: int,
                                 modules: map<string, Module>)
    ensures var r := ActiveLessonClasses(active, timetableLessons, currentSem, modules);
      var kept := Filter(timetableLessons, (l: Lesson) => Kept(active, l));
      var same := Alternatives(active, currentSem, modules);
      && |r| == |kept| + |same|
      && r[..|kept|] == kept
      && forall k :: 0 <= k < |same| ==>
           && r[|kept| + k].raw == same[k]
           && r[|kept| + k].moduleCode == active.moduleCode
           && r[|kept| + k].title == ModuleTitle(modules, active.moduleCode)
  {
  }

  /** No kept lesson belongs to the active class group, and every displayed lesson outside it is kept. */
  lemma KeptLessonsLeaveActiveGroup(active: Lesson, timetableLessons: seq<Lesson>, l: Lesson)
    ensures var kept := Filter(timetableLessons, (l: Lesson) => Kept(active, l));
      l in kept <==> l in timetableLessons && !AreLessonsSameClass(l, active)
  {
    FilterMember(timetableLessons, (l: Lesson) => Kept(active, l), l);
  }

  /**
   * A copy is active exactly when it has the active class number, is
   * available exactly when it is not active, and is never both.
   */
  lemma CopyMarks(active: Lesson, currentSem: int, modules: map<string, Module>)
    ensures var copies := Copies(active, currentSem, modules);
      forall k :: 0 <= k < |copies| ==>
        && (copies[k].isActive <==> copies[k].raw.classNo == active.raw.classNo)
        && (copies[k].isAvailable <==> !copies[k].isActive)
        && !(copies[k].isActive && copies[k].isAvailable)
        && copies[k].raw.lessonType == active.raw.lessonType
  {
    var same := Alternatives(active, currentSem, modules);
    forall k | 0 <= k < |same|
      ensures same[k].lessonType == active.raw.lessonType
    {
      assert same[k] in same;
    }
  }

  /**
   * When the active lesson's own class group is among the module's lessons,
   * some copy is offered as available exactly when other classes are
   * available for that lesson type.
   */
  lemma AvailableCopiesMatchOtherClasses(active: Lesson, currentSem: int, modules: map<string, Module>)
    requires exists l :: (l in ModuleRawLessons(modules, active.moduleCode, currentSem)
      && l.lessonType == active.raw.lessonType && l.classNo == active.raw.classNo)
    ensures var copies := Copies(active, currentSem, modules);
      (exists k :: 0 <= k < |copies| && copies[k].isAvailable) <==>
      AreOtherClassesAvailable(ModuleRawLessons(modules, active.moduleCode, currentSem), active.raw.lessonType)
  {
    var moduleLessons := ModuleRawLessons(modules, active.moduleCode, currentSem);
    OtherClassesAvailableIff(moduleLessons, active.raw.lessonType);
    var own :| own in moduleLessons && own.lessonType == active.raw.lessonType && own.classNo == active.raw.classNo;
    var copies := Copies(active, currentSem, modules);
    if exists k :: 0 <= k < |copies| && copies[k].isAvailable {
      var k :| 0 <= k < |copies| && copies[k].isAvailable;
      AvailableCopyIsOtherClass(active, currentSem, modules, k);
    }
    if AreOtherClassesAvailable(moduleLessons, active.raw.lessonType) {
      var a, b :| a in moduleLessons && b in moduleLessons && a.lessonType == active.raw.lessonType
                  && b.lessonType == active.raw.lessonType && a.classNo != b.classNo;
      OtherClassIsAvailableCopy(active, currentSem, modules, if a.classNo != active.raw.classNo then a else b);
    }
  }

  lemma AvailableCopyIsOtherClass(active: Lesson, currentSem: int, modules: map<string, Module>, k: nat)
    requires k < |Copies(active, currentSem, modules)| && Copies(active, currentSem, modules)[k].isAvailable
    ensures var l := Alternatives(active, currentSem, modules)[k];
      l in ModuleRawLessons(modules, active.moduleCode, currentSem)
      && l.lessonType == active.raw.lessonType && l.classNo != active.raw.classNo
  {
    var same := Alternatives(active, currentSem, modules);
    assert Copies(active, currentSem, modules)[k] == MarkCopy(same[k], active, ModuleTitle(modules, active.moduleCode));
    assert same[k] in same;
  }

  lemma OtherClassIsAvailableCopy(active: Lesson, currentSem: int, modules: map<string, Module>, c: RawLesson)
    requires c in ModuleRawLessons(modules, active.moduleCode, currentSem)
    requires c.lessonType == active.raw.lessonType && c.classNo != active.raw.classNo
    ensures exists k :: 0 <= k < |Copies(active, currentSem, modules)| && Copies(active, currentSem, modules)[k].isAvailable
  {
    var same := Alternatives(active, currentSem, modules);
    assert c in same;
    var k :| 0 <= k < |same| && same[k] == c;
    assert Copies(active, currentSem, modules)[k] == MarkCopy(c, active, ModuleTitle(modules, active.moduleCode));
  }

  // ---------------------------------------------------------------------
  // populateSemTimetableWithLessons
  // ---------------------------------------------------------------------

  /** The catalogue lessons of one class group, tagged with their module. */
  function ClassLessons(m: Module, moduleCode: string, semester: int, lessonType: string, classNo: string): seq<Lesson>
  {
    var raws := Filter(SemesterTimetable(m, semester),
                       (l: RawLesson) => l.lessonType == lessonType && l.classNo == classNo);
    seq(|raws|, k requires 0 <= k < |raws| => Tag(raws[k], moduleCode, m.title))
  }

  /**
   * `populateSemTimetableWithLessons`: keeps the configuration's keys and
   * their order, maps a module missing from the catalogue to no entries, and
   * replaces every chosen class number by the lessons of that class group.
   */
  function PopulateSemTimetableWithLessons(config: SemTimetableConfig, modules: map<string, Module>, semester: int):
    (r: seq<(string, seq<(string, seq<Lesson>)>)>)
    ensures |r| == |config|
    ensures forall i :: 0 <= i < |r| ==> r[i].0 == config[i].0
    ensures forall i :: 0 <= i < |r| && config[i].0 !in modules ==> r[i].1 == []
    ensures forall i :: 0 <= i < |r| && config[i].0 in modules ==>
      |r[i].1| == |config[i].1| && forall j :: 0 <= j < |r[i].1| ==> r[i].1[j].0 == config[i].1[j].0
  {
    seq(|config|, i requires 0 <= i < |config| =>
      (config[i].0,
       if config[i].0 !in modules then []
       else
         var lessonConfig := config[i].1;
         seq(|lessonConfig|, j requires 0 <= j < |lessonConfig| =>
           (lessonConfig[j].0,
            ClassLessons(modules[config[i].0], config[i].0, semester, lessonConfig[j].0, lessonConfig[j].1)))))
  }

  /**
   * A lesson is listed under a configured module and lesson type exactly
   * when it is a catalogue lesson of that semester with that type and the
   * configured class number, tagged with the module's code and title.
   */
  lemma PopulatedLessonsMatchConfig(config: SemTimetableConfig, modules: map<string, Module>, semester: int,
                                    i: nat, j: nat, l: Lesson)
    requires i < |config| && config[i].0 in modules && j < |config[i].1|
    ensures var r := PopulateSemTimetableWithLessons(config, modules, semester);
      var code, lessonType, classNo := config[i].0, config[i].1[j].0, config[i].1[j].1;
      l in r[i].1[j].1 <==>
        && l.raw in SemesterTimetable(modules[code], semester)
        && l.raw.lessonType == lessonType && l.raw.classNo == classNo
        && l == Tag(l.raw, code, modules[code].title)
  {
    var code, lessonType, classNo := config[i].0, config[i].1[j].0, config[i].1[j].1;
    var p := (l: RawLesson) => l.lessonType == lessonType && l.classNo == classNo;
    var raws := Filter(SemesterTimetable(modules[code], semester), p);
    FilterMember(SemesterTimetable(modules[code], semester), p, l.raw);
    var tagged := ClassLessons(modules[code], code, semester, lessonType, classNo);
    assert PopulateSemTimetableWithLessons(config, modules, semester)[i].1[j].1 == tagged;
    if l in tagged {
      var k :| 0 <= k < |tagged| && tagged[k] == l;
      assert raws[k] in raws;
    }
    if l.raw in raws && l == Tag(l.raw, code, modules[code].title) {
      var k :| 0 <= k < |raws| && raws[k] == l.raw;
      assert tagged[k] == l;
    }
  }
}
