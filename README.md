# Timetable utilities, modelled and proved in Dafny

This project models the timetable-utility library of an NUS timetable planner
(`src/utils/timetableUtils.ts`). It covers four things:

- **Lessons**: the overlap test and the packing of a day's lessons into
  clash-free rows.
- **Active selection**: showing the alternatives of a lesson that is being
  dragged.
- **Weeks**: the text that describes the weeks a lesson runs in.
- **Codec**: the lesson-type abbreviation table, and the text form of a
  timetable that goes into a share link.

JavaScript objects whose key order matters are sequences of key/value pairs.
Assigning an existing key keeps its position; assigning a new key appends it.
Lesson times are `"HHMM"` strings compared character by character.

Modules:

| module | file | what it holds |
|---|---|---|
| `Wrappers` | `wrappers.dfy` | `Option` |
| `Seqs` | `seqs.dfy` | three facts about slicing sequences |
| `Strings` | `strings.dfy` | string order, `split`/`join`, decimal digits, `parseInt` |
| `Objects` | `objects.dfy` | ordered objects: `obj[key]`, `obj[key] = value` |
| `LessonTypes` | `lesson_types.dfy` | `LESSON_TYPE_ABBREV` and its inverse `LESSON_ABBREV_TYPE` |
| `Lessons` | `lessons.dfy` | lessons, modules, the small predicates, overlap, identifiers |
| `Arrangement` | `arrangement.dfy` | sorting a day, first-fit rows, grouping by day |
| `Selection` | `selection.dfy` | `lessonsForLessonType`, `areOtherClassesAvailable`, `populateActiveLessonClasses`, `populateSemTimetableWithLessons` |
| `Weeks` | `weeks.dfy` | `deltas`, `formatNumericWeeks` |
| `QueryString` | `query_string.dfy` | percent-encoding, `querystring.stringify` and `querystring.parse` |
| `Codec` | `codec.dfy` | `serializeModuleConfig`, `parseModuleConfig`, `serializeTimetable`, `deserializeTimetable` |

## How the code is modelled

Each part of the source keeps its form:

- **Imperative code stays imperative.**
  - `arrangeLessonsWithinDay` sorts the caller's array in place. Its model,
    `Arrangement.ArrangeLessonsWithinDay`, does the same: an insertion sort on
    an `array`, then a first-fit loop over the rows.
  - `deltas`, `formatNumericWeeks`, `parseModuleConfig` and
    `populateActiveLessonClasses` are methods with loops.
  - Each such method is proved equal to a specification function. The
    properties the source promises are then lemmas about that function.
- **Pure code is written as functions.**

The helpers `areLessonsSameClass` and `getModuleRawLessons` come from
`moduleUtils`, which is not part of this model. They are given explicit
definitions:

- `areLessonsSameClass`: the same module code, lesson type and class number.
- `getModuleRawLessons`: the timetable of the first semester entry with the
  requested number, or no lessons when there is no such semester or no such
  module.

### Where the documentation and the code disagree

The model follows the code in both places.

- **Week ranges.** The doc comment of `formatNumericWeeks`
  (`src/utils/timetableUtils.ts:544-547`) says `1,2,3` becomes `Weeks 1-3`.
  - The code collapses a run only when `end - start > 2`, so only runs of four
    or more weeks collapse.
  - The code therefore gives `Weeks 1, 2, 3` (`Weeks.ThreeWeeksStaySeparate`)
    and `Weeks 1-4` (`Weeks.FourWeeksCollapse`).
  - `1,2` gives `Weeks 1, 2`, not `Weeks 1,2`.
- **Token format.** The two example comments differ from the code in
  different ways.
  - The comment at line 501 shows the tokens as `LEC=1,LAB=2`. The code
    joins with `LESSON_TYPE_SEP`, which is `:`, so it writes `LEC:1,LAB:2`.
  - The comment at line 596 shows `CS2104=LEC:1,Tut:2&CS2107=LEC:1,Tut:8`.
    It uses the code's `:`, but it writes `Tut` where the table's
    abbreviation for `Tutorial` is `TUT`. The parser compares abbreviations
    case-sensitively, so it would ignore a `Tut` token.
  - `querystring.stringify` also percent-encodes every `:` and `,` of a
    module's text, so the real query string reads
    `CS2104=LEC%3A1%2CTUT%3A2&CS2107=LEC%3A1%2CTUT%3A8`.
- **Query-string encoding.** The comment at line 601 says the query-string
  encoding is unnecessary. `querystring.stringify` still percent-encodes the
  `:` and `,` of every module's text. `querystring.parse` decodes them again,
  and the model keeps both steps.

## Model

| member | source | states |
|---|---|---|
| `LessonTypes.Invert` | src/utils/timetableUtils.ts:73-75 | `invert` swaps every entry's key and value and keeps the entry order |
| `LessonTypes.Lookup` | src/utils/timetableUtils.ts:58-75 | a table lookup finds nothing exactly when no entry has the key, and otherwise returns the value of the last entry with that key |
| `LessonTypes.LookupDistinct` | src/utils/timetableUtils.ts:58-75 | in a table with distinct keys, every entry's key looks up that entry's value |
| `LessonTypes.TableIsOneToOne` | src/utils/timetableUtils.ts:58-75 | the 12 lesson types are distinct, and so are the 12 abbreviations |
| `LessonTypes.TypesDistinct` | src/utils/timetableUtils.ts:58-71 | no lesson type is listed twice |
| `LessonTypes.AbbrevsDistinct` | src/utils/timetableUtils.ts:58-75 | no abbreviation is used twice, so inverting the table loses nothing |
| `LessonTypes.LessonTypesStartCapital` | src/utils/timetableUtils.ts:58-71 | every listed lesson type starts with a capital letter |
| `LessonTypes.AbbrevInverse` | src/utils/timetableUtils.ts:58-75 | `LESSON_ABBREV_TYPE[a] == t` holds exactly when `LESSON_TYPE_ABBREV[t] == a` |
| `LessonTypes.TypeRoundTrip` | src/utils/timetableUtils.ts:58-75 | every listed type has an abbreviation, and `LESSON_ABBREV_TYPE[LESSON_TYPE_ABBREV[t]] == t` |
| `LessonTypes.AbbrevInjective` | src/utils/timetableUtils.ts:58-71 | two listed types with the same abbreviation are the same type |
| `LessonTypes.AbbrevNamesListedType` | src/utils/timetableUtils.ts:73-75 | every type the reverse table yields is a listed lesson type |
| `LessonTypes.AbbrevsUpper` | src/utils/timetableUtils.ts:58-80 | every abbreviation in the table is non-empty upper-case letters and digits |
| `LessonTypes.AbbrevShape` | src/utils/timetableUtils.ts:58-80 | every abbreviation is non-empty upper-case letters and digits, free of `:`, `,`, `-`, `&` and `=`, as the query-string-safe note requires |
| `Lessons.IsValidSemester` | src/utils/timetableUtils.ts:84-86 | a semester is valid exactly when it is 1, 2, 3 or 4 |
| `Lessons.OverlapSymmetric` | src/utils/timetableUtils.ts:260-269 | overlap is symmetric and never holds between lessons on different days |
| `Lessons.TouchingLessonsDoNotOverlap` | src/utils/timetableUtils.ts:260-269 | a lesson ending no later than another starts overlaps it in neither order, e.g. end `1200` against start `1200` |
| `Lessons.SharedInstantOverlap` | src/utils/timetableUtils.ts:260-269 | two lessons on one day that both contain some instant do overlap |
| `Lessons.SameLessonIsEquivalence` | src/utils/timetableUtils.ts:620-630 | `isSameLesson` is reflexive, symmetric and transitive, implies the same class, and same lessons clash with the same lessons |
| `Lessons.DashSeparated` | src/utils/timetableUtils.ts:643-647 | text joined by `-` splits back uniquely when the first part has no `-` |
| `Lessons.FirstDash` | src/utils/timetableUtils.ts:643-647 | the first `-` of `a-x` is the one after `a` when `a` has none |
| `Lessons.ListedAbbrevText` | src/utils/timetableUtils.ts:643-647 | for a listed type the identifier uses its abbreviation, which has no `-` |
| `Lessons.IdentifierIdentifiesClass` | src/utils/timetableUtils.ts:643-647 | for module codes without `-` and listed types, two lessons have the same identifier exactly when they are the same class (module, type and class number) |
| `Lessons.OngoingMatchesStringOrder` | src/utils/timetableUtils.ts:406-411 | for `HHMM` times, `parseInt(start) <= now < parseInt(end)` is the same as comparing the time strings |
| `Lessons.FindSemester` | src/utils/timetableUtils.ts:146-149 | `semesterData.find` returns nothing exactly when no entry has the semester, and otherwise the first one that does |
| `Strings.StrLtIrreflexive` | src/utils/timetableUtils.ts:266-267 | no time string is before itself |
| `Strings.StrLtTransitive` | src/utils/timetableUtils.ts:266-267 | string order is transitive |
| `Strings.StrLtTotal` | src/utils/timetableUtils.ts:291-294 | any two strings are equal or ordered one way or the other |
| `Strings.StrLtAsymmetric` | src/utils/timetableUtils.ts:266-267 | string order is asymmetric |
| `Strings.StrLeLtTransitive` | src/utils/timetableUtils.ts:266-267 | `<=` followed by `<`, in either order, gives `<` |
| `Strings.StrLeTransitive` | src/utils/timetableUtils.ts:266-267 | `<=` on strings is transitive |
| `Strings.Split` | src/utils/timetableUtils.ts:516-517 | `split` gives at least one piece, and no piece holds the separator |
| `Strings.IndexOf` | src/utils/timetableUtils.ts:643-647 | the first occurrence of a character, or the length when there is none |
| `Strings.SplitPrefix` | src/utils/timetableUtils.ts:516-517 | a separator-free prefix sticks to the first piece |
| `Strings.SplitFree` | src/utils/timetableUtils.ts:516-517 | text without the separator splits into itself |
| `Strings.SplitJoin` | src/utils/timetableUtils.ts:500-517 | splitting the join of separator-free pieces gives the pieces back |
| `Strings.JoinFree` | src/utils/timetableUtils.ts:500-507 | joining pieces without a character, using a separator without it, gives text without it |
| `Strings.NatToString` | src/utils/timetableUtils.ts:551 | a number's decimal text is a non-empty digit string, with no leading zero for a positive number |
| `Strings.NatToStringValue` | src/utils/timetableUtils.ts:551 | the digits of a number's decimal text spell that number |
| `Strings.DigitsValueSnoc` | src/utils/timetableUtils.ts:551 | appending a digit to a digit string multiplies its value by ten and adds the digit |
| `Strings.DigitsValue` | src/utils/timetableUtils.ts:408-409 | the value of `n` digits is below `10^n` |
| `Strings.DigitPrefix` | src/utils/timetableUtils.ts:408-409 | the leading digits `parseInt` reads, which stop at the first non-digit |
| `Strings.ParseInt` | src/utils/timetableUtils.ts:408-409 | `parseInt(s, 10)` is `NaN` exactly when no digit follows the optional sign |
| `Strings.ParseIntOfDigits` | src/utils/timetableUtils.ts:408-409 | `parseInt` of a digit string is its decimal value |
| `Strings.DigitPrefixOfDigits` | src/utils/timetableUtils.ts:408-409 | a digit string is read to its end |
| `Strings.DigitStringOrder` | src/utils/timetableUtils.ts:406-411 | for digit strings of equal length, string order and numeric order agree |
| `Arrangement.BeforeIsStrictWeakOrder` | src/utils/timetableUtils.ts:291-294 | the comparator (start time, then class number) is irreflexive and asymmetric, and every pair is ordered or tied; a tie never counts as ordered, and "not before" is transitive |
| `Arrangement.InsertMultiset` | src/utils/timetableUtils.ts:291-294 | inserting into a sorted run adds exactly that lesson |
| `Arrangement.InsertSorted` | src/utils/timetableUtils.ts:291-294 | inserting into a sorted run keeps it sorted |
| `Arrangement.WithKeyAppend` | src/utils/timetableUtils.ts:291-294 | the lessons with one sort key, taken from two parts, are those of each part in turn |
| `Arrangement.InsertWithKey` | src/utils/timetableUtils.ts:291-294 | insertion places a lesson after every lesson with the same sort key (the sort is stable) |
| `Arrangement.SortLessonsCorrect` | src/utils/timetableUtils.ts:291-294 | the sort gives a sorted permutation of its input that keeps the input order of tied lessons, as `Array.prototype.sort` must |
| `Arrangement.InsertInPlace` | src/utils/timetableUtils.ts:291-294 | shifting `a[i]` down into the sorted prefix leaves that prefix equal to the insertion and the rest untouched |
| `Arrangement.ShiftRight` | src/utils/timetableUtils.ts:291-294 | the shifting loop moves each lesson that sorts after the inserted one a place right, from the right end, and stops at the first that does not |
| `Arrangement.InsertAt` | src/utils/timetableUtils.ts:291-294 | inserting puts the lesson right after the last one it does not sort before |
| `Arrangement.SortInPlace` | src/utils/timetableUtils.ts:291-294 | the in-place sort leaves the array equal to the sorted input |
| `Arrangement.FirstFit` | src/utils/timetableUtils.ts:298-306 | the chosen row is the first whose last lesson the new lesson does not overlap; when every row clashes, a new row is chosen |
| `Arrangement.Place` | src/utils/timetableUtils.ts:297-308 | a lesson joins the lowest row it fits, and a new row opens only when it clashes with the last lesson of every row |
| `Arrangement.PlaceLesson` | src/utils/timetableUtils.ts:297-308 | the row loop with its early return places the lesson as first-fit does |
| `Arrangement.FlattenAppend` | src/utils/timetableUtils.ts:308 | a new row adds its lessons at the end of the row concatenation |
| `Arrangement.FlattenExtendRow` | src/utils/timetableUtils.ts:303 | pushing onto a row adds exactly that lesson |
| `Arrangement.InFlatten` | src/utils/timetableUtils.ts:297-309 | every lesson in a row is in the concatenation of the rows |
| `Arrangement.PlaceMultiset` | src/utils/timetableUtils.ts:297-308 | placing a lesson adds exactly that lesson and never removes a row |
| `Arrangement.PackPermutation` | src/utils/timetableUtils.ts:287-309 | packing gives at least one row, and the rows together hold every input lesson once |
| `Arrangement.ArrangeDayPermutation` | src/utils/timetableUtils.ts:284-312 | no lessons give exactly `[[]]`; otherwise there is at least one row, and the rows hold a permutation of the input |
| `Arrangement.ArrangeLessonsWithinDay` | src/utils/timetableUtils.ts:284-312 | the caller's array ends up sorted in place, and the rows are the first-fit packing of the sorted lessons |
| `Arrangement.ChainedPair` | src/utils/timetableUtils.ts:300 | in a row where each lesson starts no earlier than its predecessor ends, every earlier lesson ends before every later one starts |
| `Arrangement.ChainedRowIsDisjoint` | src/utils/timetableUtils.ts:300-301 | such a row has no two overlapping lessons, and its start times strictly increase |
| `Arrangement.ExtendChained` | src/utils/timetableUtils.ts:301-303 | pushing a lesson that starts after the row's last lesson ends keeps the row chained |
| `Arrangement.PlaceKeepsChained` | src/utils/timetableUtils.ts:297-308 | on one day, placing a lesson that starts no earlier than all placed ones keeps every row chained |
| `Arrangement.PackChained` | src/utils/timetableUtils.ts:296-309 | packing sorted, well-timed lessons of one day gives chained rows, which is why checking only the last lesson suffices |
| `Arrangement.MultisetWellTimed` | src/utils/timetableUtils.ts:291 | sorting keeps lessons well timed and on their day |
| `Arrangement.ArrangeDayRowsDisjoint` | src/utils/timetableUtils.ts:284-312 | for one day's lessons, each with start before end, no two lessons in a row overlap, and each row is ordered by start time |
| `Arrangement.LessonsOnDay` | src/utils/timetableUtils.ts:242-246 | a day's group holds exactly that day's lessons, with their multiplicities |
| `Arrangement.LessonsOnDayAppend` | src/utils/timetableUtils.ts:242-246 | selecting a day's lessons distributes over concatenation, so the group keeps the input order |
| `Arrangement.LessonsOnDayOne` | src/utils/timetableUtils.ts:242-246 | a single lesson is kept exactly when it is on the day |
| `Arrangement.LessonsOnDaySnoc` | src/utils/timetableUtils.ts:242-246 | a lesson appended to the input is appended to its day's group, and to no other |
| `Arrangement.GroupLessonsByDay` | src/utils/timetableUtils.ts:242-246 | the groups' keys are exactly the days present; each group is non-empty, holds only its day, and holds every lesson of its day as often as the input does |
| `Arrangement.ArrangeWeekCorrect` | src/utils/timetableUtils.ts:334-341 | the week's keys are the days present; each day's rows are the packing of that day's lessons only and hold them all; when lessons are well timed no row has a clash |
| `Arrangement.PackOne` | src/utils/timetableUtils.ts:297-308 | one lesson gives one row |
| `Arrangement.SortTwo` | src/utils/timetableUtils.ts:291-294 | two lessons in the wrong order are swapped |
| `Arrangement.ThreeOverlappingSorted` | src/utils/timetableUtils.ts:291-294 | three lessons sort by start time |
| `Arrangement.ThreeOverlappingPacked` | src/utils/timetableUtils.ts:297-308 | three mutually overlapping lessons need three rows |
| `Arrangement.ThreeOverlappingNeedThreeRows` | src/utils/timetableUtils.ts:284-312 | three mutually overlapping lessons, in any order, arrange into three rows |
| `Arrangement.TouchingLessonsShareARow` | src/utils/timetableUtils.ts:284-312 | a lesson ending at 12:00 and one starting at 12:00 share a row |
| `Selection.Filter` | src/utils/timetableUtils.ts:184-191 | `filter` keeps only elements meeting the test and never grows |
| `Selection.FilterAppend` | src/utils/timetableUtils.ts:184-191 | filtering distributes over concatenation |
| `Selection.FilterAllOrNothing` | src/utils/timetableUtils.ts:184-191 | filtering keeps everything when all pass, and nothing when none do |
| `Selection.FilterCount` | src/utils/timetableUtils.ts:184-191 | filtering keeps each passing element as often as it occurs |
| `Selection.FilterMember` | src/utils/timetableUtils.ts:184-191 | an element survives the filter exactly when it is present and passes |
| `Selection.LessonsForLessonType` | src/utils/timetableUtils.ts:224-229 | the result holds exactly the input lessons of that type |
| `Selection.LessonsForLessonTypeCount` | src/utils/timetableUtils.ts:224-229 | each lesson of the type is kept as often as it occurs, and no other is kept |
| `Selection.MoreThanOne` | src/utils/timetableUtils.ts:363-367 | a set has more than one element exactly when it holds two different elements |
| `Selection.CardinalityOfSubset` | src/utils/timetableUtils.ts:363-367 | a subset is no larger than its superset |
| `Selection.OtherClassesAvailableIff` | src/utils/timetableUtils.ts:351-368 | true exactly when two lessons of the type have different class numbers; a missing type gives false |
| `Selection.PopulateActiveLessonClasses` | src/utils/timetableUtils.ts:173-215 | the loop of `push` calls builds the specified result from a fresh filtered sequence, leaving the caller's lessons unchanged |
| `Selection.ActiveLessonClassesShape` | src/utils/timetableUtils.ts:183-214 | the result is the lessons outside the active class group, in order, then one copy of each module lesson of the active type, in module order, tagged with the active module's code and title |
| `Selection.KeptLessonsLeaveActiveGroup` | src/utils/timetableUtils.ts:184-186 | a displayed lesson is kept exactly when it is not in the active class group |
| `Selection.CopyMarks` | src/utils/timetableUtils.ts:204-209 | a copy is active exactly when it has the active class number, and available exactly when it is not active; none is both, and all have the active type |
| `Selection.AvailableCopiesMatchOtherClasses` | src/utils/timetableUtils.ts:204-209 | when the active class is among the module's lessons, some copy is available exactly when `areOtherClassesAvailable` holds for the active type |
| `Selection.AvailableCopyIsOtherClass` | src/utils/timetableUtils.ts:207-209 | every available copy comes from another class of the active type |
| `Selection.OtherClassIsAvailableCopy` | src/utils/timetableUtils.ts:207-209 | every other class of the active type appears as an available copy |
| `Selection.PopulateSemTimetableWithLessons` | src/utils/timetableUtils.ts:132-171 | module codes and lesson types keep their order; a missing module maps to an empty object |
| `Selection.PopulatedLessonsMatchConfig` | src/utils/timetableUtils.ts:143-166 | a lesson is listed under a type exactly when it is a lesson of the semester with that type and class number, tagged with the module's code and title |
| `Weeks.Deltas` | src/utils/timetableUtils.ts:528-539 | for `n >= 1` weeks there are `n - 1` deltas, the `i`-th being `w[i+1] - w[i]`; no weeks give none |
| `Weeks.JsRem2` | src/utils/timetableUtils.ts:556-557 | JavaScript's `% 2`: zero for even numbers, 1 for odd positive ones, -1 for odd negative ones |
| `Weeks.Range` | src/utils/timetableUtils.ts:569 | lodash `range(start, end + 1)` has `end - start + 1` numbers, or none |
| `Weeks.RangeAt` | src/utils/timetableUtils.ts:569 | the `k`-th number of the range is `start + k` |
| `Weeks.Runs` | src/utils/timetableUtils.ts:561-585 | the runs are never more than the weeks, and there is a run exactly when there is a week |
| `Weeks.ExpandDropLast` | src/utils/timetableUtils.ts:561-585 | expanding runs ends with the last run's weeks |
| `Weeks.ExtendLastRun` | src/utils/timetableUtils.ts:574-576 | extending the last run by one adds that week |
| `Weeks.ExtendCover` | src/utils/timetableUtils.ts:574-576 | extending the last run to the next week appends that week to the expansion |
| `Weeks.RunsSnoc` | src/utils/timetableUtils.ts:573-583 | a consecutive week extends the current run; any other week closes it and opens a new one |
| `Weeks.CoverStep` | src/utils/timetableUtils.ts:573-583 | one more week keeps the runs covering the weeks exactly |
| `Weeks.RunsCoverWeeks` | src/utils/timetableUtils.ts:561-585 | the runs, expanded, give back exactly the weeks |
| `Weeks.MaximalExtend` | src/utils/timetableUtils.ts:574-576 | extending the last run keeps the runs maximal |
| `Weeks.MaximalNewRun` | src/utils/timetableUtils.ts:577-582 | opening a run at a non-consecutive week keeps the runs maximal |
| `Weeks.RunsAreMaximal` | src/utils/timetableUtils.ts:573-583 | every run is ascending, and no run could be extended into the next one |
| `Weeks.RunTokens` | src/utils/timetableUtils.ts:565-571 | a run with `end - start > 2` becomes `start-end`; a shorter one lists its weeks one by one |
| `Weeks.RunsTokensSnoc` | src/utils/timetableUtils.ts:565-571 | the tokens of one more run follow those of the runs before it |
| `Weeks.MergeConsecutive` | src/utils/timetableUtils.ts:560-585 | the merge loop, including its final call, pushes exactly the tokens of the maximal runs |
| `Weeks.FormatNumericWeeks` | src/utils/timetableUtils.ts:549-588 | the method returns what the specification of the formatter gives |
| `Weeks.FormatWeeksSpecialCases` | src/utils/timetableUtils.ts:550-551 | `null` exactly when there are 13 weeks; `Week n` for a single week |
| `Weeks.FormatWeeksOddEven` | src/utils/timetableUtils.ts:555-558 | when every delta is 2: `Even Weeks` from an even first week and at least 6 weeks, `Odd Weeks` from an odd first week and at least 7, otherwise the ranges |
| `Weeks.FormatWeeksRanges` | src/utils/timetableUtils.ts:560-587 | otherwise `Weeks ` and the tokens of the maximal runs joined by `, `, and those runs cover the weeks exactly |
| `Weeks.WeekNumbers` | src/utils/timetableUtils.ts:569 | one decimal token per week |
| `Weeks.WeekNumbersAppend` | src/utils/timetableUtils.ts:569 | tokens of joined week lists are the joined tokens |
| `Weeks.ShortRunTokens` | src/utils/timetableUtils.ts:568-570 | a run of at most three weeks is listed week by week |
| `Weeks.ShortRunsListEveryWeek` | src/utils/timetableUtils.ts:565-570 | when no run is longer than three weeks, every week is listed individually |
| `Weeks.NegativeOddRemainder` | src/utils/timetableUtils.ts:556-557 | `-3 % 2` is `-1`, so a negative odd first week is never `Odd Weeks` |
| `Weeks.SmallNumbers` | src/utils/timetableUtils.ts:567-569 | 1 to 4 print as `1` to `4` |
| `Weeks.AllThirteenWeeks` | src/utils/timetableUtils.ts:550 | weeks 1 to 13 give `null` |
| `Weeks.SingleWeek` | src/utils/timetableUtils.ts:551 | `[3]` gives `Week 3` |
| `Weeks.EvenWeeks` | src/utils/timetableUtils.ts:556 | `[2,4,6,8,10,12]` gives `Even Weeks` |
| `Weeks.OddWeeks` | src/utils/timetableUtils.ts:557 | `[1,3,5,7,9,11,13]` gives `Odd Weeks` |
| `Weeks.RunsUpTo` | src/utils/timetableUtils.ts:573-583 | weeks 1 to `n` form one run |
| `Weeks.OneRun` | src/utils/timetableUtils.ts:560-587 | weeks 1 to `n`, for `n` from 2 to 4, are formatted from one run |
| `Weeks.TwoWeeksText` | src/utils/timetableUtils.ts:568-570 | a two-week run prints as `Weeks 1, 2` |
| `Weeks.TwoWeeksStaySeparate` | src/utils/timetableUtils.ts:560-587 | `[1,2]` gives `Weeks 1, 2` |
| `Weeks.ThreeWeeksTokens` | src/utils/timetableUtils.ts:568-570 | a three-week run is listed as `1`, `2`, `3` |
| `Weeks.ThreeWeeksText` | src/utils/timetableUtils.ts:587 | those tokens print as `Weeks 1, 2, 3` |
| `Weeks.ThreeWeeksStaySeparate` | src/utils/timetableUtils.ts:560-587 | `[1,2,3]` gives `Weeks 1, 2, 3`, not the documented `Weeks 1-3` |
| `Weeks.FourWeeksCollapse` | src/utils/timetableUtils.ts:566-567 | `[1,2,3,4]` gives `Weeks 1-4` |
| `Objects.Keys` | src/utils/timetableUtils.ts:364-366 | `Object.keys` lists the keys in insertion order |
| `Objects.KeyIndex` | src/utils/timetableUtils.ts:521 | the position of a key is the first entry holding it, or the end |
| `Objects.Get` | src/utils/timetableUtils.ts:518 | reading a key is `undefined` exactly when the key is absent |
| `Objects.Put` | src/utils/timetableUtils.ts:521 | after `obj[key] = value` the key reads the value and every other key reads what it did; keys keep their order, a new key goes last, and distinct keys stay distinct |
| `Objects.PutOther` | src/utils/timetableUtils.ts:521 | an assignment leaves other keys' values alone |
| `Objects.PutOtherPresent` | src/utils/timetableUtils.ts:521 | a present other key keeps its value |
| `Objects.PutOtherAbsent` | src/utils/timetableUtils.ts:521 | an absent other key stays absent |
| `Objects.KeyIndexAt` | src/utils/timetableUtils.ts:521 | the first position holding a key is its index |
| `Objects.GetAt` | src/utils/timetableUtils.ts:521 | with distinct keys, each entry's key reads that entry's value |
| `Objects.PutNew` | src/utils/timetableUtils.ts:521 | assigning an absent key appends it |
| `QueryString.HexDigit` | src/utils/timetableUtils.ts:503 | a hexadecimal digit is an unreserved character |
| `QueryString.HexValue` | src/utils/timetableUtils.ts:606 | a hexadecimal digit has a value below 16 |
| `QueryString.HexDigitValue` | src/utils/timetableUtils.ts:503 | a digit written and read back is the same value |
| `QueryString.EscapeChar` | src/utils/timetableUtils.ts:503 | an unreserved or non-ASCII character is kept; any other becomes `%XY` with `XY` its code |
| `QueryString.Escape` | src/utils/timetableUtils.ts:503 | encoding never shortens text |
| `QueryString.PlusToSpace` | src/utils/timetableUtils.ts:606 | `querystring.parse` reads `+` as a space and keeps every other character |
| `QueryString.EscapeOutput` | src/utils/timetableUtils.ts:77-80 | encoded text holds only kept characters and `%`, so none of `&`, `=`, `:`, `,`, `+` or space |
| `QueryString.EscapeCharOutput` | src/utils/timetableUtils.ts:503 | one encoded character holds only kept characters and `%` |
| `QueryString.EscapeIdentity` | src/utils/timetableUtils.ts:503 | `encodeURIComponent(s) == s` exactly when every character of `s` is kept |
| `QueryString.UnescapeEscape` | src/utils/timetableUtils.ts:602-606 | decoding what was encoded gives the original text |
| `QueryString.UnescapeEscapeChar` | src/utils/timetableUtils.ts:602-606 | one encoded character decodes back to itself |
| `QueryString.UnescapePercent` | src/utils/timetableUtils.ts:606 | `%XY` decodes to the character with code `XY` |
| `QueryString.PlusFree` | src/utils/timetableUtils.ts:606 | text without `+` is unchanged by the `+` rule |
| `QueryString.DecodeEscape` | src/utils/timetableUtils.ts:602-606 | `querystring.parse` decoding undoes `querystring.escape` |
| `QueryString.Pieces` | src/utils/timetableUtils.ts:602 | one `key=value` piece per entry |
| `QueryString.SplitAtEq` | src/utils/timetableUtils.ts:606 | a piece splits at its first `=`, and a piece without `=` is a key with the empty value |
| `QueryString.ParseDistinctKeys` | src/utils/timetableUtils.ts:606 | the parsed object never has a key twice; repeated keys collect into arrays |
| `QueryString.TwoPieces` | src/utils/timetableUtils.ts:606 | two non-empty pieces are added to the result one after the other |
| `QueryString.SameKeyTwice` | src/utils/timetableUtils.ts:606 | a key added twice holds both values, in order, as an array |
| `QueryString.RepeatedKeyPieces` | src/utils/timetableUtils.ts:606 | `a=1&a=2` splits into two pieces that decode to key `a` and values `1`, `2` |
| `QueryString.SplitOnAmp` | src/utils/timetableUtils.ts:606 | `a=1&a=2` splits on `&` into its two pieces |
| `QueryString.OneCharDecodes` | src/utils/timetableUtils.ts:606 | a character other than `%` and `+` decodes to itself |
| `QueryString.RepeatedKey` | src/utils/timetableUtils.ts:606-610 | `a=1&a=2` parses to `a` with the array `["1","2"]`, which `castArray` then passes on |
| `QueryString.AsParsed` | src/utils/timetableUtils.ts:606 | one parsed string value per entry |
| `QueryString.PieceSplits` | src/utils/timetableUtils.ts:602-606 | an encoded piece is never empty and decodes to its key and value |
| `QueryString.SplitAtFirstEq` | src/utils/timetableUtils.ts:606 | a piece whose key holds no `=` splits back into that key and its value |
| `QueryString.PiecesFreeOfAmp` | src/utils/timetableUtils.ts:602 | no piece holds `&` |
| `QueryString.FreshPieceStep` | src/utils/timetableUtils.ts:606 | with distinct keys, each piece adds its own entry at the end |
| `QueryString.AddFreshPieces` | src/utils/timetableUtils.ts:606 | with distinct keys, the first `n` pieces parse to the first `n` entries |
| `QueryString.ParseStringify` | src/utils/timetableUtils.ts:600-606 | `querystring.parse(querystring.stringify(obj))` gives back every entry in order, as string values, when the keys are distinct |
| `Codec.Tokens` | src/utils/timetableUtils.ts:502-505 | one token per configuration entry |
| `Codec.ParseModuleTokens` | src/utils/timetableUtils.ts:516-522 | the inner loop applies the tokens of one module string left to right, each by the `forEach` callback `ApplyToken`; intended lookup |
| `Codec.ApplyTokensSnoc` | src/utils/timetableUtils.ts:516-522 | one more token is applied after the earlier ones |
| `Codec.ApplyModulesSnoc` | src/utils/timetableUtils.ts:515-523 | one more module string is applied after the earlier ones |
| `Codec.ParseModuleConfig` | src/utils/timetableUtils.ts:509-526 | the nested loops apply every string's tokens in turn to an empty object; `null`, `""` and `[]` give `{}`; intended lookup |
| `Codec.UntouchedTypeKeepsClass` | src/utils/timetableUtils.ts:516-522 | a lesson type no later token names keeps its class number |
| `Codec.LastWriteWins` | src/utils/timetableUtils.ts:516-522 | for a repeated lesson type the last token naming it decides its class number |
| `Codec.UnlistedTypeDropped` | src/utils/timetableUtils.ts:500-520 | the `:x` token produced for an unlisted type is ignored when parsed |
| `Codec.BareAbbrevHasNoClass` | src/utils/timetableUtils.ts:517-521 | a token without `:` assigns its type `undefined` |
| `Codec.ApplyTokenRecognised` | src/utils/timetableUtils.ts:518-521 | one token keeps the keys distinct listed types |
| `Codec.ApplyTokensRecognised` | src/utils/timetableUtils.ts:516-522 | the tokens of one module keep the keys distinct listed types |
| `Codec.ApplyModulesRecognised` | src/utils/timetableUtils.ts:515-523 | every module string keeps the keys distinct listed types |
| `Codec.ParsedConfigRecognised` | src/utils/timetableUtils.ts:509-526 | whatever the input, the parsed configuration has only listed lesson types as keys, none twice (with `ApplyToken` as intended) |
| `Codec.InheritedKey` | src/utils/timetableUtils.ts:518-521 | an inherited property used as a key turns into text starting with `f` or `[` |
| `Codec.InheritedAbbrevAccepted` | src/utils/timetableUtils.ts:518-521 | as written, a token naming an inherited property of `Object.prototype` stores its class number under a key that is no lesson type; `ApplyToken` ignores it |
| `Codec.ConstructorTokenAccepted` | src/utils/timetableUtils.ts:518-521 | as written, `constructor:1` parses to an object with a non-type key; `ApplyToken` gives `{}` |
| `Codec.ConstructorModuleAsWritten` | src/utils/timetableUtils.ts:509-526 | as written, `parseModuleConfig("constructor:1")` returns a configuration whose one key is no lesson type; the intended parser returns `{}` |
| `Codec.ConstructorLinkAsWritten` | src/utils/timetableUtils.ts:605-611 | as written, deserializing the share link of one module with text `constructor:1` puts a non-type key into its configuration; the intended parser gives it `{}` |
| `Codec.InheritedNamesShape` | src/utils/timetableUtils.ts:518 | inherited property names start with a lower-case letter or `_` and hold no `:` |
| `Codec.InheritedNameIsNoAbbrev` | src/utils/timetableUtils.ts:518 | no inherited property name is an abbreviation in the table |
| `Codec.ParsedBack` | src/utils/timetableUtils.ts:503-521 | one parsed entry per configuration entry |
| `Codec.TokenReadsBack` | src/utils/timetableUtils.ts:502-521 | a listed type's token is non-empty and comma-free, and parses to that type with the URI-encoded class number |
| `Codec.TwoParts` | src/utils/timetableUtils.ts:517 | `abbrev:classNo` destructures into its two parts when neither holds `:` |
| `Codec.TokenApplies` | src/utils/timetableUtils.ts:502-521 | a listed type's token assigns that type its encoded class number |
| `Codec.FreshTokenStep` | src/utils/timetableUtils.ts:516-521 | each token of a configuration with distinct keys adds its own entry at the end |
| `Codec.FreshKey` | src/utils/timetableUtils.ts:521 | with distinct keys, each entry's type is new when its token arrives |
| `Codec.FreshTokens` | src/utils/timetableUtils.ts:516-522 | the first `n` tokens parse to the first `n` entries |
| `Codec.SerializedSplits` | src/utils/timetableUtils.ts:500-516 | a non-empty serialized configuration splits on `,` back into its tokens |
| `Codec.OneModule` | src/utils/timetableUtils.ts:513-516 | a non-empty string is parsed as one module string |
| `Codec.NonEmptyRoundTrip` | src/utils/timetableUtils.ts:500-526 | the round trip of a non-empty configuration |
| `Codec.ModuleConfigRoundTrip` | src/utils/timetableUtils.ts:500-526 | parsing a serialized configuration with distinct listed types gives every type back in order, with its class number URI-encoded (the parser never decodes it) |
| `Codec.PlainModuleConfigRoundTrip` | src/utils/timetableUtils.ts:500-526 | when additionally every class number is unchanged by `encodeURIComponent`, `parseModuleConfig(serializeModuleConfig(c)) == c` |
| `Codec.SerializedModules` | src/utils/timetableUtils.ts:602 | `mapValues` keeps every module code in order |
| `Codec.DeserializedRecognised` | src/utils/timetableUtils.ts:605-611 | any text deserializes to distinct module codes, each with distinct listed lesson types; intended lookup |
| `Codec.TimetableRoundTrip` | src/utils/timetableUtils.ts:600-611 | deserializing a serialized timetable, with distinct module codes and distinct listed types, gives back every module in order with its configuration as the module round trip gives it; intended lookup |
| `Lessons.DoLessonsOverlap` | src/utils/timetableUtils.ts:260-269 | definition: the same day, and each lesson starts before the other ends; `OverlapSymmetric`, `TouchingLessonsDoNotOverlap` and `SharedInstantOverlap` state its properties |
| `Lessons.AreLessonsSameClass` | src/utils/timetableUtils.ts:184-206 | definition of the `moduleUtils` helper the code calls: the same module code, lesson type and class number; `SameLessonIsEquivalence` and `IdentifierIdentifiesClass` relate it to the other identities |
| `Lessons.IsSameLesson` | src/utils/timetableUtils.ts:620-630 | definition: the seven fields the source compares; `SameLessonIsEquivalence` states its properties |
| `Lessons.GetLessonIdentifier` | src/utils/timetableUtils.ts:643-647 | definition: module code, abbreviation and class number joined by `-`; `IdentifierIdentifiesClass` states what it identifies |
| `Lessons.IsLessonOngoing` | src/utils/timetableUtils.ts:406-411 | definition: `parseInt` of the start at most the current time, which is below `parseInt` of the end, false on `NaN`; `OngoingMatchesStringOrder` states its meaning for `HHMM` times |
| `Lessons.ModuleRawLessons` | src/utils/timetableUtils.ts:179-181 | definition of the `moduleUtils` helper the code calls: the first matching semester's lessons, or none; `FindSemester` states the lookup |
| `Arrangement.SortLessons` | src/utils/timetableUtils.ts:291-295 | definition: insertion of each lesson in turn; `SortLessonsCorrect` states that the result is sorted, a permutation and stable |
| `Arrangement.Pack` | src/utils/timetableUtils.ts:297-316 | definition: first-fit placement of each lesson in turn, from one empty row; `PackPermutation` and `PackChained` state its properties |
| `Arrangement.ArrangeDay` | src/utils/timetableUtils.ts:284-319 | definition: one empty row for no lessons, otherwise the packing of the sorted lessons; `ArrangeDayPermutation` and `ArrangeDayRowsDisjoint` state its properties |
| `Arrangement.ArrangeLessonsForWeek` | src/utils/timetableUtils.ts:334-341 | definition: each day's group packed on its own; `ArrangeWeekCorrect` states its properties |
| `Selection.AreOtherClassesAvailable` | src/utils/timetableUtils.ts:351-368 | definition: false for a type with no lessons, otherwise whether the type has more than one class number; `OtherClassesAvailableIff` states both directions |
| `Selection.ActiveLessonClasses` | src/utils/timetableUtils.ts:173-215 | definition: the kept lessons followed by the marked copies; `ActiveLessonClassesShape`, `KeptLessonsLeaveActiveGroup` and `CopyMarks` state its meaning |
| `Weeks.FormatWeeks` | src/utils/timetableUtils.ts:549-588 | definition: the special cases, the odd/even test and the run tokens; `FormatWeeksSpecialCases`, `FormatWeeksOddEven` and `FormatWeeksRanges` state its meaning |
| `Codec.SerializeModuleConfig` | src/utils/timetableUtils.ts:500-507 | definition: the tokens joined by `,`; `SerializedSplits` and `ModuleConfigRoundTrip` state what it keeps |
| `Codec.ApplyToken` | src/utils/timetableUtils.ts:516-522 | the inner `forEach` callback with the intended own-entry lookup; `UnlistedTypeDropped`, `BareAbbrevHasNoClass`, `TokenApplies` and `ApplyTokenRecognised` state its meaning |
| `Codec.ApplyTokenAsWritten` | src/utils/timetableUtils.ts:516-522 | the inner `forEach` callback with the lookup as written, which also finds inherited properties; `InheritedAbbrevAccepted` states the difference |
| `Codec.ModuleConfigOf` | src/utils/timetableUtils.ts:509-526 | definition of `parseModuleConfig`'s result with the intended lookup; `ParseModuleConfig` is proved equal to it and `ParsedConfigRecognised` states its meaning |
| `Codec.ModuleConfigOfAsWritten` | src/utils/timetableUtils.ts:509-526 | `parseModuleConfig`'s result with the lookup as written; `ConstructorModuleAsWritten` shows where it differs |
| `Codec.SerializeTimetable` | src/utils/timetableUtils.ts:600-603 | definition: the serialized configurations as a query string; `TimetableRoundTrip` states what it keeps |
| `Codec.DeserializeTimetable` | src/utils/timetableUtils.ts:605-611 | definition with the intended lookup: the query string parsed, each value parsed as a module configuration; `DeserializedRecognised` and `TimetableRoundTrip` state its meaning |
| `Codec.DeserializeTimetableAsWritten` | src/utils/timetableUtils.ts:605-611 | `deserializeTimetable` with the lookup as written; `ConstructorLinkAsWritten` shows where it differs |
| `QueryString.Unescape` | src/utils/timetableUtils.ts:606 | definition: `%XY` below `0x80` becomes its character, everything else is kept; `UnescapeEscape` and `UnescapePercent` state its meaning |
| `QueryString.Decode` | src/utils/timetableUtils.ts:606 | definition: `+` read as a space, then unescaped; `DecodeEscape` states that it inverts the encoding |
| `QueryString.Stringify` | src/utils/timetableUtils.ts:602 | definition: the pieces joined by `&`; `ParseStringify` states what it keeps |
| `QueryString.Parse` | src/utils/timetableUtils.ts:606 | definition: the `&` pieces added in order; `ParseDistinctKeys`, `RepeatedKey` and `ParseStringify` state its meaning |

## Left out

- `src/views/tabs/conditions/ConditionsTab.tsx`: user interface, store selectors and notifications, with no timetable logic of its own.
- `getStartTimeAsDate` and `getEndTimeAsDate` (lines 413-425): they build JavaScript `Date` values through `timeUtils`, a foreign module that is not part of this model.
- `randomModuleLessonConfig` (lines 103-122): its result depends on lodash `sample`, a source of randomness.
- `getHoverLesson` (lines 632-638): a field projection with nothing to prove.
- `isSameTimetableConfig` and `getSemesterModules` (lines 493-498, 613-618): thin wrappers over lodash `isEqual`, `pick` and `values`.
- The commented-out functions (lines 370-404 and 427-490): dead code.
- `moduleUtils` (`areLessonsSameClass`, `getModuleRawLessons`) is not part of this model; both are given the definitions stated above.
- The `colorIndex` and other display fields of a coloured lesson: the lessons carry only the fields the code reads.
- `localeCompare` (lines 291-294): modelled as plain character order, which agrees with collation on digit-string times but not on every class number.
- Strings are sequences of characters; UTF-16 code units and surrogate pairs are not modelled.
- `QueryString.Escape`: keeps non-ASCII characters as they are, where `encodeURIComponent` writes their UTF-8 bytes in `%XY` form and throws `URIError` on a lone surrogate.
- `QueryString.Unescape`: decodes only `%XY` sequences below `0x80`; multi-byte UTF-8 sequences and malformed escapes are left as they are.
- `QueryString.Parse`: the 1000-key limit of `querystring.parse` is not modelled.
- `Strings.ParseInt`: leading white space, which `parseInt` skips, is not modelled; lesson times have none.
- Integer-like object keys: JavaScript enumerates them first, in numeric order; the model keeps insertion order for every key.
- `Arrangement.GroupLessonsByDay`: returns a map, so the order in which lodash `groupBy` creates the day keys is not modelled.
- `Codec.ApplyToken`, `Codec.ParseModuleTokens`, `Codec.ParseModuleConfig`, `Codec.ModuleConfigOf`, `Codec.DeserializeTimetable`, `Codec.DeserializedRecognised` and `Codec.TimetableRoundTrip` use the intended lookup of the table's own entries. On a token such as `constructor:1` or `__proto__:1` they give `{}`, where the code as written stores an entry (see Findings); `Codec.ApplyTokenAsWritten`, `Codec.ModuleConfigOfAsWritten` and `Codec.DeserializeTimetableAsWritten` model that behaviour.
- `Lessons.IsValidSemester` and `Lessons.IsLessonOngoing` take integers. The source takes JavaScript numbers, so it also accepts a fractional semester such as `1.5` and a fractional current time; those are not modelled.
- Lookups of an unlisted lesson type in `LESSON_TYPE_ABBREV` (lines 503 and 644) give `undefined` in the model; a type named after an inherited property of `Object.prototype` would find that property in the source.
- The class number of a parsed configuration stays URI-encoded, as in the source; `Codec.ModuleConfigRoundTrip` states it in that form.
- Number formatting in the week text (`Strings.IntToString`) covers integers only; fractional week numbers are not modelled.

## Findings

| source | as written | input that shows it | evidently intended | confidence | as-written member | corrected member |
|---|---|---|---|---|---|---|
| src/utils/timetableUtils.ts:518-520 | `LESSON_ABBREV_TYPE[lessonTypeAbbr]` reads a plain object, so an abbreviation naming an inherited property (`constructor`, `toString`, `__proto__`, …) finds a truthy value and is not ignored | `deserializeTimetable("CS1010=constructor%3A1")` (the link `serializeTimetable` would write for the module text `constructor:1`) stores class `1` under the key `function Object() { [native code] }` | only the table's own abbreviations are accepted; every other token is ignored, as the comment "Ignore unparsable/invalid keys" says | not executed | `Codec.ApplyTokenAsWritten` and `Codec.DeserializeTimetableAsWritten`, shown by `Codec.InheritedAbbrevAccepted`, `Codec.ConstructorTokenAccepted` and `Codec.ConstructorLinkAsWritten` | `Codec.ApplyToken`, with `Codec.ParsedConfigRecognised` |
