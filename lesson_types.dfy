/**
 * The fixed lesson-type abbreviation table used by the timetable codec and
 * its inverse, derived from it the way lodash `invert` derives it.
 */
module LessonTypes {
  import opened Wrappers

  /** `LESSON_TYPE_ABBREV`, in its declaration order: (lesson type, abbreviation). */
  const LessonTypeAbbrev: seq<(string, string)> := [
    ("Design Lecture", "DLEC"),
    ("Laboratory", "LAB"),
    ("Lecture", "LEC"),
    ("Packaged Lecture", "PLEC"),
    ("Packaged Tutorial", "PTUT"),
    ("Recitation", "REC"),
    ("Sectional Teaching", "SEC"),
    ("Seminar-Style Module Class", "SEM"),
    ("Tutorial", "TUT"),
    ("Tutorial Type 2", "TUT2"),
    ("Tutorial Type 3", "TUT3"),
    ("Workshop", "WS")
  ]

  /** lodash `invert`: every (key, value) entry becomes (value, key), in the same order. */
  function Invert(table: seq<(string, string)>): (r: seq<(string, string)>)
    ensures |r| == |table|
    ensures forall i :: 0 <= i < |table| ==> r[i] == (table[i].1, table[i].0)
  {
    if |table| == 0 then [] else Invert(table[..|table| - 1]) + [(table[|table| - 1].1, table[|table| - 1].0)]
  }

  /** `LESSON_ABBREV_TYPE`: derived from the forward table, never written separately. */
  const LessonAbbrevType: seq<(string, string)> := Invert(LessonTypeAbbrev)

  /**
   * Property lookup `table[key]` on an object built by assigning the entries
   * in order: the value of the last entry with that key, `None` for
   * `undefined`.
   */
  function Lookup(table: seq<(string, string)>, key: string): (r: Option<string>)
    ensures r.None? <==> forall i :: 0 <= i < |table| ==> table[i].0 != key
    ensures r.Some? ==> exists i :: 0 <= i < |table| && table[i] == (key, r.value)
                                   && forall j :: i < j < |table| ==> table[j].0 != key
  {
    if |table| == 0 then None
    else if table[|table| - 1].0 == key then Some(table[|table| - 1].1)
    else Lookup(table[..|table| - 1], key)
  }

  predicate IsLessonType(t: string)
  {
    exists i :: 0 <= i < |LessonTypeAbbrev| && LessonTypeAbbrev[i].0 == t
  }

  /** `LESSON_TYPE_ABBREV[lessonType]`. */
  function TypeToAbbrev(lessonType: string): Option<string>
  {
    Lookup(LessonTypeAbbrev, lessonType)
  }

  /** `LESSON_ABBREV_TYPE[abbreviation]`. */
  function AbbrevToType(abbrev: string): Option<string>
  {
    Lookup(LessonAbbrevType, abbrev)
  }

  predicate DistinctKeys(table: seq<(string, string)>)
  {
    forall i, j :: 0 <= i < j < |table| ==> table[i].0 != table[j].0
  }

  /** In a table with distinct keys, lookup finds exactly the entry with that key. */
  lemma LookupDistinct(table: seq<(string, string)>, i: nat)
    requires DistinctKeys(table) && i < |table|
    ensures Lookup(table, table[i].0) == Some(table[i].1)
  {
  }

  /** (first character, last character, length): a cheap way to tell strings apart. */
  function Fingerprint(s: string): (char, char, int)
    requires |s| > 0
  {
    (s[0], s[|s| - 1], |s|)
  }

  /** Both the lesson types and the abbreviations of the table are pairwise distinct. */
  lemma TableIsOneToOne()
    ensures DistinctKeys(LessonTypeAbbrev)
    ensures DistinctKeys(LessonAbbrevType)
  {
    TypesDistinct();
    AbbrevsDistinct();
  }

  lemma TypesDistinct()
    ensures DistinctKeys(LessonTypeAbbrev)
  {
    var types := [('D', 'e', 14), ('L', 'y', 10), ('L', 'e', 7), ('P', 'e', 16), ('P', 'l', 17), ('R', 'n', 10),
                  ('S', 'g', 18), ('S', 's', 26), ('T', 'l', 8), ('T', '2', 15), ('T', '3', 15), ('W', 'p', 8)];
    forall i | 0 <= i < |LessonTypeAbbrev|
      ensures |LessonTypeAbbrev[i].0| > 0 && Fingerprint(LessonTypeAbbrev[i].0) == types[i]
    {
    }
    assert forall i, j :: 0 <= i < j < |types| ==> types[i] != types[j];
  }

  /** Every lesson type starts with a capital letter. */
  lemma LessonTypesStartCapital()
    ensures forall t :: IsLessonType(t) ==> |t| > 0 && 'A' <= t[0] <= 'Z'
  {
    forall i | 0 <= i < |LessonTypeAbbrev|
      ensures |LessonTypeAbbrev[i].0| > 0 && 'A' <= LessonTypeAbbrev[i].0[0] <= 'Z'
    {
    }
  }

  lemma AbbrevsDistinct()
    ensures DistinctKeys(LessonAbbrevType)
  {
    var abbrevs := [('D', 'C', 4), ('L', 'B', 3), ('L', 'C', 3), ('P', 'C', 4), ('P', 'T', 4), ('R', 'C', 3),
                    ('S', 'C', 3), ('S', 'M', 3), ('T', 'T', 3), ('T', '2', 4), ('T', '3', 4), ('W', 'S', 2)];
    forall i | 0 <= i < |LessonTypeAbbrev|
      ensures |LessonTypeAbbrev[i].1| > 0 && Fingerprint(LessonTypeAbbrev[i].1) == abbrevs[i]
    {
    }
    assert forall i, j :: 0 <= i < j < |abbrevs| ==> abbrevs[i] != abbrevs[j];
  }

  predicate UpperOrDigit(c: char)
  {
    'A' <= c <= 'Z' || '0' <= c <= '9'
  }

  /**
   * The inverse table is an exact inverse of the forward table: an
   * abbreviation maps to a type exactly when that type maps to it.
   */
  lemma {:induction false} AbbrevInverse(lessonType: string, abbrev: string)
    ensures AbbrevToType(abbrev) == Some(lessonType) <==> TypeToAbbrev(lessonType) == Some(abbrev)
  {
    TableIsOneToOne();
    var t, inv := LessonTypeAbbrev, LessonAbbrevType;
    if AbbrevToType(abbrev) == Some(lessonType) {
      var i :| 0 <= i < |inv| && inv[i] == (abbrev, lessonType);
      LookupDistinct(t, i);
    }
    if TypeToAbbrev(lessonType) == Some(abbrev) {
      var i :| 0 <= i < |t| && t[i] == (lessonType, abbrev);
      LookupDistinct(inv, i);
    }
  }

  /** Every listed type has an abbreviation, and the abbreviation maps back to it. */
  lemma {:induction false} TypeRoundTrip(lessonType: string)
    requires IsLessonType(lessonType)
    ensures TypeToAbbrev(lessonType).Some?
    ensures AbbrevToType(TypeToAbbrev(lessonType).value) == Some(lessonType)
  {
    TableIsOneToOne();
    var i :| 0 <= i < |LessonTypeAbbrev| && LessonTypeAbbrev[i].0 == lessonType;
    LookupDistinct(LessonTypeAbbrev, i);
    AbbrevInverse(lessonType, LessonTypeAbbrev[i].1);
  }

  /** Distinct listed types have distinct abbreviations. */
  lemma AbbrevInjective(t1: string, t2: string)
    requires IsLessonType(t1) && IsLessonType(t2)
    requires TypeToAbbrev(t1) == TypeToAbbrev(t2)
    ensures t1 == t2
  {
    TypeRoundTrip(t1);
    TypeRoundTrip(t2);
  }

  /** A recognised abbreviation always names a listed lesson type. */
  lemma AbbrevNamesListedType(abbrev: string)
    requires AbbrevToType(abbrev).Some?
    ensures IsLessonType(AbbrevToType(abbrev).value)
  {
    var i :| 0 <= i < |LessonAbbrevType| && LessonAbbrevType[i] == (abbrev, AbbrevToType(abbrev).value);
    assert LessonTypeAbbrev[i].0 == AbbrevToType(abbrev).value;
  }

  /** Abbreviations are non-empty upper-case letters and digits, so free of the codec's separators and of `-`. */
  lemma AbbrevShape(lessonType: string)
    requires TypeToAbbrev(lessonType).Some?
    ensures var a := TypeToAbbrev(lessonType).value;
      |a| > 0 && ':' !in a && ',' !in a && '-' !in a && '&' !in a && '=' !in a
    ensures forall k :: 0 <= k < |TypeToAbbrev(lessonType).value| ==> UpperOrDigit(TypeToAbbrev(lessonType).value[k])
  {
    var a := TypeToAbbrev(lessonType).value;
    var i :| 0 <= i < |LessonTypeAbbrev| && LessonTypeAbbrev[i] == (lessonType, a);
    AbbrevsUpper();
    assert |a| > 0 && forall k :: 0 <= k < |a| ==> UpperOrDigit(a[k]);
  }

  /** Every abbreviation of the table is non-empty and made of upper-case letters and digits. */
  lemma AbbrevsUpper()
    ensures forall i :: 0 <= i < |LessonTypeAbbrev| ==>
      |LessonTypeAbbrev[i].1| > 0 && forall k :: 0 <= k < |LessonTypeAbbrev[i].1| ==> UpperOrDigit(LessonTypeAbbrev[i].1[k])
  {
    forall i | 0 <= i < |LessonTypeAbbrev|
      ensures |LessonTypeAbbrev[i].1| > 0
      ensures forall k :: 0 <= k < |LessonTypeAbbrev[i].1| ==> UpperOrDigit(LessonTypeAbbrev[i].1[k])
    {
    }
  }
}
