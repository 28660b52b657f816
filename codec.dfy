/**
 * The timetable codec: a module's lesson configuration as the text
 * `LEC:1,TUT:2`, a whole semester timetable as a query string over those
 * texts, and the parsers that read them back.
 */
module Codec {
  import opened Wrappers
  import opened Strings
  import opened Objects
  import Lessons
  import LessonTypes
  import QueryString
  import Seqs

  /** A module configuration as it is parsed back: a class number, or `None` for a lesson token without `:`. */
  type ParsedModuleConfig = seq<(string, Option<string>)>

  /** A semester timetable as it is parsed back. */
  type ParsedTimetable = seq<(string, ParsedModuleConfig)>

  /** What a query-string parameter hands the module parser: nothing, one string, or every string of a repeated key. */
  datatype Serialized = Null | One(s: string) | Many(items: seq<string>)

  /** Every key is a listed lesson type, and none occurs twice. */
  predicate Recognised<V>(config: seq<(string, V)>)
  {
    DistinctKeys(config) && forall i :: 0 <= i < |config| ==> LessonTypes.IsLessonType(config[i].0)
  }

  // ---------------------------------------------------------------------
  // serializeModuleConfig
  // ---------------------------------------------------------------------

  /** `LESSON_TYPE_ABBREV[lessonType]` as `Array.join` renders it: an unlisted type becomes the empty string. */
  function AbbrevOrEmpty(lessonType: string): string
  {
    match LessonTypes.TypeToAbbrev(lessonType)
    case Some(abbrev) => abbrev
    case None => ""
  }

  /** One lesson token: the abbreviation, `:`, and the URI-encoded class number. */
  function LessonToken(lessonType: string, classNo: string): string
  {
    AbbrevOrEmpty(lessonType) + ":" + QueryString.Escape(classNo)
  }

  /** The tokens of a configuration, in its key order. */
  function Tokens(config: Lessons.ModuleLessonConfig): (tokens: seq<string>)
    ensures |tokens| == |config|
  {
    seq(|config|, i requires 0 <= i < |config| => LessonToken(config[i].0, config[i].1))
  }

  /** `serializeModuleConfig`: the tokens joined by `,`. */
  function SerializeModuleConfig(config: Lessons.ModuleLessonConfig): string
  {
    Join(Tokens(config), ",")
  }

  // ---------------------------------------------------------------------
  // parseModuleConfig
  // ---------------------------------------------------------------------

  /** `lesson.split(':')` destructured: the first piece, and the second when there is one. */
  function TokenParts(token: string): (string, Option<string>)
  {
    var parts := Split(token, ':');
    (parts[0], if |parts| > 1 then Some(parts[1]) else None)
  }

  /**
   * The inner `forEach` callback of `parseModuleConfig`, on one lesson
   * token: an unknown abbreviation is ignored, a known one (re)assigns its
   * type. Only the table's own entries count as known.
   */
  function ApplyToken(config: ParsedModuleConfig, token: string): ParsedModuleConfig
  {
    match LessonTypes.AbbrevToType(TokenParts(token).0)
    case None => config
    case Some(lessonType) => Put(config, lessonType, TokenParts(token).1)
  }

  /** The tokens applied in order. */
  function ApplyTokens(config: ParsedModuleConfig, tokens: seq<string>): ParsedModuleConfig
  {
    if |tokens| == 0 then config
    else ApplyToken(ApplyTokens(config, tokens[..|tokens| - 1]), tokens[|tokens| - 1])
  }

  /** One more token is applied after the earlier ones. */
  lemma ApplyTokensSnoc(config: ParsedModuleConfig, tokens: seq<string>, token: string)
    ensures ApplyTokens(config, tokens + [token]) == ApplyToken(ApplyTokens(config, tokens), token)
  {
    assert (tokens + [token])[..|tokens|] == tokens;
  }

  /** Each serialized module split on `,` and its tokens applied, one module after another. */
  function ApplyModules(config: ParsedModuleConfig, modules: seq<string>): ParsedModuleConfig
  {
    if |modules| == 0 then config
    else ApplyTokens(ApplyModules(config, modules[..|modules| - 1]), Split(modules[|modules| - 1], ','))
  }

  /** One more serialized module is applied after the earlier ones. */
  lemma ApplyModulesSnoc(modules: seq<string>, serializedModule: string)
    ensures ApplyModules([], modules + [serializedModule]) == ApplyTokens(ApplyModules([], modules), Split(serializedModule, ','))
  {
    assert (modules + [serializedModule])[..|modules|] == modules;
  }

  /** Whether `!serialized` holds: `null` and the empty string are falsy, an array never is. */
  predicate IsFalsy(serialized: Serialized)
  {
    serialized.Null? || serialized == One("")
  }

  /** lodash `castArray`: one string becomes a one-element array. */
  function CastArray(serialized: Serialized): seq<string>
  {
    match serialized
    case Null => []
    case One(s) => [s]
    case Many(items) => items
  }

  /**
   * What `parseModuleConfig` returns: nothing for a falsy input, otherwise
   * every string's tokens applied to an empty configuration.
   */
  function ModuleConfigOf(serialized: Serialized): ParsedModuleConfig
  {
    if IsFalsy(serialized) then [] else ApplyModules([], CastArray(serialized))
  }

  /** The outer callback of `parseModuleConfig`, on one serialized module: its lesson tokens, one after another. */
  method ParseModuleTokens(config: ParsedModuleConfig, serializedModule: string) returns (r: ParsedModuleConfig)
    ensures r == ApplyTokens(config, Split(serializedModule, ','))
  {
    var lessons := Split(serializedModule, ',');
    r := config;
    var k := 0;
    while k < |lessons|
      invariant 0 <= k <= |lessons|
      invariant r == ApplyTokens(config, lessons[..k])
    {
      r := ApplyToken(r, lessons[k]);
      Seqs.TakeOneMore(lessons, k);
      ApplyTokensSnoc(config, lessons[..k], lessons[k]);
      k := k + 1;
    }
    assert lessons[..k] == lessons;
  }

  /** `parseModuleConfig`: nothing for an empty input, otherwise every serialized module's tokens in turn. */
  method ParseModuleConfig(serialized: Serialized) returns (config: ParsedModuleConfig)
    ensures config == ModuleConfigOf(serialized)
    ensures serialized == Null || serialized == One("") || serialized == Many([]) ==> config == []
  {
    config := [];
    if IsFalsy(serialized) {
      return;
    }
    var modules := CastArray(serialized);
    var m := 0;
    while m < |modules|
      invariant 0 <= m <= |modules|
      invariant config == ApplyModules([], modules[..m])
    {
      config := ParseModuleTokens(config, modules[m]);
      Seqs.TakeOneMore(modules, m);
      ApplyModulesSnoc(modules[..m], modules[m]);
      m := m + 1;
    }
    assert modules[..m] == modules;
  }

  // ---------------------------------------------------------------------
  // What the parser keeps
  // ---------------------------------------------------------------------

  /** A lesson type the later tokens do not name keeps the class number it had. */
  lemma {:induction false} UntouchedTypeKeepsClass(config: ParsedModuleConfig, tokens: seq<string>, lessonType: string)
    requires forall j :: 0 <= j < |tokens| ==> LessonTypes.AbbrevToType(TokenParts(tokens[j]).0) != Some(lessonType)
    ensures Get(ApplyTokens(config, tokens), lessonType) == Get(config, lessonType)
  {
    if |tokens| > 0 {
      UntouchedTypeKeepsClass(config, tokens[..|tokens| - 1], lessonType);
    }
  }

  /** The last token naming a lesson type decides its class number. */
  lemma {:induction false} LastWriteWins(config: ParsedModuleConfig, tokens: seq<string>, lessonType: string, k: nat)
    requires k < |tokens|
    requires LessonTypes.AbbrevToType(TokenParts(tokens[k]).0) == Some(lessonType)
    requires forall j :: k < j < |tokens| ==> LessonTypes.AbbrevToType(TokenParts(tokens[j]).0) != Some(lessonType)
    ensures Get(ApplyTokens(config, tokens), lessonType) == Some(TokenParts(tokens[k]).1)
  {
    var n := |tokens| - 1;
    if k < n {
      LastWriteWins(config, tokens[..n], lessonType, k);
    } else {
      assert tokens[..n + 1] == tokens;
    }
  }

  /** A token for a lesson type the table does not list (serialized as `:classNo`) is ignored. */
  lemma UnlistedTypeDropped(config: ParsedModuleConfig, lessonType: string, classNo: string)
    requires !LessonTypes.IsLessonType(lessonType)
    ensures ApplyToken(config, LessonToken(lessonType, classNo)) == config
  {
    assert LessonTypes.TypeToAbbrev(lessonType) == None;
    var token := LessonToken(lessonType, classNo);
    assert token == ":" + QueryString.Escape(classNo);
    assert token[0] == ':';
    assert TokenParts(token).0 == "";
    match LessonTypes.AbbrevToType("")
    case None =>
    case Some(t) =>
      LessonTypes.AbbrevInverse(t, "");
      LessonTypes.AbbrevShape(t);
      assert false;
  }

  /** A token that is a bare abbreviation, without `:`, assigns its type no class number (`undefined`). */
  lemma BareAbbrevHasNoClass(config: ParsedModuleConfig, lessonType: string)
    requires LessonTypes.IsLessonType(lessonType)
    ensures ApplyToken(config, AbbrevOrEmpty(lessonType)) == Put(config, lessonType, None)
  {
    LessonTypes.TypeRoundTrip(lessonType);
    LessonTypes.AbbrevShape(lessonType);
    SplitFree(AbbrevOrEmpty(lessonType), ':');
  }

  /** A token keeps the keys distinct and adds only a listed lesson type. */
  lemma ApplyTokenRecognised(config: ParsedModuleConfig, token: string)
    requires Recognised(config)
    ensures Recognised(ApplyToken(config, token))
  {
    var abbrev := TokenParts(token).0;
    if LessonTypes.AbbrevToType(abbrev).Some? {
      LessonTypes.AbbrevNamesListedType(abbrev);
      var r := Put(config, LessonTypes.AbbrevToType(abbrev).value, TokenParts(token).1);
      assert forall i :: 0 <= i < |r| ==> r[i].0 == Keys(r)[i];
      assert forall i :: 0 <= i < |config| ==> config[i].0 == Keys(config)[i];
    }
  }

  lemma {:induction false} ApplyTokensRecognised(config: ParsedModuleConfig, tokens: seq<string>)
    requires Recognised(config)
    ensures Recognised(ApplyTokens(config, tokens))
  {
    if |tokens| > 0 {
      ApplyTokensRecognised(config, tokens[..|tokens| - 1]);
      ApplyTokenRecognised(ApplyTokens(config, tokens[..|tokens| - 1]), tokens[|tokens| - 1]);
    }
  }

  lemma {:induction false} ApplyModulesRecognised(config: ParsedModuleConfig, modules: seq<string>)
    requires Recognised(config)
    ensures Recognised(ApplyModules(config, modules))
  {
    if |modules| > 0 {
      ApplyModulesRecognised(config, modules[..|modules| - 1]);
      ApplyTokensRecognised(ApplyModules(config, modules[..|modules| - 1]), Split(modules[|modules| - 1], ','));
    }
  }

  /** Whatever the input, the parsed configuration has distinct keys, all of them listed lesson types. */
  lemma ParsedConfigRecognised(serialized: Serialized)
    ensures Recognised(ModuleConfigOf(serialized))
  {
    if !IsFalsy(serialized) {
      var none: ParsedModuleConfig := [];
      ApplyModulesRecognised(none, CastArray(serialized));
    }
  }

  // ---------------------------------------------------------------------
  // The reverse table as a plain object
  // ---------------------------------------------------------------------

  /** The properties every plain JavaScript object inherits from `Object.prototype`. */
  const InheritedNames: seq<string> := [
    "constructor", "__defineGetter__", "__defineSetter__", "hasOwnProperty",
    "__lookupGetter__", "__lookupSetter__", "isPrototypeOf", "propertyIsEnumerable",
    "toString", "valueOf", "__proto__", "toLocaleString"
  ]

  /**
   * The text an inherited property turns into when it is used as a property
   * key: the prototype object itself for `__proto__`, otherwise the source
   * text of a native function (`constructor` is the `Object` function).
   */
  function InheritedKey(name: string): (key: string)
    ensures |key| > 0 && key[0] in "f["
  {
    if name == "__proto__" then "[object Object]"
    else "function " + (if name == "constructor" then "Object" else name) + "() { [native code] }"
  }

  /**
   * `LESSON_ABBREV_TYPE[lessonTypeAbbr]` as the code reads it: the table is
   * a plain object, so an abbreviation naming an inherited property finds
   * that property, which is truthy.
   */
  function AbbrevToTypeAsWritten(abbrev: string): Option<string>
  {
    match LessonTypes.AbbrevToType(abbrev)
    case Some(lessonType) => Some(lessonType)
    case None => if abbrev in InheritedNames then Some(InheritedKey(abbrev)) else None
  }

  /** One lesson token applied with the lookup as written. */
  function ApplyTokenAsWritten(config: ParsedModuleConfig, token: string): ParsedModuleConfig
  {
    match AbbrevToTypeAsWritten(TokenParts(token).0)
    case None => config
    case Some(lessonType) => Put(config, lessonType, TokenParts(token).1)
  }

  /**
   * As written, a token whose abbreviation names an inherited property is
   * not ignored: it stores the class number under a key that is no lesson
   * type. `ApplyToken`, which looks up only the table's own entries,
   * ignores it.
   */
  lemma InheritedAbbrevAccepted(config: ParsedModuleConfig, abbrev: string, classNo: string)
    requires abbrev in InheritedNames && ':' !in classNo
    ensures ApplyTokenAsWritten(config, abbrev + ":" + classNo) == Put(config, InheritedKey(abbrev), Some(classNo))
    ensures !LessonTypes.IsLessonType(InheritedKey(abbrev))
    ensures ApplyToken(config, abbrev + ":" + classNo) == config
  {
    InheritedNamesShape();
    TwoParts(abbrev, classNo);
    InheritedNameIsNoAbbrev(abbrev);
    LessonTypes.LessonTypesStartCapital();
  }

  /** The token `constructor:<classNo>`, for instance, adds an entry that is no lesson type; `ApplyToken` ignores it. */
  lemma ConstructorTokenAccepted(classNo: string)
    requires ':' !in classNo
    ensures ApplyTokenAsWritten([], "constructor" + ":" + classNo) == [(InheritedKey("constructor"), Some(classNo))]
    ensures !Recognised(ApplyTokenAsWritten([], "constructor" + ":" + classNo))
    ensures ApplyToken([], "constructor" + ":" + classNo) == []
  {
    var none: ParsedModuleConfig := [];
    assert InheritedNames[0] == "constructor";
    InheritedAbbrevAccepted(none, "constructor", classNo);
    PutNew(none, InheritedKey("constructor"), Some(classNo));
  }

  /** The tokens applied in order, with the lookup as written. */
  function ApplyTokensAsWritten(config: ParsedModuleConfig, tokens: seq<string>): ParsedModuleConfig
  {
    if |tokens| == 0 then config
    else ApplyTokenAsWritten(ApplyTokensAsWritten(config, tokens[..|tokens| - 1]), tokens[|tokens| - 1])
  }

  /** Every serialized module's tokens in turn, with the lookup as written. */
  function ApplyModulesAsWritten(config: ParsedModuleConfig, modules: seq<string>): ParsedModuleConfig
  {
    if |modules| == 0 then config
    else ApplyTokensAsWritten(ApplyModulesAsWritten(config, modules[..|modules| - 1]), Split(modules[|modules| - 1], ','))
  }

  /** `parseModuleConfig` with the lookup as written. */
  function ModuleConfigOfAsWritten(serialized: Serialized): ParsedModuleConfig
  {
    if IsFalsy(serialized) then [] else ApplyModulesAsWritten([], CastArray(serialized))
  }

  /** `deserializeTimetable` with the lookup as written. */
  function DeserializeTimetableAsWritten(serialized: string): ParsedTimetable
  {
    var params := QueryString.Parse(serialized);
    seq(|params|, i requires 0 <= i < |params| => (params[i].0, ModuleConfigOfAsWritten(AsSerialized(params[i].1))))
  }

  /**
   * As written, the module text `constructor:<classNo>` parses to an entry
   * whose key is no lesson type; the intended parser gives `{}`.
   */
  lemma ConstructorModuleAsWritten(classNo: string)
    requires ':' !in classNo && ',' !in classNo
    ensures ModuleConfigOfAsWritten(One("constructor:" + classNo)) == [(InheritedKey("constructor"), Some(classNo))]
    ensures !Recognised(ModuleConfigOfAsWritten(One("constructor:" + classNo)))
    ensures ModuleConfigOf(One("constructor:" + classNo)) == []
  {
    var v := "constructor:" + classNo;
    assert v == "constructor" + ":" + classNo;
    assert ',' !in v by {
      assert forall i :: 0 <= i < |v| ==> v[i] == ':' || v[i] in "constructor" || v[i] in classNo;
    }
    SplitFree(v, ',');
    var none: seq<string> := [];
    var empty: ParsedModuleConfig := [];
    assert [v][..0] == none && [v][0] == v;
    assert ApplyModulesAsWritten(empty, [v]) == ApplyTokensAsWritten(empty, [v]);
    assert ApplyTokensAsWritten(empty, [v]) == ApplyTokenAsWritten(empty, v);
    OneModule(v);
    assert ApplyTokens(empty, [v]) == ApplyToken(empty, v);
    ConstructorTokenAccepted(classNo);
  }

  /**
   * The share link for one module whose text is `constructor:<classNo>`
   * (`CS1010=constructor%3A1`, say) deserializes, as written, to a module
   * whose configuration holds a key that is no lesson type; the intended
   * parser gives the module an empty configuration.
   */
  lemma ConstructorLinkAsWritten(code: string, classNo: string)
    requires ':' !in classNo && ',' !in classNo
    ensures var link := QueryString.Stringify([(code, "constructor:" + classNo)]);
      && DeserializeTimetableAsWritten(link) == [(code, [(InheritedKey("constructor"), Some(classNo))])]
      && DeserializeTimetable(link) == [(code, [])]
  {
    var obj := [(code, "constructor:" + classNo)];
    assert Keys(obj) == [code];
    QueryString.ParseStringify(obj);
    ConstructorModuleAsWritten(classNo);
  }

  /** Inherited property names start with a lower-case letter or `_`, and hold no `:`. */
  lemma InheritedNamesShape()
    ensures forall i :: 0 <= i < |InheritedNames| ==>
      |InheritedNames[i]| > 0 && !LessonTypes.UpperOrDigit(InheritedNames[i][0]) && ':' !in InheritedNames[i]
  {
  }

  /** No inherited property name is one of the table's abbreviations, which are upper case. */
  lemma InheritedNameIsNoAbbrev(abbrev: string)
    requires abbrev in InheritedNames
    ensures LessonTypes.AbbrevToType(abbrev) == None
  {
    InheritedNamesShape();
    assert |abbrev| > 0 && !LessonTypes.UpperOrDigit(abbrev[0]);
    match LessonTypes.AbbrevToType(abbrev)
    case None =>
    case Some(t) =>
      LessonTypes.AbbrevInverse(t, abbrev);
      LessonTypes.AbbrevShape(t);
      assert false;
  }

  // ---------------------------------------------------------------------
  // Round trip of one module's configuration
  // ---------------------------------------------------------------------

  /** What the parser gives back for a configuration: every lesson type with its class number as it was URI-encoded. */
  function ParsedBack(config: Lessons.ModuleLessonConfig): (r: ParsedModuleConfig)
    ensures |r| == |config|
  {
    seq(|config|, i requires 0 <= i < |config| => (config[i].0, Some(QueryString.Escape(config[i].1))))
  }

  /** A configuration seen as a parsed one: every lesson type has a class number. */
  function Lift(config: Lessons.ModuleLessonConfig): ParsedModuleConfig
  {
    seq(|config|, i requires 0 <= i < |config| => (config[i].0, Some(config[i].1)))
  }

  /** A token of a listed type parses back into its type and its encoded class number, and holds no `,`. */
  lemma TokenReadsBack(lessonType: string, classNo: string)
    requires LessonTypes.IsLessonType(lessonType)
    ensures LessonToken(lessonType, classNo) != "" && ',' !in LessonToken(lessonType, classNo)
    ensures var parts := TokenParts(LessonToken(lessonType, classNo));
      LessonTypes.AbbrevToType(parts.0) == Some(lessonType) && parts.1 == Some(QueryString.Escape(classNo))
  {
    LessonTypes.TypeRoundTrip(lessonType);
    LessonTypes.AbbrevShape(lessonType);
    var abbrev := LessonTypes.TypeToAbbrev(lessonType).value;
    var e := QueryString.Escape(classNo);
    QueryString.EscapeOutput(classNo);
    assert ':' in "&=:,+ " && ',' in "&=:,+ ";
    assert LessonToken(lessonType, classNo) == abbrev + ":" + e;
    TwoParts(abbrev, e);
  }

  /** Text and class number free of `:` split back apart at the `:` between them. */
  lemma TwoParts(abbrev: string, classNo: string)
    requires ':' !in abbrev && ':' !in classNo
    ensures TokenParts(abbrev + ":" + classNo) == (abbrev, Some(classNo))
  {
    assert Join([abbrev, classNo], ":") == abbrev + ":" + classNo by {
      assert [abbrev, classNo][1..] == [classNo];
    }
    SplitJoin([abbrev, classNo], ':');
  }

  /** Applying a token of a listed type assigns its encoded class number to that type. */
  lemma TokenApplies(config: ParsedModuleConfig, lessonType: string, classNo: string)
    requires LessonTypes.IsLessonType(lessonType)
    ensures ApplyToken(config, LessonToken(lessonType, classNo)) == Put(config, lessonType, Some(QueryString.Escape(classNo)))
  {
    TokenReadsBack(lessonType, classNo);
  }

  /** The next token of a configuration with distinct keys appends its entry. */
  lemma FreshTokenStep(config: Lessons.ModuleLessonConfig, n: nat)
    requires DistinctKeys(config) && n < |config| && LessonTypes.IsLessonType(config[n].0)
    ensures ApplyToken(ParsedBack(config)[..n], Tokens(config)[n]) == ParsedBack(config)[..n + 1]
  {
    var want := ParsedBack(config);
    var t, v := config[n].0, config[n].1;
    var before := want[..n];
    var entry := (t, Some(QueryString.Escape(v)));
    TokenApplies(before, t, v);
    FreshKey(config, n);
    PutNew(before, t, entry.1);
    assert want[n] == entry;
    Seqs.TakeOneMore(want, n);
  }

  /** The key at position `n` of a configuration with distinct keys is not among the parsed entries before it. */
  lemma FreshKey(config: Lessons.ModuleLessonConfig, n: nat)
    requires DistinctKeys(config) && n < |config|
    ensures config[n].0 !in Keys(ParsedBack(config)[..n])
  {
    var before := ParsedBack(config)[..n];
    assert forall i :: 0 <= i < n ==> Keys(before)[i] == config[i].0;
  }

  /** Applying the tokens of a configuration with distinct listed keys rebuilds it, encoded, entry by entry. */
  lemma {:induction false} FreshTokens(config: Lessons.ModuleLessonConfig, n: nat)
    requires Recognised(config) && n <= |config|
    ensures ApplyTokens([], Tokens(config)[..n]) == ParsedBack(config)[..n]
  {
    var tokens := Tokens(config);
    if n == 0 {
      assert tokens[..0] == [];
    } else {
      FreshTokens(config, n - 1);
      assert tokens[..n][..n - 1] == tokens[..n - 1];
      FreshTokenStep(config, n - 1);
    }
  }

  /** A non-empty configuration with listed keys serializes to a non-empty text that splits into its tokens. */
  lemma SerializedSplits(config: Lessons.ModuleLessonConfig)
    requires |config| > 0
    requires forall i :: 0 <= i < |config| ==> LessonTypes.IsLessonType(config[i].0)
    ensures SerializeModuleConfig(config) != ""
    ensures Split(SerializeModuleConfig(config), ',') == Tokens(config)
  {
    var tokens := Tokens(config);
    forall i | 0 <= i < |tokens|
      ensures ',' !in tokens[i]
    {
      TokenReadsBack(config[i].0, config[i].1);
    }
    SplitJoin(tokens, ',');
    assert tokens[0] != "";
  }

  /** A non-empty string is parsed as one serialized module. */
  lemma OneModule(s: string)
    requires s != ""
    ensures ModuleConfigOf(One(s)) == ApplyTokens([], Split(s, ','))
  {
    var none: seq<string> := [];
    var empty: ParsedModuleConfig := [];
    assert [s][..0] == none && [s][0] == s;
    assert ApplyModules(empty, none) == empty;
    assert ApplyModules(empty, [s]) == ApplyTokens(ApplyModules(empty, [s][..0]), Split([s][0], ','));
  }

  /**
   * Parsing a serialized configuration whose keys are distinct listed
   * lesson types gives back every lesson type in order, each with its class
   * number as it was URI-encoded.
   */
  lemma ModuleConfigRoundTrip(config: Lessons.ModuleLessonConfig)
    requires Recognised(config)
    ensures ModuleConfigOf(Serialized.One(SerializeModuleConfig(config))) == ParsedBack(config)
  {
    if |config| == 0 {
      assert SerializeModuleConfig(config) == "";
    } else {
      NonEmptyRoundTrip(config);
    }
  }

  lemma NonEmptyRoundTrip(config: Lessons.ModuleLessonConfig)
    requires Recognised(config) && |config| > 0
    ensures ModuleConfigOf(Serialized.One(SerializeModuleConfig(config))) == ParsedBack(config)
  {
    var s := SerializeModuleConfig(config);
    SerializedSplits(config);
    OneModule(s);
    FreshTokens(config, |config|);
    Seqs.TakeAll(Tokens(config));
    Seqs.TakeAll(ParsedBack(config));
  }


  /** Class numbers made of characters URI encoding keeps come back exactly as they were. */
  lemma PlainModuleConfigRoundTrip(config: Lessons.ModuleLessonConfig)
    requires Recognised(config)
    requires forall i, j :: 0 <= i < |config| && 0 <= j < |config[i].1| ==> QueryString.Kept(config[i].1[j])
    ensures ModuleConfigOf(Serialized.One(SerializeModuleConfig(config))) == Lift(config)
  {
    ModuleConfigRoundTrip(config);
    forall i | 0 <= i < |config|
      ensures QueryString.Escape(config[i].1) == config[i].1
    {
      QueryString.EscapeIdentity(config[i].1);
    }
  }

  // ---------------------------------------------------------------------
  // serializeTimetable / deserializeTimetable
  // ---------------------------------------------------------------------

  /** Every module's configuration serialized, under its module code. */
  function SerializedModules(timetable: Lessons.SemTimetableConfig): (r: seq<(string, string)>)
    ensures |r| == |timetable| && forall i :: 0 <= i < |r| ==> r[i].0 == timetable[i].0
  {
    seq(|timetable|, i requires 0 <= i < |timetable| => (timetable[i].0, SerializeModuleConfig(timetable[i].1)))
  }

  /** `serializeTimetable`: the serialized configurations as a query string keyed by module code. */
  function SerializeTimetable(timetable: Lessons.SemTimetableConfig): string
  {
    QueryString.Stringify(SerializedModules(timetable))
  }

  /** A query-string value as the module parser receives it. */
  function AsSerialized(value: QueryString.Value): Serialized
  {
    match value
    case Str(s) => One(s)
    case Arr(items) => Many(items)
  }

  /** `deserializeTimetable`: the query string parsed, each parameter's value parsed as a module configuration. */
  function DeserializeTimetable(serialized: string): ParsedTimetable
  {
    var params := QueryString.Parse(serialized);
    seq(|params|, i requires 0 <= i < |params| => (params[i].0, ModuleConfigOf(AsSerialized(params[i].1))))
  }

  /** A deserialized timetable has distinct module codes, and every configuration has distinct listed lesson types. */
  lemma DeserializedRecognised(serialized: string)
    ensures DistinctKeys(DeserializeTimetable(serialized))
    ensures forall i :: 0 <= i < |DeserializeTimetable(serialized)| ==> Recognised(DeserializeTimetable(serialized)[i].1)
  {
    var r := DeserializeTimetable(serialized);
    QueryString.ParseDistinctKeys([], Split(serialized, '&'));
    forall i | 0 <= i < |r|
      ensures Recognised(r[i].1)
    {
      ParsedConfigRecognised(AsSerialized(QueryString.Parse(serialized)[i].1));
    }
  }

  /**
   * Deserializing a serialized timetable whose module codes are distinct and
   * whose configurations have distinct listed lesson types gives back every
   * module in order, each with its configuration as the module round trip
   * gives it.
   */
  lemma TimetableRoundTrip(timetable: Lessons.SemTimetableConfig)
    requires DistinctKeys(timetable)
    requires forall i :: 0 <= i < |timetable| ==> Recognised(timetable[i].1)
    ensures DeserializeTimetable(SerializeTimetable(timetable))
         == seq(|timetable|, i requires 0 <= i < |timetable| => (timetable[i].0, ParsedBack(timetable[i].1)))
  {
    var modules := SerializedModules(timetable);
    QueryString.ParseStringify(modules);
    forall i | 0 <= i < |timetable|
      ensures ModuleConfigOf(One(modules[i].1)) == ParsedBack(timetable[i].1)
    {
      ModuleConfigRoundTrip(timetable[i].1);
    }
  }
}
