/** What cleaning does to a whole type: it changes names only, and cleaning again changes nothing more. */
module SchemaRenaming {
  import opened Basics
  import opened LogicalSchemas
  import opened NameCleaning
  import opened SiblingNames
  import opened SchemaNames
  import opened ReservedNames
  import opened SchemaEvolution

  /** Equal but for the names of fields. */
  predicate OnlyRenamed(t: LogicalType, r: LogicalType) {
    match t
    case Scalar(_) => r == t
    case List(value) => r.List? && OnlyRenamed(value, r.value)
    case Struct(fields) =>
      && r.Struct? && |r.fields| == |fields|
      && forall k :: 0 <= k < |fields| ==>
           r.fields[k].nullable == fields[k].nullable && OnlyRenamed(fields[k].typ, r.fields[k].typ)
  }

  /** Cleaning changes nothing but names, and no name under the preserving policy. */
  lemma {:induction false} OnlyNamesChange(hash: string -> nat, options: Options, t: LogicalType)
    ensures OnlyRenamed(t, SanitizeType(hash, options, t))
    ensures options.policy == Preserve ==> SanitizeType(hash, options, t) == t
  {
    hide Cleaned;
    match t
    case Scalar(_) =>
    case List(value) => OnlyNamesChange(hash, options, value);
    case Struct(fields) =>
      var r := SanitizeFields(hash, options, fields);
      forall k | 0 <= k < |fields|
        ensures OnlyRenamed(fields[k].typ, r[k].typ) && (options.policy == Preserve ==> r[k].typ == fields[k].typ)
      {
        OnlyNamesChange(hash, options, fields[k].typ);
      }
      Preserved(hash, options, FieldNames(fields));
      assert options.policy == Preserve ==> r == fields;
  }

  lemma {:induction false} Preserved(hash: string -> nat, options: Options, names: seq<string>)
    ensures options.policy == Preserve ==> Cleaned(hash, options, names) == names
  {
  }

  /** At the top level reserved names stay, and the others are those of the clean siblings. */
  lemma {:induction false} TopLevelRenamed(hash: string -> nat, options: Options, fields: seq<LogicalField>)
    ensures var r := Restored(hash, options, fields);
            && OnlyRenamed(Struct(fields), Struct(r))
            && forall k :: 0 <= k < |fields| ==>
                 r[k].name == if Reserved(fields[k].name) then fields[k].name
                              else Cleaned(hash, options, FieldNames(fields))[k]
  {
    hide Cleaned, Reserved;
    OnlyNamesChange(hash, options, Struct(fields));
  }

  // -------------------------------------------------------------- clean names

  /** What letters turn into a name of the policy's form. */
  predicate Stem(policy: Policy, s: string) {
    && (forall j :: 0 <= j < |s| ==> Letter(s[j]) || (policy == LowerSnake && (Digit(s[j]) || s[j] == '_')))
    && (s != "" ==> Letter(s[0]))
    && forall j :: 0 <= j < |s| - 1 ==> s[j] != '_' || s[j + 1] != '_'
  }

  lemma {:induction false} StemTakesLetters(policy: Policy, s: string, letters: string)
    requires policy != Preserve && letters != "" && forall j :: 0 <= j < |letters| ==> Letter(letters[j])
    ensures InAlphabet(policy, s + letters) <==> Stem(policy, s)
  {
    var r := s + letters;
    assert forall j :: 0 <= j < |s| ==> r[j] == s[j];
    assert forall j :: |s| <= j < |r| ==> r[j] == letters[j - |s|] && Letter(r[j]);
  }

  lemma {:induction false} CleanIsFixed(options: Options, s: string)
    requires s == options.defaultKey || InAlphabet(options.policy, s)
    ensures CleanBase(options, s) == s
  {
    hide SnakeBase, AlphaBase, Snake, Alpha;
    CleanFormsAreFixed(s);
  }

  // ----------------------------------------------------------- cleaning twice

  /** The exempt default key is not repeated, unless letters make it a clean name. */
  predicate Repeatable(options: Options, names: seq<string>) {
    || options.policy == Preserve || InAlphabet(options.policy, options.defaultKey + "a")
    || forall i, j :: 0 <= i < j < |names| ==> names[i] != options.defaultKey || names[j] != options.defaultKey
  }

  lemma {:induction false} CleanLetters(options: Options, letters: string)
    requires options.policy != Preserve && letters != "" && forall j :: 0 <= j < |letters| ==> Letter(letters[j])
    ensures InAlphabet(options.policy, options.defaultKey + letters) <==>
            InAlphabet(options.policy, options.defaultKey + "a")
  {
    hide InAlphabet, Stem;
    StemTakesLetters(options.policy, options.defaultKey, letters);
    StemTakesLetters(options.policy, options.defaultKey, "a");
  }

  lemma {:induction false} DefaultLengthened(hash: string -> nat, options: Options, names: seq<string>, i: nat)
    requires options.policy != Preserve && i < |names| && names[i] == options.defaultKey
    ensures var c := Cleaned(hash, options, names);
            c[i] != options.defaultKey ==>
            (InAlphabet(options.policy, c[i]) <==> InAlphabet(options.policy, options.defaultKey + "a"))
  {
    hide Cleaned, InAlphabet;
    var c, dk := Cleaned(hash, options, names)[i], options.defaultKey;
    SiblingsInAlphabet(hash, options, names, i);
    if c != dk {
      assert c == dk + c[|dk|..];
      CleanLetters(options, c[|dk|..]);
    }
  }

  lemma {:induction false} DefaultKept(hash: string -> nat, options: Options, names: seq<string>, i: nat)
    requires options.policy != Preserve && i < |names| && names[i] == options.defaultKey
    requires Repeatable(options, names) && !InAlphabet(options.policy, options.defaultKey + "a")
    ensures Cleaned(hash, options, names)[i] == options.defaultKey
  {
    hide Cleaned, InAlphabet, CleanBase;
    var clean, dk := Cleaned(hash, options, names), options.defaultKey;
    var m := CleanedGrows(hash, options, names, i);
    CleanWithA(options);
    if clean[i] != dk && !Shared(options, names, i) { SiblingsInAlphabet(hash, options, names, m); }
  }

  lemma {:induction false} CleanWithA(options: Options)
    ensures InAlphabet(options.policy, options.defaultKey) ==> InAlphabet(options.policy, options.defaultKey + "a")
  {
    if InAlphabet(options.policy, options.defaultKey) {
      LettersStayInAlphabet(options.policy, options.defaultKey, "a");
    }
  }

  lemma {:induction false} CleanedFixed(hash: string -> nat, options: Options, names: seq<string>, i: nat)
    requires options.policy != Preserve && i < |names| && Repeatable(options, names)
    ensures var c := Cleaned(hash, options, names)[i]; c == options.defaultKey || InAlphabet(options.policy, c)
  {
    hide Cleaned, InAlphabet, Repeatable;
    SiblingsInAlphabet(hash, options, names, i);
    if names[i] == options.defaultKey {
      DefaultLengthened(hash, options, names, i);
      if !InAlphabet(options.policy, options.defaultKey + "a") { DefaultKept(hash, options, names, i); }
    }
  }

  lemma {:induction false} RepeatedDefaultMoves(hash: string -> nat, options: Options, names: seq<string>)
    requires !Repeatable(options, names)
    ensures var c := Cleaned(hash, options, names); Cleaned(hash, options, c) != c
  {
    hide Cleaned, InAlphabet;
    var c, dk := Cleaned(hash, options, names), options.defaultKey;
    var i, j :| 0 <= i < j < |names| && names[i] == dk && names[j] == dk;
    assert CleanBase(options, names[j]) == CleanBase(options, names[i]);
    var m := CleanedGrows(hash, options, names, i);
    assert Shared(options, names, i) && c[i] != dk;
    DefaultLengthened(hash, options, names, i);
    SiblingsInAlphabet(hash, options, c, i);
  }

  /** Cleaning clean siblings again changes nothing, exactly when the default key is not repeated or can be
      lengthened into a clean name. */
  lemma {:induction false} CleanedTwiceExactly(hash: string -> nat, options: Options, names: seq<string>)
    ensures var c := Cleaned(hash, options, names);
            Cleaned(hash, options, c) == c <==> Repeatable(options, names)
  {
    hide Cleaned, Repeatable, InAlphabet;
    var c := Cleaned(hash, options, names);
    if options.policy == Preserve {
      Preserved(hash, options, names);
      PreservedRepeats(options, names);
    } else if Repeatable(options, names) {
      forall i | 0 <= i < |c| ensures CleanBase(options, c[i]) == c[i] {
        CleanedFixed(hash, options, names, i);
        CleanIsFixed(options, c[i]);
      }
      SiblingsDistinct(hash, options, names);
      assert Bases(options, c) == c;
      DistinctBasesKept(hash, options, c);
    } else {
      RepeatedDefaultMoves(hash, options, names);
    }
  }

  lemma {:induction false} PreservedRepeats(options: Options, names: seq<string>)
    ensures options.policy == Preserve ==> Repeatable(options, names)
  {
  }

  /** Two siblings under a default key that no letters make clean. */
  lemma {:induction false} RepeatedDefaultKey(hash: string -> nat)
    ensures var options := Options(LowerSnake, "_v");
            var c := Cleaned(hash, options, ["_v", "_v"]); Cleaned(hash, options, c) != c
  {
    var options, names := Options(LowerSnake, "_v"), ["_v", "_v"];
    assert names[0] == names[1] == "_v" && ("_v" + "a")[0] == '_';
    RepeatedDefaultMoves(hash, options, names);
  }

  predicate RepeatableType(options: Options, t: LogicalType) {
    match t
    case Scalar(_) => true
    case List(value) => RepeatableType(options, value)
    case Struct(fields) =>
      Repeatable(options, FieldNames(fields)) && forall k :: 0 <= k < |fields| ==>
        RepeatableType(options, fields[k].typ)
  }

  lemma {:induction false} FieldsTwice(hash: string -> nat, options: Options, fields: seq<LogicalField>, k: nat)
    requires k < |fields|
    ensures var r := SanitizeFields(hash, options, fields);
            var clean := Cleaned(hash, options, FieldNames(fields));
            && SanitizeFields(hash, options, r)[k] ==
               LogicalField(Cleaned(hash, options, clean)[k], fields[k].nullable,
                            SanitizeType(hash, options, SanitizeType(hash, options, fields[k].typ)))
            && r[k] == LogicalField(clean[k], fields[k].nullable, SanitizeType(hash, options, fields[k].typ))
  {
    hide Cleaned;
    var r := SanitizeFields(hash, options, fields);
    assert FieldNames(r) == Cleaned(hash, options, FieldNames(fields));
  }

  ghost predicate Settled(hash: string -> nat, options: Options, t: LogicalType) {
    var r := SanitizeType(hash, options, t);
    SanitizeType(hash, options, r) == r
  }

  lemma {:induction false} LevelTwice(hash: string -> nat, options: Options, fields: seq<LogicalField>)
    ensures var r, clean := SanitizeFields(hash, options, fields), Cleaned(hash, options, FieldNames(fields));
            SanitizeFields(hash, options, r) == r <==>
            Cleaned(hash, options, clean) == clean &&
            forall k :: 0 <= k < |fields| ==> Settled(hash, options, fields[k].typ)
  {
    hide Cleaned, SanitizeFields, SanitizeType;
    var r, clean := SanitizeFields(hash, options, fields), Cleaned(hash, options, FieldNames(fields));
    var twice, again := SanitizeFields(hash, options, r), Cleaned(hash, options, clean);
    forall k | 0 <= k < |fields|
      ensures twice[k] == r[k] <==> again[k] == clean[k] && Settled(hash, options, fields[k].typ)
    {
      FieldsTwice(hash, options, fields, k);
    }
    hide Settled;
    assert twice == r <==> forall k :: 0 <= k < |fields| ==> twice[k] == r[k];
    assert again == clean <==> forall k :: 0 <= k < |fields| ==> again[k] == clean[k];
  }

  /** The same for every struct level of a type. */
  lemma {:induction false} SanitizeTwiceExactly(hash: string -> nat, options: Options, t: LogicalType)
    ensures var r := SanitizeType(hash, options, t);
            SanitizeType(hash, options, r) == r <==> RepeatableType(options, t)
  {
    match t
    case Scalar(_) =>
    case List(value) => SanitizeTwiceExactly(hash, options, value);
    case Struct(fields) =>
      hide Cleaned, Repeatable, SanitizeFields;
      forall k | 0 <= k < |fields|
        ensures Settled(hash, options, fields[k].typ) <==> RepeatableType(options, fields[k].typ)
      {
        SanitizeTwiceExactly(hash, options, fields[k].typ);
      }
      hide Settled;
      LevelTwice(hash, options, fields);
      CleanedTwiceExactly(hash, options, FieldNames(fields));
  }
}
