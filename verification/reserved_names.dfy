/** The column names the pipeline adds itself, put back after the top level of a schema has been cleaned. */
module ReservedNames {
  import opened Basics
  import opened LogicalSchemas
  import opened NameOrder
  import opened NameCleaning
  import opened SiblingNames
  import opened SchemaNames
  import opened SchemaEvolution
  import SchemaOrder

  predicate Reserved(name: string) {
    name == "schema_registry" || name == "schema_drifts" || name == "source_file" || name == "ingestion_timestamp"
  }

  /** Where the last word of a reserved name begins. */
  function LastWord(name: string): nat {
    if name == "ingestion_timestamp" then 10 else 7
  }

  lemma {:induction false} SchemaNamesForm()
    ensures Snake("schema_registry") && Snake("schema_drifts")
  {
  }

  lemma {:induction false} RowNamesForm()
    ensures Snake("source_file") && Snake("ingestion_timestamp")
  {
  }

  lemma {:induction false} ReservedForm(name: string)
    requires Reserved(name)
    ensures Snake(name) && !Alpha(name)
    ensures LastWord(name) <= |name| < LastWord(name) + 10 && name[LastWord(name) - 1] == '_'
  {
    hide Snake;
    SchemaNamesForm();
    RowNamesForm();
    assert name[LastWord(name) - 1] == '_';
  }

  /** The cleaned top level, with every reserved name as it was. */
  function Restored(hash: string -> nat, options: Options, fields: seq<LogicalField>): (r: seq<LogicalField>)
    ensures |r| == |fields|
  {
    var clean := SanitizeFields(hash, options, fields);
    seq(|fields|, k requires 0 <= k < |fields| =>
      if Reserved(fields[k].name) then clean[k].(name := fields[k].name) else clean[k])
  }

  method SanitizeSchemaFieldNames(hash: string -> nat, options: Options, fields: seq<LogicalField>)
    returns (out: seq<LogicalField>)
    ensures out == Restored(hash, options, fields)
  {
    var clean := SanitizeFields(hash, options, fields);
    out := clean;
    for index := 0 to |fields|
      invariant |out| == |fields|
      invariant forall k :: 0 <= k < index ==> out[k] == Restored(hash, options, fields)[k]
      invariant forall k :: index <= k < |out| ==> out[k] == clean[k]
    {
      if Reserved(fields[index].name) {
        out := out[index := out[index].(name := fields[index].name)];
      }
    }
  }

  // ------------------------------------------------------- when names stay apart

  /** Adding a suffix to `base` could give `name`. */
  ghost predicate Reaches(base: string, name: string) {
    Lengthens(base, name) && |base| + INITIAL_SUFFIX_LENGTH <= |name|
  }

  predicate ReservedOnce(names: seq<string>) {
    forall i, j :: 0 <= i < j < |names| && Reserved(names[i]) ==> names[i] != names[j]
  }

  ghost predicate Untaken(names: seq<string>, clean: seq<string>)
    requires |clean| == |names|
  {
    forall i, j :: 0 <= i < |names| && 0 <= j < |names| && Reserved(names[i]) && !Reserved(names[j]) ==>
      clean[j] != names[i]
  }

  /** No base that siblings share could be lengthened into a reserved name that occurs. */
  ghost predicate OutOfReach(options: Options, names: seq<string>) {
    forall i, j :: 0 <= i < |names| && 0 <= j < |names| && Reserved(names[i]) && !Reserved(names[j]) ==>
      !(Shared(options, names, j) && Reaches(CleanBase(options, names[j]), names[i]))
  }

  predicate Shared(options: Options, names: seq<string>, j: nat)
    requires j < |names|
  {
    exists k :: 0 <= k < |names| && k != j && CleanBase(options, names[k]) == CleanBase(options, names[j])
  }

  lemma {:induction false} RestoredNames(hash: string -> nat, options: Options, fields: seq<LogicalField>)
    ensures var names, clean := FieldNames(fields), Cleaned(hash, options, FieldNames(fields));
            FieldNames(Restored(hash, options, fields)) ==
            seq(|names|, k requires 0 <= k < |names| => if Reserved(names[k]) then names[k] else clean[k])
  {
    hide Cleaned, Reserved;
  }

  /** Restoring keeps siblings apart exactly when no reserved name is repeated or given to another sibling. */
  lemma {:induction false} RestoredExactly(hash: string -> nat, options: Options, fields: seq<LogicalField>)
    requires options.policy != Preserve
    ensures var names := FieldNames(fields);
            SchemaOrder.UniqueFields(Restored(hash, options, fields)) <==>
            ReservedOnce(names) && Untaken(names, Cleaned(hash, options, names))
  {
    hide Cleaned, Reserved;
    var names, r := FieldNames(fields), Restored(hash, options, fields);
    var clean := Cleaned(hash, options, names);
    SiblingsDistinct(hash, options, names);
    RestoredNames(hash, options, fields);
    forall k | 0 <= k < |fields| ensures SchemaOrder.UniqueNames(r[k].typ) {
      SanitizedUnique(hash, options, fields[k].typ);
    }
    if Distinct(FieldNames(r)) {
      forall i, j | 0 <= i < |names| && 0 <= j < |names| && Reserved(names[i]) && !Reserved(names[j])
        ensures clean[j] != names[i]
      {
        assert FieldNames(r)[i] == names[i] && FieldNames(r)[j] == clean[j];
      }
      forall i, j | 0 <= i < j < |names| && Reserved(names[i]) ensures names[i] != names[j] {
        assert FieldNames(r)[i] == names[i] && (Reserved(names[j]) ==> FieldNames(r)[j] == names[j]);
      }
    }
  }

  // ----------------------------------------------- a condition seen before cleaning

  lemma {:induction false} ProbeGrows(hash: string -> nat, used: set<string>, dirty: string, base: string,
                                      candidate: string, length: nat)
    requires length >= INITIAL_SUFFIX_LENGTH
    requires (candidate == base && length == INITIAL_SUFFIX_LENGTH) || |base| + INITIAL_SUFFIX_LENGTH <= |candidate|
    ensures var p := Probe(hash, used, dirty, base, candidate, length);
            |base| + INITIAL_SUFFIX_LENGTH <= |p| || (p == base == candidate && base !in used)
    decreases MAX_SUFFIX_LENGTH + 1 - length
  {
    if candidate in used && length <= MAX_SUFFIX_LENGTH {
      SuffixLetters(hash, hash(dirty), "", length);
      ProbeGrows(hash, used, dirty, base, WithSuffix(hash, dirty, base, length), length + 1);
    }
  }

  /** A chosen name is the base alone, or at least six letters longer because the base is shared or taken. */
  lemma {:induction false} ChosenGrows(hash: string -> nat, used: set<string>, dirty: string, base: string,
                                       crowded: bool)
    ensures var r := Chosen(hash, used, dirty, base, crowded);
            if crowded || base in used then |base| + INITIAL_SUFFIX_LENGTH <= |r| else r == base
  {
    SuffixLetters(hash, hash(dirty), "", INITIAL_SUFFIX_LENGTH);
    var first := if crowded then WithSuffix(hash, dirty, base, INITIAL_SUFFIX_LENGTH) else base;
    ProbeGrows(hash, used, dirty, base, first, INITIAL_SUFFIX_LENGTH);
  }

  lemma {:induction false} CountedTwice(s: seq<string>, i: nat, j: nat)
    requires i < j < |s| && s[i] == s[j]
    ensures multiset(s)[s[i]] > 1
  {
    assert s == s[..j] + s[j..];
    assert s[i] in s[..j] && s[j] == s[j..][0];
  }

  lemma {:induction false} CountedOnce(s: seq<string>, i: nat)
    requires i < |s| && forall j :: 0 <= j < |s| && j != i ==> s[j] != s[i]
    ensures multiset(s)[s[i]] == 1
  {
    assert s == s[..i] + [s[i]] + s[i + 1..];
    assert s[i] !in s[..i] && s[i] !in s[i + 1..];
  }

  lemma {:induction false} SharedIsCrowded(options: Options, names: seq<string>, i: nat)
    requires i < |names|
    ensures Crowded(multiset(Bases(options, names)), CleanBase(options, names[i])) <==> Shared(options, names, i)
  {
    hide CleanBase;
    var bases := Bases(options, names);
    if Shared(options, names, i) {
      var j :| 0 <= j < |names| && j != i && CleanBase(options, names[j]) == bases[i];
      CountedTwice(bases, if i < j then i else j, if i < j then j else i);
    } else {
      CountedOnce(bases, i);
    }
  }

  /** A sibling keeps its base unless others share it, or another one was given it as its name. */
  lemma {:induction false} CleanedGrows(hash: string -> nat, options: Options, names: seq<string>, i: nat)
    returns (m: nat)
    requires options.policy != Preserve && i < |names|
    ensures var base, clean := CleanBase(options, names[i]), Cleaned(hash, options, names);
            if clean[i] == base then !Shared(options, names, i)
            else
              && Reaches(base, clean[i])
              && (Shared(options, names, i) || (m < |names| && m != i && clean[m] == base))
  {
    var base, bases := CleanBase(options, names[i]), multiset(Bases(options, names));
    SiblingsInAlphabet(hash, options, names, i);
    SharedIsCrowded(options, names, i);
    var k := CleanedByName(hash, options, names, i);
    ChoiceAt(hash, options, bases, Sorted(names), k);
    var all := Choices(hash, options, bases, Sorted(names), |names|);
    ChosenGrows(hash, Members(all[..k]), names[i], base, Crowded(bases, base));
    hide Chosen, Choices, CleanBase, Cleaned, Sorted, Shared, Crowded;
    m := 0;
    if base in all[..k] {
      var n :| 0 <= n < k && all[n] == base;
      CleanedAt(hash, options, names, n);
      m := Order(names, |names|)[n];
    }
  }

  /** Nothing reaches a reserved name in two steps: its last word is too short. */
  lemma {:induction false} ReachesOnce(a: string, b: string, name: string)
    requires Reserved(name) && Reaches(b, name)
    ensures !Reaches(a, b)
  {
    hide Reserved, Snake, Alpha;
    ReservedForm(name);
    var w := LastWord(name) - 1;
    assert w < |b| ==> name[w] == b[w];
  }

  lemma {:induction false} OutOfReachUntaken(hash: string -> nat, options: Options, names: seq<string>, i: nat, j: nat)
    requires options.policy != Preserve && i < |names| && j < |names| && Reserved(names[i]) && !Reserved(names[j])
    requires !(Shared(options, names, j) && Reaches(CleanBase(options, names[j]), names[i]))
    ensures Cleaned(hash, options, names)[j] != names[i]
  {
    hide Cleaned, Reaches, Alpha, Snake, SnakeBase, AlphaBase, Reserved;
    var base, clean := CleanBase(options, names[j]), Cleaned(hash, options, names);
    var m := CleanedGrows(hash, options, names, j);
    ReservedForm(names[i]);
    CleanFormsAreFixed(names[i]);
    if clean[j] == names[i] && clean[j] != base {
      var n := CleanedGrows(hash, options, names, m);
      ReachesOnce(CleanBase(options, names[m]), base, names[i]);
    }
  }

  /** Seen before cleaning: shared bases that no suffix turns into a reserved sibling keep all names apart. */
  lemma {:induction false} RestoredUnique(hash: string -> nat, options: Options, fields: seq<LogicalField>)
    requires options.policy != Preserve && ReservedOnce(FieldNames(fields)) && OutOfReach(options, FieldNames(fields))
    ensures SchemaOrder.UniqueFields(Restored(hash, options, fields))
  {
    hide Cleaned, Reserved, Reaches, CleanBase, Shared;
    var names := FieldNames(fields);
    forall i, j | 0 <= i < |names| && 0 <= j < |names| && Reserved(names[i]) && !Reserved(names[j])
      ensures Cleaned(hash, options, names)[j] != names[i]
    {
      OutOfReachUntaken(hash, options, names, i, j);
    }
    RestoredExactly(hash, options, fields);
  }

  // ------------------------------------------------------------- a clash that does occur

  lemma {:induction false} PrefixBelow(a: string, b: string)
    requires a <= b
    ensures Below(a, b)
  {
    if a != "" { PrefixBelow(a[1..], b[1..]); }
  }

  lemma {:induction false} FirstSorted(names: seq<string>, x: string)
    requires x in names && forall k :: 0 <= k < |names| ==> x <= names[k]
    ensures Sorted(names)[0] == x
  {
    hide Order, Below;
    OrderSorts(names, |names|);
    SortedMember(names, x);
    var k :| 0 <= k < |names| && Sorted(names)[k] == x;
    PrefixBelow(x, Sorted(names)[0]);
    if k > 0 { BelowAntisymmetric(x, Sorted(names)[0]); }
  }

  lemma {:induction false} Draw(hash: string -> nat, letter: nat, rest: nat, sofar: string, next: string, n: nat)
    requires letter < 26 && n > 0 && next == sofar + [('a' as int + letter) as char]
    ensures Suffix(hash, letter + 26 * rest, sofar, n) ==
            Suffix(hash, if rest == 0 then hash(next) else rest, next, n - 1)
  {
    assert (letter + 26 * rest) % 26 == letter && (letter + 26 * rest) / 26 == rest;
  }

  /** The hash state whose first six letters are `gistry`. */
  const GISTRY: nat := 6 + 26 * (8 + 26 * (18 + 26 * (19 + 26 * (17 + 26 * 24))))

  lemma {:induction false} DrawsGistry(hash: string -> nat)
    ensures Suffix(hash, GISTRY, "", 6) == "gistry"
  {
    assert Suffix(hash, hash("gistry"), "gistry", 0) == "gistry";
    hide Suffix;
    var e := 24;
    var d := 17 + 26 * e;
    var c := 19 + 26 * d;
    var b := 18 + 26 * c;
    var a := 8 + 26 * b;
    Draw(hash, 6, a, "", "g", 6);
    Draw(hash, 8, b, "g", "gi", 5);
    Draw(hash, 18, c, "gi", "gis", 4);
    Draw(hash, 19, d, "gis", "gist", 3);
    Draw(hash, 17, e, "gist", "gistr", 2);
    Draw(hash, 24, 0, "gistr", "gistry", 1);
  }

  lemma {:induction false} ShortForms()
    ensures Snake("schema_re") && Collapsed("schema_re") && Collapsed("schema_re_")
  {
  }

  lemma {:induction false} ShortTrimmed()
    ensures Trim("schema_re_") == Trim("schema_re") == "schema_re"
  {
    assert "schema_re_"[..9] == "schema_re";
  }

  lemma {:induction false} ShortBases(options: Options)
    requires options == Options(LowerSnake, "default_key")
    ensures CleanBase(options, "schema_re") == CleanBase(options, "schema_re_") == "schema_re"
  {
    hide Snake, Collapsed, Collapse, Trim;
    ShortForms();
    ShortTrimmed();
    CollapseFixed("schema_re");
    CollapseFixed("schema_re_");
  }

  lemma {:induction false} SpellsReserved(hash: string -> nat)
    requires hash("schema_re") == GISTRY
    ensures Chosen(hash, {}, "schema_re", "schema_re", true) == "schema_registry"
  {
    hide Suffix;
    DrawsGistry(hash);
    assert WithSuffix(hash, "schema_re", "schema_re", 6) == "schema_re" + "gistry" == "schema_registry";
  }

  lemma {:induction false} TakenBy(hash: string -> nat, options: Options, names: seq<string>) returns (i: nat)
    requires options.policy != Preserve && names != []
    ensures i < |names| && names[i] == Sorted(names)[0]
    ensures Cleaned(hash, options, names)[i]
            == Choices(hash, options, multiset(Bases(options, names)), Sorted(names), |names|)[0]
  {
    hide Choices, Cleaned;
    i := Order(names, |names|)[0];
    CleanedAt(hash, options, names, 0);
  }

  /** With an unlucky hash, the suffix of one sibling spells out a reserved name that is then put back. */
  lemma {:induction false} ReservedNameTaken(hash: string -> nat, fields: seq<LogicalField>)
    requires FieldNames(fields) == ["schema_re", "schema_re_", "schema_registry"] && hash("schema_re") == GISTRY
    ensures !SchemaOrder.UniqueFields(Restored(hash, Options(LowerSnake, "default_key"), fields))
  {
    hide Chosen, Choices, Cleaned, Below, CleanBase, SchemaOrder.UniqueFields, Restored, Sorted, Order;
    var options, names := Options(LowerSnake, "default_key"), FieldNames(fields);
    var bases := Bases(options, names);
    ShortBases(options);
    CountedTwice(bases, 0, 1);
    FirstSorted(names, "schema_re");
    ChoiceAt(hash, options, multiset(bases), Sorted(names), 0);
    var all := Choices(hash, options, multiset(bases), Sorted(names), 3);
    assert Members(all[..0]) == {};
    SpellsReserved(hash);
    assert all[0] == names[2];
    var i := TakenBy(hash, options, names);
    RestoredExactly(hash, options, fields);
  }
}
