/** The sibling-cleaning loop, and its use at every struct level of a schema. */
module SchemaNames {
  import opened Basics
  import opened LogicalSchemas
  import opened NameOrder
  import opened NameCleaning
  import opened SiblingNames
  import SchemaEvolution
  import SchemaOrder

  // ------------------------------------------------------------ counting bases

  ghost predicate Counts(counts: map<string, nat>, bases: seq<string>) {
    && (forall b :: b in counts <==> b in bases)
    && (forall b :: b in counts ==> counts[b] == multiset(bases)[b])
  }

  lemma {:induction false} CountOne(counts: map<string, nat>, bases: seq<string>, b: string)
    requires Counts(counts, bases)
    ensures Counts(counts[b := if b in counts then counts[b] + 1 else 1], bases + [b])
  {
    assert b !in bases ==> multiset(bases)[b] == 0;
  }

  /** As many different bases as names means that no two are equal. */
  lemma {:induction false} AllDifferent(bases: seq<string>)
    ensures |Members(bases)| <= |bases|
    ensures |Members(bases)| == |bases| <==> Distinct(bases)
  {
    if bases != [] {
      var n := |bases| - 1;
      AllDifferent(bases[..n]);
      assert bases == bases[..n] + [bases[n]];
      assert Members(bases) == Members(bases[..n]) + {bases[n]};
      assert Distinct(bases) <==> Distinct(bases[..n]) && bases[n] !in bases[..n];
    }
  }

  // ------------------------------------------------------------------ the loop

  /** The free name for one sibling: longer suffixes first, then padding. */
  method ChooseName(hash: string -> nat, used: set<string>, dirty: string, base: string, crowded: bool)
    returns (candidate: string)
    ensures candidate == Chosen(hash, used, dirty, base, crowded)
  {
    candidate := base;
    if crowded { candidate := CleanWithSuffix(hash, dirty, base, INITIAL_SUFFIX_LENGTH); }
    ghost var first := candidate;
    var length := INITIAL_SUFFIX_LENGTH;
    while candidate in used && length <= MAX_SUFFIX_LENGTH
      invariant Probe(hash, used, dirty, base, candidate, length) ==
                Probe(hash, used, dirty, base, first, INITIAL_SUFFIX_LENGTH)
      decreases MAX_SUFFIX_LENGTH + 1 - length
    {
      candidate := CleanWithSuffix(hash, dirty, base, length);
      length := length + 1;
    }
    while candidate in used
      invariant Pad(used, candidate) == Chosen(hash, used, dirty, base, crowded)
      decreases AsLong(used, candidate)
    {
      assert candidate in AsLong(used, candidate) && candidate !in AsLong(used, candidate + "z");
      candidate := candidate + "z";
    }
  }

  method CleanSiblingFieldNames(hash: string -> nat, options: Options, dirty: seq<string>) returns (out: seq<string>)
    ensures out == Cleaned(hash, options, dirty)
  {
    if options.policy == Preserve { return dirty; }
    var bases, counts := CountBases(options, dirty);
    AllDifferent(bases);
    assert counts.Keys == Members(bases);
    if |counts| == |dirty| {
      DistinctBasesKept(hash, options, dirty);
      return bases;
    }
    out := FillNames(hash, options, dirty, bases, counts);
  }

  method CountBases(options: Options, dirty: seq<string>) returns (bases: seq<string>, counts: map<string, nat>)
    ensures bases == Bases(options, dirty) && Counts(counts, bases)
  {
    bases, counts := [], map[];
    for k := 0 to |dirty|
      invariant |bases| == k && forall j :: 0 <= j < k ==> bases[j] == CleanBase(options, dirty[j])
      invariant Counts(counts, bases)
    {
      var base := CleanFieldNameBase(options, dirty[k]);
      CountOne(counts, bases, base);
      bases := bases + [base];
      counts := counts[base := if base in counts then counts[base] + 1 else 1];
    }
  }

  /** Every name is chosen against the ones before it. */
  lemma {:induction false} ChoiceAt(hash: string -> nat, options: Options, bases: multiset<string>,
                                    ordered: seq<string>, k: nat)
    requires k < |ordered|
    ensures var all := Choices(hash, options, bases, ordered, |ordered|);
            var base := CleanBase(options, ordered[k]);
            all[k] == Chosen(hash, Members(all[..k]), ordered[k], base, Crowded(bases, base))
  {
    hide Chosen, CleanBase, Members;
    ChoicesGrow(hash, options, bases, ordered, k, |ordered|);
    ChoicesGrow(hash, options, bases, ordered, k + 1, |ordered|);
    var all := Choices(hash, options, bases, ordered, |ordered|);
    assert all[..k] == Choices(hash, options, bases, ordered, k);
  }

  method FillNames(hash: string -> nat, options: Options, dirty: seq<string>, bases: seq<string>,
                   counts: map<string, nat>)
    returns (out: seq<string>)
    requires options.policy != Preserve && bases == Bases(options, dirty) && Counts(counts, bases)
    ensures out == Cleaned(hash, options, dirty)
  {
    hide Chosen, CleanBase, Choices, Order, Cleaned, Ascending, Counts, Bases;
    var order := Order(dirty, |dirty|);
    OrderSorts(dirty, |dirty|);
    ghost var all := Choices(hash, options, multiset(bases), Sorted(dirty), |dirty|);
    out := seq(|dirty|, _ => "");
    var used: set<string> := {};
    for k := 0 to |order|
      invariant |out| == |dirty|
      invariant used == Members(all[..k])
      invariant forall m :: 0 <= m < k ==> out[order[m]] == all[m]
    {
      var idx := order[k];
      var base := bases[idx];
      ChoiceAt(hash, options, multiset(bases), Sorted(dirty), k);
      CountedBase(counts, bases, idx);
      var candidate := ChooseName(hash, used, dirty[idx], base, base in counts && counts[base] > 1);
      assert candidate == all[k];
      MembersNext(all, k);
      out := out[idx := candidate];
      used := used + {candidate};
    }
    AllFilled(hash, options, dirty, out);
  }

  lemma {:induction false} MembersNext(s: seq<string>, k: nat)
    requires k < |s|
    ensures Members(s[..k + 1]) == Members(s[..k]) + {s[k]}
  {
    assert s[..k + 1] == s[..k] + [s[k]];
  }

  lemma {:induction false} CountedBase(counts: map<string, nat>, bases: seq<string>, k: nat)
    requires Counts(counts, bases) && k < |bases|
    ensures bases[k] in counts && counts[bases[k]] == multiset(bases)[bases[k]]
  {
  }

  /** Names filled in at the sorted positions are the siblings' final names. */
  lemma {:induction false} AllFilled(hash: string -> nat, options: Options, dirty: seq<string>, out: seq<string>)
    requires options.policy != Preserve && |out| == |dirty|
    requires var order := Order(dirty, |dirty|);
             var all := Choices(hash, options, multiset(Bases(options, dirty)), Sorted(dirty), |dirty|);
             forall m :: 0 <= m < |order| ==> out[order[m]] == all[m]
    ensures out == Cleaned(hash, options, dirty)
  {
    hide Choices, Cleaned, Order, Sorted;
    OrderSorts(dirty, |dirty|);
    forall i | 0 <= i < |dirty| ensures out[i] == Cleaned(hash, options, dirty)[i] {
      assert i in Order(dirty, |dirty|);
      CleanedAt(hash, options, dirty, Position(Order(dirty, |dirty|), i));
    }
  }

  // ------------------------------------------------------------- whole schemas

  function SanitizeType(hash: string -> nat, options: Options, t: LogicalType): LogicalType
    decreases t, 0
  {
    match t
    case Scalar(_) => t
    case Struct(fields) => Struct(SanitizeFields(hash, options, fields))
    case List(value) => List(SanitizeType(hash, options, value))
  }

  function SanitizeFields(hash: string -> nat, options: Options, fields: seq<LogicalField>): (r: seq<LogicalField>)
    ensures |r| == |fields|
    decreases fields, 1
  {
    var clean := Cleaned(hash, options, SchemaEvolution.FieldNames(fields));
    seq(|fields|, k requires 0 <= k < |fields| =>
      LogicalField(clean[k], fields[k].nullable, SanitizeType(hash, options, fields[k].typ)))
  }

  /** After cleaning, siblings differ at every struct level, whatever the input. */
  lemma {:induction false} SanitizedUnique(hash: string -> nat, options: Options, t: LogicalType)
    requires options.policy != Preserve
    ensures SchemaOrder.UniqueNames(SanitizeType(hash, options, t))
    decreases t, 0
  {
    match t
    case Scalar(_) =>
    case Struct(fields) => SanitizedFieldsUnique(hash, options, fields);
    case List(value) => SanitizedUnique(hash, options, value);
  }

  lemma {:induction false} SanitizedFieldsUnique(hash: string -> nat, options: Options, fields: seq<LogicalField>)
    requires options.policy != Preserve
    ensures SchemaOrder.UniqueFields(SanitizeFields(hash, options, fields))
    decreases fields, 1
  {
    var r := SanitizeFields(hash, options, fields);
    SiblingsDistinct(hash, options, SchemaEvolution.FieldNames(fields));
    forall k | 0 <= k < |fields| ensures SchemaOrder.UniqueNames(r[k].typ) {
      SanitizedUnique(hash, options, fields[k].typ);
    }
    assert SchemaEvolution.FieldNames(r) == Cleaned(hash, options, SchemaEvolution.FieldNames(fields));
  }
}
