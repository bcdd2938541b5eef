/** Reordering permutes fields at every depth; the alphabetical order is a canonical form. */
module SchemaOrder {
  import opened Basics
  import opened LogicalSchemas
  import opened NameOrder
  import opened SchemaEvolution

  predicate UniqueNames(t: LogicalType) {
    match t
    case Scalar(_) => true
    case List(value) => UniqueNames(value)
    case Struct(fields) => UniqueFields(fields)
  }

  predicate UniqueFields(s: seq<LogicalField>) {
    Distinct(FieldNames(s)) && forall j :: 0 <= j < |s| ==> UniqueNames(s[j].typ)
  }

  predicate UniqueContract(base: Option<LogicalType>) { base.Some? ==> UniqueNames(base.value) }

  /** Equal up to the order of fields, recursively. */
  predicate Same(t: LogicalType, u: LogicalType) {
    match t
    case Scalar(_) => u == t
    case List(value) => u.List? && Same(value, u.value)
    case Struct(fields) => u.Struct? && SameFields(fields, u.fields)
  }

  predicate SameFields(s: seq<LogicalField>, r: seq<LogicalField>)
    decreases s, 1
  {
    && multiset(FieldNames(s)) == multiset(FieldNames(r))
    && forall j :: 0 <= j < |s| ==> SameAs(s, j, r)
  }

  predicate SameAs(s: seq<LogicalField>, j: nat, r: seq<LogicalField>)
    requires j < |s|
    decreases s, 0
  {
    && Has(r, s[j].name)
    && var g := Named(r, s[j].name);
       s[j].nullable == g.nullable && Same(s[j].typ, g.typ)
  }

  /** Fields ascend by name at every struct level. */
  predicate Sorted(t: LogicalType) {
    match t
    case Scalar(_) => true
    case List(value) => Sorted(value)
    case Struct(fields) => SortedFields(fields)
  }

  predicate SortedFields(s: seq<LogicalField>) {
    Ascending(FieldNames(s)) && forall j :: 0 <= j < |s| ==> Sorted(s[j].typ)
  }

  // ------------------------------------------------------------ small facts

  lemma {:induction false} NamedIs(s: seq<LogicalField>, j: nat)
    requires j < |s| && Distinct(FieldNames(s))
    ensures Has(s, s[j].name) && FirstNamed(s, s[j].name, 0) == j && Named(s, s[j].name) == s[j]
  {
    forall k | 0 <= k < j ensures s[k].name != s[j].name { assert FieldNames(s)[k] != FieldNames(s)[j]; }
  }

  lemma {:induction false} SameHas(s: seq<LogicalField>, r: seq<LogicalField>, x: string)
    requires multiset(FieldNames(s)) == multiset(FieldNames(r))
    ensures Has(s, x) <==> Has(r, x)
  {
    HasName(s, x);
    HasName(r, x);
    assert x in FieldNames(s) <==> x in multiset(FieldNames(s));
    assert x in FieldNames(r) <==> x in multiset(FieldNames(r));
  }

  // ------------------------------------------------- equality up to order

  lemma {:induction false} SameReflexive(t: LogicalType)
    requires UniqueNames(t)
    ensures Same(t, t)
  {
    match t
    case Scalar(_) =>
    case List(value) => SameReflexive(value);
    case Struct(fields) =>
      forall j | 0 <= j < |fields| ensures SameAs(fields, j, fields) {
        NamedIs(fields, j);
        SameReflexive(fields[j].typ);
      }
  }

  lemma {:induction false} SameSymmetric(t: LogicalType, u: LogicalType)
    requires UniqueNames(t) && UniqueNames(u) && Same(t, u)
    ensures Same(u, t)
  {
    match t
    case Scalar(_) =>
    case List(value) => SameSymmetric(value, u.value);
    case Struct(fields) =>
      forall k | 0 <= k < |u.fields| ensures SameAs(u.fields, k, fields) {
        NamedIs(u.fields, k);
        SameHas(fields, u.fields, u.fields[k].name);
        var j := FirstNamed(fields, u.fields[k].name, 0);
        assert SameAs(fields, j, u.fields);
        SameSymmetric(fields[j].typ, u.fields[k].typ);
      }
  }

  lemma {:induction false} SameTransitive(t: LogicalType, u: LogicalType, v: LogicalType)
    requires Same(t, u) && Same(u, v)
    ensures Same(t, v)
  {
    match t
    case Scalar(_) =>
    case List(value) => SameTransitive(value, u.value, v.value);
    case Struct(fields) =>
      forall j | 0 <= j < |fields| ensures SameAs(fields, j, v.fields) {
        assert SameAs(fields, j, u.fields);
        var k := FirstNamed(u.fields, fields[j].name, 0);
        assert SameAs(u.fields, k, v.fields);
        SameTransitive(fields[j].typ, u.fields[k].typ, Named(v.fields, fields[j].name).typ);
      }
  }

  // -------------------------------------------------- what reordering emits

  /** `g` is the field of its name in `s`, reordered against a contract of its own. */
  ghost predicate Reordered(s: seq<LogicalField>, g: LogicalField, order: FieldOrder) {
    && Has(s, g.name)
    && exists base :: UniqueContract(base)
                      && g == Named(s, g.name).(typ := ReorderType(Named(s, g.name).typ, base, order))
  }

  lemma {:induction false} PickedMembers(s: seq<LogicalField>, contract: seq<LogicalField>, order: FieldOrder,
                                         names: seq<string>)
    requires (forall x :: x in names ==> Has(s, x)) && UniqueFields(contract)
    ensures var r := PickNamed(s, contract, order, names);
            FieldNames(r) == names && forall g :: g in r ==> Reordered(s, g, order)
  {
    var r := PickNamed(s, contract, order, names);
    forall k | 0 <= k < |r| ensures r[k].name == names[k] && Reordered(s, r[k], order) {
      var base := ContractType(contract, names[k]);
      assert UniqueContract(base);
    }
  }

  lemma {:induction false} ContractReordered(s: seq<LogicalField>, contract: seq<LogicalField>, n: nat)
    requires n <= |contract| && UniqueFields(contract)
    ensures forall g :: g in ContractOrdered(s, contract, n) ==> Reordered(s, g, SchemaContractFirst)
  {
    if n > 0 {
      ContractReordered(s, contract, n - 1);
      var c, r, r0 := contract[n - 1], ContractOrdered(s, contract, n), ContractOrdered(s, contract, n - 1);
      forall g | g in r ensures Reordered(s, g, SchemaContractFirst) {
        if g !in r0 {
          assert g.name == c.name && UniqueContract(Some(c.typ));
        }
      }
    }
  }

  lemma {:induction false} JoinedNames(a: seq<string>, b: seq<string>, c: seq<string>)
    requires Distinct(a) && Distinct(b) && Distinct(c)
    requires forall x :: x in a ==> x !in b
    requires forall x :: x in c <==> x in a || x in b
    ensures Distinct(a + b) && multiset(a + b) == multiset(c)
  {
    forall j, k | 0 <= j < k < |a + b| ensures (a + b)[j] != (a + b)[k] {
      if j < |a| <= k {
        assert a[j] in a && b[k - |a|] in b;
      }
    }
    SameCounts(a + b, c);
  }

  lemma {:induction false} ContractNext(s: seq<LogicalField>, contract: seq<LogicalField>, n: nat)
    requires n < |contract|
    ensures FieldNames(ContractOrdered(s, contract, n + 1)) ==
            FieldNames(ContractOrdered(s, contract, n)) + if Has(s, contract[n].name) then [contract[n].name] else []
  {
    hide ReorderType;
  }

  /** The names that both lists of fields have. */
  ghost predicate CommonNames(names: seq<string>, s: seq<LogicalField>, contract: seq<LogicalField>) {
    forall x :: x in names <==> Has(s, x) && Has(contract, x)
  }

  lemma {:induction false} CommonNext(names: seq<string>, s: seq<LogicalField>, before: seq<LogicalField>,
                                      c: LogicalField)
    requires Distinct(names) && CommonNames(names, s, before) && !Has(before, c.name)
    ensures var r := names + if Has(s, c.name) then [c.name] else []; Distinct(r) && CommonNames(r, s, before + [c])
  {
    hide Has;
    forall x ensures Has(before + [c], x) <==> Has(before, x) || c.name == x { HasAppend(before, c, x); }
    assert c.name !in names;
  }

  lemma {:induction false} ContractStart(s: seq<LogicalField>, contract: seq<LogicalField>)
    ensures FieldNames(ContractOrdered(s, contract, 0)) == []
  {
  }

  lemma {:induction false} NothingCommon(s: seq<LogicalField>)
    ensures CommonNames([], s, []) && Distinct<string>([])
  {
  }

  lemma {:induction false} ContractNames(s: seq<LogicalField>, contract: seq<LogicalField>, n: nat)
    requires n <= |contract| && Distinct(FieldNames(contract))
    ensures var names := FieldNames(ContractOrdered(s, contract, n));
            Distinct(names) && CommonNames(names, s, contract[..n])
  {
    hide Has, ContractOrdered, CommonNames, Distinct, FieldNames;
    if n == 0 {
      ContractStart(s, contract);
      NothingCommon(s);
      assert contract[..0] == [];
    } else {
      ContractNames(s, contract, n - 1);
      ContractNext(s, contract, n - 1);
      FreshContractName(contract, n - 1);
      assert contract[..n] == contract[..n - 1] + [contract[n - 1]];
      CommonNext(FieldNames(ContractOrdered(s, contract, n - 1)), s, contract[..n - 1], contract[n - 1]);
    }
  }

  lemma {:induction false} OneMoreDistinct(a: seq<string>, b: seq<string>)
    requires Distinct(a) && |b| <= 1 && (b != [] ==> b[0] !in a)
    ensures Distinct(a + b)
  {
  }

  lemma {:induction false} FreshContractName(contract: seq<LogicalField>, n: nat)
    requires n < |contract| && Distinct(FieldNames(contract))
    ensures !Has(contract[..n], contract[n].name)
  {
    forall k | 0 <= k < n ensures contract[k].name != contract[n].name {
      assert FieldNames(contract)[k] != FieldNames(contract)[n];
    }
  }

  lemma {:induction false} ExtraDistinct(s: seq<LogicalField>, contract: seq<LogicalField>, n: nat)
    requires n <= |s| && Distinct(FieldNames(s))
    ensures Distinct(ExtraNames(s, contract, n))
  {
    if n > 0 {
      ExtraDistinct(s, contract, n - 1);
      ExtraName(s, contract, n - 1, s[n - 1].name);
      assert s[n - 1].name == FieldNames(s)[n - 1];
    }
  }

  lemma {:induction false} FirstMember(s: seq<LogicalField>, contract: seq<LogicalField>, x: string)
    requires Distinct(FieldNames(contract))
    ensures x in FieldNames(ContractOrdered(s, contract, |contract|)) <==> Has(s, x) && Has(contract, x)
  {
    ContractNames(s, contract, |contract|);
    assert contract[..|contract|] == contract;
  }

  lemma {:induction false} ExtraMember(s: seq<LogicalField>, contract: seq<LogicalField>, x: string)
    ensures x in Sort(ExtraNames(s, contract, |s|)) <==> Has(s, x) && !Has(contract, x)
  {
    ExtraName(s, contract, |s|, x);
    assert FieldNames(s)[..|s|] == FieldNames(s);
    HasName(s, x);
  }

  lemma {:induction false} SplitMember(s: seq<LogicalField>, contract: seq<LogicalField>, x: string)
    requires Distinct(FieldNames(contract))
    ensures var first, extra :=
            FieldNames(ContractOrdered(s, contract, |contract|)), Sort(ExtraNames(s, contract, |s|));
            (x in first ==> x !in extra) && (x in FieldNames(s) <==> x in first || x in extra)
  {
    var first, extra := FieldNames(ContractOrdered(s, contract, |contract|)), Sort(ExtraNames(s, contract, |s|));
    var inFirst, inExtra, inAll := x in first, x in extra, x in FieldNames(s);
    var a, b := Has(s, x), Has(contract, x);
    assert inFirst == (a && b) by { FirstMember(s, contract, x); }
    assert inExtra == (a && !b) by { ExtraMember(s, contract, x); }
    assert inAll == a by { HasName(s, x); }
  }

  lemma {:induction false} DescribedNames(s: seq<LogicalField>, contract: seq<LogicalField>)
    requires Distinct(FieldNames(s)) && Distinct(FieldNames(contract))
    ensures var names := FieldNames(ContractOrdered(s, contract, |contract|)) + Sort(ExtraNames(s, contract, |s|));
            Distinct(names) && multiset(names) == multiset(FieldNames(s))
  {
    hide Has, Ascending, Distinct;
    var first, extra := FieldNames(ContractOrdered(s, contract, |contract|)), Sort(ExtraNames(s, contract, |s|));
    assert Distinct(first) by { ContractNames(s, contract, |contract|); }
    assert Distinct(extra) by {
      ExtraDistinct(s, contract, |s|);
      SortDistinct(ExtraNames(s, contract, |s|));
    }
    forall x
      ensures x in first ==> x !in extra
      ensures x in FieldNames(s) <==> x in first || x in extra
    {
      SplitMember(s, contract, x);
    }
    JoinedNames(first, extra, FieldNames(s));
  }

  lemma {:induction false} DescribedMembers(s: seq<LogicalField>, contract: seq<LogicalField>)
    requires Distinct(FieldNames(s)) && UniqueFields(contract)
    ensures var r := ReorderFields(s, Some(Struct(contract)), SchemaContractFirst);
            && multiset(FieldNames(r)) == multiset(FieldNames(s)) && Distinct(FieldNames(r))
            && forall g :: g in r ==> Reordered(s, g, SchemaContractFirst)
  {
    hide Reordered, Has, Ascending, Distinct;
    var first, extra := ContractOrdered(s, contract, |contract|), Sort(ExtraNames(s, contract, |s|));
    forall x | x in extra ensures Has(s, x) { ExtraMember(s, contract, x); }
    var rest := PickNamed(s, [], SchemaContractFirst, extra);
    ContractReordered(s, contract, |contract|);
    DescribedNames(s, contract);
    assert UniqueFields([]) by { NoFields(); }
    PickedMembers(s, [], SchemaContractFirst, extra);
    NamesConcat(first, rest);
    assert forall g :: g in first + rest ==> g in first || g in rest;
  }

  lemma {:induction false} NoFields()
    ensures UniqueFields([])
  {
  }

  lemma {:induction false} NamesConcat(a: seq<LogicalField>, b: seq<LogicalField>)
    ensures FieldNames(a + b) == FieldNames(a) + FieldNames(b)
  {
  }

  /** Reordering emits each field of a level exactly once. */
  lemma {:induction false} ReorderMembers(s: seq<LogicalField>, base: Option<LogicalType>, order: FieldOrder)
    requires Distinct(FieldNames(s)) && UniqueContract(base)
    ensures var r := ReorderFields(s, base, order);
            && multiset(FieldNames(r)) == multiset(FieldNames(s)) && Distinct(FieldNames(r))
            && forall g :: g in r ==> Reordered(s, g, order)
  {
    hide Reordered;
    var described := base.Some? && base.value.Struct?;
    if order == Alphabetically {
      PickedMembers(s, if described then base.value.fields else [], order, Sort(FieldNames(s)));
      SortDistinct(FieldNames(s));
    } else if described {
      DescribedMembers(s, base.value.fields);
    } else {
      KeepMembers(s);
    }
  }

  lemma {:induction false} KeepMembers(s: seq<LogicalField>)
    requires Distinct(FieldNames(s))
    ensures var r := KeepOrder(s);
            FieldNames(r) == FieldNames(s) && forall g :: g in r ==> Reordered(s, g, SchemaContractFirst)
  {
    var r := KeepOrder(s);
    forall k | 0 <= k < |r| ensures Reordered(s, r[k], SchemaContractFirst) {
      NamedIs(s, k);
      var base: Option<LogicalType> := None;
      assert UniqueContract(base);
    }
  }

  /** Reordering permutes the fields of every struct level, under both policies. */
  lemma {:induction false} ReorderPermutes(t: LogicalType, base: Option<LogicalType>, order: FieldOrder)
    requires UniqueNames(t) && UniqueContract(base)
    ensures var u := ReorderType(t, base, order); Same(t, u) && UniqueNames(u)
  {
    match t
    case Scalar(_) =>
    case List(value) =>
      ReorderPermutes(value, if base.Some? && base.value.List? then Some(base.value.value) else None, order);
    case Struct(fields) => ReorderFieldsPermutes(fields, base, order);
  }

  lemma {:induction false} ReorderFieldsPermutes(s: seq<LogicalField>, base: Option<LogicalType>, order: FieldOrder)
    requires UniqueFields(s) && UniqueContract(base)
    ensures var r := ReorderFields(s, base, order); SameFields(s, r) && UniqueFields(r)
    decreases s, 1
  {
    hide Reordered;
    var r := ReorderFields(s, base, order);
    ReorderMembers(s, base, order);
    forall j | 0 <= j < |s| ensures SameAs(s, j, r) {
      NamedIs(s, j);
      SameHas(s, r, s[j].name);
      ReorderedSame(s, Named(r, s[j].name), order);
    }
    forall k | 0 <= k < |r| ensures UniqueNames(r[k].typ) { ReorderedSame(s, r[k], order); }
  }

  lemma {:induction false} ReorderedSame(s: seq<LogicalField>, g: LogicalField, order: FieldOrder)
    requires UniqueFields(s) && Reordered(s, g, order)
    ensures UniqueNames(g.typ)
    ensures Has(s, g.name) && Named(s, g.name).nullable == g.nullable && Same(Named(s, g.name).typ, g.typ)
    decreases s, 0
  {
    var f := Named(s, g.name);
    var own :| UniqueContract(own) && g == f.(typ := ReorderType(f.typ, own, order));
    ReorderPermutes(f.typ, own, order);
  }

  // ------------------------------------------- the alphabetical canonical form

  function ContractFields(base: Option<LogicalType>): seq<LogicalField> {
    if base.Some? && base.value.Struct? then base.value.fields else []
  }

  lemma {:induction false} AlphabeticalIs(s: seq<LogicalField>, base: Option<LogicalType>)
    ensures forall x :: x in Sort(FieldNames(s)) ==> Has(s, x)
    ensures ReorderFields(s, base, Alphabetically) ==
            PickNamed(s, ContractFields(base), Alphabetically, Sort(FieldNames(s)))
  {
    hide PickNamed;
    forall x | x in Sort(FieldNames(s)) ensures Has(s, x) { HasName(s, x); }
  }

  lemma {:induction false} AlphabeticalSorted(t: LogicalType, base: Option<LogicalType>)
    ensures Sorted(ReorderType(t, base, Alphabetically))
  {
    match t
    case Scalar(_) =>
    case List(value) =>
      AlphabeticalSorted(value, if base.Some? && base.value.List? then Some(base.value.value) else None);
    case Struct(fields) =>
      var contract, names, r :=
        ContractFields(base), Sort(FieldNames(fields)), ReorderFields(fields, base, Alphabetically);
      AlphabeticalIs(fields, base);
      assert FieldNames(r) == names;
      forall k | 0 <= k < |r| ensures Sorted(r[k].typ) {
        AlphabeticalSorted(Named(fields, names[k]).typ, ContractType(contract, names[k]));
      }
  }

  /** Schemas equal up to order have one alphabetical form, whatever contracts they carry. */
  lemma {:induction false} AlphabeticalUnique(t: LogicalType, u: LogicalType, a: Option<LogicalType>,
                                              b: Option<LogicalType>)
    requires UniqueNames(t) && UniqueNames(u) && Same(t, u)
    ensures ReorderType(t, a, Alphabetically) == ReorderType(u, b, Alphabetically)
  {
    match t
    case Scalar(_) =>
    case List(value) =>
      AlphabeticalUnique(value, u.value,
                         if a.Some? && a.value.List? then Some(a.value.value) else None,
                         if b.Some? && b.value.List? then Some(b.value.value) else None);
    case Struct(fields) => AlphabeticalFieldsUnique(fields, u.fields, a, b);
  }

  lemma {:induction false} AlphabeticalFieldsUnique(s: seq<LogicalField>, r: seq<LogicalField>, a: Option<LogicalType>,
                                                    b: Option<LogicalType>)
    requires UniqueFields(s) && UniqueFields(r) && SameFields(s, r)
    ensures ReorderFields(s, a, Alphabetically) == ReorderFields(r, b, Alphabetically)
    decreases s
  {
    hide ReorderFields, PickNamed, ReorderType, Sort, FirstNamed, ContractFields;
    SameSort(s, r);
    AlphabeticalIs(s, a);
    AlphabeticalIs(r, b);
    var names, ca, cb := Sort(FieldNames(s)), ContractFields(a), ContractFields(b);
    var p, q := PickNamed(s, ca, Alphabetically, names), PickNamed(r, cb, Alphabetically, names);
    forall k | 0 <= k < |names| ensures p[k] == q[k] {
      assert Has(s, names[k]) && SameAs(s, FirstNamed(s, names[k], 0), r);
      AlphabeticalUnique(Named(s, names[k]).typ, Named(r, names[k]).typ,
                         ContractType(ca, names[k]), ContractType(cb, names[k]));
    }
    assert p == q;
  }

  lemma {:induction false} SameSort(s: seq<LogicalField>, r: seq<LogicalField>)
    requires Distinct(FieldNames(s)) && Distinct(FieldNames(r)) && SameFields(s, r)
    ensures Sort(FieldNames(s)) == Sort(FieldNames(r))
    ensures forall x :: Has(s, x) <==> Has(r, x)
  {
    forall x ensures (x in FieldNames(s) <==> x in FieldNames(r)) && (Has(s, x) <==> Has(r, x)) {
      SameHas(s, r, x);
      HasName(s, x);
      HasName(r, x);
    }
    SortUnique(FieldNames(s), FieldNames(r));
  }

  /** The alphabetical form is a permutation whatever the contract, which it ignores. */
  lemma {:induction false} AlphabeticalPermutes(t: LogicalType, a: Option<LogicalType>)
    requires UniqueNames(t)
    ensures var u := ReorderType(t, a, Alphabetically); Same(t, u) && UniqueNames(u)
  {
    SameReflexive(t);
    AlphabeticalUnique(t, t, a, None);
    ReorderPermutes(t, None, Alphabetically);
  }

  /** Two schemas have the same alphabetical form exactly when they are equal up to order. */
  lemma {:induction false} AlphabeticalCanonical(t: LogicalType, u: LogicalType, a: Option<LogicalType>,
                                                 b: Option<LogicalType>)
    requires UniqueNames(t) && UniqueNames(u)
    ensures ReorderType(t, a, Alphabetically) == ReorderType(u, b, Alphabetically) <==> Same(t, u)
  {
    AlphabeticalPermutes(t, a);
    AlphabeticalPermutes(u, b);
    if Same(t, u) {
      AlphabeticalUnique(t, u, a, b);
    } else if ReorderType(t, a, Alphabetically) == ReorderType(u, b, Alphabetically) {
      var v := ReorderType(t, a, Alphabetically);
      SameSymmetric(u, v);
      SameTransitive(t, v, u);
    }
  }

  lemma {:induction false} AlphabeticalTwice(t: LogicalType, a: Option<LogicalType>, b: Option<LogicalType>)
    requires UniqueNames(t)
    ensures var u := ReorderType(t, a, Alphabetically); ReorderType(u, b, Alphabetically) == u
  {
    AlphabeticalPermutes(t, a);
    AlphabeticalUnique(t, ReorderType(t, a, Alphabetically), a, b);
  }
}
