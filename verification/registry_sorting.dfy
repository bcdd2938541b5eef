/** Sorting a normal form and normalising it again leaves its unshadowed fields, in order. */
module RegistrySorting {
  import opened Basics
  import opened VariantNames
  import opened LogicalSchemas
  import opened NameOrder
  import opened SchemaEvolution
  import opened SchemaOrder
  import opened RegistryNumeric
  import opened RegistrySettling
  import opened RegistryOrdering

  // ------------------------------------------------------------------- copies

  /** Fields of one name are copies, and a float shares its family with copies of itself only. */
  predicate Copies(c: seq<LogicalField>) {
    && CanonicalNames(c)
    && (forall j, k | 0 <= j < |c| && 0 <= k < |c| && c[j].name == c[k].name :: c[j] == c[k])
    && (forall j, k | 0 <= j < |c| && 0 <= k < |c| :: SharesFloat(c[j], c[k]) ==> c[j] == c[k])
  }

  lemma {:induction false} FloatOf(c: seq<LogicalField>, j: nat) returns (f: nat)
    requires Copies(c) && j < |c| && Numeric(c[j]) && Keep(c, Family(c[j].name)) < |c|
    ensures f < |c| && c[f] == c[j] && c[j].typ == FLOAT && c[Keep(c, Family(c[j].name))] == c[j]
  {
    hide Parse;
    var fam := Family(c[j].name);
    f := FirstFloat(c, fam, 0);
    assert SharesFloat(c[f], c[j]);
    assert SharesFloat(c[f], c[Keep(c, fam)]);
  }

  /** Copies settle on themselves, and the first of them survives. */
  lemma {:induction false} CopySettled(c: seq<LogicalField>, j: nat)
    requires Copies(c) && j < |c|
    ensures Settled(c, j) == c[j] && (c[j] !in c[..j] ==> Survives(c, j))
  {
    hide Parse;
    var p := Keep(c, Family(c[j].name));
    if Numeric(c[j]) && p < |c| {
      var f := FloatOf(c, j);
      assert p < j ==> c[p] in c[..j];
      assert c[j] !in c[..j] ==> j <= p;
    }
  }

  ghost predicate SameElements(a: seq<LogicalField>, b: seq<LogicalField>) {
    forall f :: f in a <==> f in b
  }

  lemma {:induction false} CopiesEmit(c: seq<LogicalField>, n: nat)
    requires Copies(c) && n <= |c|
    ensures Distinct(FieldNames(Emit(c, n))) && SameElements(Emit(c, n), c[..n])
  {
    hide Copies, Settled, Survives;
    if n == 0 {
      assert Emit(c, 0) == c[..0] == [];
    } else {
      CopiesEmit(c, n - 1);
      CopySettled(c, n - 1);
      EmitCopy(c, n);
    }
  }

  lemma {:induction false} EmitCopy(c: seq<LogicalField>, n: nat)
    requires Copies(c) && 0 < n <= |c| && Settled(c, n - 1) == c[n - 1]
    requires c[n - 1] !in c[..n - 1] ==> Survives(c, n - 1)
    requires Distinct(FieldNames(Emit(c, n - 1))) && SameElements(Emit(c, n - 1), c[..n - 1])
    ensures Distinct(FieldNames(Emit(c, n))) && SameElements(Emit(c, n), c[..n])
  {
    hide Settled, Survives, SharesFloat, Canonical;
    var g, out := c[n - 1], Emit(c, n - 1);
    assert c[..n] == c[..n - 1] + [g];
    forall k | 0 <= k < |out| && out[k].name == g.name ensures out[k] == g {
      assert out[k] in c[..n - 1];
    }
    if g in c[..n - 1] {
      assert g in out;
      assert !Emits(c, n - 1);
    } else {
      assert Emits(c, n - 1);
      assert FieldNames(out + [g]) == FieldNames(out) + [g.name];
    }
  }

  // ------------------------------------------------------------- the sorted form

  lemma {:induction false} ReorderLabel(t: LogicalType, base: Option<LogicalType>, order: FieldOrder)
    ensures VariantSemantic(ReorderType(t, base, order)) == VariantSemantic(t)
    ensures t.Scalar? <==> ReorderType(t, base, order).Scalar?
    ensures t.Scalar? ==> ReorderType(t, base, order) == t
    decreases t
  {
    if t.List? {
      ReorderLabel(t.value, if base.Some? && base.value.List? then Some(base.value.value) else None, order);
    }
  }

  lemma {:induction false} NormalizeScalar(t: LogicalType)
    ensures (t.Scalar? <==> Normalize(t).Scalar?) && (t.Scalar? ==> Normalize(t) == t)
  {
  }

  /** The sorted fields with their normalised children: every one made from the first field of its name. */
  ghost predicate MadeFrom(s: seq<LogicalField>, c: seq<LogicalField>) {
    forall k :: 0 <= k < |c| ==> MadeOf(s, c[k])
  }

  ghost predicate MadeOf(s: seq<LogicalField>, g: LogicalField) {
    Has(s, g.name) &&
    var f := Named(s, g.name);
    && g.nullable == f.nullable && Same(Unshadowed(f.typ), g.typ) && Sorted(g.typ)
    && VariantSemantic(g.typ) == VariantSemantic(f.typ) && (f.typ.Scalar? || g.typ.Scalar? ==> g.typ == f.typ)
  }

  /** Fields made from a normal level, with one field per name, are copies. */
  lemma {:induction false} MadeCopies(s: seq<LogicalField>, c: seq<LogicalField>)
    requires NormalLevel(s) && MadeFrom(s, c)
    requires forall j, k | 0 <= j < |c| && 0 <= k < |c| && c[j].name == c[k].name :: c[j] == c[k]
    ensures Copies(c)
  {
    hide Parse, Same, Sorted, NoRepeats;
    forall j | 0 <= j < |c| ensures Canonical(c[j]) == c[j] {
      assert MadeOf(s, c[j]);
      var a := FirstNamed(s, c[j].name, 0);
      assert Canonical(s[a]) == s[a];
      RelabelledCanonical(s[a], c[j]);
    }
    forall j, k | 0 <= j < |c| && 0 <= k < |c| && SharesFloat(c[j], c[k]) ensures c[j] == c[k] {
      assert MadeOf(s, c[j]) && MadeOf(s, c[k]);
      var a, b := FirstNamed(s, c[j].name, 0), FirstNamed(s, c[k].name, 0);
      assert SharesFloat(s[a], s[b]);
    }
  }

  lemma {:induction false} UnshadowedNames(s: seq<LogicalField>, n: nat)
    requires n <= |s|
    ensures var names := FieldNames(UnshadowedFields(s, n));
            Distinct(names) && forall x :: x in names <==> x in FieldNames(s)[..n]
  {
    if n > 0 {
      UnshadowedNames(s, n - 1);
      var u, u0, f := UnshadowedFields(s, n), UnshadowedFields(s, n - 1), s[n - 1];
      var first := FirstNamed(s, f.name, 0);
      assert FieldNames(s)[..n] == FieldNames(s)[..n - 1] + [f.name];
      assert FieldNames(u) == FieldNames(u0) + if first == n - 1 then [f.name] else [];
      assert first < n - 1 ==> FieldNames(s)[..n - 1][first] == f.name;
      assert first == n - 1 ==> f.name !in FieldNames(s)[..n - 1];
      OneMoreDistinct(FieldNames(u0), if first == n - 1 then [f.name] else []);
    }
  }

  /** Distinct fields, one made from each name, are the unshadowed fields up to order. */
  lemma {:induction false} MadeSame(s: seq<LogicalField>, r: seq<LogicalField>)
    requires MadeFrom(s, r) && Distinct(FieldNames(r)) && forall x :: x in FieldNames(s) ==> x in FieldNames(r)
    ensures SameFields(UnshadowedFields(s, |s|), r)
  {
    hide Same, Sorted;
    var u := UnshadowedFields(s, |s|);
    UnshadowedNames(s, |s|);
    assert FieldNames(s)[..|s|] == FieldNames(s);
    forall x ensures x in FieldNames(u) <==> x in FieldNames(r) {
      if x in FieldNames(r) {
        var k :| 0 <= k < |r| && FieldNames(r)[k] == x;
        assert MadeOf(s, r[k]);
        HasName(s, x);
      }
    }
    SameCounts(FieldNames(u), FieldNames(r));
    forall m | 0 <= m < |u| ensures SameAs(u, m, r) { MadeAs(s, r, m); }
  }

  lemma {:induction false} MadeAs(s: seq<LogicalField>, r: seq<LogicalField>, m: nat)
    requires MadeFrom(s, r) && (forall x :: x in FieldNames(s) ==> x in FieldNames(r))
    requires m < |UnshadowedFields(s, |s|)|
    ensures SameAs(UnshadowedFields(s, |s|), m, r)
  {
    hide Same, Sorted;
    var g := UnshadowedFields(s, |s|)[m];
    var j := UnshadowedFrom(s, |s|, g);
    assert FieldNames(s)[j] == g.name;
    HasName(r, g.name);
    var k := FirstNamed(r, g.name, 0);
    assert MadeOf(s, r[k]) && Named(s, g.name) == s[j];
  }

  /** Normalising the sorted form of a normal type leaves its unshadowed fields in order, at every level. */
  lemma {:induction false} SortedForm(t: LogicalType, base: Option<LogicalType>)
    requires Normal(t)
    ensures var u := Normalize(ReorderType(t, base, Alphabetically)); Same(Unshadowed(t), u) && Sorted(u)
    decreases t, 0
  {
    match t
    case Scalar(_) =>
    case List(value) => SortedForm(value, if base.Some? && base.value.List? then Some(base.value.value) else None);
    case Struct(fields) => SortedFieldsForm(fields, base);
  }

  lemma {:induction false} SortedMade(s: seq<LogicalField>, base: Option<LogicalType>, k: nat)
    requires NormalFields(s) && k < |ReorderFields(s, base, Alphabetically)|
    ensures var c := NormalizeChildren(ReorderFields(s, base, Alphabetically)); MadeOf(s, c[k])
    decreases s, 0
  {
    hide ReorderFields, ReorderType, Normalize, Same, Sorted, Unshadowed, VariantSemantic, NormalLevel;
    var contract, names := ContractFields(base), Sort(FieldNames(s));
    AlphabeticalIs(s, base);
    var f, b := Named(s, names[k]), ContractType(contract, names[k]);
    SortedForm(f.typ, b);
    ReorderLabel(f.typ, b, Alphabetically);
    NormalizeLabel(ReorderType(f.typ, b, Alphabetically));
    NormalizeScalar(ReorderType(f.typ, b, Alphabetically));
  }

  lemma {:induction false} SortedNames(s: seq<LogicalField>, base: Option<LogicalType>)
    ensures var r := ReorderFields(s, base, Alphabetically);
            && FieldNames(r) == Sort(FieldNames(s))
            && forall j, k | 0 <= j < |r| && 0 <= k < |r| && r[j].name == r[k].name :: r[j] == r[k]
  {
    var contract, names, r := ContractFields(base), Sort(FieldNames(s)), ReorderFields(s, base, Alphabetically);
    AlphabeticalIs(s, base);
    assert FieldNames(r) == names;
  }

  lemma {:induction false} HasNamed(r: seq<LogicalField>, g: LogicalField)
    requires g in r
    ensures g.name in FieldNames(r)
  {
    var k :| 0 <= k < |r| && r[k] == g;
    assert FieldNames(r)[k] == g.name;
  }

  lemma {:induction false} CopiesSorted(s: seq<LogicalField>, c: seq<LogicalField>)
    requires Copies(c) && MadeFrom(s, c) && Ascending(FieldNames(c))
    ensures MadeFrom(s, Emit(c, |c|)) && SortedFields(Emit(c, |c|))
  {
    hide Settled, Survives, Canonical, Parse, Same, Below;
    var r, o := Emit(c, |c|), Origins(c, |c|);
    EmittedInOrder(c, |c|);
    forall k | 0 <= k < |r| ensures r[k] == c[o[k]] && MadeOf(s, r[k]) {
      CopySettled(c, o[k]);
      assert MadeOf(s, c[o[k]]);
    }
    forall j, k | 0 <= j < k < |r| ensures Below(FieldNames(r)[j], FieldNames(r)[k]) {
      assert Below(FieldNames(c)[o[j]], FieldNames(c)[o[k]]);
    }
  }

  lemma {:induction false} NamesKept(c: seq<LogicalField>, r: seq<LogicalField>)
    requires SameElements(r, c)
    ensures forall x :: x in FieldNames(c) ==> x in FieldNames(r)
  {
    forall x | x in FieldNames(c) ensures x in FieldNames(r) {
      var k :| 0 <= k < |c| && FieldNames(c)[k] == x;
      assert c[k] in r;
      HasNamed(r, c[k]);
    }
  }

  lemma {:induction false} SortedLevel(s: seq<LogicalField>, c: seq<LogicalField>)
    requires NormalLevel(s) && MadeFrom(s, c) && FieldNames(c) == Sort(FieldNames(s))
    requires forall j, k | 0 <= j < |c| && 0 <= k < |c| && c[j].name == c[k].name :: c[j] == c[k]
    ensures SameFields(UnshadowedFields(s, |s|), Emit(c, |c|)) && SortedFields(Emit(c, |c|))
  {
    hide MadeFrom, Copies, Emit, UnshadowedFields, NormalLevel, SameFields, SortedFields, SameElements;
    MadeCopies(s, c);
    CopiesEmit(c, |c|);
    assert c[..|c|] == c;
    CopiesSorted(s, c);
    NamesKept(c, Emit(c, |c|));
    assert forall x :: x in FieldNames(s) ==> x in Sort(FieldNames(s));
    MadeSame(s, Emit(c, |c|));
  }

  lemma {:induction false} SortedFieldsForm(s: seq<LogicalField>, base: Option<LogicalType>)
    requires NormalFields(s)
    ensures var r := NormalizeFields(ReorderFields(s, base, Alphabetically));
            SameFields(UnshadowedFields(s, |s|), r) && SortedFields(r)
    decreases s, 1
  {
    hide MadeOf, ReorderFields, UnshadowedFields, SameFields, SortedFields, NormalLevel;
    var q := ReorderFields(s, base, Alphabetically);
    var c := NormalizeChildren(q);
    forall k | 0 <= k < |c| ensures MadeOf(s, c[k]) { SortedMade(s, base, k); }
    SortedNames(s, base);
    assert FieldNames(c) == FieldNames(q);
    SortedLevel(s, c);
  }
}
