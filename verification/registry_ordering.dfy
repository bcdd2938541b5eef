/** The alphabetical registry order: with unique names it only permutes; otherwise it keeps, of each
    name, the first field. */
module RegistryOrdering {
  import opened Basics
  import opened VariantNames
  import opened LogicalSchemas
  import opened NameOrder
  import opened SchemaEvolution
  import opened SchemaOrder
  import opened RegistryMerge
  import opened RegistryNumeric
  import opened RegistryCoverage
  import opened RegistryVersions
  import opened RegistryDepth
  import opened RegistrySettling

  // ------------------------------------------------------- what permuting keeps

  lemma {:induction false} SameCoversIn(dk: string, s: seq<LogicalField>, r: seq<LogicalField>, fam: string,
                                        x: LogicalType)
    requires SameFields(s, r) && CoversIn(dk, s, fam, x)
    ensures CoversIn(dk, r, fam, x)
    decreases x, s, 1
  {
    hide Parse;
    var j :| 0 <= j < |s| && InFamily(s[j], fam) && Covers(dk, s[j].typ, x);
    assert SameAs(s, j, r);
    var k := FirstNamed(r, s[j].name, 0);
    SameCovers(dk, s[j].typ, r[k].typ, x);
    assert InFamily(r[k], fam);
  }

  lemma {:induction false} SameCovers(dk: string, t: LogicalType, u: LogicalType, x: LogicalType)
    requires Same(t, u) && Covers(dk, t, x)
    ensures Covers(dk, u, x)
    decreases x, t, 0
  {
    match t
    case Scalar(_) =>
    case List(value) => SameCovers(dk, value, u.value, if x.List? then x.value else x);
    case Struct(fields) =>
      match x
      case Struct(observed) =>
        forall k | 0 <= k < |observed| ensures CoversIn(dk, u.fields, Family(observed[k].name), observed[k].typ) {
          SameCoversIn(dk, fields, u.fields, Family(observed[k].name), observed[k].typ);
        }
      case Scalar(_) => SameCoversIn(dk, fields, u.fields, Family(WrapperName(dk)), x);
  }

  lemma {:induction false} SameNotDeeper(t: LogicalType, u: LogicalType)
    requires Same(t, u)
    ensures Depth(t) <= Depth(u)
  {
    match t
    case Scalar(_) =>
    case List(value) => SameNotDeeper(value, u.value);
    case Struct(fields) =>
      var d := FieldsDepth(fields);
      if d > 0 {
        var j :| 0 <= j < |fields| && Depth(fields[j].typ) == d;
        assert SameAs(fields, j, u.fields);
        SameNotDeeper(fields[j].typ, Named(u.fields, fields[j].name).typ);
      }
  }

  lemma {:induction false} SameVersions(t: LogicalType, u: LogicalType)
    requires WellVersioned(t) && UniqueNames(u) && Same(u, t)
    ensures WellVersioned(u)
  {
    match u
    case Scalar(_) =>
    case List(value) => SameVersions(t.value, value);
    case Struct(fields) =>
      forall j, k | 0 <= j < k < |fields| ensures !Clash(fields[j], fields[k]) {
        assert SameAs(fields, j, t.fields) && SameAs(fields, k, t.fields);
        var a, b := FirstNamed(t.fields, fields[j].name, 0), FirstNamed(t.fields, fields[k].name, 0);
        assert FieldNames(fields)[j] != FieldNames(fields)[k];
        assert !Clash(t.fields[a], t.fields[b]) && !Clash(t.fields[b], t.fields[a]);
      }
      forall j | 0 <= j < |fields| ensures WellVersioned(fields[j].typ) {
        assert SameAs(fields, j, t.fields);
        SameVersions(Named(t.fields, fields[j].name).typ, fields[j].typ);
      }
  }

  lemma {:induction false} SameLabel(t: LogicalType, u: LogicalType)
    requires Same(t, u)
    ensures VariantSemantic(t) == VariantSemantic(u) && (t.Scalar? ==> t == u)
  {
    if t.List? { SameLabel(t.value, u.value); }
  }

  /** A permutation of a normal form with unique names is normal. */
  lemma {:induction false} SameNormal(t: LogicalType, u: LogicalType)
    requires Normal(t) && UniqueNames(u) && Same(u, t)
    ensures Normal(u)
  {
    match u
    case Scalar(_) =>
    case List(value) => SameNormal(t.value, value);
    case Struct(fields) =>
      SameLevel(t.fields, fields);
      forall j | 0 <= j < |fields| ensures Normal(fields[j].typ) {
        assert SameAs(fields, j, t.fields);
        SameNormal(Named(t.fields, fields[j].name).typ, fields[j].typ);
      }
  }

  lemma {:induction false} SameLevel(s: seq<LogicalField>, r: seq<LogicalField>)
    requires NormalLevel(s) && Distinct(FieldNames(r)) && SameFields(r, s)
    ensures NormalLevel(r)
  {
    hide Parse;
    forall j | 0 <= j < |r|
      ensures SameAs(r, j, s) && VariantSemantic(r[j].typ) == VariantSemantic(Named(s, r[j].name).typ)
                                    && (r[j].typ.Scalar? ==> r[j].typ == Named(s, r[j].name).typ)
                                    && (Named(s, r[j].name).typ.Scalar? ==> r[j].typ == Named(s, r[j].name).typ) {
      assert SameAs(r, j, s);
      SameLabel(r[j].typ, Named(s, r[j].name).typ);
    }
    forall j, k | 0 <= j < |r| && 0 <= k < |r| && SharesFloat(r[j], r[k]) ensures j == k {
      var a, b := FirstNamed(s, r[j].name, 0), FirstNamed(s, r[k].name, 0);
      assert SharesFloat(s[a], s[b]);
      assert FieldNames(r)[j] == FieldNames(r)[k];
    }
    forall j | 0 <= j < |r| ensures Canonical(r[j]) == r[j] {
      var a := FirstNamed(s, r[j].name, 0);
      assert Canonical(s[a]) == s[a];
      RelabelledCanonical(s[a], r[j]);
    }
    forall k | 0 <= k < |r| ensures NoRepeat(r, k) {
      assert forall d :: 0 <= d < k ==> FieldNames(r)[d] != FieldNames(r)[k];
    }
  }

  // ------------------------------------------------ what sorting does in general

  /** The tree with, of each name, the first field of every level. */
  function Unshadowed(t: LogicalType): LogicalType
    decreases t, 0
  {
    match t
    case Scalar(_) => t
    case List(value) => List(Unshadowed(value))
    case Struct(fields) => Struct(UnshadowedFields(fields, |fields|))
  }

  function UnshadowedFields(s: seq<LogicalField>, n: nat): seq<LogicalField>
    requires n <= |s|
    decreases s, 1, n
  {
    if n == 0 then []
    else
      UnshadowedFields(s, n - 1)
      + if FirstNamed(s, s[n - 1].name, 0) == n - 1 then [s[n - 1].(typ := Unshadowed(s[n - 1].typ))] else []
  }

  lemma {:induction false} UnshadowedHas(s: seq<LogicalField>, n: nat, j: nat) returns (m: nat)
    requires j < n <= |s| && FirstNamed(s, s[j].name, 0) == j
    ensures m < |UnshadowedFields(s, n)| && UnshadowedFields(s, n)[m] == s[j].(typ := Unshadowed(s[j].typ))
  {
    if j < n - 1 { m := UnshadowedHas(s, n - 1, j); } else { m := |UnshadowedFields(s, n - 1)|; }
  }

  lemma {:induction false} CoversBy(dk: string, s: seq<LogicalField>, fam: string, x: LogicalType, j: nat)
    requires j < |s| && InFamily(s[j], fam) && Covers(dk, s[j].typ, x)
    ensures CoversIn(dk, s, fam, x)
  {
  }

  lemma {:induction false} UnshadowedFrom(s: seq<LogicalField>, n: nat, g: LogicalField) returns (j: nat)
    requires n <= |s| && g in UnshadowedFields(s, n)
    ensures j < n && FirstNamed(s, s[j].name, 0) == j && g == s[j].(typ := Unshadowed(s[j].typ))
  {
    if g in UnshadowedFields(s, n - 1) { j := UnshadowedFrom(s, n - 1, g); } else { j := n - 1; }
  }

  /** Unique names shadow nothing. */
  lemma {:induction false} UniqueUnshadowed(t: LogicalType)
    requires UniqueNames(t)
    ensures Unshadowed(t) == t
  {
    match t
    case Scalar(_) =>
    case List(value) => UniqueUnshadowed(value);
    case Struct(fields) => UniqueFieldsUnshadowed(fields, |fields|);
  }

  lemma {:induction false} UniqueFieldsUnshadowed(s: seq<LogicalField>, n: nat)
    requires UniqueFields(s) && n <= |s|
    ensures UnshadowedFields(s, n) == s[..n]
    decreases s, n
  {
    if n > 0 {
      UniqueFieldsUnshadowed(s, n - 1);
      NamedIs(s, n - 1);
      UniqueUnshadowed(s[n - 1].typ);
      assert s[..n] == s[..n - 1] + [s[n - 1]];
    }
  }

  /** A sorted level consists of the unshadowed fields, sorted below. */
  lemma {:induction false} SortedFrom(s: seq<LogicalField>, base: Option<LogicalType>, k: nat)
    returns (j: nat, b: Option<LogicalType>)
    requires k < |ReorderFields(s, base, Alphabetically)|
    ensures j < |s| && FirstNamed(s, s[j].name, 0) == j
    ensures ReorderFields(s, base, Alphabetically)[k] == s[j].(typ := ReorderType(s[j].typ, b, Alphabetically))
  {
    var contract, names, r := ContractFields(base), Sort(FieldNames(s)), ReorderFields(s, base, Alphabetically);
    AlphabeticalIs(s, base);
    j, b := FirstNamed(s, names[k], 0), ContractType(contract, names[k]);
  }

  lemma {:induction false} SortedHas(s: seq<LogicalField>, base: Option<LogicalType>, j: nat)
    returns (k: nat, b: Option<LogicalType>)
    requires j < |s| && FirstNamed(s, s[j].name, 0) == j
    ensures k < |ReorderFields(s, base, Alphabetically)|
    ensures ReorderFields(s, base, Alphabetically)[k] == s[j].(typ := ReorderType(s[j].typ, b, Alphabetically))
  {
    var contract, names, r := ContractFields(base), Sort(FieldNames(s)), ReorderFields(s, base, Alphabetically);
    AlphabeticalIs(s, base);
    assert FieldNames(s)[j] in FieldNames(s);
    k :| 0 <= k < |names| && names[k] == s[j].name;
    b := ContractType(contract, names[k]);
  }

  /** Sorting covers exactly what the unshadowed fields cover. */
  lemma {:induction false} SortedCovers(dk: string, t: LogicalType, base: Option<LogicalType>, x: LogicalType)
    ensures Covers(dk, ReorderType(t, base, Alphabetically), x) <==> Covers(dk, Unshadowed(t), x)
    decreases t
  {
    match t
    case Scalar(_) =>
    case List(value) =>
      SortedCovers(dk, value, if base.Some? && base.value.List? then Some(base.value.value) else None,
                   if x.List? then x.value else x);
    case Struct(fields) =>
      match x
      case List(_) =>
      case Scalar(_) => SortedCoversIn(dk, fields, base, Family(WrapperName(dk)), x);
      case Struct(observed) => SortedCoversFields(dk, fields, base, observed);
  }

  lemma {:induction false} SortedCoversFields(dk: string, s: seq<LogicalField>, base: Option<LogicalType>,
                                              x: seq<LogicalField>)
    ensures CoversFields(dk, ReorderFields(s, base, Alphabetically), x) <==>
            CoversFields(dk, UnshadowedFields(s, |s|), x)
    decreases s, 3
  {
    var r, u := ReorderFields(s, base, Alphabetically), UnshadowedFields(s, |s|);
    forall k | 0 <= k < |x|
      ensures CoversIn(dk, r, Family(x[k].name), x[k].typ) <==> CoversIn(dk, u, Family(x[k].name), x[k].typ)
    {
      SortedCoversIn(dk, s, base, Family(x[k].name), x[k].typ);
    }
  }

  lemma {:induction false} SortedCoversIn(dk: string, s: seq<LogicalField>, base: Option<LogicalType>, fam: string,
                                          x: LogicalType)
    ensures CoversIn(dk, ReorderFields(s, base, Alphabetically), fam, x) <==>
            CoversIn(dk, UnshadowedFields(s, |s|), fam, x)
    decreases s, 2
  {
    if CoversIn(dk, ReorderFields(s, base, Alphabetically), fam, x) { SortedIsUnshadowed(dk, s, base, fam, x); }
    if CoversIn(dk, UnshadowedFields(s, |s|), fam, x) { UnshadowedIsSorted(dk, s, base, fam, x); }
  }

  lemma {:induction false} SortedIsUnshadowed(dk: string, s: seq<LogicalField>, base: Option<LogicalType>, fam: string,
                                              x: LogicalType)
    requires CoversIn(dk, ReorderFields(s, base, Alphabetically), fam, x)
    ensures CoversIn(dk, UnshadowedFields(s, |s|), fam, x)
    decreases s, 1
  {
    hide Parse, Covers;
    var r, u := ReorderFields(s, base, Alphabetically), UnshadowedFields(s, |s|);
    var k :| 0 <= k < |r| && InFamily(r[k], fam) && Covers(dk, r[k].typ, x);
    var j, b := SortedFrom(s, base, k);
    SortedCovers(dk, s[j].typ, b, x);
    var m := UnshadowedHas(s, |s|, j);
    CoversBy(dk, u, fam, x, m);
  }

  lemma {:induction false} UnshadowedIsSorted(dk: string, s: seq<LogicalField>, base: Option<LogicalType>, fam: string,
                                              x: LogicalType)
    requires CoversIn(dk, UnshadowedFields(s, |s|), fam, x)
    ensures CoversIn(dk, ReorderFields(s, base, Alphabetically), fam, x)
    decreases s, 1
  {
    hide Parse, Covers;
    var r, u := ReorderFields(s, base, Alphabetically), UnshadowedFields(s, |s|);
    var m :| 0 <= m < |u| && InFamily(u[m], fam) && Covers(dk, u[m].typ, x);
    var j := UnshadowedFrom(s, |s|, u[m]);
    var k, b := SortedHas(s, base, j);
    SortedCovers(dk, s[j].typ, b, x);
    CoversBy(dk, r, fam, x, k);
  }

  /** What the unshadowed fields cover, the whole tree covers. */
  lemma {:induction false} UnshadowedCovers(dk: string, t: LogicalType, x: LogicalType)
    requires Covers(dk, Unshadowed(t), x)
    ensures Covers(dk, t, x)
    decreases x, t, 0
  {
    match t
    case Scalar(_) =>
    case List(value) => UnshadowedCovers(dk, value, if x.List? then x.value else x);
    case Struct(fields) =>
      match x
      case Scalar(_) => UnshadowedCoversIn(dk, fields, Family(WrapperName(dk)), x);
      case Struct(observed) =>
        var u := UnshadowedFields(fields, |fields|);
        forall k | 0 <= k < |observed| ensures CoversIn(dk, fields, Family(observed[k].name), observed[k].typ) {
          assert CoversIn(dk, u, Family(observed[k].name), observed[k].typ);
          UnshadowedCoversIn(dk, fields, Family(observed[k].name), observed[k].typ);
        }
  }

  lemma {:induction false} UnshadowedCoversIn(dk: string, s: seq<LogicalField>, fam: string, x: LogicalType)
    requires CoversIn(dk, UnshadowedFields(s, |s|), fam, x)
    ensures CoversIn(dk, s, fam, x)
    decreases x, s, 1
  {
    hide Parse;
    var u := UnshadowedFields(s, |s|);
    var m :| 0 <= m < |u| && InFamily(u[m], fam) && Covers(dk, u[m].typ, x);
    var j := UnshadowedFrom(s, |s|, u[m]);
    UnshadowedCovers(dk, s[j].typ, x);
    assert InFamily(s[j], fam);
  }

  /** Sorting is as deep as the unshadowed fields are. */
  lemma {:induction false} SortedDepth(t: LogicalType, base: Option<LogicalType>)
    ensures Depth(ReorderType(t, base, Alphabetically)) == Depth(Unshadowed(t))
  {
    match t
    case Scalar(_) =>
    case List(value) => SortedDepth(value, if base.Some? && base.value.List? then Some(base.value.value) else None);
    case Struct(fields) => SortedFieldsDepth(fields, base);
  }

  lemma {:induction false} SortedFieldsDepth(s: seq<LogicalField>, base: Option<LogicalType>)
    ensures FieldsDepth(ReorderFields(s, base, Alphabetically)) == FieldsDepth(UnshadowedFields(s, |s|))
  {
    var r, u := ReorderFields(s, base, Alphabetically), UnshadowedFields(s, |s|);
    var d := FieldsDepth(u);
    forall k | 0 <= k < |r| ensures Depth(r[k].typ) <= d {
      var j, b := SortedFrom(s, base, k);
      SortedDepth(s[j].typ, b);
      var m := UnshadowedHas(s, |s|, j);
    }
    if d > 0 {
      var m :| 0 <= m < |u| && Depth(u[m].typ) == d;
      var j := UnshadowedFrom(s, |s|, u[m]);
      var k, b := SortedHas(s, base, j);
      SortedDepth(s[j].typ, b);
      assert Depth(r[k].typ) == d;
    }
    DepthIs(r, d);
  }

  // --------------------------------------------------- observing a normal form

  /** What covers an observation covers its normal form. */
  lemma {:induction false} CoversAfterNormalize(dk: string, t: LogicalType, x: LogicalType)
    requires Covers(dk, t, x)
    ensures Covers(dk, t, Normalize(x))
    decreases x, t, 0
  {
    match t
    case Scalar(_) =>
    case List(value) => CoversAfterNormalize(dk, value, if x.List? then x.value else x);
    case Struct(fields) => if x.Struct? { CoversFieldsAfterNormalize(dk, fields, x.fields); }
  }

  lemma {:induction false} CoversFieldsAfterNormalize(dk: string, s: seq<LogicalField>, x: seq<LogicalField>)
    requires CoversFields(dk, s, x)
    ensures CoversFields(dk, s, NormalizeFields(x))
    decreases x, 1
  {
    hide Parse, Settled, Survives;
    var c, n := NormalizeChildren(x), NormalizeFields(x);
    EmittedInOrder(c, |c|);
    forall k | 0 <= k < |n| ensures CoversIn(dk, s, Family(n[k].name), n[k].typ) {
      var j := Origins(c, |c|)[k];
      SettledKeeps(c, j);
      var fam := Family(x[j].name);
      if n[k].typ == c[j].typ {
        assert CoversIn(dk, s, fam, x[j].typ);
        var m :| 0 <= m < |s| && InFamily(s[m], fam) && Covers(dk, s[m].typ, x[j].typ);
        CoversAfterNormalize(dk, s[m].typ, x[j].typ);
      } else {
        var float := FirstFloat(c, fam, 0);
        ScalarBefore(x[float].typ);
        assert CoversIn(dk, s, Family(x[float].name), x[float].typ);
      }
    }
  }

  lemma {:induction false} ScalarBefore(t: LogicalType)
    requires Normalize(t).Scalar?
    ensures Normalize(t) == t
  {
  }
}
