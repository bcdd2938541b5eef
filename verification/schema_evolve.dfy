/** Evolving a schema twice with the same inference gives the same schema. */
module SchemaEvolve {
  import opened Basics
  import opened LogicalSchemas
  import opened SchemaEvolution
  import opened SchemaOrder

  datatype EvolutionMode = Strict | Additive

  type Result<T> = Outcome<T, string>

  function ReorderSchema(s: seq<LogicalField>, base: seq<LogicalField>, order: FieldOrder): seq<LogicalField> {
    if s == [] then s else ReorderFields(s, if base == [] then None else Some(Struct(base)), order)
  }

  /** Rejects an empty contract, and top-level fields outside of it. */
  function CheckStrict(base: seq<LogicalField>, inferred: seq<LogicalField>, k: nat): Result<()>
    requires k <= |inferred|
    decreases |inferred| - k
  {
    if base == [] then Err("Strict schema evolution requires a non-empty schema_contract")
    else if k == |inferred| then Ok(())
    else if !Has(base, inferred[k].name) then
      Err("Strict schema evolution: observed extra field '" + inferred[k].name + "'")
    else CheckStrict(base, inferred, k + 1)
  }

  /** Field `j` is the first, from `k` on, that the contract does not name, and the error says so. */
  predicate Refuses(base: seq<LogicalField>, inferred: seq<LogicalField>, k: nat, j: nat, error: string)
    requires j < |inferred|
  {
    && k <= j && !Has(base, inferred[j].name) && (forall m :: k <= m < j ==> Has(base, inferred[m].name))
    && error == "Strict schema evolution: observed extra field '" + inferred[j].name + "'"
  }

  /** Strict checking accepts exactly the known names, and tells the first unknown one. */
  lemma {:induction false} StrictAccepts(base: seq<LogicalField>, inferred: seq<LogicalField>, k: nat)
    requires k <= |inferred| && base != []
    ensures var r := CheckStrict(base, inferred, k);
            && (r.Ok? <==> forall j :: k <= j < |inferred| ==> Has(base, inferred[j].name))
            && (r.Err? ==> exists j: nat :: j < |inferred| && Refuses(base, inferred, k, j, r.error))
    decreases |inferred| - k
  {
    if k < |inferred| {
      var r := CheckStrict(base, inferred, k);
      if !Has(base, inferred[k].name) {
        assert Refuses(base, inferred, k, k, r.error);
      } else {
        StrictAccepts(base, inferred, k + 1);
        if r.Err? {
          var j: nat :| j < |inferred| && Refuses(base, inferred, k + 1, j, r.error);
          assert Refuses(base, inferred, k, j, r.error);
        }
      }
    }
  }

  function EvolveAdditive(base: seq<LogicalField>, inferred: seq<LogicalField>, order: FieldOrder): seq<LogicalField> {
    ReorderSchema(MergeSchema(base, inferred), base, order)
  }

  function Evolve(base: seq<LogicalField>, inferred: seq<LogicalField>, mode: EvolutionMode,
                  order: FieldOrder): Result<seq<LogicalField>> {
    match mode
    case Additive => Ok(EvolveAdditive(base, inferred, order))
    case Strict =>
      match CheckStrict(base, inferred, 0)
      case Err(m) => Err(m)
      case Ok(_) => Ok(if order == SchemaContractFirst then base else ReorderSchema(base, base, order))
  }

  // ------------------------------------------------------- additive absorption

  /** `t` already has every name that `i` could add to it, at every level both describe. */
  predicate Includes(t: LogicalType, i: LogicalType)
    decreases i
  {
    (t.Struct? && i.Struct? ==> IncludesFields(t.fields, i.fields)) &&
    (t.List? && i.List? ==> Includes(t.value, i.value))
  }

  predicate IncludesFields(s: seq<LogicalField>, i: seq<LogicalField>)
    decreases i, 1
  {
    forall k :: 0 <= k < |i| ==> IncludesField(s, i, k)
  }

  predicate IncludesField(s: seq<LogicalField>, i: seq<LogicalField>, k: nat)
    requires k < |i|
    decreases i, 0
  {
    Has(s, i[k].name) && Includes(Named(s, i[k].name).typ, i[k].typ)
  }

  lemma {:induction false} IncludesSelf(t: LogicalType)
    requires UniqueNames(t)
    ensures Includes(t, t)
  {
    match t
    case Scalar(_) =>
    case List(value) => IncludesSelf(value);
    case Struct(fields) =>
      forall k | 0 <= k < |fields| ensures IncludesField(fields, fields, k) {
        NamedIs(fields, k);
        IncludesSelf(fields[k].typ);
      }
  }

  /** An included observation adds nothing. */
  lemma {:induction false} IncludedAddsNothing(t: LogicalType, i: LogicalType)
    requires UniqueNames(t) && Includes(t, i)
    ensures MergeAdditive(t, i) == t
  {
    if t.Struct? && i.Struct? {
      IncludedFieldsAddNothing(t.fields, i.fields);
    } else if t.List? && i.List? {
      IncludedAddsNothing(t.value, i.value);
    }
  }

  lemma {:induction false} IncludedFieldsAddNothing(s: seq<LogicalField>, i: seq<LogicalField>)
    requires UniqueFields(s) && IncludesFields(s, i)
    ensures MergeFieldsAdditive(s, i) == s
  {
    var r := MergeMatching(s, i);
    forall j | 0 <= j < |s| ensures r[j] == s[j] {
      if Has(i, s[j].name) {
        NamedIs(s, j);
        assert IncludesField(s, i, FirstNamed(i, s[j].name, 0));
        IncludedAddsNothing(s[j].typ, Named(i, s[j].name).typ);
      }
    }
    assert r == s;
    forall k | 0 <= k < |i| ensures Has(s, i[k].name) { assert IncludesField(s, i, k); }
    NothingUnmatched(s, i, |i|);
  }

  lemma {:induction false} NothingUnmatched(s: seq<LogicalField>, i: seq<LogicalField>, n: nat)
    requires n <= |i| && forall k :: 0 <= k < n ==> Has(s, i[k].name)
    ensures Unmatched(s, i, n) == []
  {
    if n > 0 { NothingUnmatched(s, i, n - 1); }
  }

  /** A merge includes what it merged. */
  lemma {:induction false} MergeIncludes(b: LogicalType, i: LogicalType)
    requires UniqueNames(b) && UniqueNames(i)
    ensures var m := MergeAdditive(b, i); Includes(m, i) && UniqueNames(m)
    decreases b, 1
  {
    if b.Struct? && i.Struct? {
      MergeFieldsIncludes(b.fields, i.fields);
    } else if b.List? && i.List? {
      MergeIncludes(b.value, i.value);
    }
  }

  lemma {:induction false} NameIsNew(b: seq<LogicalField>, i: seq<LogicalField>, n: nat)
    requires n < |i| && Distinct(FieldNames(i))
    ensures i[n].name !in FieldNames(Unmatched(b, i, n))
  {
    hide Has, Unmatched;
    var r := Unmatched(b, i, n);
    forall j | 0 <= j < |r| ensures r[j].name != i[n].name {
      assert r[j] in i[..n];
      var k :| 0 <= k < n && i[k] == r[j];
      assert FieldNames(i)[k] != FieldNames(i)[n];
    }
  }

  lemma {:induction false} NamesGrow(s: seq<LogicalField>, f: LogicalField)
    requires Distinct(FieldNames(s)) && f.name !in FieldNames(s)
    ensures Distinct(FieldNames(s + [f]))
  {
    assert FieldNames(s + [f]) == FieldNames(s) + [f.name];
  }

  lemma {:induction false} NoNames()
    ensures Distinct(FieldNames([]))
  {
  }

  lemma {:induction false} UnmatchedNames(b: seq<LogicalField>, i: seq<LogicalField>, n: nat)
    requires n <= |i| && Distinct(FieldNames(i))
    ensures Distinct(FieldNames(Unmatched(b, i, n)))
  {
    hide Has, Unmatched, Distinct, FieldNames;
    if n == 0 {
      UnmatchedStart(b, i);
      NoNames();
    } else {
      var r0 := Unmatched(b, i, n - 1);
      UnmatchedNames(b, i, n - 1);
      UnmatchedNext(b, i, n - 1);
      NameIsNew(b, i, n - 1);
      NamesGrow(r0, i[n - 1]);
      assert r0 + [] == r0;
    }
  }

  lemma {:induction false} MergedNames(b: seq<LogicalField>, i: seq<LogicalField>)
    requires Distinct(FieldNames(b)) && Distinct(FieldNames(i))
    ensures Distinct(FieldNames(MergeFieldsAdditive(b, i)))
  {
    var kept, added := MergeMatching(b, i), Unmatched(b, i, |i|);
    UnmatchedNames(b, i, |i|);
    NamesConcat(kept, added);
    assert FieldNames(kept) == FieldNames(b);
    forall j, k | 0 <= j < |b| && 0 <= k < |added| ensures b[j].name != added[k].name {
      assert added[k] in added;
      NamedIs(b, j);
    }
  }

  lemma {:induction false} MergedTypes(b: seq<LogicalField>, i: seq<LogicalField>, j: nat)
    requires UniqueFields(b) && UniqueFields(i) && j < |MergeFieldsAdditive(b, i)|
    ensures var f := MergeFieldsAdditive(b, i)[j];
            UniqueNames(f.typ) && (Has(i, f.name) ==> Includes(f.typ, Named(i, f.name).typ))
    decreases b, 0
  {
    var m := MergeFieldsAdditive(b, i);
    if j < |b| {
      if Has(i, b[j].name) { MergeIncludes(b[j].typ, Named(i, b[j].name).typ); }
    } else {
      assert m[j] == Unmatched(b, i, |i|)[j - |b|] && m[j] in Unmatched(b, i, |i|);
      assert m[j] in i[..|i|];
      var k :| 0 <= k < |i| && i[k] == m[j];
      NamedIs(i, k);
      IncludesSelf(m[j].typ);
    }
  }

  lemma {:induction false} MergeFieldsIncludes(b: seq<LogicalField>, i: seq<LogicalField>)
    requires UniqueFields(b) && UniqueFields(i)
    ensures var m := MergeFieldsAdditive(b, i); IncludesFields(m, i) && UniqueFields(m)
    decreases b, 1
  {
    var m := MergeFieldsAdditive(b, i);
    MergedNames(b, i);
    forall j | 0 <= j < |m| ensures UniqueNames(m[j].typ) { MergedTypes(b, i, j); }
    forall k | 0 <= k < |i| ensures IncludesField(m, i, k) {
      MergedHas(b, i, k);
      NamedIs(i, k);
      MergedTypes(b, i, FirstNamed(m, i[k].name, 0));
    }
  }

  lemma {:induction false} MergedHas(b: seq<LogicalField>, i: seq<LogicalField>, k: nat)
    requires k < |i|
    ensures Has(MergeFieldsAdditive(b, i), i[k].name)
  {
    var m, name := MergeFieldsAdditive(b, i), i[k].name;
    if Has(b, name) {
      assert m[FirstNamed(b, name, 0)].name == name;
    } else {
      assert i[k] in i[..|i|];
      var j :| 0 <= j < |Unmatched(b, i, |i|)| && Unmatched(b, i, |i|)[j] == i[k];
      assert m[|b| + j].name == name;
    }
  }

  /** Inclusion does not depend on order. */
  lemma {:induction false} IncludesSame(t: LogicalType, u: LogicalType, i: LogicalType)
    requires Same(t, u) && Includes(t, i)
    ensures Includes(u, i)
    decreases i
  {
    if t.Struct? && i.Struct? {
      forall k | 0 <= k < |i.fields| ensures IncludesField(u.fields, i.fields, k) {
        assert IncludesField(t.fields, i.fields, k);
        var j := FirstNamed(t.fields, i.fields[k].name, 0);
        assert SameAs(t.fields, j, u.fields);
        IncludesSame(t.fields[j].typ, Named(u.fields, i.fields[k].name).typ, i.fields[k].typ);
      }
    } else if t.List? && i.List? {
      IncludesSame(t.value, u.value, i.value);
    }
  }

  // --------------------------------------------- a schema is its own contract

  lemma {:induction false} UndescribedKept(t: LogicalType)
    ensures ReorderType(t, None, SchemaContractFirst) == t
  {
    match t
    case Scalar(_) =>
    case List(value) => UndescribedKept(value);
    case Struct(fields) =>
      forall j | 0 <= j < |fields| ensures KeepOrder(fields)[j] == fields[j] { UndescribedKept(fields[j].typ); }
      assert KeepOrder(fields) == fields;
  }

  lemma {:induction false} OwnContract(t: LogicalType)
    requires UniqueNames(t)
    ensures ReorderType(t, Some(t), SchemaContractFirst) == t
  {
    match t
    case Scalar(_) =>
    case List(value) => OwnContract(value);
    case Struct(fields) => OwnContractFields(fields);
  }

  lemma {:induction false} OwnContractFields(s: seq<LogicalField>)
    requires UniqueFields(s)
    ensures ReorderFields(s, Some(Struct(s)), SchemaContractFirst) == s
  {
    OwnOrder(s, |s|);
    NoExtra(s, s, |s|);
    assert s[..|s|] == s;
  }

  lemma {:induction false} OwnOrder(s: seq<LogicalField>, n: nat)
    requires UniqueFields(s) && n <= |s|
    ensures ContractOrdered(s, s, n) == s[..n]
    decreases s, 0, n
  {
    if n > 0 {
      OwnOrder(s, n - 1);
      NamedIs(s, n - 1);
      OwnContract(s[n - 1].typ);
      assert s[..n] == s[..n - 1] + [s[n - 1]];
    }
  }

  lemma {:induction false} NoExtra(s: seq<LogicalField>, contract: seq<LogicalField>, n: nat)
    requires n <= |s| && forall j :: 0 <= j < n ==> Has(contract, s[j].name)
    ensures ExtraNames(s, contract, n) == []
  {
    if n > 0 { NoExtra(s, contract, n - 1); }
  }

  // ------------------------------------------------------------- the theorems

  /** Additive evolution is idempotent for both order policies. */
  lemma {:induction false} EvolveTwice(b: seq<LogicalField>, i: seq<LogicalField>, order: FieldOrder)
    requires UniqueFields(b) && UniqueFields(i)
    ensures var r := EvolveAdditive(b, i, order); EvolveAdditive(r, i, order) == r
  {
    var base := if b == [] then None else Some(Struct(b));
    var m, r := MergeSchema(b, i), EvolveAdditive(b, i, order);
    assert UniqueFields(m) && IncludesFields(m, i) by {
      if b == [] { IncludesSelf(Struct(i)); } else { MergeFieldsIncludes(b, i); }
    }
    if m == [] {
      assert r == [] && i == [];
    } else {
      ReorderFieldsPermutes(m, base, order);
      IncludesSame(Struct(m), Struct(r), Struct(i));
      IncludedFieldsAddNothing(r, i);
      assert MergeSchema(r, i) == r by { NonEmptySame(m, r); }
      match order
      case SchemaContractFirst => OwnContractFields(r);
      case Alphabetically => AlphabeticalFieldsUnique(m, r, base, Some(Struct(r)));
    }
  }

  lemma {:induction false} NonEmptySame(s: seq<LogicalField>, r: seq<LogicalField>)
    requires s != [] && SameFields(s, r)
    ensures r != []
  {
    assert SameAs(s, 0, r);
  }

  /** `t` is a prefix of `u` at every struct level that `t` describes. */
  predicate KeepsPlace(t: LogicalType, u: LogicalType) {
    match t
    case Scalar(_) => u == t
    case List(value) => u.List? && KeepsPlace(value, u.value)
    case Struct(fields) => u.Struct? && KeepsPlaces(fields, u.fields)
  }

  predicate KeepsPlaces(s: seq<LogicalField>, r: seq<LogicalField>) {
    |s| <= |r| && forall j :: 0 <= j < |s| ==> KeepsOwnPlace(s[j], r[j])
  }

  predicate KeepsOwnPlace(f: LogicalField, g: LogicalField) {
    f.name == g.name && f.nullable == g.nullable && KeepsPlace(f.typ, g.typ)
  }

  lemma {:induction false} KeepsItself(t: LogicalType)
    ensures KeepsPlace(t, t)
  {
    match t
    case Scalar(_) =>
    case List(value) => KeepsItself(value);
    case Struct(fields) =>
      forall j | 0 <= j < |fields| ensures KeepsOwnPlace(fields[j], fields[j]) { KeepsItself(fields[j].typ); }
  }

  lemma {:induction false} MergedKeepsPlace(b: LogicalType, i: LogicalType)
    requires UniqueNames(b)
    ensures KeepsPlace(b, ReorderType(MergeAdditive(b, i), Some(b), SchemaContractFirst))
    decreases b, 1
  {
    if b.Struct? && i.Struct? {
      MergedKeepsPlaces(b.fields, i.fields);
    } else if b.List? && i.List? {
      MergedKeepsPlace(b.value, i.value);
    } else {
      OwnContract(b);
      KeepsItself(b);
    }
  }

  lemma {:induction false} SlotIs(b: seq<LogicalField>, i: seq<LogicalField>, j: nat)
    requires j < |b|
    ensures var f := MergeMatching(b, i)[j];
            SlotField(b, i, j) == f.(typ := ReorderType(f.typ, Some(b[j].typ), SchemaContractFirst))
  {
  }

  lemma {:induction false} ContractPrefix(b: seq<LogicalField>, i: seq<LogicalField>, n: nat)
    requires UniqueFields(b) && n <= |b|
    ensures var r := ContractOrdered(MergeFieldsAdditive(b, i), b, n);
            |r| == n && forall j :: 0 <= j < n ==> KeepsOwnPlace(b[j], r[j])
    decreases b, 0, n + 1
  {
    hide Has, KeepsOwnPlace, MergeFieldsAdditive, SlotField;
    if n > 0 {
      var m, r0 := MergeFieldsAdditive(b, i), ContractOrdered(MergeFieldsAdditive(b, i), b, n - 1);
      ContractPrefix(b, i, n - 1);
      ContractSlot(b, i, n - 1);
      assert ContractOrdered(m, b, n) == r0 + [SlotField(b, i, n - 1)] by { SlotIs(b, i, n - 1); }
    }
  }

  /** What contract field `j` becomes. */
  function SlotField(b: seq<LogicalField>, i: seq<LogicalField>, j: nat): LogicalField
    requires j < |b|
  {
    var f := MergeMatching(b, i)[j];
    f.(typ := ReorderType(f.typ, Some(b[j].typ), SchemaContractFirst))
  }

  lemma {:induction false} ContractSlot(b: seq<LogicalField>, i: seq<LogicalField>, j: nat)
    requires UniqueFields(b) && j < |b|
    ensures var m := MergeFieldsAdditive(b, i);
            && Has(m, b[j].name) && Named(m, b[j].name) == MergeMatching(b, i)[j]
            && KeepsOwnPlace(b[j], SlotField(b, i, j))
    decreases b, 0, 0
  {
    MergedNamed(b, i, j);
    if Has(i, b[j].name) {
      MergedKeepsPlace(b[j].typ, Named(i, b[j].name).typ);
    } else {
      OwnContract(b[j].typ);
      KeepsItself(b[j].typ);
    }
  }

  lemma {:induction false} MergedNamed(b: seq<LogicalField>, i: seq<LogicalField>, j: nat)
    requires j < |b| && Distinct(FieldNames(b))
    ensures var m := MergeFieldsAdditive(b, i);
            Has(m, b[j].name) && Named(m, b[j].name) == MergeMatching(b, i)[j]
  {
    var m := MergeFieldsAdditive(b, i);
    forall k | 0 <= k < j ensures m[k].name != b[j].name { assert FieldNames(b)[k] != FieldNames(b)[j]; }
    assert m[j] == MergeMatching(b, i)[j];
    assert FirstNamed(m, b[j].name, 0) == j;
  }

  lemma {:induction false} MergedKeepsPlaces(b: seq<LogicalField>, i: seq<LogicalField>)
    requires UniqueFields(b)
    ensures KeepsPlaces(b, ReorderFields(MergeFieldsAdditive(b, i), Some(Struct(b)), SchemaContractFirst))
    decreases b, 1
  {
    ContractPrefix(b, i, |b|);
  }

  /** Under contract-first order every contract field keeps its place, at every described level. */
  lemma {:induction false} ContractKeepsPlace(b: seq<LogicalField>, i: seq<LogicalField>)
    requires UniqueFields(b)
    ensures KeepsPlaces(b, EvolveAdditive(b, i, SchemaContractFirst))
  {
    if b != [] { MergedKeepsPlaces(b, i); }
  }
}
