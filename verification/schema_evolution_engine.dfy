/** The evolution loops over field maps, growing field vectors and used-name sets. */
module SchemaEvolutionEngine {
  import opened Basics
  import opened LogicalSchemas
  import opened NameOrder
  import opened SchemaEvolution
  import opened SchemaEvolve

  type FieldMap = map<string, LogicalField>

  /** The map finds the first field of every name. */
  ghost predicate Maps(m: FieldMap, s: seq<LogicalField>) {
    forall x :: (x in m <==> Has(s, x)) && (x in m ==> m[x] == Named(s, x))
  }

  lemma {:induction false} MapOne(m: FieldMap, s: seq<LogicalField>, f: LogicalField)
    requires Maps(m, s)
    ensures Maps(if f.name in m then m else m[f.name := f], s + [f])
  {
    var after := if f.name in m then m else m[f.name := f];
    forall x ensures (x in after <==> Has(s + [f], x)) && (x in after ==> after[x] == Named(s + [f], x)) {
      HasAppend(s, f, x);
      NamedAppend(s, f, x);
    }
  }

  lemma {:induction false} NamedAppend(s: seq<LogicalField>, f: LogicalField, x: string)
    ensures Has(s, x) ==> Has(s + [f], x) && Named(s + [f], x) == Named(s, x)
    ensures !Has(s, x) && f.name == x ==> Has(s + [f], x) && Named(s + [f], x) == f
  {
    var r := s + [f];
    var p, q := FirstNamed(s, x, 0), FirstNamed(r, x, 0);
    assert forall j :: 0 <= j < |s| ==> r[j] == s[j];
    assert p < |s| ==> r[p].name == x;
    assert r[|s|] == f;
  }

  /** Earlier fields of a name keep their place in the map. */
  method BuildFieldMap(s: seq<LogicalField>) returns (m: FieldMap)
    ensures Maps(m, s)
  {
    hide Maps;
    m := map[];
    assert s[..0] == [];
    assert Maps(m, s[..0]) by { NothingMapped(); }
    for k := 0 to |s|
      invariant Maps(m, s[..k])
    {
      MapOne(m, s[..k], s[k]);
      assert s[..k + 1] == s[..k] + [s[k]];
      if s[k].name !in m { m := m[s[k].name := s[k]]; }
    }
    assert s[..|s|] == s;
  }

  lemma {:induction false} NothingMapped()
    ensures Maps(map[], [])
  {
  }

  lemma {:induction false} MapFinds(m: FieldMap, s: seq<LogicalField>, x: string)
    requires Maps(m, s)
    ensures (x in m <==> Has(s, x)) && (x in m ==> m[x] == Named(s, x) && m[x] in s && m[x].name == x)
  {
  }

  method CheckStrictCompatible(base: seq<LogicalField>, inferred: seq<LogicalField>) returns (r: Result<()>)
    ensures r == CheckStrict(base, inferred, 0)
    ensures base != [] && r.Err? ==> exists j: nat :: j < |inferred| && Refuses(base, inferred, 0, j, r.error)
  {
    hide Refuses;
    if base == [] { return Err("Strict schema evolution requires a non-empty schema_contract"); }
    StrictAccepts(base, inferred, 0);
    var known := BuildFieldMap(base);
    for k := 0 to |inferred|
      invariant CheckStrict(base, inferred, k) == CheckStrict(base, inferred, 0)
    {
      MapFinds(known, base, inferred[k].name);
      if inferred[k].name !in known {
        return Err("Strict schema evolution: observed extra field '" + inferred[k].name + "'");
      }
    }
    return Ok(());
  }

  // -------------------------------------------------------------------- merging

  method MergeTypeAdditive(base: LogicalType, inferred: LogicalType) returns (r: LogicalType)
    ensures r == MergeAdditive(base, inferred)
    decreases base, 1
  {
    if base.Struct? && inferred.Struct? {
      var fields := MergeEachAdditive(base.fields, inferred.fields);
      return Struct(fields);
    }
    if base.List? && inferred.List? {
      var value := MergeTypeAdditive(base.value, inferred.value);
      return List(value);
    }
    return base;
  }

  method MergeMatched(base: seq<LogicalField>, inferred: seq<LogicalField>, inferredByName: FieldMap)
    returns (out: seq<LogicalField>)
    requires Maps(inferredByName, inferred)
    ensures out == MergeMatching(base, inferred)
    decreases base, 0
  {
    hide Has, Named, Maps, MergeAdditive;
    ghost var matched := MergeMatching(base, inferred);
    out := [];
    for k := 0 to |base|
      invariant out == matched[..k]
    {
      var field := base[k];
      MapFinds(inferredByName, inferred, field.name);
      if field.name in inferredByName {
        var typ := MergeTypeAdditive(field.typ, inferredByName[field.name].typ);
        field := field.(typ := typ);
      }
      assert field == matched[k];
      out := out + [field];
    }
    assert out == matched;
  }

  /** Matching fields merge in place, and the others are appended in inferred order. */
  method MergeEachAdditive(base: seq<LogicalField>, inferred: seq<LogicalField>) returns (out: seq<LogicalField>)
    ensures out == MergeFieldsAdditive(base, inferred)
    decreases base, 1
  {
    hide Has, Named, Maps, MergeMatching, Unmatched;
    var baseByName := BuildFieldMap(base);
    var inferredByName := BuildFieldMap(inferred);
    out := MergeMatched(base, inferred, inferredByName);
    ghost var matched := out;
    UnmatchedStart(base, inferred);
    for k := 0 to |inferred|
      invariant out == matched + Unmatched(base, inferred, k)
    {
      MapFinds(baseByName, base, inferred[k].name);
      UnmatchedNext(base, inferred, k);
      if inferred[k].name !in baseByName { out := out + [inferred[k]]; }
    }
  }

  // ------------------------------------------------------------------- ordering

  method ReorderOneType(t: LogicalType, base: Option<LogicalType>, order: FieldOrder) returns (r: LogicalType)
    ensures r == ReorderType(t, base, order)
    decreases t, 0, 0
  {
    match t {
      case Scalar(_) => return t;
      case List(value) =>
        var baseValue := None;
        if base.Some? && base.value.List? { baseValue := Some(base.value.value); }
        var element := ReorderOneType(value, baseValue, order);
        return List(element);
      case Struct(fields) =>
        var reordered := ReorderStructFields(fields, base, order);
        return Struct(reordered);
    }
  }

  lemma {:induction false} ExtraAreFields(s: seq<LogicalField>, contract: seq<LogicalField>)
    ensures forall x :: x in Sort(ExtraNames(s, contract, |s|)) ==> Has(s, x)
  {
    forall x | x in Sort(ExtraNames(s, contract, |s|)) ensures Has(s, x) {
      ExtraName(s, contract, |s|, x);
      HasName(s, x);
    }
  }

  lemma {:induction false} NamesAreFields(s: seq<LogicalField>)
    ensures forall x :: x in Sort(FieldNames(s)) ==> Has(s, x)
  {
    forall x | x in Sort(FieldNames(s)) ensures Has(s, x) { HasName(s, x); }
  }

  method ReorderStructFields(s: seq<LogicalField>, base: Option<LogicalType>, order: FieldOrder)
    returns (out: seq<LogicalField>)
    ensures out == ReorderFields(s, base, order)
    decreases s, 1, 0
  {
    hide Has, Named, Maps;
    var described := base.Some? && base.value.Struct?;
    if order == SchemaContractFirst {
      if described { out := ContractFirst(s, base.value.fields); } else { out := KeepFields(s); }
      return;
    }
    var contract := if described then base.value.fields else [];
    var currentByName := BuildFieldMap(s);
    var baseByName := BuildFieldMap(contract);
    NamesAreFields(s);
    out := AppendNamed(s, currentByName, contract, baseByName, order, Sort(FieldNames(s)));
    PickedAre(s, contract, order, Sort(FieldNames(s)));
  }

  method ContractFirst(s: seq<LogicalField>, contract: seq<LogicalField>) returns (out: seq<LogicalField>)
    ensures out == ReorderFields(s, Some(Struct(contract)), SchemaContractFirst)
    decreases s, 0, 2
  {
    hide Has, Named, Maps;
    var currentByName := BuildFieldMap(s);
    var used;
    out, used := AppendBaseOrdered(s, currentByName, contract);
    var extra := UnusedNames(s, contract, used);
    ExtraAreFields(s, contract);
    NothingMapped();
    var rest := AppendNamed(s, currentByName, [], map[], SchemaContractFirst, Sort(extra));
    PickedAre(s, [], SchemaContractFirst, Sort(extra));
    return out + rest;
  }

  /** Without a contract every field stays where it is. */
  method KeepFields(s: seq<LogicalField>) returns (out: seq<LogicalField>)
    ensures out == KeepOrder(s)
    decreases s, 0, 0
  {
    ghost var kept := KeepOrder(s);
    out := [];
    for k := 0 to |s|
      invariant out == kept[..k]
    {
      var typ := ReorderOneType(s[k].typ, None, SchemaContractFirst);
      out := out + [s[k].(typ := typ)];
      assert out[k] == kept[k];
    }
  }

  /** The contract's fields first; every emitted name is marked used. */
  method AppendBaseOrdered(s: seq<LogicalField>, currentByName: FieldMap, contract: seq<LogicalField>)
    returns (out: seq<LogicalField>, used: set<string>)
    requires Maps(currentByName, s)
    ensures out == ContractOrdered(s, contract, |contract|)
    ensures forall x :: x in used <==> Has(s, x) && x in FieldNames(contract)
    decreases s, 0, 0
  {
    hide Has, Named, Maps;
    out, used := [], {};
    ghost var names := FieldNames(contract);
    for k := 0 to |contract|
      invariant out == ContractOrdered(s, contract, k)
      invariant forall x :: x in used <==> Has(s, x) && x in names[..k]
    {
      var c := contract[k];
      assert names[..k + 1] == names[..k] + [c.name];
      MapFinds(currentByName, s, c.name);
      if c.name in currentByName {
        var field := currentByName[c.name];
        used := used + {field.name};
        var typ := ReorderOneType(field.typ, Some(c.typ), SchemaContractFirst);
        out := out + [field.(typ := typ)];
      }
    }
    assert names[..|contract|] == names;
  }

  method UnusedNames(s: seq<LogicalField>, contract: seq<LogicalField>, used: set<string>) returns (extra: seq<string>)
    requires forall x :: x in used <==> Has(s, x) && x in FieldNames(contract)
    ensures extra == ExtraNames(s, contract, |s|)
  {
    hide Has;
    extra := [];
    for k := 0 to |s|
      invariant extra == ExtraNames(s, contract, k)
    {
      HasName(contract, s[k].name);
      assert s[k].name in FieldNames(s) by { assert FieldNames(s)[k] == s[k].name; }
      HasName(s, s[k].name);
      if s[k].name !in used { extra := extra + [s[k].name]; }
    }
  }

  /** The first field of each name in turn, against what the contract says of it. */
  method AppendNamed(s: seq<LogicalField>, currentByName: FieldMap, contract: seq<LogicalField>, baseByName: FieldMap,
                     order: FieldOrder, names: seq<string>)
    returns (out: seq<LogicalField>)
    requires Maps(currentByName, s) && Maps(baseByName, contract) && forall x :: x in names ==> Has(s, x)
    ensures out == PickedFields(s, contract, order, names)
    decreases s, 0, 1
  {
    hide Has, Named, Maps, PickedField;
    out := [];
    for k := 0 to |names|
      invariant |out| == k && forall j :: 0 <= j < k ==> out[j] == PickedField(s, contract, order, names[j])
    {
      var field := ReorderNamed(s, currentByName, contract, baseByName, order, names[k]);
      out := out + [field];
    }
  }

  function PickedFields(s: seq<LogicalField>, contract: seq<LogicalField>, order: FieldOrder,
                        names: seq<string>): seq<LogicalField>
    requires forall x :: x in names ==> Has(s, x)
  {
    seq(|names|, k requires 0 <= k < |names| => PickedField(s, contract, order, names[k]))
  }

  lemma {:induction false} PickedAre(s: seq<LogicalField>, contract: seq<LogicalField>, order: FieldOrder,
                                     names: seq<string>)
    requires forall x :: x in names ==> Has(s, x)
    ensures PickNamed(s, contract, order, names) == PickedFields(s, contract, order, names)
  {
  }

  function PickedField(s: seq<LogicalField>, contract: seq<LogicalField>, order: FieldOrder, name: string): LogicalField
    requires Has(s, name)
  {
    Named(s, name).(typ := ReorderType(Named(s, name).typ, ContractType(contract, name), order))
  }

  method ReorderNamed(s: seq<LogicalField>, currentByName: FieldMap, contract: seq<LogicalField>, baseByName: FieldMap,
                      order: FieldOrder, name: string)
    returns (f: LogicalField)
    requires Maps(currentByName, s) && Maps(baseByName, contract) && Has(s, name)
    ensures f == PickedField(s, contract, order, name)
    decreases s, 0, 0
  {
    hide Has, Named, Maps;
    MapFinds(currentByName, s, name);
    MapFinds(baseByName, contract, name);
    var field := currentByName[name];
    var typ := ReorderOneType(field.typ, if name in baseByName then Some(baseByName[name].typ) else None, order);
    return field.(typ := typ);
  }

  // ------------------------------------------------------------------- evolving

  method ReorderSchemaFields(s: seq<LogicalField>, base: seq<LogicalField>, order: FieldOrder)
    returns (out: seq<LogicalField>)
    ensures out == ReorderSchema(s, base, order)
  {
    if s == [] { return s; }
    out := ReorderStructFields(s, if base == [] then None else Some(Struct(base)), order);
  }

  method EvolveSchema(base: seq<LogicalField>, inferred: seq<LogicalField>, mode: EvolutionMode, order: FieldOrder)
    returns (r: Result<seq<LogicalField>>)
    ensures r == Evolve(base, inferred, mode, order)
  {
    var merged := base;
    match mode {
      case Strict =>
        var check := CheckStrictCompatible(base, inferred);
        if check.Err? { return Err(check.error); }
        if order == SchemaContractFirst { return Ok(base); }
      case Additive =>
        merged := inferred;
        if base != [] { merged := MergeEachAdditive(base, inferred); }
    }
    var reordered := ReorderSchemaFields(merged, base, order);
    return Ok(reordered);
  }
}
