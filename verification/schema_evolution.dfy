/** Additive schema evolution and recursive field order. */
module SchemaEvolution {
  import opened Basics
  import opened LogicalSchemas
  import opened NameOrder

  datatype FieldOrder = SchemaContractFirst | Alphabetically

  predicate Has(s: seq<LogicalField>, name: string) { FirstNamed(s, name, 0) < |s| }

  function Named(s: seq<LogicalField>, name: string): LogicalField
    requires Has(s, name)
  {
    s[FirstNamed(s, name, 0)]
  }

  function FieldNames(s: seq<LogicalField>): (names: seq<string>)
    ensures |names| == |s| && forall j :: 0 <= j < |s| ==> names[j] == s[j].name
  {
    seq(|s|, j requires 0 <= j < |s| => s[j].name)
  }

  lemma {:induction false} HasName(s: seq<LogicalField>, x: string)
    ensures Has(s, x) <==> x in FieldNames(s)
  {
    if Has(s, x) { assert FieldNames(s)[FirstNamed(s, x, 0)] == x; }
  }

  // ---------------------------------------------------------- additive merge

  function MergeAdditive(b: LogicalType, i: LogicalType): LogicalType
    decreases b, 1
  {
    if b.Struct? && i.Struct? then Struct(MergeFieldsAdditive(b.fields, i.fields))
    else if b.List? && i.List? then List(MergeAdditive(b.value, i.value))
    else b
  }

  function MergeFieldsAdditive(b: seq<LogicalField>, i: seq<LogicalField>): seq<LogicalField>
    decreases b, 1
  {
    MergeMatching(b, i) + Unmatched(b, i, |i|)
  }

  function MergeMatching(b: seq<LogicalField>, i: seq<LogicalField>): (r: seq<LogicalField>)
    ensures |r| == |b|
    ensures forall j :: 0 <= j < |b| ==>
              r[j] == if Has(i, b[j].name) then b[j].(typ := MergeAdditive(b[j].typ, Named(i, b[j].name).typ)) else b[j]
    decreases b, 0
  {
    seq(|b|, j requires 0 <= j < |b| =>
      if Has(i, b[j].name) then b[j].(typ := MergeAdditive(b[j].typ, Named(i, b[j].name).typ)) else b[j])
  }

  /** The inferred fields, among the first `n`, that the base does not name. */
  function Unmatched(b: seq<LogicalField>, i: seq<LogicalField>, n: nat): (r: seq<LogicalField>)
    requires n <= |i|
    ensures forall f :: f in r <==> f in i[..n] && !Has(b, f.name)
  {
    if n == 0 then []
    else
      assert i[..n] == i[..n - 1] + [i[n - 1]];
      Unmatched(b, i, n - 1) + if Has(b, i[n - 1].name) then [] else [i[n - 1]]
  }

  lemma {:induction false} UnmatchedStart(b: seq<LogicalField>, i: seq<LogicalField>)
    ensures Unmatched(b, i, 0) == []
  {
  }

  lemma {:induction false} UnmatchedNext(b: seq<LogicalField>, i: seq<LogicalField>, n: nat)
    requires n < |i|
    ensures Unmatched(b, i, n + 1) == Unmatched(b, i, n) + if Has(b, i[n].name) then [] else [i[n]]
  {
  }

  function MergeSchema(b: seq<LogicalField>, i: seq<LogicalField>): seq<LogicalField> {
    if b == [] then i else MergeFieldsAdditive(b, i)
  }

  // ------------------------------------------------------------------- order

  function ReorderType(t: LogicalType, base: Option<LogicalType>, order: FieldOrder): LogicalType
    decreases t, 0, 0
  {
    match t
    case Scalar(_) => t
    case List(value) =>
      List(ReorderType(value, if base.Some? && base.value.List? then Some(base.value.value) else None, order))
    case Struct(fields) => Struct(ReorderFields(fields, base, order))
  }

  function ReorderFields(s: seq<LogicalField>, base: Option<LogicalType>, order: FieldOrder): seq<LogicalField>
    decreases s, 1, 0
  {
    var described := base.Some? && base.value.Struct?;
    match order
    case SchemaContractFirst =>
      if described then
        assert forall x :: x in Sort(ExtraNames(s, base.value.fields, |s|)) ==> Has(s, x) by {
          forall x | x in Sort(ExtraNames(s, base.value.fields, |s|)) ensures Has(s, x) {
            ExtraName(s, base.value.fields, |s|, x);
            HasName(s, x);
          }
        }
        ContractOrdered(s, base.value.fields, |base.value.fields|)
        + PickNamed(s, [], order, Sort(ExtraNames(s, base.value.fields, |s|)))
      else KeepOrder(s)
    case Alphabetically =>
      assert forall x :: x in Sort(FieldNames(s)) ==> Has(s, x) by {
        forall x | x in Sort(FieldNames(s)) ensures Has(s, x) { HasName(s, x); }
      }
      PickNamed(s, if described then base.value.fields else [], order, Sort(FieldNames(s)))
  }

  function KeepOrder(s: seq<LogicalField>): (r: seq<LogicalField>)
    ensures |r| == |s|
    ensures forall j :: 0 <= j < |s| ==> r[j] == s[j].(typ := ReorderType(s[j].typ, None, SchemaContractFirst))
    decreases s, 0, 0
  {
    seq(|s|, j requires 0 <= j < |s| => s[j].(typ := ReorderType(s[j].typ, None, SchemaContractFirst)))
  }

  /** The fields that the first `n` contract fields name, in contract order. */
  function ContractOrdered(s: seq<LogicalField>, contract: seq<LogicalField>, n: nat): seq<LogicalField>
    requires n <= |contract|
    decreases s, 0, n
  {
    if n == 0 then []
    else
      var c := contract[n - 1];
      ContractOrdered(s, contract, n - 1) +
      if Has(s, c.name)
      then [Named(s, c.name).(typ := ReorderType(Named(s, c.name).typ, Some(c.typ), SchemaContractFirst))]
      else []
  }

  /** The names, among the first `n` fields, that the contract does not have. */
  function ExtraNames(s: seq<LogicalField>, contract: seq<LogicalField>, n: nat): seq<string>
    requires n <= |s|
  {
    if n == 0 then []
    else ExtraNames(s, contract, n - 1) + if Has(contract, s[n - 1].name) then [] else [s[n - 1].name]
  }

  lemma {:induction false} ExtraName(s: seq<LogicalField>, contract: seq<LogicalField>, n: nat, x: string)
    requires n <= |s|
    ensures x in ExtraNames(s, contract, n) <==> x in FieldNames(s)[..n] && !Has(contract, x)
  {
    if n > 0 {
      ExtraName(s, contract, n - 1, x);
      assert FieldNames(s)[..n] == FieldNames(s)[..n - 1] + [s[n - 1].name];
    }
  }

  /** The first field of each name, reordered against what the contract says of it. */
  function PickNamed(s: seq<LogicalField>, contract: seq<LogicalField>, order: FieldOrder,
                     names: seq<string>): (r: seq<LogicalField>)
    requires forall x :: x in names ==> Has(s, x)
    ensures |r| == |names|
    ensures forall k :: 0 <= k < |r| ==>
              Has(s, names[k]) &&
              r[k] == Named(s, names[k]).(typ :=
                ReorderType(Named(s, names[k]).typ, ContractType(contract, names[k]), order))
    decreases s, 0, |names|
  {
    if names == [] then []
    else
      var f := Named(s, names[0]);
      [f.(typ := ReorderType(f.typ, ContractType(contract, names[0]), order))]
        + PickNamed(s, contract, order, names[1..])
  }

  function ContractType(contract: seq<LogicalField>, name: string): Option<LogicalType> {
    if Has(contract, name) then Some(Named(contract, name).typ) else None
  }

  lemma {:induction false} HasAppend(s: seq<LogicalField>, f: LogicalField, name: string)
    ensures Has(s + [f], name) <==> Has(s, name) || f.name == name
  {
    var r := s + [f];
    var p, q := FirstNamed(s, name, 0), FirstNamed(r, name, 0);
    assert p < |s| ==> r[p].name == name;
    assert q < |s| ==> s[q].name == name;
    assert r[|s|] == f;
  }
}
