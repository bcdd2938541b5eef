/** The contract-first order: the contract's fields as it lists them, then all others by name. */
module SchemaContractOrder {
  import opened Basics
  import opened LogicalSchemas
  import opened NameOrder
  import opened SchemaEvolution
  import opened SchemaOrder
  import opened SchemaEvolve

  /** The first `n` fields follow the contract, and the others, which it does not name, ascend. */
  predicate SplitsAt(r: seq<LogicalField>, contract: seq<LogicalField>, n: nat) {
    && n <= |r|
    && (forall j :: 0 <= j < n ==> Has(contract, r[j].name))
    && (forall j, k :: 0 <= j < k < n ==> FirstNamed(contract, r[j].name, 0) < FirstNamed(contract, r[k].name, 0))
    && (forall j :: n <= j < |r| ==> !Has(contract, r[j].name))
    && Ascending(FieldNames(r)[n..])
  }

  /** So it is at every level that the contract describes. */
  predicate InContractOrder(u: LogicalType, base: Option<LogicalType>) {
    match u
    case Scalar(_) => true
    case List(value) => InContractOrder(value, if base.Some? && base.value.List? then Some(base.value.value) else None)
    case Struct(fields) =>
      base.Some? && base.value.Struct? ==> FieldsInContractOrder(fields, base.value.fields)
  }

  predicate FieldsInContractOrder(r: seq<LogicalField>, contract: seq<LogicalField>) {
    && (exists n :: 0 <= n <= |r| && SplitsAt(r, contract, n))
    && forall j :: 0 <= j < |r| ==> InContractOrder(r[j].typ, ContractType(contract, r[j].name))
  }

  // --------------------------------------------------------------- the two parts

  /** The contract's part: in its order, each field reordered against the contract's own. */
  ghost predicate FollowsContract(r: seq<LogicalField>, s: seq<LogicalField>, contract: seq<LogicalField>, n: nat) {
    && (forall j :: 0 <= j < |r| ==> SlotOf(r[j], s, contract) && FirstNamed(contract, r[j].name, 0) < n)
    && (forall j, k :: 0 <= j < k < |r| ==> FirstNamed(contract, r[j].name, 0) < FirstNamed(contract, r[k].name, 0))
  }

  ghost predicate SlotOf(g: LogicalField, s: seq<LogicalField>, contract: seq<LogicalField>) {
    && Has(s, g.name) && Has(contract, g.name)
    && var f := Named(s, g.name);
       g == f.(typ := ReorderType(f.typ, ContractType(contract, g.name), SchemaContractFirst))
  }

  lemma {:induction false} ContractPart(s: seq<LogicalField>, contract: seq<LogicalField>, n: nat)
    requires n <= |contract| && Distinct(FieldNames(contract))
    ensures FollowsContract(ContractOrdered(s, contract, n), s, contract, n)
  {
    hide ReorderType;
    if n > 0 {
      var r0, c := ContractOrdered(s, contract, n - 1), contract[n - 1];
      ContractPart(s, contract, n - 1);
      NamedIs(contract, n - 1);
      var r := ContractOrdered(s, contract, n);
      if Has(s, c.name) { assert r == r0 + [r[|r0|]] && SlotOf(r[|r0|], s, contract); } else { assert r == r0; }
    }
  }

  /** The other part: the fields that the contract does not name, by name and as they were. */
  ghost predicate OthersByName(r: seq<LogicalField>, s: seq<LogicalField>, contract: seq<LogicalField>) {
    && Ascending(FieldNames(r))
    && (forall j :: 0 <= j < |r| ==> !Has(contract, r[j].name) && Has(s, r[j].name) && r[j] == Named(s, r[j].name))
    && (forall x :: Has(s, x) && !Has(contract, x) ==> x in FieldNames(r))
  }

  lemma {:induction false} OtherPart(s: seq<LogicalField>, contract: seq<LogicalField>)
    ensures var names := Sort(ExtraNames(s, contract, |s|));
            (forall x :: x in names ==> Has(s, x))
              && OthersByName(PickNamed(s, [], SchemaContractFirst, names), s, contract)
  {
    hide Has, Ascending, ReorderType, PickNamed;
    var names := Sort(ExtraNames(s, contract, |s|));
    forall x ensures x in names <==> Has(s, x) && !Has(contract, x) { ExtraMember(s, contract, x); }
    var r := PickNamed(s, [], SchemaContractFirst, names);
    forall j | 0 <= j < |r| ensures r[j] == Named(s, names[j]) && r[j].name == names[j] {
      NothingDescribed(names[j]);
      UndescribedKept(Named(s, names[j]).typ);
      NamedHas(s, names[j]);
    }
    assert FieldNames(r) == names;
  }

  lemma {:induction false} NothingDescribed(x: string)
    ensures ContractType([], x) == None
  {
  }

  lemma {:induction false} NamedHas(s: seq<LogicalField>, x: string)
    requires Has(s, x)
    ensures Named(s, x).name == x
  {
  }

  lemma {:induction false} ContractFirstIs(s: seq<LogicalField>, contract: seq<LogicalField>)
    requires Distinct(FieldNames(contract))
    ensures var r := ReorderFields(s, Some(Struct(contract)), SchemaContractFirst);
            var n := |ContractOrdered(s, contract, |contract|)|;
            n <= |r| && FollowsContract(r[..n], s, contract, |contract|) && OthersByName(r[n..], s, contract)
  {
    hide FollowsContract, OthersByName, PickNamed, ContractOrdered;
    ContractPart(s, contract, |contract|);
    OtherPart(s, contract);
    var first := ContractOrdered(s, contract, |contract|);
    var rest := PickNamed(s, [], SchemaContractFirst, Sort(ExtraNames(s, contract, |s|)));
    var r := first + rest;
    assert r == ReorderFields(s, Some(Struct(contract)), SchemaContractFirst);
    assert r[..|first|] == first && r[|first|..] == rest;
  }

  // ---------------------------------------------------------------- every level

  /** Reordering puts every level that the contract describes into contract order. */
  lemma {:induction false} ContractOrderHolds(t: LogicalType, base: Option<LogicalType>)
    requires UniqueContract(base)
    ensures InContractOrder(ReorderType(t, base, SchemaContractFirst), base)
    decreases t, 1
  {
    match t
    case Scalar(_) =>
    case List(value) =>
      ContractOrderHolds(value, if base.Some? && base.value.List? then Some(base.value.value) else None);
    case Struct(fields) =>
      if base.Some? && base.value.Struct? { FieldsOrderHolds(fields, base.value.fields); }
  }

  lemma {:induction false} PartsSplit(r: seq<LogicalField>, s: seq<LogicalField>, contract: seq<LogicalField>, n: nat)
    requires n <= |r| && FollowsContract(r[..n], s, contract, |contract|) && OthersByName(r[n..], s, contract)
    ensures SplitsAt(r, contract, n)
  {
    hide ReorderType, Has, Ascending;
    assert forall j :: 0 <= j < n ==> r[..n][j] == r[j];
    forall j | n <= j < |r| ensures !Has(contract, r[j].name) { assert r[n..][j - n] == r[j]; }
    assert FieldNames(r)[n..] == FieldNames(r[n..]);
  }

  lemma {:induction false} FieldsOrderHolds(s: seq<LogicalField>, contract: seq<LogicalField>)
    requires UniqueFields(contract)
    ensures FieldsInContractOrder(ReorderFields(s, Some(Struct(contract)), SchemaContractFirst), contract)
    decreases s, 0
  {
    hide ReorderFields, ReorderType, SplitsAt, Ascending, ContractOrdered, InContractOrder;
    var r, n := ReorderFields(s, Some(Struct(contract)), SchemaContractFirst),
      |ContractOrdered(s, contract, |contract|)|;
    ContractFirstIs(s, contract);
    PartsSplit(r, s, contract, n);
    forall j | 0 <= j < |r| ensures InContractOrder(r[j].typ, ContractType(contract, r[j].name)) {
      if j < n {
        assert r[..n][j] == r[j];
        var f := Named(s, r[j].name);
        ContractOrderHolds(f.typ, ContractType(contract, r[j].name));
      } else {
        assert r[n..][j - n] == r[j];
        Undescribed(r[j].typ);
      }
    }
  }

  lemma {:induction false} Undescribed(t: LogicalType)
    ensures InContractOrder(t, None)
  {
    if t.List? { Undescribed(t.value); }
  }

  // ------------------------------------------------------- additive evolution, exactly

  /** `u` is the contract type `b` with what the inferred type `i` adds, and nothing else. */
  ghost predicate Evolved(b: LogicalType, i: LogicalType, u: LogicalType)
    decreases b, 2
  {
    if b.Struct? && i.Struct? then u.Struct? && EvolvedFields(b.fields, i.fields, u.fields)
    else if b.List? && i.List? then u.List? && Evolved(b.value, i.value, u.value)
    else u == b
  }

  /** The contract's fields come first, in its order and with what was inferred for them; then, by name and as
      they were inferred, exactly the fields that it does not have. */
  ghost predicate EvolvedFields(b: seq<LogicalField>, i: seq<LogicalField>, r: seq<LogicalField>)
    decreases b, 1
  {
    && |b| <= |r|
    && (forall j :: 0 <= j < |b| ==> EvolvedField(b, i, j, r[j]))
    && OthersByName(r[|b|..], i, b)
  }

  ghost predicate EvolvedField(b: seq<LogicalField>, i: seq<LogicalField>, j: nat, g: LogicalField)
    requires j < |b|
    decreases b, 0
  {
    && g.name == b[j].name && g.nullable == b[j].nullable
    && if Has(i, b[j].name) then Evolved(b[j].typ, Named(i, b[j].name).typ, g.typ) else g.typ == b[j].typ
  }

  /** The first field of a name among the unmatched ones is the first inferred one. */
  lemma {:induction false} UnmatchedFirst(b: seq<LogicalField>, i: seq<LogicalField>, n: nat, x: string)
    requires n <= |i| && !Has(b, x)
    ensures Has(Unmatched(b, i, n), x) <==> Has(i[..n], x)
    ensures Has(i[..n], x) ==> Named(Unmatched(b, i, n), x) == Named(i[..n], x)
  {
    hide Unmatched, Has, Named;
    if n == 0 {
      UnmatchedStart(b, i);
      assert i[..0] == [];
    } else {
      var f := i[n - 1];
      UnmatchedFirst(b, i, n - 1, x);
      UnmatchedNext(b, i, n - 1);
      assert i[..n] == i[..n - 1] + [f];
      NamedAppend(i[..n - 1], f, x);
      if Has(b, f.name) {
        assert Unmatched(b, i, n) == Unmatched(b, i, n - 1);
      } else {
        NamedAppend(Unmatched(b, i, n - 1), f, x);
      }
    }
  }

  lemma {:induction false} NamedAppend(s: seq<LogicalField>, f: LogicalField, x: string)
    ensures Has(s + [f], x) <==> Has(s, x) || f.name == x
    ensures Has(s, x) ==> Named(s + [f], x) == Named(s, x)
    ensures !Has(s, x) && f.name == x ==> Named(s + [f], x) == f
  {
    HasAppend(s, f, x);
    var r := s + [f];
    assert forall j :: 0 <= j < |s| ==> r[j] == s[j];
  }

  lemma {:induction false} NamedBeyond(a: seq<LogicalField>, u: seq<LogicalField>, x: string)
    requires !Has(a, x)
    ensures Has(a + u, x) <==> Has(u, x)
    ensures Has(u, x) ==> Named(a + u, x) == Named(u, x)
  {
    var r, p, q := a + u, FirstNamed(u, x, 0), FirstNamed(a + u, x, 0);
    assert forall j :: 0 <= j < |a| ==> r[j] == a[j];
    assert forall j :: 0 <= j < |u| ==> r[|a| + j] == u[j];
    assert p < |u| ==> r[|a| + p].name == x;
    assert q < |r| ==> q >= |a| && u[q - |a|].name == x;
  }

  /** Beyond the contract's names the merged fields are the inferred ones. */
  lemma {:induction false} BeyondContract(b: seq<LogicalField>, i: seq<LogicalField>, x: string)
    requires !Has(b, x)
    ensures var m := MergeFieldsAdditive(b, i);
            (Has(m, x) <==> Has(i, x)) && (Has(i, x) ==> Named(m, x) == Named(i, x))
  {
    UnmatchedFirst(b, i, |i|, x);
    assert i[..|i|] == i;
    MatchedNames(b, i, x);
    NamedBeyond(MergeMatching(b, i), Unmatched(b, i, |i|), x);
  }

  lemma {:induction false} MatchedNames(b: seq<LogicalField>, i: seq<LogicalField>, x: string)
    ensures Has(MergeMatching(b, i), x) <==> Has(b, x)
  {
    var m := MergeMatching(b, i);
    assert forall j :: 0 <= j < |b| ==> m[j].name == b[j].name;
    var p, q := FirstNamed(b, x, 0), FirstNamed(m, x, 0);
    assert p < |b| ==> m[p].name == x;
    assert q < |m| ==> b[q].name == x;
  }

  lemma {:induction false} OthersInferred(r: seq<LogicalField>, b: seq<LogicalField>, i: seq<LogicalField>)
    requires OthersByName(r, MergeFieldsAdditive(b, i), b)
    ensures OthersByName(r, i, b)
  {
    hide Has, Named, MergeFieldsAdditive, Ascending;
    forall x | !Has(b, x)
      ensures var m := MergeFieldsAdditive(b, i);
              (Has(m, x) <==> Has(i, x)) && (Has(i, x) ==> Named(m, x) == Named(i, x))
    {
      BeyondContract(b, i, x);
    }
  }

  lemma {:induction false} EvolvedTypeHolds(b: LogicalType, i: LogicalType)
    requires UniqueNames(b)
    ensures Evolved(b, i, ReorderType(MergeAdditive(b, i), Some(b), SchemaContractFirst))
    decreases b, 2
  {
    if b.Struct? && i.Struct? {
      EvolvedFieldsHold(b.fields, i.fields);
    } else if b.List? && i.List? {
      EvolvedTypeHolds(b.value, i.value);
    } else {
      OwnContract(b);
    }
  }

  lemma {:induction false} EvolvedFieldsHold(b: seq<LogicalField>, i: seq<LogicalField>)
    requires UniqueFields(b)
    ensures EvolvedFields(b, i, ReorderFields(MergeFieldsAdditive(b, i), Some(Struct(b)), SchemaContractFirst))
    decreases b, 1
  {
    hide ReorderFields, MergeFieldsAdditive, ContractOrdered, OthersByName, EvolvedField;
    var m := MergeFieldsAdditive(b, i);
    var r := ReorderFields(m, Some(Struct(b)), SchemaContractFirst);
    ContractFirstIs(m, b);
    ContractPrefix(b, i, |b|);
    MergedKeepsPlaces(b, i);
    OthersInferred(r[|b|..], b, i);
    forall j | 0 <= j < |b| ensures EvolvedField(b, i, j, r[j]) {
      assert KeepsOwnPlace(b[j], r[j]);
      assert r[..|b|][j] == r[j];
      assert SlotOf(r[j], m, b);
      EvolvedSlot(b, i, j, r[j]);
    }
  }

  lemma {:induction false} EvolvedSlot(b: seq<LogicalField>, i: seq<LogicalField>, j: nat, g: LogicalField)
    requires UniqueFields(b) && j < |b| && g.name == b[j].name && SlotOf(g, MergeFieldsAdditive(b, i), b)
    ensures EvolvedField(b, i, j, g)
    decreases b, 0
  {
    hide MergeFieldsAdditive;
    MergedNamed(b, i, j);
    NamedIs(b, j);
    if Has(i, b[j].name) { EvolvedTypeHolds(b[j].typ, Named(i, b[j].name).typ); } else { OwnContract(b[j].typ); }
  }

  /** Additive evolution of a contract, contract first, is exactly that, at every level. */
  lemma {:induction false} EvolvesExactly(b: seq<LogicalField>, i: seq<LogicalField>)
    requires b != [] && UniqueFields(b)
    ensures EvolvedFields(b, i, EvolveAdditive(b, i, SchemaContractFirst))
    ensures FieldsInContractOrder(EvolveAdditive(b, i, SchemaContractFirst), b)
  {
    hide ReorderFields, EvolvedFields, FieldsInContractOrder;
    EvolvedFieldsHold(b, i);
    FieldsOrderHolds(MergeFieldsAdditive(b, i), b);
  }
}
