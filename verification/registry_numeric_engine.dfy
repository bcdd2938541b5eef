/** The numeric pass as it runs: one plan per family, then one emitting sweep. */
module RegistryNumericEngine {
  import opened Basics
  import opened VariantNames
  import opened LogicalSchemas
  import opened RegistryMerge
  import opened RegistryNumeric
  import opened RegistryEngine

  datatype NumericFamilyPlan = NumericFamilyPlan(hasFloat: bool, firstFloat: Option<nat>, plainNumeric: Option<nat>) {
    /** The one numeric field retained when the family contains a float. */
    function KeepPosition(): Option<nat> {
      if !hasFloat then None else if plainNumeric.Some? then plainNumeric else firstFloat
    }
  }

  const EMPTY_PLAN := NumericFamilyPlan(false, None, None)

  function Observe(plan: NumericFamilyPlan, f: LogicalField, k: nat): NumericFamilyPlan {
    NumericFamilyPlan(
      plan.hasFloat || f.typ == FLOAT,
      if plan.firstFloat.None? && f.typ == FLOAT then Some(k) else plan.firstFloat,
      if plan.plainNumeric.None? && Family(f.name) == f.name && Numeric(f) then Some(k) else plan.plainNumeric)
  }

  /** The plan of a family after the first `k` fields. */
  ghost function PlanOf(c: seq<LogicalField>, fam: string, k: nat): NumericFamilyPlan
    requires k <= |c|
  {
    if k == 0 then EMPTY_PLAN
    else if InFamily(c[k - 1], fam) then Observe(PlanOf(c, fam, k - 1), c[k - 1], k - 1)
    else PlanOf(c, fam, k - 1)
  }

  predicate IsFloatOf(c: seq<LogicalField>, fam: string, j: nat) {
    j < |c| && InFamily(c[j], fam) && c[j].typ == FLOAT
  }

  predicate IsPlainNumericOf(c: seq<LogicalField>, fam: string, j: nat) {
    j < |c| && InFamily(c[j], fam) && c[j].name == fam && Numeric(c[j])
  }

  lemma {:induction false} PlanIs(c: seq<LogicalField>, fam: string, k: nat)
    requires k <= |c|
    ensures var plan := PlanOf(c, fam, k);
            && plan.hasFloat == plan.firstFloat.Some?
            && (plan.firstFloat.Some? ==> plan.firstFloat.value < k && IsFloatOf(c, fam, plan.firstFloat.value))
            && (forall i :: 0 <= i < (if plan.firstFloat.Some? then plan.firstFloat.value else k) ==>
               !IsFloatOf(c, fam, i))
            && (plan.plainNumeric.Some? ==>
               plan.plainNumeric.value < k && IsPlainNumericOf(c, fam, plan.plainNumeric.value))
            && (forall i :: 0 <= i < (if plan.plainNumeric.Some? then plan.plainNumeric.value else k) ==>
               !IsPlainNumericOf(c, fam, i))
  {
    hide Parse;
    if k > 0 { PlanIs(c, fam, k - 1); }
  }

  /** The finished plan keeps exactly the field that the specification keeps. */
  lemma {:induction false} PlanKeeps(c: seq<LogicalField>, fam: string)
    ensures PlanOf(c, fam, |c|).KeepPosition() == if Keep(c, fam) < |c| then Some(Keep(c, fam)) else None
  {
    hide Parse;
    PlanIs(c, fam, |c|);
    var float, plain := FirstFloat(c, fam, 0), FirstPlainNumeric(c, fam, 0);
    assert float < |c| ==> IsFloatOf(c, fam, float);
    assert plain < |c| ==> IsPlainNumericOf(c, fam, plain);
  }

  /** Every family met so far has its own plan, and the others have nothing to plan. */
  ghost predicate PlansAre(c: seq<LogicalField>, k: nat, plans: seq<NumericFamilyPlan>, byFamily: map<string, nat>)
    requires k <= |c|
  {
    && (forall fam :: fam in byFamily ==> byFamily[fam] < |plans| && plans[byFamily[fam]] == PlanOf(c, fam, k))
    && (forall fam, other :: fam in byFamily && other in byFamily && fam != other ==> byFamily[fam] != byFamily[other])
    && (forall fam :: fam !in byFamily ==> PlanOf(c, fam, k) == EMPTY_PLAN)
  }

  lemma {:induction false} PlanNext(c: seq<LogicalField>, k: nat, plans: seq<NumericFamilyPlan>,
                                    byFamily: map<string, nat>)
    requires k < |c| && PlansAre(c, k, plans, byFamily) && Family(c[k].name) in byFamily
    ensures var p := byFamily[Family(c[k].name)]; PlansAre(c, k + 1, plans[p := Observe(plans[p], c[k], k)], byFamily)
  {
    hide Parse;
  }

  lemma {:induction false} NothingPlanned(c: seq<LogicalField>)
    ensures PlansAre(c, 0, [], map[])
  {
  }

  lemma {:induction false} PlanAdded(c: seq<LogicalField>, k: nat, plans: seq<NumericFamilyPlan>,
                                     byFamily: map<string, nat>, fam: string)
    requires k <= |c| && PlansAre(c, k, plans, byFamily) && fam !in byFamily
    ensures PlansAre(c, k, plans + [EMPTY_PLAN], byFamily[fam := |plans|])
  {
    hide PlanOf;
  }

  /** One pass over the fields: every field is assigned the plan of its family. */
  method PlanFamilies(c: seq<LogicalField>) returns (plans: seq<NumericFamilyPlan>, planByField: seq<nat>)
    ensures |planByField| == |c|
    ensures forall j :: 0 <= j < |c| ==>
            planByField[j] < |plans| && plans[planByField[j]] == PlanOf(c, Family(c[j].name), |c|)
  {
    hide Parse, PlanOf, Observe;
    plans, planByField := [], [];
    var byFamily: map<string, nat> := map[];
    NothingPlanned(c);
    for k := 0 to |c|
      invariant |planByField| == k
      invariant PlansAre(c, k, plans, byFamily)
      invariant forall j :: 0 <= j < k ==>
                Family(c[j].name) in byFamily && planByField[j] == byFamily[Family(c[j].name)]
    {
      var fam := Family(c[k].name);
      if fam !in byFamily {
        PlanAdded(c, k, plans, byFamily, fam);
        byFamily := byFamily[fam := |plans|];
        plans := plans + [EMPTY_PLAN];
      }
      var p := byFamily[fam];
      PlanNext(c, k, plans, byFamily);
      planByField := planByField + [p];
      plans := plans[p := Observe(plans[p], c[k], k)];
    }
  }

  lemma {:induction false} SweepStep(c: seq<LogicalField>, k: nat)
    requires k < |c|
    ensures var keep, fam := Keep(c, Family(c[k].name)), Family(c[k].name);
            && (Numeric(c[k]) && keep < |c| && keep != k <==> !Survives(c, k))
            && (Survives(c, k) ==>
                  Settled(c, k) == Canonical(if Numeric(c[k]) && keep < |c| then c[k].(typ := FLOAT) else c[k]))
  {
    hide Parse;
  }

  /** Emits the survivors in order, dropping a field that repeats what its name last emitted. */
  method EmitSurvivors(c: seq<LogicalField>, plans: seq<NumericFamilyPlan>, planByField: seq<nat>)
    returns (out: seq<LogicalField>)
    requires |planByField| == |c|
    requires forall j :: 0 <= j < |c| ==>
             planByField[j] < |plans| && plans[planByField[j]] == PlanOf(c, Family(c[j].name), |c|)
    ensures out == Emit(c, |c|)
  {
    hide Parse, Settled, Survives, IndexesNames, Canonical;
    out := [];
    var emitted: map<string, nat> := map[];
    NothingIndexed();
    for k := 0 to |c|
      invariant out == Emit(c, k) && IndexesNames(emitted, out)
    {
      var field := c[k];
      var keep := plans[planByField[k]].KeepPosition();
      PlanKeeps(c, Family(field.name));
      SweepStep(c, k);
      if keep.Some? && Numeric(field) {
        if k != keep.value { continue; }
        if field.typ == INTEGER { field := field.(typ := FLOAT); }
      }
      field := Canonical(field);
      NameLookup(emitted, out, field.name);
      if field.name in emitted {
        var equal := LogicalTypeEqual(out[emitted[field.name]].typ, field.typ);
        if equal { continue; }
      }
      NamesAfter(emitted, out, field);
      emitted := emitted[field.name := |out|];
      out := out + [field];
    }
  }

  lemma {:induction false} NothingIndexed()
    ensures IndexesNames(map[], [])
  {
  }

  /** Replaces the fields of a vector by their normal form. */
  method NormalizeIntegerFloatFields(fields: FieldVector)
    modifies fields
    ensures fields.items == NormalizeFields(old(fields.items))
    decreases fields.items, 1
  {
    hide Parse, Emit, Survives, Settled;
    ghost var s := fields.items;
    for k := 0 to |fields.items|
      invariant |fields.items| == |s|
      invariant forall j :: 0 <= j < k ==> fields.items[j] == s[j].(typ := Normalize(s[j].typ))
      invariant forall j :: k <= j < |s| ==> fields.items[j] == s[j]
    {
      var t := NormalizeIntegerFloatType(fields.items[k].typ);
      fields.SetType(k, t);
    }
    var c := fields.items;
    assert c == NormalizeChildren(s);
    var plans, planByField := PlanFamilies(c);
    var out := EmitSurvivors(c, plans, planByField);
    fields.items := out;
  }

  method NormalizeIntegerFloatType(t: LogicalType) returns (r: LogicalType)
    ensures r == Normalize(t)
    decreases t, 0
  {
    match t
    case Scalar(_) => r := t;
    case List(value) =>
      var v := NormalizeIntegerFloatType(value);
      r := List(v);
    case Struct(items) =>
      var fields := new FieldVector(items);
      NormalizeIntegerFloatFields(fields);
      r := Struct(fields.items);
  }
}
