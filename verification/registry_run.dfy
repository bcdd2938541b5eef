/** Whole runs: a registry fed one inferred schema after another. */
module RegistryRun {
  import opened Basics
  import opened VariantNames
  import opened LogicalSchemas
  import opened NameOrder
  import opened SchemaEvolution
  import opened SchemaOrder
  import opened RegistryMerge
  import opened RegistryAbsorption
  import opened RegistryGrowth
  import opened RegistryDrift
  import opened RegistryNumeric
  import opened RegistryCoverage
  import opened RegistryVersions
  import opened RegistryDepth
  import opened RegistrySettling
  import opened RegistryOrdering
  import opened RegistryReplay
  import opened RegistryNulls
  import opened RegistryReplayExact

  datatype Registry = Registry(fields: seq<LogicalField>, generation: nat)

  // ----------------------------------------------------------- one additive run

  /** The canonical fields before ordering; an empty registry starts from the inference itself. */
  function Combined(dk: string, previous: seq<LogicalField>, inferred: seq<LogicalField>): seq<LogicalField> {
    NormalizeFields(
      if previous == [] then NormalizeFields(inferred)
      else MergeFields(dk, NormalizeFields(previous), NormalizeFields(inferred)))
  }

  function FirstDrifts(s: seq<LogicalField>): (ds: seq<DriftEvent>)
    ensures |ds| == |s|
    ensures forall j :: 0 <= j < |s| ==> ds[j] == DriftEvent(s[j].name, s[j].name, NewlyAdded, None, s[j].typ)
  {
    seq(|s|, j requires 0 <= j < |s| => DriftEvent(s[j].name, s[j].name, NewlyAdded, None, s[j].typ))
  }

  function Drifts(dk: string, previous: seq<LogicalField>, inferred: seq<LogicalField>): seq<DriftEvent> {
    if previous == [] then FirstDrifts(NormalizeFields(inferred))
    else FieldDrifts(dk, NormalizeFields(previous), NormalizeFields(inferred), "")
  }

  function Ordered(s: seq<LogicalField>, order: FieldOrder): seq<LogicalField> {
    if order == Alphabetically && s != [] then ReorderFields(s, None, order) else s
  }

  /** The generation advances when anything drifted. */
  function Advance(dk: string, order: FieldOrder, g: Registry, inferred: seq<LogicalField>): Registry {
    Registry(Ordered(Combined(dk, g.fields, inferred), order),
             g.generation + if Drifts(dk, g.fields, inferred) == [] then 0 else 1)
  }

  function Run(dk: string, order: FieldOrder, g: Registry, inputs: seq<seq<LogicalField>>): Registry {
    if inputs == [] then g
    else Advance(dk, order, Run(dk, order, g, inputs[..|inputs| - 1]), inputs[|inputs| - 1])
  }

  // --------------------------------------------- normalising keeps conditions

  lemma {:induction false} NormalizeOnePerFamily(t: LogicalType)
    requires OnePerFamily(t)
    ensures OnePerFamily(Normalize(t))
  {
    match t
    case Scalar(_) =>
    case List(value) => NormalizeOnePerFamily(value);
    case Struct(fields) =>
      hide Parse, Settled, Survives;
      var c, r := NormalizeChildren(fields), NormalizeFields(fields);
      var o := Origins(c, |c|);
      EmittedInOrder(c, |c|);
      forall j, k | 0 <= j < k < |r| ensures Family(r[j].name) != Family(r[k].name) {
        SettledKeeps(c, o[j]);
        SettledKeeps(c, o[k]);
        assert Family(fields[o[j]].name) != Family(fields[o[k]].name);
      }
      forall k | 0 <= k < |r| ensures OnePerFamily(r[k].typ) {
        SettledKeeps(c, o[k]);
        NormalizeOnePerFamily(fields[o[k]].typ);
      }
  }

  lemma {:induction false} NormalizeAnchored(t: LogicalType)
    requires Anchored(t)
    ensures Anchored(Normalize(t))
  {
    match t
    case Scalar(_) =>
    case List(value) => NormalizeAnchored(value);
    case Struct(fields) =>
      hide Parse, Settled, Survives, Emit, Emits, Origins;
      var c, r := NormalizeChildren(fields), NormalizeFields(fields);
      var o := Origins(c, |c|);
      EmittedInOrder(c, |c|);
      forall k | 0 <= k < |r| ensures AnchoredField(r[k]) {
        SettledKeeps(c, o[k]);
        assert AnchoredField(fields[o[k]]);
        NormalizeAnchored(fields[o[k]].typ);
        if r[k].name == "" { UnversionedEmpty(); }
      }
  }

  lemma {:induction false} UnversionedEmpty()
    ensures !Versioned("")
  {
  }

  lemma {:induction false} NormalizeReplayable(s: seq<LogicalField>)
    requires ReplayableFields(s)
    ensures ReplayableFields(NormalizeFields(s)) && NormalFields(NormalizeFields(s))
  {
    NormalizeOnePerFamily(Struct(s));
    NormalizeAnchored(Struct(s));
    NormalizeFieldsIsNormal(s);
  }

  // ------------------------------------------------- the alphabetical order

  lemma {:induction false} VersionedIsUnique(t: LogicalType)
    requires WellVersioned(t)
    ensures UniqueNames(t)
  {
    match t
    case Scalar(_) =>
    case List(value) => VersionedIsUnique(value);
    case Struct(fields) =>
      hide Parse;
      forall j, k | 0 <= j < k < |fields| ensures FieldNames(fields)[j] != FieldNames(fields)[k] {
        assert !Clash(fields[j], fields[k]);
      }
      forall j | 0 <= j < |fields| ensures UniqueNames(fields[j].typ) { VersionedIsUnique(fields[j].typ); }
  }

  /** With unique names ordering permutes, and keeps depth, normal form and distinct versions. */
  lemma {:induction false} OrderedKeeps(s: seq<LogicalField>, order: FieldOrder)
    requires UniqueFields(s)
    ensures var r := Ordered(s, order);
            && SameFields(s, r) && UniqueFields(r) && FieldsDepth(r) == FieldsDepth(s) && (r == [] <==> s == [])
            && (NormalFields(s) ==> NormalFields(r)) && (WellVersionedFields(s) ==> WellVersionedFields(r))
  {
    var r := Ordered(s, order);
    SameReflexive(Struct(s));
    if order == Alphabetically && s != [] {
      ReorderFieldsPermutes(s, None, order);
      SameKeeps(s, r);
      assert SameAs(s, 0, r);
    }
  }

  lemma {:induction false} SameKeeps(s: seq<LogicalField>, r: seq<LogicalField>)
    requires UniqueFields(s) && UniqueFields(r) && SameFields(s, r)
    ensures FieldsDepth(r) == FieldsDepth(s)
    ensures (NormalFields(s) ==> NormalFields(r)) && (WellVersionedFields(s) ==> WellVersionedFields(r))
  {
    SameSymmetric(Struct(s), Struct(r));
    if WellVersionedFields(s) { SameVersions(Struct(s), Struct(r)); }
    if NormalFields(s) { SameNormal(Struct(s), Struct(r)); }
    SameNotDeeper(Struct(s), Struct(r));
    SameNotDeeper(Struct(r), Struct(s));
  }

  // -------------------------------------------------------------- conditions

  /** A state that sorting keeps whole: names stay apart in its normal form. */
  predicate Sortable(order: FieldOrder, s: seq<LogicalField>) {
    order == Alphabetically ==> UniqueFields(NormalizeFields(s))
  }

  /** Below the top level names are unique. */
  predicate UniqueInside(s: seq<LogicalField>) {
    forall k :: 0 <= k < |s| ==> UniqueNames(s[k].typ)
  }

  /** What sorting asks of an input: unique names in its normal form, where the top level only
      matters to an empty registry. */
  predicate Joins(order: FieldOrder, empty: bool, s: seq<LogicalField>) {
    order == Alphabetically ==>
      if empty then UniqueFields(NormalizeFields(s)) else UniqueInside(NormalizeFields(s))
  }

  /** Nothing has been observed before input `k`. */
  predicate StillEmpty(g: Registry, inputs: seq<seq<LogicalField>>, k: nat)
    requires k <= |inputs|
  {
    g.fields == [] && forall m :: 0 <= m < k ==> inputs[m] == []
  }

  predicate AllJoin(order: FieldOrder, g: Registry, inputs: seq<seq<LogicalField>>) {
    Sortable(order, g.fields) &&
    forall k :: 0 <= k < |inputs| ==> Joins(order, StillEmpty(g, inputs, k), inputs[k])
  }

  lemma {:induction false} JoinBefore(order: FieldOrder, g: Registry, inputs: seq<seq<LogicalField>>, n: nat)
    requires AllJoin(order, g, inputs) && n <= |inputs|
    ensures AllJoin(order, g, inputs[..n])
  {
    hide Joins, Sortable;
    forall k | 0 <= k < n ensures Joins(order, StillEmpty(g, inputs[..n], k), inputs[..n][k]) {
      assert StillEmpty(g, inputs[..n], k) == StillEmpty(g, inputs, k);
      assert Joins(order, StillEmpty(g, inputs, k), inputs[k]);
    }
  }

  /** Unique names in the normal forms of both sides stay unique. */
  lemma {:induction false} CombinedUnique(dk: string, previous: seq<LogicalField>, inferred: seq<LogicalField>)
    requires UniqueFields(NormalizeFields(previous)) && Joins(Alphabetically, previous == [], inferred)
    ensures UniqueFields(Combined(dk, previous, inferred)) && NormalFields(Combined(dk, previous, inferred))
  {
    var p, i := NormalizeFields(previous), NormalizeFields(inferred);
    NormalizeFieldsIsNormal(previous);
    NormalizeFieldsIsNormal(inferred);
    var m := if previous == [] then i else MergeFields(dk, p, i);
    if previous == [] {
      UniqueFieldsSettle(i);
    } else {
      UniqueFieldsSettle(p);
      forall k | 0 <= k < |i| ensures Settles(i[k].typ) { UniqueSettles(i[k].typ); }
      MergeFieldsSettles(dk, p, i);
    }
    NormalizeFieldsUnique(m);
    NormalizeFieldsIsNormal(m);
  }

  lemma {:induction false} CombinedVersions(dk: string, previous: seq<LogicalField>, inferred: seq<LogicalField>)
    requires !Versioned(WrapperName(dk)) && WellVersionedFields(previous) && WellVersionedFields(inferred)
    ensures WellVersionedFields(Combined(dk, previous, inferred))
  {
    NormalizeFieldsVersions(inferred);
    NormalizeFieldsVersions(previous);
    if previous == [] {
      NormalizeFieldsVersions(NormalizeFields(inferred));
    } else {
      MergeFieldsVersions(dk, NormalizeFields(previous), NormalizeFields(inferred));
      NormalizeFieldsVersions(MergeFields(dk, NormalizeFields(previous), NormalizeFields(inferred)));
    }
  }

  /** Families keep pairwise distinct versions through every run. */
  lemma {:induction false} RunVersions(dk: string, order: FieldOrder, g: Registry, inputs: seq<seq<LogicalField>>)
    requires !Versioned(WrapperName(dk)) && WellVersionedFields(g.fields)
    requires forall k :: 0 <= k < |inputs| ==> WellVersionedFields(inputs[k])
    ensures WellVersionedFields(Run(dk, order, g, inputs).fields)
  {
    if inputs != [] {
      var h := Run(dk, order, g, inputs[..|inputs| - 1]);
      RunVersions(dk, order, g, inputs[..|inputs| - 1]);
      CombinedVersions(dk, h.fields, inputs[|inputs| - 1]);
      VersionedIsUnique(Struct(Combined(dk, h.fields, inputs[|inputs| - 1])));
      OrderedKeeps(Combined(dk, h.fields, inputs[|inputs| - 1]), order);
    }
  }

  lemma {:induction false} StaysNonEmpty(s: seq<LogicalField>)
    requires s != []
    ensures NormalizeFields(s) != []
  {
    var k := Represented(s, 0);
  }

  lemma {:induction false} NeverEmptied(dk: string, previous: seq<LogicalField>, inferred: seq<LogicalField>)
    requires previous != []
    ensures Combined(dk, previous, inferred) != []
  {
    var p, i := NormalizeFields(previous), NormalizeFields(inferred);
    StaysNonEmpty(previous);
    MergeFieldsGrows(dk, p, i);
    StaysNonEmpty(MergeFields(dk, p, i));
  }

  lemma {:induction false} AdvanceEmpty(dk: string, order: FieldOrder, g: Registry, inferred: seq<LogicalField>)
    ensures Advance(dk, order, g, inferred).fields == [] <==> g.fields == [] && inferred == []
  {
    var s := Combined(dk, g.fields, inferred);
    if s == [] {
      if g.fields != [] { NeverEmptied(dk, g.fields, inferred); }
      if inferred != [] {
        StaysNonEmpty(inferred);
        if g.fields == [] { StaysNonEmpty(NormalizeFields(inferred)); }
      }
    } else {
      var f := Ordered(s, order);
      assert |Sort(FieldNames(s))| == |multiset(Sort(FieldNames(s)))| == |multiset(FieldNames(s))| == |s|;
    }
  }

  lemma {:induction false} RunEmpty(dk: string, order: FieldOrder, g: Registry, inputs: seq<seq<LogicalField>>)
    ensures Run(dk, order, g, inputs).fields == [] <==> StillEmpty(g, inputs, |inputs|)
  {
    hide Advance;
    if inputs != [] {
      var n := |inputs| - 1;
      RunEmpty(dk, order, g, inputs[..n]);
      AdvanceEmpty(dk, order, Run(dk, order, g, inputs[..n]), inputs[n]);
      assert StillEmpty(g, inputs[..n], n) <==> StillEmpty(g, inputs, n);
      assert StillEmpty(g, inputs, |inputs|) <==> StillEmpty(g, inputs, n) && inputs[n] == [];
    }
  }

  /** Names that are unique in the normal forms fed in are unique in every state reached. */
  lemma {:induction false} RunSortable(dk: string, order: FieldOrder, g: Registry, inputs: seq<seq<LogicalField>>)
    requires AllJoin(order, g, inputs)
    ensures Sortable(order, Run(dk, order, g, inputs).fields)
    decreases |inputs|, 1
  {
    if order == Alphabetically && inputs != [] {
      var n := |inputs| - 1;
      LastJoins(dk, order, g, inputs);
      AdvanceSortable(dk, Run(dk, order, g, inputs[..n]), inputs[n]);
    }
  }

  lemma {:induction false} AdvanceSortable(dk: string, g: Registry, inferred: seq<LogicalField>)
    requires Sortable(Alphabetically, g.fields) && Joins(Alphabetically, g.fields == [], inferred)
    ensures Sortable(Alphabetically, Advance(dk, Alphabetically, g, inferred).fields)
  {
    var s := Combined(dk, g.fields, inferred);
    CombinedUnique(dk, g.fields, inferred);
    OrderedKeeps(s, Alphabetically);
    NormalFieldsAreFixed(Ordered(s, Alphabetically));
  }

  /** Every input of a run joins the state it meets. */
  lemma {:induction false} LastJoins(dk: string, order: FieldOrder, g: Registry, inputs: seq<seq<LogicalField>>)
    requires AllJoin(order, g, inputs) && inputs != []
    ensures var n := |inputs| - 1;
            var h := Run(dk, order, g, inputs[..n]);
            AllJoin(order, g, inputs[..n]) && Sortable(order, h.fields) && Joins(order, h.fields == [], inputs[n])
    decreases |inputs|, 0
  {
    hide Sortable, Joins, Run;
    var n := |inputs| - 1;
    JoinBefore(order, g, inputs, n);
    RunSortable(dk, order, g, inputs[..n]);
    RunEmpty(dk, order, g, inputs[..n]);
    assert StillEmpty(g, inputs[..n], n) <==> StillEmpty(g, inputs, n);
    assert Joins(order, StillEmpty(g, inputs, n), inputs[n]);
  }

  // ------------------------------------------------------- nothing is lost

  lemma {:induction false} OrderedCovers(dk: string, order: FieldOrder, previous: seq<LogicalField>,
                                         inferred: seq<LogicalField>, x: seq<LogicalField>)
    requires Sortable(order, previous) && Joins(order, previous == [], inferred)
    requires CoversFields(dk, Combined(dk, previous, inferred), x)
    ensures CoversFields(dk, Ordered(Combined(dk, previous, inferred), order), x)
  {
    var s := Combined(dk, previous, inferred);
    if order == Alphabetically {
      CombinedUnique(dk, previous, inferred);
      OrderedKeeps(s, order);
      SameCovers(dk, Struct(s), Struct(Ordered(s, order)), Struct(x));
    }
  }

  lemma {:induction false} AdvanceCovers(dk: string, order: FieldOrder, g: Registry, inferred: seq<LogicalField>)
    requires Sortable(order, g.fields) && Joins(order, g.fields == [], inferred) && AnchoredFields(inferred)
    ensures CoversFields(dk, Advance(dk, order, g, inferred).fields, inferred)
  {
    var i := NormalizeFields(inferred);
    NormalizeAnchored(Struct(inferred));
    if g.fields == [] {
      CoversSelf(dk, Struct(i));
      NormalizeCovers(dk, Struct(i), Struct(i));
    } else {
      var p := NormalizeFields(g.fields);
      MergeFieldsCovers(dk, p, i);
      NormalizeCovers(dk, Struct(MergeFields(dk, p, i)), Struct(i));
    }
    OrderedCovers(dk, order, g.fields, inferred, i);
    CoversFieldsBeforeNormalize(dk, Advance(dk, order, g, inferred).fields, inferred);
  }

  lemma {:induction false} EmptyCoversNothing(dk: string, x: seq<LogicalField>)
    ensures x != [] ==> !CoversFields(dk, [], x)
  {
    if x != [] { assert !CoversIn(dk, [], Family(x[0].name), x[0].typ); }
  }

  lemma {:induction false} AdvanceStillCovers(dk: string, order: FieldOrder, g: Registry, inferred: seq<LogicalField>,
                                              x: seq<LogicalField>)
    requires Sortable(order, g.fields) && Joins(order, g.fields == [], inferred)
    requires CoversFields(dk, g.fields, x)
    ensures CoversFields(dk, Advance(dk, order, g, inferred).fields, x)
  {
    if g.fields == [] {
      EmptyCoversNothing(dk, x);
    } else {
      var p, i := NormalizeFields(g.fields), NormalizeFields(inferred);
      var m := MergeFields(dk, p, i);
      NormalizeCovers(dk, Struct(g.fields), Struct(x));
      MergeFieldsGrows(dk, p, i);
      CoversWider(dk, Struct(p), Struct(m), Struct(x));
      NormalizeCovers(dk, Struct(m), Struct(x));
      OrderedCovers(dk, order, g.fields, inferred, x);
    }
  }

  lemma {:induction false} RunStillCovers(dk: string, order: FieldOrder, g: Registry, inputs: seq<seq<LogicalField>>,
                                          x: seq<LogicalField>)
    requires AllJoin(order, g, inputs) && inputs != []
    requires CoversFields(dk, Run(dk, order, g, inputs[..|inputs| - 1]).fields, x)
    ensures CoversFields(dk, Run(dk, order, g, inputs).fields, x)
  {
    hide AllJoin, Sortable, Joins, CoversFields;
    LastJoins(dk, order, g, inputs);
    AdvanceStillCovers(dk, order, Run(dk, order, g, inputs[..|inputs| - 1]), inputs[|inputs| - 1], x);
  }

  lemma {:induction false} RunCoversLast(dk: string, order: FieldOrder, g: Registry, inputs: seq<seq<LogicalField>>)
    requires AllJoin(order, g, inputs) && inputs != [] && AnchoredFields(inputs[|inputs| - 1])
    ensures CoversFields(dk, Run(dk, order, g, inputs).fields, inputs[|inputs| - 1])
  {
    hide AllJoin, Sortable, Joins, CoversFields, AnchoredFields;
    LastJoins(dk, order, g, inputs);
    AdvanceCovers(dk, order, Run(dk, order, g, inputs[..|inputs| - 1]), inputs[|inputs| - 1]);
  }

  lemma {:induction false} InputKept(dk: string, order: FieldOrder, g: Registry, inputs: seq<seq<LogicalField>>,
                                     k: nat)
    requires AllJoin(order, g, inputs) && k < |inputs| && AnchoredFields(inputs[k])
    ensures CoversFields(dk, Run(dk, order, g, inputs).fields, inputs[k])
    decreases |inputs|
  {
    hide AllJoin, CoversFields, AnchoredFields, Run;
    var n := |inputs| - 1;
    if k == n {
      RunCoversLast(dk, order, g, inputs);
    } else {
      JoinBefore(order, g, inputs, n);
      InputKept(dk, order, g, inputs[..n], k);
      RunStillCovers(dk, order, g, inputs, inputs[k]);
    }
  }

  lemma {:induction false} StartKept(dk: string, order: FieldOrder, g: Registry, inputs: seq<seq<LogicalField>>)
    requires AllJoin(order, g, inputs)
    ensures CoversFields(dk, Run(dk, order, g, inputs).fields, g.fields)
    decreases |inputs|
  {
    if inputs == [] {
      CoversSelf(dk, Struct(g.fields));
    } else {
      hide AllJoin, CoversFields, Run;
      JoinBefore(order, g, inputs, |inputs| - 1);
      StartKept(dk, order, g, inputs[..|inputs| - 1]);
      RunStillCovers(dk, order, g, inputs, g.fields);
    }
  }

  /** After any run the registry covers every schema it was fed, and what it started from. */
  lemma {:induction false} NothingLost(dk: string, order: FieldOrder, g: Registry, inputs: seq<seq<LogicalField>>)
    requires AllJoin(order, g, inputs) && forall k :: 0 <= k < |inputs| ==> AnchoredFields(inputs[k])
    ensures var h := Run(dk, order, g, inputs);
            && (forall k :: 0 <= k < |inputs| ==> CoversFields(dk, h.fields, inputs[k]))
            && CoversFields(dk, h.fields, g.fields)
  {
    hide AllJoin, CoversFields, AnchoredFields, Run;
    StartKept(dk, order, g, inputs);
    forall k | 0 <= k < |inputs| ensures CoversFields(dk, Run(dk, order, g, inputs).fields, inputs[k]) {
      InputKept(dk, order, g, inputs, k);
    }
  }

  // ------------------------------------------------------- exactly when sorting loses

  /** Sorting keeps exactly what the unshadowed fields of the combined schema cover, for any state and input. */
  lemma {:induction false} AdvanceCoversExactly(dk: string, g: Registry, inferred: seq<LogicalField>,
                                                x: seq<LogicalField>)
    ensures var s := Combined(dk, g.fields, inferred);
            CoversFields(dk, Advance(dk, Alphabetically, g, inferred).fields, x) <==>
              CoversFields(dk, UnshadowedFields(s, |s|), x)
  {
    var s := Combined(dk, g.fields, inferred);
    if s != [] { SortedCoversFields(dk, s, None, x); }
  }

  /** A first schema is kept whole if and only if its shadowed fields are covered by unshadowed ones. */
  lemma {:induction false} FirstKeptExactly(dk: string, generation: nat, s: seq<LogicalField>)
    ensures var n := NormalizeFields(s);
            CoversFields(dk, Advance(dk, Alphabetically, Registry([], generation), s).fields, s)
            <==> CoversFields(dk, UnshadowedFields(n, |n|), n)
  {
    var n, h := NormalizeFields(s), Advance(dk, Alphabetically, Registry([], generation), s).fields;
    NormalizeTwice(s);
    AdvanceCoversExactly(dk, Registry([], generation), s, n);
    if CoversFields(dk, h, n) { CoversFieldsBeforeNormalize(dk, h, s); }
    if CoversFields(dk, h, s) { CoversFieldsAfterNormalize(dk, h, s); }
  }

  /** A field that settles on an earlier sibling's name, and that no sibling covers, is lost. */
  lemma {:induction false} ShadowedLost(dk: string, generation: nat, s: seq<LogicalField>, j: nat, k: nat)
    requires var n := NormalizeFields(s);
             && j < k < |n| && n[j].name == n[k].name
             && forall m :: 0 <= m < |n| && m != k && InFamily(n[m], Family(n[k].name)) ==>
                !Covers(dk, n[m].typ, n[k].typ)
    ensures !CoversFields(dk, Advance(dk, Alphabetically, Registry([], generation), s).fields, s)
  {
    hide Parse;
    var n, fam := NormalizeFields(s), Family(NormalizeFields(s)[k].name);
    var u := UnshadowedFields(n, |n|);
    FirstKeptExactly(dk, generation, s);
    if CoversIn(dk, u, fam, n[k].typ) {
      var m :| 0 <= m < |u| && InFamily(u[m], fam) && Covers(dk, u[m].typ, n[k].typ);
      var i := UnshadowedFrom(n, |n|, u[m]);
      UnshadowedCovers(dk, n[i].typ, n[k].typ);
    }
  }

  /** Two structs that settle on one name are both emitted under it. */
  lemma {:induction false} BothEmitted(f: LogicalField, g: LogicalField)
    requires Normal(f.typ) && Normal(g.typ) && f.typ.Struct? && g.typ.Struct? && f.typ != g.typ
    ensures NormalizeFields([f, g]) == [Canonical(f), Canonical(g)]
  {
    hide Parse, Canonical;
    var c := [f, g];
    NormalIsFixed(f.typ);
    NormalIsFixed(g.typ);
    assert NormalizeChildren(c) == c;
    CanonicalKeeps(f);
    CanonicalKeeps(g);
    assert Settled(c, 0) == Canonical(f) && Settled(c, 1) == Canonical(g);
    assert Emit(c, 1) == [Canonical(f)];
    assert Emit(c, 2) == Emit(c, 1) + [Canonical(g)];
  }

  lemma {:induction false} OneInteger(dk: string, a: string, b: string)
    requires !Versioned(a) && !Versioned(b) && a != b && a != ""
    ensures var t, u := Struct([LogicalField(a, true, INTEGER)]), Struct([LogicalField(b, true, INTEGER)]);
            Normal(t) && Anchored(t) && !Covers(dk, t, u)
  {
    hide Parse;
    var t, u := Struct([LogicalField(a, true, INTEGER)]), Struct([LogicalField(b, true, INTEGER)]);
    assert Canonical(t.fields[0]) == t.fields[0] && NoRepeat(t.fields, 0);
    assert Normal(t.fields[0].typ) && NormalFields(t.fields);
    assert Family(a) == a && Family(b) == b;
    assert AnchoredField(t.fields[0]);
    assert !CoversIn(dk, t.fields, Family(u.fields[0].name), INTEGER);
  }

  lemma {:induction false} ShortNames()
    ensures !Versioned("a") && !Versioned("b")
  {
  }

  lemma {:induction false} SecondLost(dk: string, f: LogicalField, g: LogicalField)
    requires Normal(f.typ) && Normal(g.typ) && f.typ.Struct? && g.typ.Struct? && !Covers(dk, f.typ, g.typ)
    requires Canonical(f).name == Canonical(g).name
    ensures !CoversFields(dk, Advance(dk, Alphabetically, Registry([], 1), [f, g]).fields, [f, g])
  {
    hide Parse, Canonical, Advance;
    CoversSelf(dk, g.typ);
    BothEmitted(f, g);
    CanonicalKeeps(f);
    CanonicalKeeps(g);
    ShadowedLost(dk, 1, [f, g], 0, 1);
  }

  lemma {:induction false} OneVersion(f: LogicalField, g: LogicalField)
    requires f.name == Make("x", 2, "string") && g.name == Make("x", 2, "struct") && f.typ.Struct? && g.typ.Struct?
    ensures Canonical(f).name == Canonical(g).name && f.name != g.name && f.name != "" && g.name != ""
  {
    hide ParseAt;
    assert VariantSemantic(Scalar(Utf8)) == "string" && VariantSemantic(f.typ) == VariantSemantic(g.typ) == "struct";
    ParseMake("x", 2, "string");
    ParseMake("x", 2, "struct");
  }

  /** Two structs under one version with different labels settle on one name, and the second is lost. */
  lemma {:induction false} SortingLoses(dk: string) returns (s: seq<LogicalField>)
    ensures AnchoredFields(s) && Distinct(FieldNames(s))
    ensures s == [LogicalField(Make("x", 2, "string"), true, Struct([LogicalField("a", true, INTEGER)])),
                  LogicalField(Make("x", 2, "struct"), true, Struct([LogicalField("b", true, INTEGER)]))]
    ensures !CoversFields(dk, Advance(dk, Alphabetically, Registry([], 1), s).fields, s)
  {
    hide Parse, Canonical, Advance, CoversFields;
    var f := LogicalField(Make("x", 2, "string"), true, Struct([LogicalField("a", true, INTEGER)]));
    var g := LogicalField(Make("x", 2, "struct"), true, Struct([LogicalField("b", true, INTEGER)]));
    s := [f, g];
    OneVersion(f, g);
    ShortNames();
    OneInteger(dk, "a", "b");
    OneInteger(dk, "b", "a");
    assert FieldNames(s) == [f.name, g.name];
    assert AnchoredField(s[0]) && AnchoredField(s[1]);
    SecondLost(dk, f, g);
  }

  // -------------------------------------------------------------- exact depth

  function DeepestInput(d: nat, inputs: seq<seq<LogicalField>>): nat {
    if inputs == [] then d else Max(DeepestInput(d, inputs[..|inputs| - 1]), FieldsDepth(inputs[|inputs| - 1]))
  }

  lemma {:induction false} AdvanceDepth(dk: string, order: FieldOrder, g: Registry, inferred: seq<LogicalField>)
    requires Sortable(order, g.fields) && Joins(order, g.fields == [], inferred)
    ensures FieldsDepth(Advance(dk, order, g, inferred).fields) == Max(FieldsDepth(g.fields), FieldsDepth(inferred))
  {
    var p, i := NormalizeFields(g.fields), NormalizeFields(inferred);
    NormalizeFieldsDepth(g.fields);
    NormalizeFieldsDepth(inferred);
    NormalizeFieldsDepth(i);
    MergeFieldsDepth(dk, p, i);
    NormalizeFieldsDepth(MergeFields(dk, p, i));
    if order == Alphabetically {
      CombinedUnique(dk, g.fields, inferred);
      OrderedKeeps(Combined(dk, g.fields, inferred), order);
    }
  }

  /** Sorting keeps exactly the depth of the unshadowed fields of the combined schema, for any state and input. */
  lemma {:induction false} AdvanceDepthExactly(dk: string, g: Registry, inferred: seq<LogicalField>)
    ensures var s := Combined(dk, g.fields, inferred);
            FieldsDepth(Advance(dk, Alphabetically, g, inferred).fields) == FieldsDepth(UnshadowedFields(s, |s|))
  {
    var s := Combined(dk, g.fields, inferred);
    if s != [] { SortedFieldsDepth(s, None); }
  }

  /** The depth of the registry is the greatest depth it has ever seen. */
  lemma {:induction false} RunDepth(dk: string, order: FieldOrder, g: Registry, inputs: seq<seq<LogicalField>>)
    requires AllJoin(order, g, inputs)
    ensures FieldsDepth(Run(dk, order, g, inputs).fields) == DeepestInput(FieldsDepth(g.fields), inputs)
  {
    hide AllJoin, Sortable, Joins, Advance;
    if inputs != [] {
      var before := inputs[..|inputs| - 1];
      LastJoins(dk, order, g, inputs);
      RunDepth(dk, order, g, before);
      AdvanceDepth(dk, order, Run(dk, order, g, before), inputs[|inputs| - 1]);
    }
  }

  // -------------------------------------------------------------- generations

  /** A first schema is logged field by field, as it is published. */
  lemma {:induction false} FirstSchemaLogged(dk: string, inferred: seq<LogicalField>)
    ensures var r, log := Combined(dk, [], inferred), Drifts(dk, [], inferred);
            |log| == |r| && forall k :: 0 <= k < |r| ==>
              log[k] == DriftEvent(r[k].name, r[k].name, NewlyAdded, None, r[k].typ)
  {
    NormalizeTwice(inferred);
  }

  /** On a non-empty registry the generation advances exactly when the merge changed the
      normalised previous fields. */
  lemma {:induction false} GenerationCountsChanges(dk: string, order: FieldOrder, g: Registry,
                                                   inferred: seq<LogicalField>)
    requires g.fields != []
    ensures var p := NormalizeFields(g.fields);
            Advance(dk, order, g, inferred).generation ==
            g.generation + if MergeFields(dk, p, NormalizeFields(inferred)) == p then 0 else 1
  {
    DriftExactlyWhenChanged(dk, NormalizeFields(g.fields), NormalizeFields(inferred), "");
  }

  // ------------------------------------------------------------------- replay

  /** States reached by contract-first runs of one-field-per-family inputs. */
  predicate Steady(s: seq<LogicalField>) { NormalFields(s) && WellVersionedFields(s) && NullsFirstFields(s) }

  lemma {:induction false} AdvanceSteady(dk: string, g: Registry, inferred: seq<LogicalField>)
    requires !Versioned(WrapperName(dk)) && Steady(g.fields) && ReplayableFields(inferred)
    ensures Steady(Advance(dk, SchemaContractFirst, g, inferred).fields)
  {
    var p, i := NormalizeFields(g.fields), NormalizeFields(inferred);
    NormalizeReplayable(inferred);
    NormalFieldsAreFixed(g.fields);
    OnePerFamilyVersions(Struct(i));
    OnePerFamilyNulls(Struct(i));
    MergeFieldsVersions(dk, p, i);
    MergeFieldsNulls(dk, p, i);
    var m := if g.fields == [] then i else MergeFields(dk, p, i);
    NormalizeFieldsIsNormal(m);
    NormalizeFieldsVersions(m);
    NormalizeFieldsNulls(m);
  }

  lemma {:induction false} RunSteady(dk: string, g: Registry, inputs: seq<seq<LogicalField>>)
    requires !Versioned(WrapperName(dk)) && Steady(g.fields)
    requires forall k :: 0 <= k < |inputs| ==> ReplayableFields(inputs[k])
    ensures Steady(Run(dk, SchemaContractFirst, g, inputs).fields)
  {
    if inputs != [] {
      RunSteady(dk, g, inputs[..|inputs| - 1]);
      AdvanceSteady(dk, Run(dk, SchemaContractFirst, g, inputs[..|inputs| - 1]), inputs[|inputs| - 1]);
    }
  }

  /** A registry stays empty only when it was empty and nothing was observed. */
  lemma {:induction false} EmptyAgain(dk: string, g: Registry, inferred: seq<LogicalField>)
    requires Combined(dk, g.fields, inferred) == []
    ensures NormalizeFields(inferred) == [] && Drifts(dk, [], inferred) == [] && Combined(dk, [], inferred) == []
  {
    if g.fields == [] { NormalizeTwice(inferred); } else { NeverEmptied(dk, g.fields, inferred); }
  }

  /** Feeding the last input again changes neither fields nor generation, and logs no drift. */
  lemma {:induction false} AdvanceTwice(dk: string, g: Registry, inferred: seq<LogicalField>)
    requires !Versioned(WrapperName(dk)) && ReplayableFields(inferred)
    requires g.fields != [] ==> SafeFields(dk, NormalizeFields(g.fields)) && UniqueFields(NormalizeFields(g.fields))
    ensures var h := Advance(dk, SchemaContractFirst, g, inferred);
            && Advance(dk, SchemaContractFirst, h, inferred) == h
            && Drifts(dk, h.fields, inferred) == []
  {
    var h := Advance(dk, SchemaContractFirst, g, inferred);
    var p, i := NormalizeFields(g.fields), NormalizeFields(inferred);
    NormalizeReplayable(inferred);
    NormalizeTwice(inferred);
    if g.fields == [] {
      assert h.fields == i;
      SelfMerge(dk, Struct(i));
      assert MergeFields(dk, i, i) == i;
    } else {
      NormalizeFieldsIsNormal(g.fields);
      ReplayFields(dk, p, i);
      NormalizeTwice(MergeFields(dk, p, i));
    }
    assert NormalizeFields(h.fields) == h.fields;
    if h.fields != [] {
      assert MergeFields(dk, h.fields, i) == h.fields;
      DriftExactlyWhenChanged(dk, h.fields, i, "");
    } else {
      EmptyAgain(dk, g, inferred);
    }
  }

  /** From a non-empty previous schema with unique names, every replay is a no-op exactly when the schema is safe. */
  lemma {:induction false} AdvanceTwiceExactly(dk: string, g: Registry)
    requires !Versioned(WrapperName(dk)) && g.fields != [] && UniqueFields(NormalizeFields(g.fields))
    ensures SafeFields(dk, NormalizeFields(g.fields)) <==>
            forall i :: ReplayableFields(i) ==>
              var h := Advance(dk, SchemaContractFirst, g, i); Advance(dk, SchemaContractFirst, h, i) == h
  {
    var p := NormalizeFields(g.fields);
    if SafeFields(dk, p) {
      forall i | ReplayableFields(i)
        ensures var h := Advance(dk, SchemaContractFirst, g, i); Advance(dk, SchemaContractFirst, h, i) == h
      {
        AdvanceTwice(dk, g, i);
      }
    } else {
      NormalizeFieldsIsNormal(g.fields);
      var f := UnsafeFieldsInput(dk, p);
      ReplayAdvances(dk, g, [f]);
    }
  }

  lemma {:induction false} ReplayAdvances(dk: string, g: Registry, i: seq<LogicalField>)
    requires g.fields != [] && NormalFields(i) && !ReplayIsNoOp(dk, NormalizeFields(g.fields), i)
    ensures var h := Advance(dk, SchemaContractFirst, g, i); Advance(dk, SchemaContractFirst, h, i) != h
  {
    var p, h := NormalizeFields(g.fields), Advance(dk, SchemaContractFirst, g, i);
    NormalFieldsAreFixed(i);
    NormalizeTwice(MergeFields(dk, p, i));
    StaysNonEmpty(g.fields);
    MergeFieldsGrows(dk, p, i);
    StaysNonEmpty(MergeFields(dk, p, i));
    GenerationCountsChanges(dk, SchemaContractFirst, h, i);
  }

  /** End to end, over every contract-first run of one-field-per-family inputs. */
  lemma {:induction false} ReplayIsNoOpOverRuns(dk: string, inputs: seq<seq<LogicalField>>)
    requires !Versioned(WrapperName(dk)) && inputs != []
    requires forall k :: 0 <= k < |inputs| ==> ReplayableFields(inputs[k])
    ensures var h := Run(dk, SchemaContractFirst, Registry([], 1), inputs);
            && Run(dk, SchemaContractFirst, Registry([], 1), inputs + [inputs[|inputs| - 1]]) == h
            && Drifts(dk, h.fields, inputs[|inputs| - 1]) == []
  {
    var g, before, last := Registry([], 1), inputs[..|inputs| - 1], inputs[|inputs| - 1];
    var h := Run(dk, SchemaContractFirst, g, before);
    RunSteady(dk, g, before);
    NormalFieldsAreFixed(h.fields);
    NullsFirstSafe(dk, Struct(h.fields));
    VersionedIsUnique(Struct(h.fields));
    AdvanceTwice(dk, h, last);
    assert (inputs + [last])[..|inputs|] == inputs;
  }
}
