/** Merging the same observation twice changes nothing the second time. */
module RegistryAbsorption {
  import opened Basics
  import opened VariantNames
  import opened LogicalSchemas
  import opened RegistryMerge

  /** At every struct level, each variant family occurs at most once. */
  predicate OnePerFamily(t: LogicalType) {
    match t
    case Scalar(_) => true
    case List(value) => OnePerFamily(value)
    case Struct(fields) => OnePerFamilyFields(fields)
  }

  predicate OnePerFamilyFields(s: seq<LogicalField>) {
    && DistinctFamilies(s)
    && forall k :: 0 <= k < |s| ==> OnePerFamily(s[k].typ)
  }

  predicate DistinctFamilies(s: seq<LogicalField>) {
    forall j, k :: 0 <= j < k < |s| ==> Family(s[j].name) != Family(s[k].name)
  }

  /** Every field whose type is not null has a non-empty name. */
  predicate Anchored(t: LogicalType) {
    match t
    case Scalar(_) => true
    case List(value) => Anchored(value)
    case Struct(fields) => AnchoredFields(fields)
  }

  predicate AnchoredFields(s: seq<LogicalField>) {
    forall k :: 0 <= k < |s| ==> AnchoredField(s[k])
  }

  predicate AnchoredField(f: LogicalField) { Rooted(f) && Anchored(f.typ) }

  predicate Rooted(f: LogicalField) { f.name == "" ==> f.typ == Scalar(Null) }

  /** What a replay may safely consist of. */
  predicate Replayable(t: LogicalType) { OnePerFamily(t) && Anchored(t) }

  predicate ReplayableFields(s: seq<LogicalField>) { OnePerFamilyFields(s) && AnchoredFields(s) }

  predicate Stable(dk: string, s: seq<LogicalField>, f: LogicalField) { Step(dk, s, f) == s }

  // -------------------------------------------------------------- small facts

  lemma {:induction false} NullAlwaysMerges(dk: string, b: LogicalType)
    ensures Merge(dk, b, Scalar(Null)).Some?
  {
    match b
    case Scalar(_) =>
    case List(value) => NullAlwaysMerges(dk, value);
    case Struct(fields) =>
      var p := FirstNamed(fields, WrapperName(dk), 0);
      if p < |fields| { NullAlwaysMerges(dk, fields[p].typ); }
  }

  /** The name search succeeds on its first candidate, which joins the family. */
  lemma {:induction false} VariantJoins(s: seq<LogicalField>, fam: string, t: LogicalType)
    requires fam != ""
    ensures var name := VariantName(s, fam, t);
            && name == Make(fam, NextVersion(s, fam, |s|), VariantSemantic(t))
            && Family(name) == fam && Version(name) == NextVersion(s, fam, |s|)
            && Parse(name).Some? && Parse(name).value.semantic == VariantSemantic(t)
            && forall j :: 0 <= j < |s| ==> s[j].name != name
  {
    ParseMake(fam, NextVersion(s, fam, |s|), VariantSemantic(t));
  }

  /** A field that needs a variant has a family to join. */
  lemma {:induction false} VariantFamily(dk: string, s: seq<LogicalField>, f: LogicalField)
    requires Rooted(f) && Target(dk, s, f) == NewVariant
    ensures Family(f.name) != "" && Family(Variant(s, f).name) == Family(f.name)
  {
    if f.typ == Scalar(Null) {
      forall j | 0 <= j < |s| ensures Merge(dk, s[j].typ, f.typ).Some? { NullAlwaysMerges(dk, s[j].typ); }
      assert !(LastNamed(s, f.name, |s|) >= 0);
      assert Versioned(f.name);
    }
    if Versioned(f.name) { MakeParse(f.name); }
    VariantJoins(s, Family(f.name), f.typ);
  }

  lemma {:induction false} StableFields(dk: string, s: seq<LogicalField>, incoming: seq<LogicalField>)
    requires forall k :: 0 <= k < |incoming| ==> Stable(dk, s, incoming[k])
    ensures MergeFields(dk, s, incoming) == s
  {
    if incoming != [] { StableFields(dk, s, incoming[1..]); }
  }

  lemma {:induction false} SelfMerge(dk: string, t: LogicalType)
    requires OnePerFamily(t)
    ensures Merge(dk, t, t) == Some(t)
  {
    match t
    case Scalar(_) =>
    case List(value) => SelfMerge(dk, value);
    case Struct(fields) =>
      forall k | 0 <= k < |fields| ensures Stable(dk, fields, fields[k]) {
        SelfMerge(dk, fields[k].typ);
        assert LastNamed(fields, fields[k].name, |fields|) == k;
      }
      StableFields(dk, fields, fields);
  }

  // ------------------------------------------------- one field, merged twice

  /** Name lookup failed or was refused, so the family decides. */
  predicate PastName(dk: string, s: seq<LogicalField>, f: LogicalField) {
    var p := LastNamed(s, f.name, |s|);
    if p < 0 then Versioned(f.name) && HasFamily(s, Family(f.name), |s|)
    else Merge(dk, s[p].typ, f.typ).None?
  }

  lemma {:induction false} ThroughFamily(dk: string, s: seq<LogicalField>, f: LogicalField)
    ensures PastName(dk, s, f) ==>
              Target(dk, s, f) == FamilyTarget(dk, s, Family(f.name), LastNamed(s, f.name, |s|), f.typ)
    ensures Target(dk, s, f) !in {Added} && !Target(dk, s, f).AtName? <==> PastName(dk, s, f)
  {
  }

  lemma {:induction false} AddedTwice(dk: string, s: seq<LogicalField>, f: LogicalField)
    requires OnePerFamily(f.typ)
    ensures Stable(dk, s + [f], f)
  {
    SelfMerge(dk, f.typ);
    assert LastNamed(s + [f], f.name, |s| + 1) == |s|;
  }

  lemma {:induction false} VariantTwice(dk: string, s: seq<LogicalField>, f: LogicalField)
    requires OnePerFamily(f.typ) && AnchoredField(f) && Target(dk, s, f) == NewVariant
    ensures Stable(dk, s + [Variant(s, f)], f)
  {
    hide Parse, VariantName;
    var v, fam := Variant(s, f), Family(f.name);
    var s' := s + [v];
    VariantFamily(dk, s, f);
    if v.name == f.name {
      SelfMerge(dk, f.typ);
      assert LastNamed(s', f.name, |s'|) == |s|;
      assert Target(dk, s', f) == AtName(|s|);
    } else {
      SameNames(s, s', f.name);
      ThroughFamily(dk, s, f);
      assert InFamily(s'[|s|], fam);
      assert PastName(dk, s', f);
      ThroughFamily(dk, s', f);
      assert ExactAt(s', fam, LastNamed(s, f.name, |s|), f.typ, |s'|) == |s|;
    }
  }

  lemma {:induction false} NameTwice(dk: string, s: seq<LogicalField>, f: LogicalField, m: LogicalType)
    requires Target(dk, s, f).AtName? && Merge(dk, m, f.typ) == Some(m)
    ensures Stable(dk, WithType(s, Target(dk, s, f).p, m), f)
  {
    SameNames(s, WithType(s, Target(dk, s, f).p, m), f.name);
  }

  /** A widened member that now takes the observation unchanged is still the newest to take it. */
  lemma {:induction false} FamilyTwice(dk: string, s: seq<LogicalField>, fam: string, skip: int, i: LogicalType,
                                       q: nat, m: LogicalType)
    requires FamilyTarget(dk, s, fam, skip, i) == AtProbe(q) && Merge(dk, m, i) == Some(m)
    ensures var l := FamilyTarget(dk, WithType(s, q, m), fam, skip, i); l == AtProbe(q) || l.AtExact?
  {
    hide Parse, Merge, NewestCompatible, ExactAt;
    var s' := WithType(s, q, m);
    assert InFamily(s'[q], fam);
    assert NewestCompatible(dk, s', fam, skip, i, |s'|) == q;
  }

  lemma {:induction false} ProbeTwice(dk: string, s: seq<LogicalField>, f: LogicalField, m: LogicalType)
    requires Target(dk, s, f).AtProbe? && Merge(dk, m, f.typ) == Some(m)
    ensures Stable(dk, WithType(s, Target(dk, s, f).p, m), f)
  {
    hide Parse, Merge, FamilyTarget;
    var q, p, fam := Target(dk, s, f).p, LastNamed(s, f.name, |s|), Family(f.name);
    var s' := WithType(s, q, m);
    SameNames(s, s', f.name);
    ThroughFamily(dk, s, f);
    FamilyTwice(dk, s, fam, p, f.typ, q, m);
    assert InFamily(s'[q], fam);
    assert PastName(dk, s', f);
    ThroughFamily(dk, s', f);
    assert WithType(s', q, m) == s';
  }

  lemma {:induction false} StepTwice(dk: string, s: seq<LogicalField>, f: LogicalField)
    requires OnePerFamily(f.typ) && AnchoredField(f)
    ensures Stable(dk, Step(dk, s, f), f)
    decreases f, 1
  {
    match Target(dk, s, f)
    case AtExact(_) =>
    case Added => AddedTwice(dk, s, f);
    case NewVariant => VariantTwice(dk, s, f);
    case AtName(p) =>
      Absorb(dk, s[p].typ, f.typ);
      NameTwice(dk, s, f, Merge(dk, s[p].typ, f.typ).value);
    case AtProbe(q) =>
      Absorb(dk, s[q].typ, f.typ);
      ProbeTwice(dk, s, f, Merge(dk, s[q].typ, f.typ).value);
  }

  // ------------------------------------- fields of other families do not matter

  /** `s'` has the members of `fam` that `s` has, at the same positions. */
  predicate SameFamily(s: seq<LogicalField>, s': seq<LogicalField>, fam: string) {
    && |s| <= |s'|
    && (forall j :: 0 <= j < |s| ==> s'[j].name == s[j].name)
    && (forall j :: 0 <= j < |s| && InFamily(s[j], fam) ==> s'[j] == s[j])
    && (forall j :: |s| <= j < |s'| ==> !InFamily(s'[j], fam))
  }

  lemma {:induction false} StepElsewhere(dk: string, s: seq<LogicalField>, g: LogicalField, fam: string)
    requires Rooted(g) && Family(g.name) != fam
    ensures SameFamily(s, Step(dk, s, g), fam)
  {
    hide Parse, Merge, VariantName, Target;
    if Target(dk, s, g) == NewVariant { VariantFamily(dk, s, g); }
  }

  lemma {:induction false} OthersElsewhere(dk: string, s: seq<LogicalField>, incoming: seq<LogicalField>, fam: string)
    requires forall k :: 0 <= k < |incoming| ==> Rooted(incoming[k])
    requires forall k :: 0 <= k < |incoming| ==> Family(incoming[k].name) != fam
    ensures SameFamily(s, MergeFields(dk, s, incoming), fam)
    decreases incoming
  {
    hide Parse;
    if incoming != [] {
      var s1 := Step(dk, s, incoming[0]);
      StepElsewhere(dk, s, incoming[0], fam);
      OthersElsewhere(dk, s1, incoming[1..], fam);
      assert forall j :: 0 <= j < |s1| && j >= |s| ==> !InFamily(MergeFields(dk, s, incoming)[j], fam);
    }
  }

  lemma {:induction false} SameHasFamily(s: seq<LogicalField>, s': seq<LogicalField>, fam: string)
    requires SameFamily(s, s', fam)
    ensures HasFamily(s', fam, |s'|) == HasFamily(s, fam, |s|)
  {
    if HasFamily(s, fam, |s|) {
      var j :| 0 <= j < |s| && InFamily(s[j], fam);
      assert InFamily(s'[j], fam);
    }
    if HasFamily(s', fam, |s'|) {
      var j :| 0 <= j < |s'| && InFamily(s'[j], fam);
      assert InFamily(s[j], fam);
    }
  }

  /** The landing of a field depends on its own family only. */
  lemma {:induction false} SameTarget(dk: string, s: seq<LogicalField>, s': seq<LogicalField>, f: LogicalField)
    requires SameFamily(s, s', Family(f.name))
    ensures LastNamed(s', f.name, |s'|) == LastNamed(s, f.name, |s|)
    ensures Target(dk, s', f) == Target(dk, s, f)
  {
    hide Parse, HasFamily, Merge, FamilyTarget;
    var fam, p := Family(f.name), LastNamed(s, f.name, |s|);
    SameNames(s, s', f.name);
    SameFamilyTarget(dk, s, s', fam, p, f.typ);
    SameHasFamily(s, s', fam);
    if p >= 0 { assert InFamily(s[p], fam); }
  }

  lemma {:induction false} SameFamilyTarget(dk: string, s: seq<LogicalField>, s': seq<LogicalField>,
                         fam: string, skip: int, i: LogicalType)
    requires SameFamily(s, s', fam)
    ensures FamilyTarget(dk, s', fam, skip, i) == FamilyTarget(dk, s, fam, skip, i)
  {
    hide Parse, SameFamily;
    SameExact(s, s', fam, skip, i);
    SameNewest(dk, s, s', fam, skip, i);
  }

  lemma {:induction false} SameExact(s: seq<LogicalField>, s': seq<LogicalField>, fam: string, skip: int,
                                     i: LogicalType)
    requires SameFamily(s, s', fam)
    ensures ExactAt(s', fam, skip, i, |s'|) == ExactAt(s, fam, skip, i, |s|)
  {
    hide Parse;
    var e, e' := ExactAt(s, fam, skip, i, |s|), ExactAt(s', fam, skip, i, |s'|);
    assert e >= 0 ==> s'[e] == s[e];
    assert e' >= 0 ==> InFamily(s'[e'], fam) && e' < |s| && InFamily(s[e'], fam);
  }

  lemma {:induction false} SameNewest(dk: string, s: seq<LogicalField>, s': seq<LogicalField>,
                                      fam: string, skip: int, i: LogicalType)
    requires SameFamily(s, s', fam)
    ensures NewestCompatible(dk, s', fam, skip, i, |s'|) == NewestCompatible(dk, s, fam, skip, i, |s|)
  {
    hide Parse;
    var q, q' := NewestCompatible(dk, s, fam, skip, i, |s|), NewestCompatible(dk, s', fam, skip, i, |s'|);
    assert q >= 0 ==> s'[q] == s[q];
    assert q' >= 0 ==> InFamily(s'[q'], fam) && q' < |s| && InFamily(s[q'], fam);
  }

  lemma {:induction false} StableByFamily(dk: string, s: seq<LogicalField>, s': seq<LogicalField>, f: LogicalField)
    requires SameFamily(s, s', Family(f.name)) && Stable(dk, s, f)
    ensures Stable(dk, s', f)
  {
    SameTarget(dk, s, s', f);
    match Target(dk, s, f)
    case AtExact(_) =>
    case Added =>
    case NewVariant =>
    case AtName(p) => assert s[p] == Step(dk, s, f)[p]; assert InFamily(s[p], Family(f.name));
    case AtProbe(p) => assert s[p] == Step(dk, s, f)[p]; assert InFamily(s[p], Family(f.name));
  }

  lemma {:induction false} StaysStable(dk: string, s: seq<LogicalField>, incoming: seq<LogicalField>, f: LogicalField)
    requires Stable(dk, s, f) && AnchoredFields(incoming)
    requires forall k :: 0 <= k < |incoming| ==> Family(incoming[k].name) != Family(f.name)
    ensures Stable(dk, MergeFields(dk, s, incoming), f)
    decreases incoming
  {
    if incoming != [] {
      StepElsewhere(dk, s, incoming[0], Family(f.name));
      StableByFamily(dk, s, Step(dk, s, incoming[0]), f);
      StaysStable(dk, Step(dk, s, incoming[0]), incoming[1..], f);
    }
  }

  // ------------------------------------------------------------ whole trees

  lemma {:induction false} AbsorbFields(dk: string, s: seq<LogicalField>, incoming: seq<LogicalField>)
    requires ReplayableFields(incoming)
    ensures var r := MergeFields(dk, s, incoming);
            && MergeFields(dk, r, incoming) == r
            && forall k :: 0 <= k < |incoming| ==> Stable(dk, r, incoming[k])
    decreases incoming
  {
    var r := MergeFields(dk, s, incoming);
    if incoming != [] {
      var s1 := Step(dk, s, incoming[0]);
      StepTwice(dk, s, incoming[0]);
      StaysStable(dk, s1, incoming[1..], incoming[0]);
      AbsorbFields(dk, s1, incoming[1..]);
      forall k | 0 <= k < |incoming| ensures Stable(dk, r, incoming[k]) {
        if k > 0 { assert incoming[k] == incoming[1..][k - 1]; }
      }
    }
    StableFields(dk, r, incoming);
  }

  /** Absorption: what a merge produced takes the same observation without changing. */
  lemma {:induction false} Absorb(dk: string, b: LogicalType, i: LogicalType)
    requires Replayable(i)
    ensures var m := Merge(dk, b, i); m.Some? ==> Merge(dk, m.value, i) == m
    decreases i, b, 0
  {
    match b
    case Scalar(_) =>
    case List(value) => Absorb(dk, value, if i.List? then i.value else i);
    case Struct(fields) =>
      if i.Struct? {
        AbsorbFields(dk, fields, i.fields);
      } else if i.Scalar? {
        var p := FirstNamed(fields, WrapperName(dk), 0);
        if p < |fields| {
          Absorb(dk, fields[p].typ, i);
          var t := Merge(dk, fields[p].typ, i);
          if t.Some? { WrapperStable(dk, WithType(fields, p, t.value), p, i); }
        } else {
          assert Merge(dk, i, i) == Some(i);
          WrapperStable(dk, fields + [LogicalField(WrapperName(dk), true, i)], p, i);
        }
      }
  }

  lemma {:induction false} WrapperStable(dk: string, s: seq<LogicalField>, p: nat, i: LogicalType)
    requires i.Scalar? && p < |s| && s[p].name == WrapperName(dk)
    requires forall j :: 0 <= j < p ==> s[j].name != WrapperName(dk)
    requires Merge(dk, s[p].typ, i) == Some(s[p].typ)
    ensures Merge(dk, Struct(s), i) == Some(Struct(s))
  {
    assert FirstNamed(s, WrapperName(dk), 0) == p;
    assert WithType(s, p, s[p].typ) == s;
  }
}
