/** No observation is lost: what was merged in stays covered. */
module RegistryCoverage {
  import opened VariantNames
  import opened LogicalSchemas
  import opened RegistryMerge
  import opened RegistryAbsorption
  import opened RegistryGrowth
  import opened RegistryNumeric

  /** Every value of type `x` has a place in `t`, up to variant families: a struct holds scalars
      in its wrapper family, a list holds its bare elements. */
  predicate Covers(dk: string, t: LogicalType, x: LogicalType)
    decreases x, t, 0
  {
    match t
    case Scalar(kind) => x.Scalar? && (x.kind in {Null, kind} || (kind == Float64 && x.kind == Int64))
    case List(value) => Covers(dk, value, if x.List? then x.value else x)
    case Struct(fields) =>
      match x
      case Struct(observed) => CoversFields(dk, fields, observed)
      case List(_) => false
      case Scalar(_) => CoversIn(dk, fields, Family(WrapperName(dk)), x)
  }

  predicate CoversFields(dk: string, s: seq<LogicalField>, observed: seq<LogicalField>)
    decreases observed
  {
    forall k :: 0 <= k < |observed| ==> CoversIn(dk, s, Family(observed[k].name), observed[k].typ)
  }

  /** Some member of the family covers `x`. */
  predicate CoversIn(dk: string, s: seq<LogicalField>, fam: string, x: LogicalType)
    decreases x, s, 1
  {
    exists j :: 0 <= j < |s| && InFamily(s[j], fam) && Covers(dk, s[j].typ, x)
  }

  lemma {:induction false} CoversSelf(dk: string, t: LogicalType)
    ensures Covers(dk, t, t)
  {
    match t
    case Scalar(_) =>
    case List(value) => CoversSelf(dk, value);
    case Struct(fields) =>
      forall k | 0 <= k < |fields| ensures CoversIn(dk, fields, Family(fields[k].name), fields[k].typ) {
        CoversSelf(dk, fields[k].typ);
        assert InFamily(fields[k], Family(fields[k].name));
      }
  }

  // ------------------------------------------------------- growth keeps coverage

  lemma {:induction false} CoversInWider(dk: string, s: seq<LogicalField>, r: seq<LogicalField>, fam: string,
                                         x: LogicalType)
    requires ExtendsFields(s, r) && CoversIn(dk, s, fam, x)
    ensures CoversIn(dk, r, fam, x)
    decreases x, s, 1
  {
    var j :| 0 <= j < |s| && InFamily(s[j], fam) && Covers(dk, s[j].typ, x);
    assert ExtendsField(s[j], r[j]);
    CoversWider(dk, s[j].typ, r[j].typ, x);
    assert InFamily(r[j], fam);
  }

  lemma {:induction false} CoversWider(dk: string, t: LogicalType, u: LogicalType, x: LogicalType)
    requires Extends(t, u) && Covers(dk, t, x)
    ensures Covers(dk, u, x)
    decreases x, t, 0
  {
    match t
    case Scalar(_) =>
    case List(value) => CoversWider(dk, value, u.value, if x.List? then x.value else x);
    case Struct(fields) =>
      match x
      case Struct(observed) =>
        forall k | 0 <= k < |observed| ensures CoversIn(dk, u.fields, Family(observed[k].name), observed[k].typ) {
          CoversInWider(dk, fields, u.fields, Family(observed[k].name), observed[k].typ);
        }
      case Scalar(_) => CoversInWider(dk, fields, u.fields, Family(WrapperName(dk)), x);
  }

  // -------------------------------------------------- a merge covers its input

  lemma {:induction false} StepCovers(dk: string, s: seq<LogicalField>, f: LogicalField)
    requires AnchoredField(f)
    ensures CoversIn(dk, Step(dk, s, f), Family(f.name), f.typ)
    decreases f, 1
  {
    hide Parse;
    var r := Step(dk, s, f);
    match Target(dk, s, f)
    case AtExact(p) => CoversSelf(dk, f.typ); assert InFamily(r[p], Family(f.name));
    case Added => CoversSelf(dk, f.typ); assert InFamily(r[|s|], Family(f.name));
    case NewVariant =>
      CoversSelf(dk, f.typ);
      VariantFamily(dk, s, f);
      assert InFamily(r[|s|], Family(f.name));
    case AtName(p) => MergeCovers(dk, s[p].typ, f.typ); assert InFamily(r[p], Family(f.name));
    case AtProbe(p) => MergeCovers(dk, s[p].typ, f.typ); assert InFamily(r[p], Family(f.name));
  }

  lemma {:induction false} MergeFieldsCovers(dk: string, s: seq<LogicalField>, incoming: seq<LogicalField>)
    requires AnchoredFields(incoming)
    ensures CoversFields(dk, MergeFields(dk, s, incoming), incoming)
    decreases incoming
  {
    hide Parse, Step, CoversIn, AnchoredField;
    if incoming != [] {
      var s1, r := Step(dk, s, incoming[0]), MergeFields(dk, s, incoming);
      StepCovers(dk, s, incoming[0]);
      MergeFieldsGrows(dk, s1, incoming[1..]);
      CoversInWider(dk, s1, r, Family(incoming[0].name), incoming[0].typ);
      MergeFieldsCovers(dk, s1, incoming[1..]);
      forall k | 0 <= k < |incoming| ensures CoversIn(dk, r, Family(incoming[k].name), incoming[k].typ) {
        if k > 0 { assert incoming[k] == incoming[1..][k - 1]; }
      }
    }
  }

  lemma {:induction false} MergeCovers(dk: string, b: LogicalType, i: LogicalType)
    requires Anchored(i)
    ensures var m := Merge(dk, b, i); m.Some? ==> Covers(dk, m.value, i)
    decreases i, b, 0
  {
    match b
    case Scalar(_) =>
    case List(value) => MergeCovers(dk, value, if i.List? then i.value else i);
    case Struct(fields) =>
      if i.Struct? {
        MergeFieldsCovers(dk, fields, i.fields);
      } else if i.Scalar? {
        var p, m := FirstNamed(fields, WrapperName(dk), 0), Merge(dk, b, i);
        if p < |fields| { MergeCovers(dk, fields[p].typ, i); } else { CoversSelf(dk, i); }
        if m.Some? { assert InFamily(m.value.fields[p], Family(WrapperName(dk))); }
      }
  }

  // ------------------------------------------------ normalising keeps coverage

  lemma {:induction false} FloatCoversInteger(dk: string, t: LogicalType)
    requires Covers(dk, t, FLOAT)
    ensures Covers(dk, t, INTEGER)
  {
    match t
    case Scalar(_) =>
    case List(value) => FloatCoversInteger(dk, value);
    case Struct(fields) =>
      var fam := Family(WrapperName(dk));
      assert CoversIn(dk, fields, fam, FLOAT);
      var j :| 0 <= j < |fields| && InFamily(fields[j], fam) && Covers(dk, fields[j].typ, FLOAT);
      FloatCoversInteger(dk, fields[j].typ);
      assert CoversIn(dk, fields, fam, INTEGER);
  }

  /** Each field leaves a member of its family with its normalised type, or a float for a number. */
  lemma {:induction false} Represented(s: seq<LogicalField>, j: nat) returns (k: nat)
    requires j < |s|
    ensures var r, c := NormalizeFields(s), NormalizeChildren(s);
            && k < |r| && InFamily(r[k], Family(s[j].name))
            && (r[k].typ == Normalize(s[j].typ) || (Numeric(s[j]) && r[k].typ == FLOAT))
  {
    var c := NormalizeChildren(s);
    if Survives(c, j) {
      SettledKeeps(c, j);
      k := SurvivorEmitted(c, |c|, j);
    } else {
      k := NumericSurvives(c, j);
    }
    assert Numeric(c[j]) ==> Numeric(s[j]);
  }

  lemma {:induction false} NormalizeCoversIn(dk: string, s: seq<LogicalField>, fam: string, x: LogicalType)
    requires CoversIn(dk, s, fam, x)
    ensures CoversIn(dk, NormalizeFields(s), fam, x)
    decreases x, s, 1
  {
    var j :| 0 <= j < |s| && InFamily(s[j], fam) && Covers(dk, s[j].typ, x);
    NormalizeCovers(dk, s[j].typ, x);
    var k := Represented(s, j);
    assert Covers(dk, NormalizeFields(s)[k].typ, x);
  }

  /** Dropping numeric siblings loses nothing. */
  lemma {:induction false} NormalizeCovers(dk: string, t: LogicalType, x: LogicalType)
    requires Covers(dk, t, x)
    ensures Covers(dk, Normalize(t), x)
    decreases x, t, 0
  {
    match t
    case Scalar(_) =>
    case List(value) => NormalizeCovers(dk, value, if x.List? then x.value else x);
    case Struct(fields) =>
      match x
      case Struct(observed) =>
        forall k | 0 <= k < |observed|
          ensures CoversIn(dk, NormalizeFields(fields), Family(observed[k].name), observed[k].typ)
        {
          NormalizeCoversIn(dk, fields, Family(observed[k].name), observed[k].typ);
        }
      case Scalar(_) => NormalizeCoversIn(dk, fields, Family(WrapperName(dk)), x);
  }

  /** Covering a normalised observation is covering the observation. */
  lemma {:induction false} CoversBeforeNormalize(dk: string, t: LogicalType, x: LogicalType)
    requires Covers(dk, t, Normalize(x))
    ensures Covers(dk, t, x)
    decreases x, t, 0
  {
    match t
    case Scalar(_) =>
    case List(value) => CoversBeforeNormalize(dk, value, if x.List? then x.value else x);
    case Struct(fields) =>
      match x
      case Scalar(_) =>
      case List(_) =>
      case Struct(observed) => CoversFieldsBeforeNormalize(dk, fields, observed);
  }

  lemma {:induction false} CoversFieldsBeforeNormalize(dk: string, s: seq<LogicalField>, observed: seq<LogicalField>)
    requires CoversFields(dk, s, NormalizeFields(observed))
    ensures CoversFields(dk, s, observed)
    decreases observed
  {
    var r := NormalizeFields(observed);
    forall k | 0 <= k < |observed| ensures CoversIn(dk, s, Family(observed[k].name), observed[k].typ) {
      var l := Represented(observed, k);
      assert CoversIn(dk, s, Family(r[l].name), r[l].typ);
      var j :| 0 <= j < |s| && InFamily(s[j], Family(r[l].name)) && Covers(dk, s[j].typ, r[l].typ);
      if r[l].typ == Normalize(observed[k].typ) {
        CoversBeforeNormalize(dk, s[j].typ, observed[k].typ);
      } else {
        FloatCoversInteger(dk, s[j].typ);
      }
    }
  }
}
