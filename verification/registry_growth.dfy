/** The registry only grows: a merge keeps every field where it was and only widens types. */
module RegistryGrowth {
  import opened LogicalSchemas
  import opened RegistryMerge

  predicate ScalarWidens(before: ScalarKind, after: ScalarKind) {
    before == after || before == Null || (before == Int64 && after == Float64)
  }

  /** `u` is `t` with scalars widened and fields appended, at any depth. */
  predicate Extends(t: LogicalType, u: LogicalType) {
    match t
    case Scalar(kind) => u.Scalar? && ScalarWidens(kind, u.kind)
    case List(value) => u.List? && Extends(value, u.value)
    case Struct(fields) => u.Struct? && ExtendsFields(fields, u.fields)
  }

  predicate ExtendsFields(s: seq<LogicalField>, r: seq<LogicalField>) {
    |s| <= |r| && forall j :: 0 <= j < |s| ==> ExtendsField(s[j], r[j])
  }

  predicate ExtendsField(f: LogicalField, g: LogicalField) {
    f.name == g.name && f.nullable == g.nullable && Extends(f.typ, g.typ)
  }

  // ---------------------------------------------------------- a partial order

  lemma {:induction false} ExtendsReflexive(t: LogicalType)
    ensures Extends(t, t)
  {
    match t
    case Scalar(_) =>
    case List(value) => ExtendsReflexive(value);
    case Struct(fields) =>
      forall j | 0 <= j < |fields| ensures ExtendsField(fields[j], fields[j]) { ExtendsReflexive(fields[j].typ); }
  }

  lemma {:induction false} ExtendsFieldsReflexive(s: seq<LogicalField>)
    ensures ExtendsFields(s, s)
  {
    ExtendsReflexive(Struct(s));
  }

  lemma {:induction false} ExtendsTransitive(t: LogicalType, u: LogicalType, v: LogicalType)
    requires Extends(t, u) && Extends(u, v)
    ensures Extends(t, v)
  {
    match t
    case Scalar(_) =>
    case List(value) => ExtendsTransitive(value, u.value, v.value);
    case Struct(fields) =>
      forall j | 0 <= j < |fields| ensures ExtendsField(fields[j], v.fields[j]) {
        assert ExtendsField(fields[j], u.fields[j]) && ExtendsField(u.fields[j], v.fields[j]);
        ExtendsTransitive(fields[j].typ, u.fields[j].typ, v.fields[j].typ);
      }
  }

  lemma {:induction false} ExtendsFieldsTransitive(s: seq<LogicalField>, r: seq<LogicalField>, q: seq<LogicalField>)
    requires ExtendsFields(s, r) && ExtendsFields(r, q)
    ensures ExtendsFields(s, q)
  {
    ExtendsTransitive(Struct(s), Struct(r), Struct(q));
  }

  lemma {:induction false} ExtendsAntisymmetric(t: LogicalType, u: LogicalType)
    requires Extends(t, u) && Extends(u, t)
    ensures t == u
  {
    match t
    case Scalar(_) =>
    case List(value) => ExtendsAntisymmetric(value, u.value);
    case Struct(fields) =>
      forall j | 0 <= j < |fields| ensures fields[j] == u.fields[j] {
        assert ExtendsField(fields[j], u.fields[j]) && ExtendsField(u.fields[j], fields[j]);
        ExtendsAntisymmetric(fields[j].typ, u.fields[j].typ);
      }
      assert fields == u.fields;
  }

  // ------------------------------------------------------------- every merge

  lemma {:induction false} WidenedExtends(s: seq<LogicalField>, p: nat, t: LogicalType)
    requires p < |s| && Extends(s[p].typ, t)
    ensures ExtendsFields(s, WithType(s, p, t))
  {
    ExtendsFieldsReflexive(s);
  }

  lemma {:induction false} AppendedExtends(s: seq<LogicalField>, f: LogicalField)
    ensures ExtendsFields(s, s + [f])
  {
    ExtendsFieldsReflexive(s);
  }

  lemma {:induction false} StepGrows(dk: string, s: seq<LogicalField>, f: LogicalField)
    ensures ExtendsFields(s, Step(dk, s, f))
    decreases f, 1
  {
    match Target(dk, s, f)
    case AtExact(_) => ExtendsFieldsReflexive(s);
    case Added => AppendedExtends(s, f);
    case NewVariant => AppendedExtends(s, Variant(s, f));
    case AtName(p) =>
      MergeGrows(dk, s[p].typ, f.typ);
      WidenedExtends(s, p, Merge(dk, s[p].typ, f.typ).value);
    case AtProbe(p) =>
      MergeGrows(dk, s[p].typ, f.typ);
      WidenedExtends(s, p, Merge(dk, s[p].typ, f.typ).value);
  }

  /** Every field stays at its index, with its name and nullability, under a wider type. */
  lemma {:induction false} MergeFieldsGrows(dk: string, s: seq<LogicalField>, incoming: seq<LogicalField>)
    ensures ExtendsFields(s, MergeFields(dk, s, incoming))
    decreases incoming
  {
    if incoming == [] {
      ExtendsFieldsReflexive(s);
    } else {
      var s1 := Step(dk, s, incoming[0]);
      StepGrows(dk, s, incoming[0]);
      MergeFieldsGrows(dk, s1, incoming[1..]);
      ExtendsFieldsTransitive(s, s1, MergeFields(dk, s, incoming));
    }
  }

  lemma {:induction false} MergeGrows(dk: string, b: LogicalType, i: LogicalType)
    ensures var m := Merge(dk, b, i); m.Some? ==> Extends(b, m.value)
    decreases i, b, 0
  {
    match b
    case Scalar(_) =>
    case List(value) => MergeGrows(dk, value, if i.List? then i.value else i);
    case Struct(fields) =>
      if i.Struct? {
        MergeFieldsGrows(dk, fields, i.fields);
      } else if i.Scalar? {
        var p := FirstNamed(fields, WrapperName(dk), 0);
        if p == |fields| {
          AppendedExtends(fields, LogicalField(WrapperName(dk), true, i));
        } else {
          MergeGrows(dk, fields[p].typ, i);
          var t := Merge(dk, fields[p].typ, i);
          if t.Some? { WidenedExtends(fields, p, t.value); }
        }
      }
  }
}
