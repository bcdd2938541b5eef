/** Names tell fields apart through merges and the numeric pass: what makes two fields settle on one
    name makes them equal. */
module RegistrySettling {
  import opened Basics
  import opened VariantNames
  import opened LogicalSchemas
  import opened SchemaEvolution
  import opened SchemaOrder
  import opened RegistryMerge
  import opened RegistryAbsorption
  import opened RegistryNumeric
  import opened RegistryVersions

  // --------------------------------------------------------- labels and types

  lemma {:induction false} ScalarLabels(a: ScalarKind, b: ScalarKind)
    ensures ScalarSemantic(a) == ScalarSemantic(b) ==> a == b
    ensures ScalarSemantic(a) != "struct"
  {
    var s, t := ScalarSemantic(a), ScalarSemantic(b);
    if s == t {
      assert |s| == |t| && s[0] == t[0] && s[1] == t[1] && s[3] == t[3];
    }
  }

  lemma {:induction false} ListLabels(a: LogicalType, b: LogicalType)
    requires VariantSemantic(List(a)) == VariantSemantic(List(b))
    ensures VariantSemantic(a) == VariantSemantic(b)
  {
    var l, k := VariantSemantic(a), VariantSemantic(b);
    assert l == (l + "_array")[..|l|] && k == (k + "_array")[..|k|];
  }

  /** Types of one label merge, and the label stays. */
  lemma {:induction false} SameLabelMerges(dk: string, b: LogicalType, i: LogicalType)
    requires VariantSemantic(b) == VariantSemantic(i)
    ensures var m := Merge(dk, b, i);
            m.Some? && VariantSemantic(m.value) == VariantSemantic(b) && (b.Scalar? ==> b == i == m.value)
  {
    match b
    case Scalar(kind) => if i.Scalar? { ScalarLabels(kind, i.kind); } else { ScalarLabels(kind, kind); }
    case Struct(_) => if i.Scalar? { ScalarLabels(i.kind, i.kind); }
    case List(value) =>
      ListLabels(value, i.value);
      SameLabelMerges(dk, value, i.value);
  }

  lemma {:induction false} NormalizeLabel(t: LogicalType)
    ensures VariantSemantic(Normalize(t)) == VariantSemantic(t)
  {
    if t.List? { NormalizeLabel(t.value); }
  }

  lemma {:induction false} CanonicalLabel(f: LogicalField)
    requires Canonical(f) == f && Versioned(f.name)
    ensures Parse(f.name).value.semantic == VariantSemantic(f.typ)
  {
    CanonicalKeeps(f);
  }

  /** A name changes only with its label. */
  lemma {:induction false} RelabelledName(f: LogicalField, g: LogicalField)
    requires f.name == g.name && VariantSemantic(f.typ) == VariantSemantic(g.typ)
    ensures Canonical(f).name == Canonical(g).name
  {
    hide ParseAt;
  }

  lemma {:induction false} RelabelledCanonical(f: LogicalField, g: LogicalField)
    requires Canonical(f) == f && g.name == f.name && VariantSemantic(g.typ) == VariantSemantic(f.typ)
    ensures Canonical(g) == g
  {
    hide ParseAt;
    if Versioned(f.name) { CanonicalLabel(f); }
  }

  /** Scalars and nested lists of them: the types that a label determines. */
  predicate Plain(t: LogicalType) {
    match t
    case Scalar(_) => true
    case List(value) => Plain(value)
    case Struct(_) => false
  }

  lemma {:induction false} PlainLabels(a: LogicalType, b: LogicalType)
    requires Plain(a) && VariantSemantic(a) == VariantSemantic(b)
    ensures a == b
  {
    match a
    case Scalar(kind) => if b.Scalar? { ScalarLabels(kind, b.kind); } else { ScalarLabels(kind, kind); }
    case List(value) =>
      ListLabels(value, b.value);
      PlainLabels(value, b.value);
  }

  lemma {:induction false} PlainIsNormal(t: LogicalType)
    requires Plain(t)
    ensures Normalize(t) == t && Normal(t) && OnePerFamily(t) && Anchored(t)
  {
    if t.List? { PlainIsNormal(t.value); }
  }

  /** A label containing a struct never arises by widening. */
  lemma {:induction false} MergeRelabels(dk: string, b: LogicalType, i: LogicalType)
    requires Merge(dk, b, i).Some?
    ensures var m := Merge(dk, b, i).value; VariantSemantic(m) == VariantSemantic(b) || Plain(m)
    decreases b
  {
    if b.List? { MergeRelabels(dk, b.value, if i.List? then i.value else i); }
  }

  // -------------------------------------------------------------- settled names

  /** The names differ, and where they settle on one name the types are the same plain type. */
  predicate Apart(f: LogicalField, g: LogicalField) {
    f.name != g.name && (Canonical(f).name == Canonical(g).name ==> Plain(f.typ))
  }

  lemma {:induction false} SettledLabels(f: LogicalField, g: LogicalField)
    requires f.name != g.name && Canonical(f).name == Canonical(g).name
    ensures Versioned(f.name) && Versioned(g.name) && VariantSemantic(f.typ) == VariantSemantic(g.typ)
  {
    hide ParseAt;
    CanonicalKeeps(f);
    CanonicalKeeps(g);
  }

  lemma {:induction false} ApartSame(f: LogicalField, g: LogicalField)
    requires Apart(f, g)
    ensures Apart(g, f) && (Canonical(f).name == Canonical(g).name ==> f.typ == g.typ)
  {
    hide Canonical;
    if Canonical(f).name == Canonical(g).name {
      SettledLabels(f, g);
      PlainLabels(f.typ, g.typ);
    }
  }

  /** Widening a field keeps it apart. */
  lemma {:induction false} ApartRetyped(f: LogicalField, g: LogicalField, m: LogicalType)
    requires Apart(f, g) && (VariantSemantic(m) == VariantSemantic(f.typ) || Plain(m))
    ensures Apart(f.(typ := m), g)
  {
    hide ParseAt;
    var h := f.(typ := m);
    if Canonical(h).name == Canonical(g).name {
      if VariantSemantic(m) == VariantSemantic(f.typ) {
        assert Canonical(h).name == Canonical(f).name;
        PlainLabels(f.typ, m);
      }
    }
  }

  lemma {:induction false} UnclashedApart(f: LogicalField, g: LogicalField)
    requires !Clash(f, g)
    ensures Apart(f, g)
  {
    CanonicalKeeps(f);
    CanonicalKeeps(g);
  }

  predicate TellsApart(s: seq<LogicalField>) {
    forall j, k :: 0 <= j < k < |s| ==> Apart(s[j], s[k])
  }

  predicate Settles(t: LogicalType) {
    match t
    case Scalar(_) => true
    case List(value) => Settles(value)
    case Struct(fields) => SettlesFields(fields)
  }

  predicate SettlesFields(s: seq<LogicalField>) {
    TellsApart(s) && forall j :: 0 <= j < |s| ==> Settles(s[j].typ)
  }

  lemma {:induction false} ApartPair(s: seq<LogicalField>, j: nat, k: nat)
    requires TellsApart(s) && j < |s| && k < |s| && j != k
    ensures Apart(s[j], s[k])
  {
    hide Apart;
    if k < j { ApartSame(s[k], s[j]); }
  }

  // ------------------------------------------------------------------ merging

  lemma {:induction false} RetypedSettles(s: seq<LogicalField>, p: nat, m: LogicalType)
    requires p < |s| && SettlesFields(s) && Settles(m) && (VariantSemantic(m) == VariantSemantic(s[p].typ) || Plain(m))
    ensures SettlesFields(WithType(s, p, m))
  {
    hide Apart;
    var r := WithType(s, p, m);
    forall j, k | 0 <= j < k < |r| ensures Apart(r[j], r[k]) {
      if j == p {
        ApartRetyped(s[p], s[k], m);
      } else if k == p {
        ApartPair(s, p, j);
        ApartRetyped(s[p], s[j], m);
        ApartSame(r[p], r[j]);
      }
    }
  }

  lemma {:induction false} AppendedSettles(s: seq<LogicalField>, f: LogicalField)
    requires SettlesFields(s) && Settles(f.typ) && forall j :: 0 <= j < |s| ==> Apart(s[j], f)
    ensures SettlesFields(s + [f])
  {
    hide Apart;
  }

  lemma {:induction false} StepSettles(dk: string, s: seq<LogicalField>, f: LogicalField)
    requires SettlesFields(s) && Settles(f.typ)
    ensures SettlesFields(Step(dk, s, f))
    decreases f, 1
  {
    hide Parse, Apart, VariantName;
    match Target(dk, s, f)
    case AtExact(_) =>
    case Added =>
      forall j | 0 <= j < |s| ensures Apart(s[j], f) { AddedDistinct(dk, s, f, j); UnclashedApart(s[j], f); }
      AppendedSettles(s, f);
    case NewVariant =>
      forall j | 0 <= j < |s| ensures Apart(s[j], Variant(s, f)) {
        VariantDistinct(s, f, j);
        UnclashedApart(s[j], Variant(s, f));
      }
      AppendedSettles(s, Variant(s, f));
    case AtName(p) => WidenedSettles(dk, s, p, f.typ);
    case AtProbe(p) => WidenedSettles(dk, s, p, f.typ);
  }

  lemma {:induction false} WidenedSettles(dk: string, s: seq<LogicalField>, p: nat, i: LogicalType)
    requires SettlesFields(s) && Settles(i) && p < |s| && Merge(dk, s[p].typ, i).Some?
    ensures SettlesFields(WithType(s, p, Merge(dk, s[p].typ, i).value))
    decreases i, s, 1
  {
    MergeSettles(dk, s[p].typ, i);
    MergeRelabels(dk, s[p].typ, i);
    RetypedSettles(s, p, Merge(dk, s[p].typ, i).value);
  }

  lemma {:induction false} MergeFieldsSettles(dk: string, s: seq<LogicalField>, incoming: seq<LogicalField>)
    requires SettlesFields(s) && forall k :: 0 <= k < |incoming| ==> Settles(incoming[k].typ)
    ensures SettlesFields(MergeFields(dk, s, incoming))
    decreases incoming
  {
    if incoming != [] {
      StepSettles(dk, s, incoming[0]);
      MergeFieldsSettles(dk, Step(dk, s, incoming[0]), incoming[1..]);
    }
  }

  /** Merging keeps fields apart, whatever the wrapper name. */
  lemma {:induction false} MergeSettles(dk: string, b: LogicalType, i: LogicalType)
    requires Settles(b) && Settles(i)
    ensures var m := Merge(dk, b, i); m.Some? ==> Settles(m.value)
    decreases i, b, 0
  {
    match b
    case Scalar(_) =>
    case List(value) => MergeSettles(dk, value, if i.List? then i.value else i);
    case Struct(fields) =>
      if i.Struct? {
        MergeFieldsSettles(dk, fields, i.fields);
      } else if i.Scalar? {
        var p := FirstNamed(fields, WrapperName(dk), 0);
        if p == |fields| {
          WrapperSettles(fields, LogicalField(WrapperName(dk), true, i));
        } else if Merge(dk, fields[p].typ, i).Some? {
          WidenedSettles(dk, fields, p, i);
        }
      }
  }

  lemma {:induction false} WrapperSettles(s: seq<LogicalField>, w: LogicalField)
    requires SettlesFields(s) && w.typ.Scalar? && forall j :: 0 <= j < |s| ==> s[j].name != w.name
    ensures SettlesFields(s + [w])
  {
    forall j | 0 <= j < |s| ensures Apart(s[j], w) { ApartSame(w, s[j]); }
    AppendedSettles(s, w);
  }

  // -------------------------------------------------------------- normalising

  /** Only a plain name has its type changed by the numeric pass. */
  lemma {:induction false} VersionedSettled(s: seq<LogicalField>, j: nat)
    requires j < |s| && Versioned(s[j].name)
    ensures Settled(s, j) == Canonical(s[j])
  {
    MakeParse(s[j].name);
  }

  lemma {:induction false} ChildrenApart(s: seq<LogicalField>)
    requires TellsApart(s)
    ensures TellsApart(NormalizeChildren(s))
  {
    hide Apart;
    var c := NormalizeChildren(s);
    forall j, k | 0 <= j < k < |c| ensures Apart(c[j], c[k]) { ChildApart(s[j], s[k]); }
  }

  lemma {:induction false} ChildApart(f: LogicalField, g: LogicalField)
    requires Apart(f, g)
    ensures Apart(f.(typ := Normalize(f.typ)), g.(typ := Normalize(g.typ)))
  {
    hide ParseAt;
    NormalizeLabel(f.typ);
    NormalizeLabel(g.typ);
    var h, k := f.(typ := Normalize(f.typ)), g.(typ := Normalize(g.typ));
    assert Canonical(h).name == Canonical(f).name && Canonical(k).name == Canonical(g).name;
    if Plain(f.typ) { PlainIsNormal(f.typ); }
  }

  /** Survivors that settle on one name have one type, so the pass emits one of them. */
  lemma {:induction false} SettledAgree(c: seq<LogicalField>, j: nat, k: nat)
    requires TellsApart(c) && j < |c| && k < |c| && j != k && Settled(c, j).name == Settled(c, k).name
    ensures Settled(c, j).typ == Settled(c, k).typ
  {
    hide Parse, Apart;
    SettledKeeps(c, j);
    SettledKeeps(c, k);
    ApartPair(c, j, k);
    NamesDiffer(c[j], c[k]);
    if Versioned(c[j].name) {
      VersionedSettled(c, j);
      VersionedSettled(c, k);
      ApartSame(c[j], c[k]);
      CanonicalKeeps(c[j]);
      CanonicalKeeps(c[k]);
    }
  }

  lemma {:induction false} NamesDiffer(f: LogicalField, g: LogicalField)
    requires Apart(f, g)
    ensures f.name != g.name
  {
  }

  lemma {:induction false} EmitDistinct(c: seq<LogicalField>, n: nat)
    requires TellsApart(c) && n <= |c|
    ensures Distinct(FieldNames(Emit(c, n)))
  {
    hide Settled, Survives, Apart;
    if n > 0 {
      EmitDistinct(c, n - 1);
      if Emits(c, n - 1) {
        var out, g := Emit(c, n - 1), Settled(c, n - 1);
        EmittedInOrder(c, n - 1);
        var d := LastNamed(out, g.name, |out|);
        if d >= 0 { SettledAgree(c, Origins(c, n - 1)[d], n - 1); }
        assert forall k :: 0 <= k < |out| ==> out[k].name != g.name;
        assert Emit(c, n) == out + [g];
      }
    }
  }

  /** After the numeric pass names are unique at every level. */
  lemma {:induction false} NormalizeUnique(t: LogicalType)
    requires Settles(t)
    ensures UniqueNames(Normalize(t))
  {
    match t
    case Scalar(_) =>
    case List(value) => NormalizeUnique(value);
    case Struct(fields) => NormalizeFieldsUnique(fields);
  }

  lemma {:induction false} NormalizeFieldsUnique(s: seq<LogicalField>)
    requires SettlesFields(s)
    ensures UniqueFields(NormalizeFields(s))
  {
    hide Settled, Survives, Apart;
    var c, r := NormalizeChildren(s), NormalizeFields(s);
    ChildrenApart(s);
    EmitDistinct(c, |c|);
    EmittedInOrder(c, |c|);
    forall k | 0 <= k < |r| ensures UniqueNames(r[k].typ) {
      var j := Origins(c, |c|)[k];
      SettledKeeps(c, j);
      NormalizeUnique(s[j].typ);
    }
  }

  /** A normal form with unique names is where such merges start. */
  lemma {:induction false} UniqueSettles(t: LogicalType)
    requires Normal(t) && UniqueNames(t)
    ensures Settles(t)
  {
    match t
    case Scalar(_) =>
    case List(value) => UniqueSettles(value);
    case Struct(fields) => UniqueFieldsSettle(fields);
  }

  lemma {:induction false} UniqueFieldsSettle(s: seq<LogicalField>)
    requires NormalFields(s) && UniqueFields(s)
    ensures SettlesFields(s)
  {
    hide Parse;
    forall j, k | 0 <= j < k < |s| ensures Apart(s[j], s[k]) {
      assert FieldNames(s)[j] != FieldNames(s)[k];
      assert Canonical(s[j]) == s[j] && Canonical(s[k]) == s[k];
    }
    forall j | 0 <= j < |s| ensures Settles(s[j].typ) { UniqueSettles(s[j].typ); }
  }

  lemma {:induction false} OnePerFamilySettles(t: LogicalType)
    requires OnePerFamily(t)
    ensures Settles(t)
  {
    match t
    case Scalar(_) =>
    case List(value) => OnePerFamilySettles(value);
    case Struct(fields) =>
      hide Parse, Apart;
      forall j, k | 0 <= j < k < |fields| ensures Apart(fields[j], fields[k]) { UnclashedApart(fields[j], fields[k]); }
      forall j | 0 <= j < |fields| ensures Settles(fields[j].typ) { OnePerFamilySettles(fields[j].typ); }
  }
}
