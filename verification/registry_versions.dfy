/** Versions stay pairwise distinct within each family, so names never collide. */
module RegistryVersions {
  import opened Basics
  import opened VariantNames
  import opened LogicalSchemas
  import opened RegistryMerge
  import opened RegistryAbsorption
  import opened RegistryNumeric

  predicate Clash(f: LogicalField, g: LogicalField) {
    Family(f.name) == Family(g.name) && Version(f.name) == Version(g.name)
  }

  predicate DistinctVersions(s: seq<LogicalField>) {
    forall j, k :: 0 <= j < k < |s| ==> !Clash(s[j], s[k])
  }

  predicate WellVersioned(t: LogicalType) {
    match t
    case Scalar(_) => true
    case List(value) => WellVersioned(value)
    case Struct(fields) => WellVersionedFields(fields)
  }

  predicate WellVersionedFields(s: seq<LogicalField>) {
    DistinctVersions(s) && forall j :: 0 <= j < |s| ==> WellVersioned(s[j].typ)
  }

  lemma {:induction false} UnversionedFamily(name: string)
    requires Version(name) == 0
    ensures !Versioned(name) && Family(name) == name
  {
    if Versioned(name) { MakeParse(name); }
  }

  // ------------------------------------------------------------------ merging

  /** A generated name has a version no member of its family has. */
  lemma {:induction false} VariantDistinct(s: seq<LogicalField>, f: LogicalField, j: nat)
    requires j < |s|
    ensures !Clash(s[j], Variant(s, f))
  {
    var fam, v := Family(f.name), Variant(s, f);
    assert s[j].name in Names(s);
    if fam != "" {
      VariantJoins(s, fam, f.typ);
    } else if Clash(s[j], v) {
      var tag := VariantSemantic(f.typ);
      MakeVersioned(fam, FreeVersion(Names(s), fam, tag, NextVersion(s, fam, |s|)), tag);
      UnversionedFamily(s[j].name);
    }
  }

  lemma {:induction false} AddedDistinct(dk: string, s: seq<LogicalField>, f: LogicalField, j: nat)
    requires j < |s| && Target(dk, s, f) == Added
    ensures !Clash(s[j], f)
  {
    hide Parse;
    assert s[j].name != f.name;
    assert Versioned(f.name) ==> !InFamily(s[j], Family(f.name));
    if Clash(s[j], f) && !Versioned(f.name) {
      assert Version(f.name) == 0;
      UnversionedFamily(s[j].name);
    }
  }

  lemma {:induction false} StepVersions(dk: string, s: seq<LogicalField>, f: LogicalField)
    requires !Versioned(WrapperName(dk)) && WellVersionedFields(s) && WellVersioned(f.typ)
    ensures WellVersionedFields(Step(dk, s, f))
    decreases f, 1
  {
    hide Parse, Clash;
    match Target(dk, s, f)
    case AtExact(_) =>
    case Added => forall j | 0 <= j < |s| ensures !Clash(s[j], f) { AddedDistinct(dk, s, f, j); }
    case NewVariant => forall j | 0 <= j < |s| ensures !Clash(s[j], Variant(s, f)) { VariantDistinct(s, f, j); }
    case AtName(p) => MergeVersions(dk, s[p].typ, f.typ); RetypedDistinct(s, p, Merge(dk, s[p].typ, f.typ).value);
    case AtProbe(p) => MergeVersions(dk, s[p].typ, f.typ); RetypedDistinct(s, p, Merge(dk, s[p].typ, f.typ).value);
  }

  lemma {:induction false} RetypedDistinct(s: seq<LogicalField>, p: nat, t: LogicalType)
    requires p < |s| && WellVersionedFields(s) && WellVersioned(t)
    ensures WellVersionedFields(WithType(s, p, t))
  {
    hide Parse;
    var r := WithType(s, p, t);
    forall j, k | 0 <= j < k < |r| ensures !Clash(r[j], r[k]) { assert !Clash(s[j], s[k]); }
  }

  lemma {:induction false} MergeFieldsVersions(dk: string, s: seq<LogicalField>, incoming: seq<LogicalField>)
    requires !Versioned(WrapperName(dk)) && WellVersionedFields(s)
    requires forall k :: 0 <= k < |incoming| ==> WellVersioned(incoming[k].typ)
    ensures WellVersionedFields(MergeFields(dk, s, incoming))
    decreases incoming
  {
    if incoming != [] {
      StepVersions(dk, s, incoming[0]);
      MergeFieldsVersions(dk, Step(dk, s, incoming[0]), incoming[1..]);
    }
  }

  lemma {:induction false} MergeVersions(dk: string, b: LogicalType, i: LogicalType)
    requires !Versioned(WrapperName(dk)) && WellVersioned(b) && WellVersioned(i)
    ensures var m := Merge(dk, b, i); m.Some? ==> WellVersioned(m.value)
    decreases i, b, 0
  {
    match b
    case Scalar(_) =>
    case List(value) => MergeVersions(dk, value, if i.List? then i.value else i);
    case Struct(fields) =>
      if i.Struct? {
        MergeFieldsVersions(dk, fields, i.fields);
      } else if i.Scalar? {
        var p := FirstNamed(fields, WrapperName(dk), 0);
        if p == |fields| {
          WrapperDistinct(fields, LogicalField(WrapperName(dk), true, i));
        } else {
          MergeVersions(dk, fields[p].typ, i);
          var t := Merge(dk, fields[p].typ, i);
          if t.Some? { RetypedDistinct(fields, p, t.value); }
        }
      }
  }

  lemma {:induction false} WrapperDistinct(s: seq<LogicalField>, w: LogicalField)
    requires WellVersionedFields(s) && WellVersioned(w.typ) && !Versioned(w.name)
    requires forall j :: 0 <= j < |s| ==> s[j].name != w.name
    ensures WellVersionedFields(s + [w])
  {
    hide Parse;
    forall j | 0 <= j < |s| ensures !Clash(s[j], w) {
      assert Version(w.name) == 0;
      if Clash(s[j], w) { UnversionedFamily(s[j].name); }
    }
  }

  /** Distinctness survives every merge exactly when the wrapper name is not itself a version. */
  lemma {:induction false} VersionsStayDistinct(dk: string)
    ensures !Versioned(WrapperName(dk)) <==>
            forall b, i :: WellVersioned(b) && WellVersioned(i) ==>
              match Merge(dk, b, i) case Some(m) => WellVersioned(m) case None => true
  {
    if !Versioned(WrapperName(dk)) {
      forall b, i | WellVersioned(b) && WellVersioned(i)
        ensures match Merge(dk, b, i) case Some(m) => WellVersioned(m) case None => true
      {
        MergeVersions(dk, b, i);
      }
    } else {
      var s, i := VersionedWrapper(dk);
      assert WellVersioned(Struct(s)) && WellVersioned(i);
    }
  }

  /** A versioned wrapper name can repeat a version that another member already has. */
  lemma {:induction false} VersionedWrapper(dk: string) returns (s: seq<LogicalField>, i: LogicalType)
    requires Versioned(WrapperName(dk))
    ensures WellVersionedFields(s) && WellVersioned(i)
    ensures var m := Merge(dk, Struct(s), i); m.Some? && !WellVersioned(m.value)
  {
    hide ParseAt;
    var key := WrapperName(dk);
    var p := Parse(key).value;
    MakeParse(key);
    var other := if p.semantic == "null" then Scalar(Date32) else Scalar(Null);
    ParseMake(p.base, p.version, VariantSemantic(other));
    var taken := LogicalField(Make(p.base, p.version, VariantSemantic(other)), true, other);
    assert taken.name != key;
    s, i := [taken], Scalar(Utf8);
    var r := s + [LogicalField(key, true, i)];
    assert FirstNamed(s, key, 0) == 1;
    assert Merge(dk, Struct(s), i) == Some(Struct(r));
    assert Clash(r[0], r[1]);
  }

  // -------------------------------------------------------------- normalising

  /** With distinct versions, nothing that survives is dropped as a repeat. */
  lemma {:induction false} EmitsSurvivors(s: seq<LogicalField>, j: nat)
    requires j < |s| && DistinctVersions(s)
    ensures Emits(s, j) <==> Survives(s, j)
  {
    var out, g := Emit(s, j), Settled(s, j);
    EmittedInOrder(s, j);
    SettledKeeps(s, j);
    forall k | 0 <= k < |out| ensures out[k].name != g.name {
      var o := Origins(s, j)[k];
      SettledKeeps(s, o);
      assert !Clash(s[o], s[j]);
    }
  }

  lemma {:induction false} EmitVersions(s: seq<LogicalField>)
    requires DistinctVersions(s)
    ensures DistinctVersions(Emit(s, |s|))
  {
    hide Parse, Settled;
    var r, o := Emit(s, |s|), Origins(s, |s|);
    EmittedInOrder(s, |s|);
    forall j, k | 0 <= j < k < |r| ensures !Clash(r[j], r[k]) {
      SettledKeeps(s, o[j]);
      SettledKeeps(s, o[k]);
      assert !Clash(s[o[j]], s[o[k]]);
    }
  }

  lemma {:induction false} NormalizeVersions(t: LogicalType)
    requires WellVersioned(t)
    ensures WellVersioned(Normalize(t))
  {
    match t
    case Scalar(_) =>
    case List(value) => NormalizeVersions(value);
    case Struct(fields) => NormalizeFieldsVersions(fields);
  }

  /** The renaming of the numeric pass makes no two names collide. */
  lemma {:induction false} NormalizeFieldsVersions(s: seq<LogicalField>)
    requires WellVersionedFields(s)
    ensures WellVersionedFields(NormalizeFields(s))
  {
    var c, r := NormalizeChildren(s), NormalizeFields(s);
    assert DistinctVersions(c) by {
      forall j, k | 0 <= j < k < |c| ensures !Clash(c[j], c[k]) { assert !Clash(s[j], s[k]); }
    }
    EmitVersions(c);
    EmittedInOrder(c, |c|);
    forall k | 0 <= k < |r| ensures WellVersioned(r[k].typ) {
      var j := Origins(c, |c|)[k];
      SettledKeeps(c, j);
      NormalizeVersions(s[j].typ);
    }
  }
}
