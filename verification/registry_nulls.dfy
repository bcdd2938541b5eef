/** Runs fed one field per family keep null variants the oldest of their family; with distinct versions that is safe. */
module RegistryNulls {
  import opened Basics
  import opened VariantNames
  import opened LogicalSchemas
  import opened SchemaEvolution
  import opened RegistryMerge
  import opened RegistryAbsorption
  import opened RegistryNumeric
  import opened RegistryVersions
  import opened RegistryReplay

  /** A null variant is the oldest member of its family. */
  predicate NullsOldest(s: seq<LogicalField>) {
    forall j, k :: 0 <= j < k < |s| && Family(s[j].name) == Family(s[k].name) ==> !NullVariant(s[k])
  }

  predicate NullsFirst(t: LogicalType) {
    match t
    case Scalar(_) => true
    case List(value) => NullsFirst(value)
    case Struct(fields) => NullsFirstFields(fields)
  }

  predicate NullsFirstFields(s: seq<LogicalField>) {
    NullsOldest(s) && forall j :: 0 <= j < |s| ==> NullsFirst(s[j].typ)
  }

  /** With distinct versions nothing repeats, and the oldest member is never ahead of a float: nothing is exposed. */
  lemma {:induction false} NullsFirstSafe(dk: string, t: LogicalType)
    requires Normal(t) && WellVersioned(t) && NullsFirst(t)
    ensures Safe(dk, t)
  {
    match t
    case Scalar(_) =>
    case List(value) => NullsFirstSafe(dk, value);
    case Struct(fields) =>
      hide Parse, Exposed;
      VersionedLevel(fields);
      forall j, i | 0 <= j < |fields| && i in Candidates(fields) ensures !Exposed(dk, fields, j, i) {
        NotExposed(dk, fields, j, i);
      }
      forall j | 0 <= j < |fields| ensures Safe(dk, fields[j].typ) { NullsFirstSafe(dk, fields[j].typ); }
  }

  lemma {:induction false} VersionedLevel(s: seq<LogicalField>)
    requires NormalFields(s) && DistinctVersions(s)
    ensures TidyLevel(s)
  {
    hide Parse;
    forall j, k | 0 <= j < k < |s| ensures FieldNames(s)[j] != FieldNames(s)[k] { assert !Clash(s[j], s[k]); }
  }

  lemma {:induction false} NotExposed(dk: string, s: seq<LogicalField>, j: nat, i: LogicalType)
    requires TidyLevel(s) && DistinctVersions(s) && NullsOldest(s) && j < |s|
    ensures !Exposed(dk, s, j, i)
  {
    hide Parse, Repeats;
    forall q | 0 <= q < |s| ensures !Repeats(dk, s, j, i, q) { DistinctNeverRepeat(dk, s, j, i, q); }
    var float := FirstFloat(s, Family(s[j].name), 0);
    assert Merge(dk, FLOAT, INTEGER) == Some(FLOAT);
    assert float < j ==> !NullVariant(s[j]);
  }

  lemma {:induction false} OnePerFamilyNulls(t: LogicalType)
    requires OnePerFamily(t)
    ensures NullsFirst(t)
  {
    match t
    case Scalar(_) =>
    case List(value) => OnePerFamilyNulls(value);
    case Struct(fields) =>
      forall j | 0 <= j < |fields| ensures NullsFirst(fields[j].typ) { OnePerFamilyNulls(fields[j].typ); }
  }

  /** No merge turns a type into null, and no variant is generated for a null. */
  lemma {:induction false} NullsComeFirst(dk: string, s: seq<LogicalField>, f: LogicalField)
    ensures var l := Target(dk, s, f);
            && ((l.AtName? || l.AtProbe?) ==>
                  s[l.p].typ == Scalar(Null) || Merge(dk, s[l.p].typ, f.typ) != Some(Scalar(Null)))
            && (l.NewVariant? ==> f.typ != Scalar(Null))
            && (l.Added? && Versioned(f.name) ==> forall j :: 0 <= j < |s| ==> !InFamily(s[j], Family(f.name)))
  {
    hide Parse;
    if f.typ == Scalar(Null) {
      forall j | 0 <= j < |s| ensures Merge(dk, s[j].typ, f.typ).Some? { NullAlwaysMerges(dk, s[j].typ); }
      ThroughFamily(dk, s, f);
      var p := LastNamed(s, f.name, |s|);
      if p < 0 && HasFamily(s, Family(f.name), |s|) {
        var j :| 0 <= j < |s| && InFamily(s[j], Family(f.name));
        assert j != p;
      }
    }
  }

  lemma {:induction false} StepNulls(dk: string, s: seq<LogicalField>, f: LogicalField)
    requires !Versioned(WrapperName(dk)) && NullsFirstFields(s) && NullsFirst(f.typ)
    ensures NullsFirstFields(Step(dk, s, f))
    decreases f, 1
  {
    hide Parse, VariantName;
    NullsComeFirst(dk, s, f);
    match Target(dk, s, f)
    case AtExact(_) =>
    case Added => AppendedNulls(s, f);
    case NewVariant => AppendedNulls(s, Variant(s, f));
    case AtName(p) => MergeNulls(dk, s[p].typ, f.typ); RetypedNulls(s, p, Merge(dk, s[p].typ, f.typ).value);
    case AtProbe(p) => MergeNulls(dk, s[p].typ, f.typ); RetypedNulls(s, p, Merge(dk, s[p].typ, f.typ).value);
  }

  lemma {:induction false} AppendedNulls(s: seq<LogicalField>, f: LogicalField)
    requires NullsFirstFields(s) && NullsFirst(f.typ)
    requires NullVariant(f) ==> forall j :: 0 <= j < |s| ==> !InFamily(s[j], Family(f.name))
    ensures NullsFirstFields(s + [f])
  {
    hide Parse, NullVariant;
  }

  lemma {:induction false} RetypedNulls(s: seq<LogicalField>, p: nat, t: LogicalType)
    requires p < |s| && NullsFirstFields(s) && NullsFirst(t) && (t == Scalar(Null) ==> s[p].typ == t)
    ensures NullsFirstFields(WithType(s, p, t))
  {
    hide Parse;
    var r := WithType(s, p, t);
    forall j, k | 0 <= j < k < |r| && Family(r[j].name) == Family(r[k].name) ensures !NullVariant(r[k]) {
      assert Family(s[j].name) == Family(s[k].name);
    }
  }

  lemma {:induction false} MergeFieldsNulls(dk: string, s: seq<LogicalField>, incoming: seq<LogicalField>)
    requires !Versioned(WrapperName(dk)) && NullsFirstFields(s)
    requires forall k :: 0 <= k < |incoming| ==> NullsFirst(incoming[k].typ)
    ensures NullsFirstFields(MergeFields(dk, s, incoming))
    decreases incoming
  {
    if incoming != [] {
      StepNulls(dk, s, incoming[0]);
      MergeFieldsNulls(dk, Step(dk, s, incoming[0]), incoming[1..]);
    }
  }

  lemma {:induction false} MergeNulls(dk: string, b: LogicalType, i: LogicalType)
    requires !Versioned(WrapperName(dk)) && NullsFirst(b) && NullsFirst(i)
    ensures var m := Merge(dk, b, i); m.Some? ==> NullsFirst(m.value)
    decreases i, b, 0
  {
    match b
    case Scalar(_) =>
    case List(value) => MergeNulls(dk, value, if i.List? then i.value else i);
    case Struct(fields) =>
      if i.Struct? {
        MergeFieldsNulls(dk, fields, i.fields);
      } else if i.Scalar? {
        var p := FirstNamed(fields, WrapperName(dk), 0);
        if p == |fields| {
          AppendedNulls(fields, LogicalField(WrapperName(dk), true, i));
        } else {
          MergeNulls(dk, fields[p].typ, i);
          var t := Merge(dk, fields[p].typ, i);
          if t.Some? { WrapperNulls(dk, fields, p, t.value); }
        }
      }
  }

  lemma {:induction false} WrapperNulls(dk: string, s: seq<LogicalField>, p: nat, t: LogicalType)
    requires p < |s| && NullsFirstFields(s) && NullsFirst(t) && !Versioned(s[p].name)
    ensures NullsFirstFields(WithType(s, p, t))
  {
    hide Parse;
    var r := WithType(s, p, t);
    forall j, k | 0 <= j < k < |r| && Family(r[j].name) == Family(r[k].name) ensures !NullVariant(r[k]) {
      assert Family(s[j].name) == Family(s[k].name);
    }
  }

  lemma {:induction false} NormalizeNulls(t: LogicalType)
    requires NullsFirst(t)
    ensures NullsFirst(Normalize(t))
  {
    match t
    case Scalar(_) =>
    case List(value) => NormalizeNulls(value);
    case Struct(fields) => NormalizeFieldsNulls(fields);
  }

  lemma {:induction false} NormalizeFieldsNulls(s: seq<LogicalField>)
    requires NullsFirstFields(s)
    ensures NullsFirstFields(NormalizeFields(s))
  {
    hide Parse, Settled, Survives;
    var c, r := NormalizeChildren(s), NormalizeFields(s);
    var o := Origins(c, |c|);
    EmittedInOrder(c, |c|);
    forall j, k | 0 <= j < k < |r| && Family(r[j].name) == Family(r[k].name) ensures !NullVariant(r[k]) {
      SettledKeeps(c, o[j]);
      SettledKeeps(c, o[k]);
      assert Family(s[o[j]].name) == Family(s[o[k]].name);
    }
    forall k | 0 <= k < |r| ensures NullsFirst(r[k].typ) {
      SettledKeeps(c, o[k]);
      NormalizeNulls(s[o[k]].typ);
    }
  }
}
