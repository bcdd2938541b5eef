/** The merge engine as it runs: a growing field vector, a name/family index and a drift log. */
module RegistryEngine {
  import opened Basics
  import opened VariantNames
  import opened LogicalSchemas
  import opened RegistryMerge
  import opened RegistryAbsorption
  import opened RegistryDrift

  class DriftLog {
    var events: seq<DriftEvent>

    constructor ()
      ensures events == []
    {
      events := [];
    }

    method Append(more: seq<DriftEvent>)
      modifies this
      ensures events == old(events) + more
    {
      events := events + more;
    }
  }

  class FieldVector {
    var items: seq<LogicalField>

    constructor (initial: seq<LogicalField>)
      ensures items == initial
    {
      items := initial;
    }

    method Push(f: LogicalField)
      modifies this
      ensures items == old(items) + [f]
    {
      items := items + [f];
    }

    method SetType(p: nat, t: LogicalType)
      requires p < |items|
      modifies this
      ensures items == WithType(old(items), p, t)
    {
      items := items[p := items[p].(typ := t)];
    }
  }

  // ------------------------------------------------------- the field index

  datatype VariantFamilyIndex = VariantFamilyIndex(positions: seq<nat>, nextVersion: nat)

  /** The ascending positions of a family among the first `n` fields. */
  ghost function Positions(s: seq<LogicalField>, fam: string, n: nat): seq<nat>
    requires n <= |s|
  {
    if n == 0 then []
    else Positions(s, fam, n - 1) + if InFamily(s[n - 1], fam) then [n - 1] else []
  }

  lemma {:induction false} PositionsAre(s: seq<LogicalField>, fam: string, n: nat)
    requires n <= |s|
    ensures var ps := Positions(s, fam, n);
            && (forall k :: 0 <= k < |ps| ==> ps[k] < n && InFamily(s[ps[k]], fam))
            && (forall j :: 0 <= j < n && InFamily(s[j], fam) ==> j in ps)
            && (forall k, l :: 0 <= k < l < |ps| ==> ps[k] < ps[l])
  {
    hide Parse, InFamily;
    if n > 0 {
      PositionsAre(s, fam, n - 1);
      var ps, before := Positions(s, fam, n), Positions(s, fam, n - 1);
      assert ps == before + if InFamily(s[n - 1], fam) then [n - 1] else [];
      forall j | 0 <= j < n && InFamily(s[j], fam) ensures j in ps {
        if j < n - 1 { assert j in before; } else { assert ps[|before|] == j; }
      }
    }
  }

  ghost function FamilyEntry(s: seq<LogicalField>, fam: string): VariantFamilyIndex {
    VariantFamilyIndex(Positions(s, fam, |s|), NextVersion(s, fam, |s|))
  }

  ghost predicate IndexesNames(m: map<string, nat>, s: seq<LogicalField>) {
    forall name :: (name in m <==> LastNamed(s, name, |s|) >= 0) && (name in m ==> m[name] == LastNamed(s, name, |s|))
  }

  ghost predicate IndexesFamilies(m: map<string, VariantFamilyIndex>, s: seq<LogicalField>) {
    forall fam :: (fam in m <==> HasFamily(s, fam, |s|)) && (fam in m ==> m[fam] == FamilyEntry(s, fam))
  }

  class FieldMergeIndex {
    var byName: map<string, nat>
    var families: map<string, VariantFamilyIndex>

    /** The index answers for exactly the fields `s`. */
    ghost predicate Describes(s: seq<LogicalField>)
      reads this
    {
      IndexesNames(byName, s) && IndexesFamilies(families, s)
    }

    constructor ()
      ensures Describes([])
    {
      byName := map[];
      families := map[];
    }

    method RegisterField(field: LogicalField, position: nat, ghost s: seq<LogicalField>)
      requires Describes(s) && position == |s|
      modifies this
      ensures Describes(s + [field])
    {
      hide IndexesNames, IndexesFamilies, ParseAt;
      byName := byName[field.name := position];
      NamesAfter(old(byName), s, field);
      var parsed := Parse(field.name);
      var fam := if parsed.Some? then parsed.value.base else field.name;
      var family := if fam in families then families[fam] else VariantFamilyIndex([], 2);
      family := family.(positions := family.positions + [position]);
      if parsed.Some? && parsed.value.version + 1 > family.nextVersion {
        family := family.(nextVersion := parsed.value.version + 1);
      }
      assert fam == Family(field.name) && family == EntryAfter(families, field, position);
      families := families[fam := family];
      FamiliesAfter(old(families), s, field);
    }

    /** The first unused version name; a named family never needs a second candidate. */
    method NextVariantName(fam: string, t: LogicalType, ghost s: seq<LogicalField>) returns (name: string)
      requires Describes(s)
      ensures name == VariantName(s, fam, t)
    {
      hide IndexesFamilies, Parse, Label;
      var version := 2;
      if fam in families { version := families[fam].nextVersion; }
      assert version == NextVersion(s, fam, |s|) by { FamilyVersion(families, s, fam); }
      var tag := VariantSemantic(t);
      ghost var free := FreeVersion(Names(s), fam, tag, version);
      name := Make(fam, version, tag);
      TakenName(byName, s, name);
      while name in byName
        invariant version <= free && name == Make(fam, version, tag) && (name in byName <==> name in Names(s))
        decreases free - version
      {
        version := version + 1;
        name := Make(fam, version, tag);
        TakenName(byName, s, name);
      }
    }
  }

  lemma {:induction false} NameLookup(m: map<string, nat>, s: seq<LogicalField>, name: string)
    requires IndexesNames(m, s)
    ensures name in m <==> LastNamed(s, name, |s|) >= 0
    ensures name in m ==> m[name] == LastNamed(s, name, |s|)
  {
  }

  lemma {:induction false} FamilyLookup(m: map<string, VariantFamilyIndex>, s: seq<LogicalField>, fam: string)
    requires IndexesFamilies(m, s)
    ensures fam in m <==> HasFamily(s, fam, |s|)
    ensures fam in m ==> m[fam].positions == Positions(s, fam, |s|)
  {
  }

  lemma {:induction false} TakenName(m: map<string, nat>, s: seq<LogicalField>, name: string)
    requires IndexesNames(m, s)
    ensures name in m <==> name in Names(s)
  {
    var p := LastNamed(s, name, |s|);
    assert p >= 0 ==> s[p].name in Names(s);
  }

  lemma {:induction false} FamilyVersion(m: map<string, VariantFamilyIndex>, s: seq<LogicalField>, fam: string)
    requires IndexesFamilies(m, s)
    ensures NextVersion(s, fam, |s|) == if fam in m then m[fam].nextVersion else 2
  {
    if fam !in m { NoFamilyNoVersion(s, fam, |s|); }
  }

  lemma {:induction false} NamesAfter(m: map<string, nat>, s: seq<LogicalField>, f: LogicalField)
    requires IndexesNames(m, s)
    ensures IndexesNames(m[f.name := |s|], s + [f])
  {
    var r := s + [f];
    forall name ensures LastNamed(r, name, |r|) == if name == f.name then |s| else LastNamed(s, name, |s|) {
      if name != f.name { SameNames(s, r, name); }
    }
  }

  /** The family entry once `f` has been registered at `position`. */
  ghost function EntryAfter(m: map<string, VariantFamilyIndex>, f: LogicalField, position: nat): VariantFamilyIndex {
    var fam := Family(f.name);
    var entry := if fam in m then m[fam] else VariantFamilyIndex([], 2);
    var v := Version(f.name) + 1;
    VariantFamilyIndex(entry.positions + [position],
                       if Versioned(f.name) && v > entry.nextVersion then v else entry.nextVersion)
  }

  lemma {:induction false} OwnEntryAfter(m: map<string, VariantFamilyIndex>, s: seq<LogicalField>, f: LogicalField)
    requires IndexesFamilies(m, s)
    ensures EntryAfter(m, f, |s|) == FamilyEntry(s + [f], Family(f.name))
  {
    hide Parse;
    var fam := Family(f.name);
    AppendFamily(s, f, fam);
    if fam !in m { NoFamilyNoVersion(s, fam, |s|); }
    assert Versioned(f.name) || Version(f.name) == 0 by { UnversionedZero(f.name); }
  }

  lemma {:induction false} UnversionedZero(name: string)
    ensures Versioned(name) || Version(name) == 0
  {
  }

  lemma {:induction false} FamiliesAfter(m: map<string, VariantFamilyIndex>, s: seq<LogicalField>, f: LogicalField)
    requires IndexesFamilies(m, s)
    ensures IndexesFamilies(m[Family(f.name) := EntryAfter(m, f, |s|)], s + [f])
  {
    hide Family, FamilyEntry, EntryAfter, HasFamily;
    var own, r := Family(f.name), s + [f];
    var m' := m[own := EntryAfter(m, f, |s|)];
    OwnEntryAfter(m, s, f);
    forall fam ensures (fam in m' <==> HasFamily(r, fam, |r|)) && (fam in m' ==> m'[fam] == FamilyEntry(r, fam)) {
      OtherEntryAfter(s, f, fam);
    }
  }

  lemma {:induction false} OtherEntryAfter(s: seq<LogicalField>, f: LogicalField, fam: string)
    ensures var r := s + [f];
            && (HasFamily(r, fam, |r|) <==> HasFamily(s, fam, |s|) || fam == Family(f.name))
            && (fam != Family(f.name) ==> FamilyEntry(r, fam) == FamilyEntry(s, fam))
  {
    hide Parse;
    AppendFamily(s, f, fam);
  }

  lemma {:induction false} PrefixFamily(s: seq<LogicalField>, f: LogicalField, fam: string, n: nat)
    requires n <= |s|
    ensures Positions(s + [f], fam, n) == Positions(s, fam, n)
    ensures NextVersion(s + [f], fam, n) == NextVersion(s, fam, n)
  {
    hide Parse, InFamily, Version;
    if n > 0 { PrefixFamily(s, f, fam, n - 1); }
  }

  lemma {:induction false} NoFamilyNoVersion(s: seq<LogicalField>, fam: string, n: nat)
    requires n <= |s| && !HasFamily(s, fam, n)
    ensures NextVersion(s, fam, n) == 2 && Positions(s, fam, n) == []
  {
    if n > 0 {
      assert !InFamily(s[n - 1], fam);
      assert !HasFamily(s, fam, n - 1);
      NoFamilyNoVersion(s, fam, n - 1);
    }
  }

  lemma {:induction false} AppendFamily(s: seq<LogicalField>, f: LogicalField, fam: string)
    ensures var r := s + [f];
            && (HasFamily(r, fam, |r|) <==> HasFamily(s, fam, |s|) || InFamily(f, fam))
            && Positions(r, fam, |r|) == Positions(s, fam, |s|) + (if InFamily(f, fam) then [|s|] else [])
            && NextVersion(r, fam, |r|) ==
               (if InFamily(f, fam) && Version(f.name) + 1 > NextVersion(s, fam, |s|) then Version(f.name) + 1
                else NextVersion(s, fam, |s|))
  {
    hide Parse, InFamily, Version, HasFamily;
    var r := s + [f];
    PrefixFamily(s, f, fam, |s|);
    assert r[|s|] == f;
    AppendHasFamily(s, f, fam);
  }

  lemma {:induction false} AppendHasFamily(s: seq<LogicalField>, f: LogicalField, fam: string)
    ensures HasFamily(s + [f], fam, |s| + 1) <==> HasFamily(s, fam, |s|) || InFamily(f, fam)
  {
    hide Parse, InFamily;
    var r := s + [f];
    assert r[|s|] == f;
    if HasFamily(s, fam, |s|) {
      var j :| 0 <= j < |s| && InFamily(s[j], fam);
      assert InFamily(r[j], fam);
    }
    if HasFamily(r, fam, |r|) {
      var j :| 0 <= j < |r| && InFamily(r[j], fam);
      assert j < |s| ==> InFamily(s[j], fam);
    }
  }

  // ------------------------------------------------ the index ignores types

  lemma {:induction false} FamilyByNames(s: seq<LogicalField>, r: seq<LogicalField>, fam: string, n: nat)
    requires |s| == |r| && n <= |s| && forall j :: 0 <= j < |s| ==> s[j].name == r[j].name
    ensures Positions(s, fam, n) == Positions(r, fam, n) && NextVersion(s, fam, n) == NextVersion(r, fam, n)
  {
    hide Parse;
    if n > 0 {
      FamilyByNames(s, r, fam, n - 1);
      assert InFamily(s[n - 1], fam) == InFamily(r[n - 1], fam);
    }
  }

  lemma {:induction false} HasFamilyByNames(s: seq<LogicalField>, r: seq<LogicalField>, fam: string)
    requires |s| == |r| && forall j :: 0 <= j < |s| ==> s[j].name == r[j].name
    ensures HasFamily(s, fam, |s|) ==> HasFamily(r, fam, |r|)
  {
    hide Parse;
    if HasFamily(s, fam, |s|) {
      var j :| 0 <= j < |s| && InFamily(s[j], fam);
      assert InFamily(r[j], fam);
    }
  }

  lemma {:induction false} IndexByNames(names: map<string, nat>, families: map<string, VariantFamilyIndex>,
                                        s: seq<LogicalField>, r: seq<LogicalField>)
    requires IndexesNames(names, s) && IndexesFamilies(families, s)
    requires |s| == |r| && forall j :: 0 <= j < |s| ==> s[j].name == r[j].name
    ensures IndexesNames(names, r) && IndexesFamilies(families, r)
  {
    hide Parse;
    forall name ensures LastNamed(r, name, |r|) == LastNamed(s, name, |s|) { SameNames(s, r, name); }
    forall fam
      ensures (HasFamily(r, fam, |r|) <==> HasFamily(s, fam, |s|)) && FamilyEntry(r, fam) == FamilyEntry(s, fam)
    {
      FamilyByNames(s, r, fam, |s|);
      HasFamilyByNames(s, r, fam);
      HasFamilyByNames(r, s, fam);
    }
  }

  // ------------------------------------------------------------ one field more

  lemma {:induction false} MergeFieldsLast(dk: string, s: seq<LogicalField>, incoming: seq<LogicalField>,
                                           f: LogicalField, parent: string)
    ensures MergeFields(dk, s, incoming + [f]) == Step(dk, MergeFields(dk, s, incoming), f)
    ensures FieldDrifts(dk, s, incoming + [f], parent)
         == FieldDrifts(dk, s, incoming, parent) + StepDrifts(dk, MergeFields(dk, s, incoming), f, parent)
    decreases incoming
  {
    hide Step, StepDrifts;
    if incoming == [] {
      assert incoming + [f] == [f] && [f][1..] == [];
      assert MergeFields(dk, Step(dk, s, f), []) == Step(dk, s, f);
      assert FieldDrifts(dk, Step(dk, s, f), [], parent) == [];
    } else {
      MergeFieldsLast(dk, Step(dk, s, incoming[0]), incoming[1..], f, parent);
      assert (incoming + [f])[1..] == incoming[1..] + [f];
    }
  }

  lemma {:induction false} OneMore(dk: string, s: seq<LogicalField>, incoming: seq<LogicalField>, k: nat,
                                   parent: string)
    requires k < |incoming|
    ensures MergeFields(dk, s, incoming[..k + 1]) == Step(dk, MergeFields(dk, s, incoming[..k]), incoming[k])
    ensures FieldDrifts(dk, s, incoming[..k + 1], parent)
         == FieldDrifts(dk, s, incoming[..k], parent)
           + StepDrifts(dk, MergeFields(dk, s, incoming[..k]), incoming[k], parent)
  {
    assert incoming[..k + 1] == incoming[..k] + [incoming[k]];
    MergeFieldsLast(dk, s, incoming[..k], incoming[k], parent);
  }

  // --------------------------------------------------------------- the methods

  /** Structural comparison by kind, then field by field. */
  method LogicalTypeEqual(left: LogicalType, right: LogicalType) returns (equal: bool)
    ensures equal <==> left == right
    decreases left
  {
    match left
    case Scalar(kind) => equal := right.Scalar? && right.kind == kind;
    case List(value) =>
      if right.List? { equal := LogicalTypeEqual(value, right.value); } else { equal := false; }
    case Struct(fields) =>
      if !right.Struct? || |fields| != |right.fields| { return false; }
      for k := 0 to |fields|
        invariant fields[..k] == right.fields[..k]
      {
        var lf, rf := fields[k], right.fields[k];
        if lf.name != rf.name || lf.nullable != rf.nullable { return false; }
        var same := LogicalTypeEqual(lf.typ, rf.typ);
        if !same { return false; }
        assert fields[..k + 1] == fields[..k] + [lf];
        assert right.fields[..k + 1] == right.fields[..k] + [rf];
      }
      assert fields[..|fields|] == fields && right.fields[..|fields|] == right.fields;
      return true;
  }

  /** Installs a widened type, logging it when nothing deeper was logged. */
  method Widen(fields: FieldVector, p: nat, merged: LogicalType, deeper: seq<DriftEvent>, path: string,
               drifts: DriftLog)
    requires p < |fields.items|
    modifies fields, drifts
    ensures fields.items == WithType(old(fields.items), p, merged)
    ensures drifts.events == old(drifts.events) + Noted(deeper, old(fields.items[p]), merged, path)
  {
    var candidate := fields.items[p];
    var equal := LogicalTypeEqual(candidate.typ, merged);
    if !equal {
      if deeper == [] { drifts.Append([DriftEvent(path, candidate.name, TypePromoted, Some(candidate.typ), merged)]); }
      fields.SetType(p, merged);
    }
    drifts.Append(deeper);
  }

  /** Newest first, looks for a member of exactly the incoming type. */
  method FindExact(fields: seq<LogicalField>, positions: seq<nat>, skip: int, i: LogicalType, ghost fam: string)
    returns (found: bool)
    requires positions == Positions(fields, fam, |fields|)
    ensures found == (ExactAt(fields, fam, skip, i, |fields|) >= 0)
  {
    hide Parse;
    PositionsAre(fields, fam, |fields|);
    var n := |positions|;
    while n > 0
      invariant 0 <= n <= |positions|
      invariant forall k :: n <= k < |positions| && positions[k] != skip ==> fields[positions[k]].typ != i
    {
      n := n - 1;
      if positions[n] != skip {
        found := LogicalTypeEqual(fields[positions[n]].typ, i);
        if found { return; }
      }
    }
    NoExact(fields, fam, skip, i, positions);
    found := false;
  }

  /** Newest first, probes for a member that can take the incoming type. */
  method FindCompatible(dk: string, fields: seq<LogicalField>, positions: seq<nat>, skip: int, i: LogicalType,
                        path: string, ghost fam: string)
    returns (q: int, merged: LogicalType, deeper: seq<DriftEvent>)
    requires positions == Positions(fields, fam, |fields|)
    ensures q == NewestCompatible(dk, fields, fam, skip, i, |fields|)
    ensures q >= 0 ==> Merge(dk, fields[q].typ, i) == Some(merged) && deeper == TypeDrifts(dk, fields[q].typ, i, path)
    decreases i, fields, 1
  {
    hide Parse;
    PositionsAre(fields, fam, |fields|);
    var n := |positions|;
    while n > 0
      invariant 0 <= n <= |positions|
      invariant forall k :: n <= k < |positions| && positions[k] != skip ==>
                Merge(dk, fields[positions[k]].typ, i).None?
    {
      n := n - 1;
      if positions[n] != skip {
        var candidateDrifts := new DriftLog();
        var r := MergeTypes(dk, fields[positions[n]].typ, i, path, candidateDrifts);
        if r.Some? {
          NewestIs(dk, fields, fam, skip, i, positions, n);
          assert candidateDrifts.events == TypeDrifts(dk, fields[positions[n]].typ, i, path);
          return positions[n], r.value, candidateDrifts.events;
        }
      }
    }
    NoCompatible(dk, fields, fam, skip, i, positions);
    return -1, i, [];
  }

  /** Reuses an exact historical type of the family, or widens its newest compatible member. */
  method MergeIntoExistingFamilyVariant(dk: string, fields: FieldVector, index: FieldMergeIndex, fam: string, skip: int,
                                        i: LogicalType, path: string, drifts: DriftLog) returns (found: bool)
    requires index.Describes(fields.items)
    modifies fields, drifts
    ensures index.Describes(fields.items)
    ensures var l := FamilyTarget(dk, old(fields.items), fam, skip, i);
            && found == !l.NewVariant?
            && fields.items ==
               (if l.AtProbe? then WithType(old(fields.items), l.p, Merge(dk, old(fields.items)[l.p].typ, i).value)
                                else old(fields.items))
            && drifts.events ==
               old(drifts.events) + (if l.AtProbe? then WidenDrifts(dk, old(fields.items)[l.p], i, path) else [])
    decreases i, fields.items, 2
  {
    hide Parse, Noted, IndexesNames, IndexesFamilies;
    FamilyLookup(index.families, fields.items, fam);
    if fam !in index.families {
      NoMember(dk, fields.items, fam, skip, i);
      return false;
    }
    var positions := index.families[fam].positions;
    found := FindExact(fields.items, positions, skip, i, fam);
    if found { return; }
    var q, merged, deeper := FindCompatible(dk, fields.items, positions, skip, i, path, fam);
    if q >= 0 {
      Widen(fields, q, merged, deeper, path, drifts);
      IndexByNames(index.byName, index.families, old(fields.items), fields.items);
      found := true;
    }
  }

  /** Puts a scalar into the wrapper member of a struct. */
  method MergeStructWithWrappedScalar(dk: string, s: seq<LogicalField>, i: LogicalType, path: string, drifts: DriftLog)
    returns (r: Option<LogicalType>)
    requires i.Scalar?
    modifies drifts
    ensures r == Merge(dk, Struct(s), i)
    ensures drifts.events == old(drifts.events) + TypeDrifts(dk, Struct(s), i, path)
    decreases i, s, 1
  {
    hide Parse;
    var key := WrapperName(dk);
    var keyPath := JoinPath(path, key);
    var p := FirstNamed(s, key, 0);
    if p == |s| {
      drifts.Append([DriftEvent(keyPath, key, NewlyAdded, None, i)]);
      return Some(Struct(s + [LogicalField(key, true, i)]));
    }
    var before := |drifts.events|;
    var merged := MergeTypes(dk, s[p].typ, i, keyPath, drifts);
    if merged.None? {
      DriftMeansChange(dk, s[p].typ, i, keyPath);
      return None;
    }
    var equal := LogicalTypeEqual(s[p].typ, merged.value);
    if !equal && |drifts.events| == before {
      drifts.Append([DriftEvent(keyPath, s[p].name, TypePromoted, Some(s[p].typ), merged.value)]);
    }
    assert WithType(s, p, s[p].typ) == s;
    return Some(Struct(if equal then s else WithType(s, p, merged.value)));
  }

  /** What a step does at each kind of landing. */
  lemma {:induction false} StepAt(dk: string, s: seq<LogicalField>, f: LogicalField, parent: string)
    ensures var l, path := Target(dk, s, f), JoinPath(parent, Family(f.name));
            && (l.AtName? || l.AtProbe? ==>
                  && Step(dk, s, f) == WithType(s, l.p, Merge(dk, s[l.p].typ, f.typ).value)
                  && StepDrifts(dk, s, f, parent) == WidenDrifts(dk, s[l.p], f.typ, path))
            && (l.AtExact? ==> Step(dk, s, f) == s && StepDrifts(dk, s, f, parent) == [])
            && (l.Added? ==>
                  && Step(dk, s, f) == s + [f]
                  && StepDrifts(dk, s, f, parent) == [DriftEvent(path, f.name, NewlyAdded, None, f.typ)])
            && (l.NewVariant? ==>
                  && Step(dk, s, f) == s + [Variant(s, f)]
                  && StepDrifts(dk, s, f, parent) ==
                     [DriftEvent(path, Variant(s, f).name, NewVersionGenerated,
                                 if LastNamed(s, f.name, |s|) < 0 then None
                                 else Some(s[LastNamed(s, f.name, |s|)].typ), f.typ)])
  {
    hide Parse, VariantName;
  }

  /** Merges one incoming field into the vector. */
  method MergeField(dk: string, fields: FieldVector, index: FieldMergeIndex, f: LogicalField, parent: string,
                    drifts: DriftLog)
    requires index.Describes(fields.items)
    modifies fields, index, drifts
    ensures index.Describes(fields.items)
    ensures fields.items == Step(dk, old(fields.items), f)
    ensures drifts.events == old(drifts.events) + StepDrifts(dk, old(fields.items), f, parent)
    decreases f, 1
  {
    hide Parse, Noted, VariantName, IndexesNames, IndexesFamilies;
    ghost var s := fields.items;
    StepAt(dk, s, f, parent);
    NameLookup(index.byName, s, f.name);
    FamilyLookup(index.families, s, Family(f.name));
    var path := JoinPath(parent, Family(f.name));
    if f.name !in index.byName {
      if Versioned(f.name) && Family(f.name) in index.families {
        assert PastName(dk, s, f);
        MergePastName(dk, fields, index, f, -1, parent, drifts);
      } else {
        assert Target(dk, s, f) == Added;
        AddField(dk, fields, index, f, path, drifts);
      }
      return;
    }
    var p := index.byName[f.name];
    var baseDrifts := new DriftLog();
    var merged := MergeTypes(dk, fields.items[p].typ, f.typ, path, baseDrifts);
    if merged.Some? {
      assert Target(dk, s, f) == AtName(p);
      assert baseDrifts.events == TypeDrifts(dk, s[p].typ, f.typ, path);
      Widen(fields, p, merged.value, baseDrifts.events, path, drifts);
      IndexByNames(index.byName, index.families, s, fields.items);
    } else {
      assert PastName(dk, s, f);
      MergePastName(dk, fields, index, f, p, parent, drifts);
    }
  }

  /** The family decides: an existing member takes the field, or a new variant is appended. */
  method MergePastName(dk: string, fields: FieldVector, index: FieldMergeIndex, f: LogicalField, p: int,
                       parent: string, drifts: DriftLog)
    requires index.Describes(fields.items)
    requires PastName(dk, fields.items, f) && p == LastNamed(fields.items, f.name, |fields.items|)
    modifies fields, index, drifts
    ensures index.Describes(fields.items)
    ensures fields.items == Step(dk, old(fields.items), f)
    ensures drifts.events == old(drifts.events) + StepDrifts(dk, old(fields.items), f, parent)
    decreases f, 0
  {
    hide Parse, Noted, VariantName, PastName, IndexesNames, IndexesFamilies;
    ghost var s := fields.items;
    ThroughFamily(dk, s, f);
    StepAt(dk, s, f, parent);
    var path, fam := JoinPath(parent, Family(f.name)), Family(f.name);
    var found := MergeIntoExistingFamilyVariant(dk, fields, index, fam, p, f.typ, path, drifts);
    if !found {
      var name := index.NextVariantName(fam, f.typ, s);
      var variant := LogicalField(name, true, f.typ);
      var previous := if p < 0 then None else Some(fields.items[p].typ);
      fields.Push(variant);
      index.RegisterField(variant, |fields.items| - 1, s);
      drifts.Append([DriftEvent(path, name, NewVersionGenerated, previous, f.typ)]);
    }
  }

  method AddField(dk: string, fields: FieldVector, index: FieldMergeIndex, f: LogicalField, path: string,
                  drifts: DriftLog)
    requires index.Describes(fields.items)
    modifies fields, index, drifts
    ensures index.Describes(fields.items) && fields.items == old(fields.items) + [f]
    ensures drifts.events == old(drifts.events) + [DriftEvent(path, f.name, NewlyAdded, None, f.typ)]
  {
    ghost var s := fields.items;
    fields.Push(f);
    index.RegisterField(f, |fields.items| - 1, s);
    drifts.Append([DriftEvent(path, f.name, NewlyAdded, None, f.typ)]);
  }

  method BuildFieldMergeIndex(fields: seq<LogicalField>) returns (index: FieldMergeIndex)
    ensures fresh(index) && index.Describes(fields)
  {
    index := new FieldMergeIndex();
    assert fields[..0] == [];
    for k := 0 to |fields|
      invariant fresh(index) && index.Describes(fields[..k])
    {
      index.RegisterField(fields[k], k, fields[..k]);
      assert fields[..k + 1] == fields[..k] + [fields[k]];
    }
    assert fields[..|fields|] == fields;
  }

  lemma {:induction false} NothingMerged(dk: string, s: seq<LogicalField>, parent: string)
    ensures MergeFields(dk, s, []) == s && FieldDrifts(dk, s, [], parent) == []
  {
  }

  /** Merges the incoming fields one after another: the loop computes the fold of single steps. */
  method MergeEach(dk: string, fields: FieldVector, index: FieldMergeIndex, incoming: seq<LogicalField>,
                   parent: string, drifts: DriftLog)
    requires index.Describes(fields.items)
    modifies fields, index, drifts
    ensures fields.items == MergeFields(dk, old(fields.items), incoming)
    ensures drifts.events == old(drifts.events) + FieldDrifts(dk, old(fields.items), incoming, parent)
    decreases incoming, 0
  {
    hide Parse, IndexesNames, IndexesFamilies, MergeFields, FieldDrifts, Step, StepDrifts;
    ghost var base := fields.items;
    NothingMerged(dk, base, parent);
    assert incoming[..0] == [];
    for k := 0 to |incoming|
      invariant index.Describes(fields.items)
      invariant fields.items == MergeFields(dk, base, incoming[..k])
      invariant drifts.events == old(drifts.events) + FieldDrifts(dk, base, incoming[..k], parent)
    {
      OneMore(dk, base, incoming, k, parent);
      MergeField(dk, fields, index, incoming[k], parent, drifts);
    }
    assert incoming[..|incoming|] == incoming;
  }

  method MergeAllFields(dk: string, base: seq<LogicalField>, incoming: seq<LogicalField>, parent: string,
                        drifts: DriftLog)
    returns (out: seq<LogicalField>)
    modifies drifts
    ensures out == MergeFields(dk, base, incoming)
    ensures drifts.events == old(drifts.events) + FieldDrifts(dk, base, incoming, parent)
    decreases incoming, 1
  {
    hide Parse, IndexesNames, IndexesFamilies;
    var fields := new FieldVector(base);
    var index := BuildFieldMergeIndex(base);
    MergeEach(dk, fields, index, incoming, parent, drifts);
    out := fields.items;
  }

  /** Reconciles two types; a failure leaves the log as it was. */
  method MergeTypes(dk: string, b: LogicalType, i: LogicalType, path: string, drifts: DriftLog)
    returns (r: Option<LogicalType>)
    modifies drifts
    ensures r == Merge(dk, b, i)
    ensures drifts.events == old(drifts.events) + TypeDrifts(dk, b, i, path)
    ensures r.None? ==> drifts.events == old(drifts.events)
    decreases i, b, 0
  {
    hide Parse;
    DriftMeansChange(dk, b, i, path);
    match b
    case Scalar(kind) =>
      if !i.Scalar? { return None; }
      if i.kind == Null || kind == i.kind { return Some(b); }
      if kind == Float64 && i.kind == Int64 { return Some(b); }
      if kind == Int64 && i.kind == Float64 { return Some(i); }
      if kind == Null { return Some(i); }
      return None;
    case List(value) =>
      var element := if i.List? then i.value else i;
      var merged := MergeTypes(dk, value, element, path + "[]", drifts);
      r := match merged case Some(v) => Some(List(v)) case None => None;
    case Struct(fields) =>
      match i
      case Struct(incoming) =>
        var out := MergeAllFields(dk, fields, incoming, path, drifts);
        r := Some(Struct(out));
      case List(_) => r := None;
      case Scalar(_) => r := MergeStructWithWrappedScalar(dk, fields, i, path, drifts);
  }

  // ------------------------------------------- what scanning positions shows

  lemma {:induction false} NoMember(dk: string, s: seq<LogicalField>, fam: string, skip: int, i: LogicalType)
    requires !HasFamily(s, fam, |s|)
    ensures FamilyTarget(dk, s, fam, skip, i) == NewVariant
  {
    hide Parse;
  }

  lemma {:induction false} NoExact(s: seq<LogicalField>, fam: string, skip: int, i: LogicalType, ps: seq<nat>)
    requires ps == Positions(s, fam, |s|)
    requires forall k :: 0 <= k < |ps| && ps[k] != skip ==> ps[k] < |s| && s[ps[k]].typ != i
    ensures ExactAt(s, fam, skip, i, |s|) == -1
  {
    hide Parse;
    PositionsAre(s, fam, |s|);
    var e := ExactAt(s, fam, skip, i, |s|);
    assert e >= 0 ==> e in ps;
  }

  lemma {:induction false} NewestIs(dk: string, s: seq<LogicalField>, fam: string, skip: int, i: LogicalType,
                                    ps: seq<nat>, n: nat)
    requires ps == Positions(s, fam, |s|) && n < |ps| && ps[n] < |s| && ps[n] != skip
             && Merge(dk, s[ps[n]].typ, i).Some?
    requires forall k :: n < k < |ps| && ps[k] != skip ==> ps[k] < |s| && Merge(dk, s[ps[k]].typ, i).None?
    ensures NewestCompatible(dk, s, fam, skip, i, |s|) == ps[n]
  {
    hide Parse;
    PositionsAre(s, fam, |s|);
    var q := NewestCompatible(dk, s, fam, skip, i, |s|);
    assert q in ps;
  }

  lemma {:induction false} NoCompatible(dk: string, s: seq<LogicalField>, fam: string, skip: int, i: LogicalType,
                                        ps: seq<nat>)
    requires ps == Positions(s, fam, |s|)
    requires forall k :: 0 <= k < |ps| && ps[k] != skip ==> ps[k] < |s| && Merge(dk, s[ps[k]].typ, i).None?
    ensures NewestCompatible(dk, s, fam, skip, i, |s|) == -1
  {
    hide Parse;
    PositionsAre(s, fam, |s|);
    var q := NewestCompatible(dk, s, fam, skip, i, |s|);
    assert q >= 0 ==> q in ps;
  }
}
