/** When two types reconcile, and where a field lands: the merge seen from outside. */
module RegistryReconciling {
  import opened Basics
  import opened VariantNames
  import opened LogicalSchemas
  import opened RegistryMerge
  import opened RegistryGrowth

  // ------------------------------------------------------------------ scalars

  /** `u` takes the values of both kinds. */
  predicate Bounds(b: ScalarKind, i: ScalarKind, u: ScalarKind) {
    ScalarWidens(b, u) && ScalarWidens(i, u)
  }

  /** Two kinds reconcile exactly when some kind bounds both, and then to the least such kind. */
  lemma {:induction false} ScalarsJoin(b: ScalarKind, i: ScalarKind)
    ensures MergeScalars(b, i).Some? <==> exists u :: Bounds(b, i, u)
    ensures MergeScalars(b, i).Some? ==>
              var m := MergeScalars(b, i).value; Bounds(b, i, m) && forall u :: Bounds(b, i, u) ==> ScalarWidens(m, u)
  {
    if MergeScalars(b, i).Some? { assert Bounds(b, i, MergeScalars(b, i).value); }
  }

  // -------------------------------------------------------------------- types

  /** How many lists are wrapped around the core of a type. */
  function Nesting(t: LogicalType): nat {
    if t.List? then 1 + Nesting(t.value) else 0
  }

  function Core(t: LogicalType): (r: LogicalType)
    ensures !r.List? && (r == t || r < t)
  {
    if t.List? then Core(t.value) else t
  }

  /** A type takes another one that is nested no deeper and whose core its own core takes: a scalar takes
      one that shares a bound, a struct takes every struct, and a scalar unless its wrapper member refuses it. */
  predicate Reconciles(dk: string, b: LogicalType, i: LogicalType)
    decreases b, 1
  {
    Nesting(i) <= Nesting(b) && CoreTakes(dk, Core(b), Core(i))
  }

  predicate CoreTakes(dk: string, b: LogicalType, i: LogicalType)
    decreases b, 0
  {
    match b
    case Scalar(kind) => i.Scalar? && exists u :: Bounds(kind, i.kind, u)
    case List(_) => false
    case Struct(fields) =>
      i.Struct? ||
      (i.Scalar? && var p := FirstNamed(fields, WrapperName(dk), 0); p < |fields| ==> Reconciles(dk, fields[p].typ, i))
  }

  /** The element of a list takes what the list takes. */
  lemma {:induction false} ListTakes(dk: string, value: LogicalType, i: LogicalType)
    ensures Reconciles(dk, List(value), i) <==> Reconciles(dk, value, if i.List? then i.value else i)
  {
  }

  /** A merge succeeds exactly when the two types reconcile. */
  lemma {:induction false} MergesExactly(dk: string, b: LogicalType, i: LogicalType)
    ensures Merge(dk, b, i).Some? <==> Reconciles(dk, b, i)
    decreases b
  {
    match b
    case Scalar(kind) => if i.Scalar? { ScalarsJoin(kind, i.kind); }
    case List(value) =>
      MergesExactly(dk, value, if i.List? then i.value else i);
      ListTakes(dk, value, i);
    case Struct(fields) =>
      var p := FirstNamed(fields, WrapperName(dk), 0);
      if i.Scalar? && p < |fields| { MergesExactly(dk, fields[p].typ, i); }
  }

  // ----------------------------------------------------------- names in a level

  predicate Unnamed(s: seq<LogicalField>, name: string) {
    forall j :: 0 <= j < |s| ==> s[j].name != name
  }

  predicate FirstOf(s: seq<LogicalField>, name: string, p: nat) {
    p < |s| && s[p].name == name && forall j :: 0 <= j < p ==> s[j].name != name
  }

  predicate LastOf(s: seq<LogicalField>, name: string, p: nat) {
    p < |s| && s[p].name == name && forall j :: p < j < |s| ==> s[j].name != name
  }

  // ------------------------------------------------------------------- retyping

  /** Field `p` is retyped to what it and the observation reconcile to, and nothing else changes. */
  ghost predicate Retyped(dk: string, s: seq<LogicalField>, f: LogicalField, p: nat, r: seq<LogicalField>) {
    && p < |s| && Reconciles(dk, s[p].typ, f.typ) && |r| == |s|
    && Merge(dk, s[p].typ, f.typ) == Some(r[p].typ) && r[p] == s[p].(typ := r[p].typ)
    && forall j :: 0 <= j < |s| && j != p ==> r[j] == s[j]
  }

  lemma {:induction false} RetypedIs(dk: string, s: seq<LogicalField>, f: LogicalField, p: nat)
    requires p < |s| && Merge(dk, s[p].typ, f.typ).Some?
    ensures Retyped(dk, s, f, p, WithType(s, p, Merge(dk, s[p].typ, f.typ).value))
  {
    hide Merge, Reconciles;
    MergesExactly(dk, s[p].typ, f.typ);
  }

  /** A scalar goes to the first wrapper member of a struct, which is appended, nullable, when there is none. */
  lemma {:induction false} WrapperTakes(dk: string, fields: seq<LogicalField>, kind: ScalarKind)
    requires Merge(dk, Struct(fields), Scalar(kind)).Some?
    ensures var r, w :=
            Merge(dk, Struct(fields), Scalar(kind)).value, LogicalField(WrapperName(dk), true, Scalar(kind));
            r.Struct? &&
            if Unnamed(fields, w.name) then r.fields == fields + [w]
            else exists p :: FirstOf(fields, w.name, p) && Retyped(dk, fields, w, p, r.fields)
  {
    hide Reconciles;
    var w, p := LogicalField(WrapperName(dk), true, Scalar(kind)), FirstNamed(fields, WrapperName(dk), 0);
    if p < |fields| {
      MergesExactly(dk, fields[p].typ, Scalar(kind));
      assert FirstOf(fields, w.name, p);
      RetypedIs(dk, fields, w, p);
    }
  }

  // ------------------------------------------------------------ new variant names

  /** A version that a new variant of the family may carry: above every member's, under a free name. */
  predicate MayCarry(s: seq<LogicalField>, fam: string, tag: string, v: nat) {
    v >= 2 && AllBelow(s, fam, |s|, v) && Unnamed(s, Make(fam, v, tag))
  }

  lemma {:induction false} NextIsLeast(s: seq<LogicalField>, fam: string, n: nat, u: nat)
    requires n <= |s| && u >= 2 && AllBelow(s, fam, n, u)
    ensures NextVersion(s, fam, n) <= u
  {
    hide Parse;
    if n > 0 {
      assert InFamily(s[n - 1], fam) ==> Version(s[n - 1].name) < u;
      assert AllBelow(s, fam, n - 1, u);
      NextIsLeast(s, fam, n - 1, u);
    }
  }

  /** A new variant is nullable and carries the least version it may. */
  lemma {:induction false} VariantIsLeast(s: seq<LogicalField>, f: LogicalField) returns (v: nat)
    ensures var fam, tag := Family(f.name), VariantSemantic(f.typ);
            && Variant(s, f) == LogicalField(Make(fam, v, tag), true, f.typ) && MayCarry(s, fam, tag, v)
            && forall u :: MayCarry(s, fam, tag, u) ==> v <= u
  {
    hide Parse, Make;
    var fam, tag := Family(f.name), VariantSemantic(f.typ);
    var next := NextVersion(s, fam, |s|);
    v := FreeVersion(Names(s), fam, tag, next);
    assert forall name :: name !in Names(s) <==> Unnamed(s, name);
    forall u | MayCarry(s, fam, tag, u) ensures v <= u { NextIsLeast(s, fam, |s|, u); }
  }

  // -------------------------------------------------------------- where a field lands

  /** The family decides: the last field of the name refuses the type, or there is none and the name is a
      version of a family that is there. `skip` is that field, or -1. */
  predicate FamilyDecides(dk: string, s: seq<LogicalField>, f: LogicalField, skip: int) {
    if skip < 0
    then skip == -1 && Unnamed(s, f.name) && Versioned(f.name) && HasFamily(s, Family(f.name), |s|)
    else LastOf(s, f.name, skip) && !Reconciles(dk, s[skip].typ, f.typ)
  }

  predicate Member(s: seq<LogicalField>, f: LogicalField, skip: int, j: nat) {
    j < |s| && j != skip && InFamily(s[j], Family(f.name))
  }

  /** One more field, under the least version it may carry. */
  ghost predicate Versions(s: seq<LogicalField>, f: LogicalField, r: seq<LogicalField>) {
    exists v :: && LeastCarried(s, f, v)
                && r == s + [LogicalField(Make(Family(f.name), v, VariantSemantic(f.typ)), true, f.typ)]
  }

  ghost predicate LeastCarried(s: seq<LogicalField>, f: LogicalField, v: nat) {
    var fam, tag := Family(f.name), VariantSemantic(f.typ);
    MayCarry(s, fam, tag, v) && forall u :: MayCarry(s, fam, tag, u) ==> v <= u
  }

  /** Merging one field: by name when the last field of its name takes it; else, where the family decides,
      nothing when a member has exactly its type, into the newest member that takes it, or as a new variant;
      else as it is. */
  ghost predicate Lands(dk: string, s: seq<LogicalField>, f: LogicalField, r: seq<LogicalField>) {
    || (exists p :: LastOf(s, f.name, p) && Retyped(dk, s, f, p, r))
    || (exists skip :: FamilyDecides(dk, s, f, skip) && LandsInFamily(dk, s, f, skip, r))
    || (Unnamed(s, f.name) && !(Versioned(f.name) && HasFamily(s, Family(f.name), |s|)) && r == s + [f])
  }

  ghost predicate LandsInFamily(dk: string, s: seq<LogicalField>, f: LogicalField, skip: int, r: seq<LogicalField>) {
    if exists j: nat :: Member(s, f, skip, j) && s[j].typ == f.typ then r == s
    else if exists j: nat :: Member(s, f, skip, j) && Reconciles(dk, s[j].typ, f.typ) then
      exists q: nat :: && Member(s, f, skip, q) && Retyped(dk, s, f, q, r)
                  && forall j :: q < j < |s| && Member(s, f, skip, j) ==> !Reconciles(dk, s[j].typ, f.typ)
    else Versions(s, f, r)
  }

  lemma {:induction false} FamilyLands(dk: string, s: seq<LogicalField>, f: LogicalField, skip: int)
    requires FamilyDecides(dk, s, f, skip) && Target(dk, s, f) == FamilyTarget(dk, s, Family(f.name), skip, f.typ)
    ensures LandsInFamily(dk, s, f, skip, Step(dk, s, f))
  {
    hide Parse, Merge, Reconciles, FamilyDecides, ExactAt, NewestCompatible;
    forall j | 0 <= j < |s| ensures Merge(dk, s[j].typ, f.typ).Some? <==> Reconciles(dk, s[j].typ, f.typ) {
      MergesExactly(dk, s[j].typ, f.typ);
    }
    match Target(dk, s, f)
    case AtExact(e) => assert Member(s, f, skip, e);
    case AtProbe(q) =>
      assert Member(s, f, skip, q);
      RetypedIs(dk, s, f, q);
    case NewVariant =>
      var v := VariantIsLeast(s, f);
      assert LeastCarried(s, f, v);
  }

  /** Every field lands exactly there. */
  lemma {:induction false} StepLands(dk: string, s: seq<LogicalField>, f: LogicalField)
    ensures Lands(dk, s, f, Step(dk, s, f))
  {
    hide Parse, Merge, Reconciles, LandsInFamily;
    var p, r := LastNamed(s, f.name, |s|), Step(dk, s, f);
    if p >= 0 {
      MergesExactly(dk, s[p].typ, f.typ);
      assert LastOf(s, f.name, p);
      if Reconciles(dk, s[p].typ, f.typ) {
        RetypedIs(dk, s, f, p);
      } else {
        assert FamilyDecides(dk, s, f, p);
        FamilyLands(dk, s, f, p);
      }
    } else if Versioned(f.name) && HasFamily(s, Family(f.name), |s|) {
      assert FamilyDecides(dk, s, f, -1);
      FamilyLands(dk, s, f, -1);
    }
  }
}
