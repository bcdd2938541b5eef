/** What one registry merge computes: the specification of the merge engine. */
module RegistryMerge {
  import opened Basics
  import opened VariantNames
  import opened LogicalSchemas

  /** Where an incoming field goes among the fields merged so far. */
  datatype Landing =
    | AtName(p: nat)    // widens the field of its own name
    | AtExact(p: nat)   // a family member already has exactly its type
    | AtProbe(p: nat)   // widens the newest compatible family member
    | NewVariant        // appended under a fresh version of its family
    | Added             // appended as it is

  /** The struct member that holds scalars observed where a struct was expected. */
  function WrapperName(dk: string): string {
    if dk == "" then "default_key" else dk
  }

  predicate InFamily(f: LogicalField, fam: string) { Family(f.name) == fam }

  function MergeScalars(b: ScalarKind, i: ScalarKind): Option<ScalarKind> {
    if i == Null || b == i || (b == Float64 && i == Int64) then Some(b)
    else if (b == Int64 && i == Float64) || b == Null then Some(i)
    else None
  }

  /** Reconciles two types, or `None` when the incoming one needs a variant of its own. */
  function Merge(dk: string, b: LogicalType, i: LogicalType): Option<LogicalType>
    decreases i, b, 0
  {
    match b
    case Scalar(kind) =>
      if !i.Scalar? then None
      else (match MergeScalars(kind, i.kind) case Some(k) => Some(Scalar(k)) case None => None)
    case List(value) =>
      (match Merge(dk, value, if i.List? then i.value else i)
       case Some(v) => Some(List(v))
       case None => None)
    case Struct(fields) =>
      if i.Struct? then Some(Struct(MergeFields(dk, fields, i.fields)))
      else if i.List? then None
      else
        var p := FirstNamed(fields, WrapperName(dk), 0);
        if p == |fields| then Some(Struct(fields + [LogicalField(WrapperName(dk), true, i)]))
        else
          match Merge(dk, fields[p].typ, i)
          case Some(t) => Some(Struct(WithType(fields, p, t)))
          case None => None
  }

  function WithType(s: seq<LogicalField>, p: nat, t: LogicalType): seq<LogicalField>
    requires p < |s|
  {
    s[p := s[p].(typ := t)]
  }

  function MergeFields(dk: string, s: seq<LogicalField>, incoming: seq<LogicalField>): seq<LogicalField>
    decreases incoming
  {
    if incoming == [] then s else MergeFields(dk, Step(dk, s, incoming[0]), incoming[1..])
  }

  /** Merges one incoming field. */
  function Step(dk: string, s: seq<LogicalField>, f: LogicalField): seq<LogicalField>
    decreases f, 1
  {
    match Target(dk, s, f)
    case AtName(p) => WithType(s, p, Merge(dk, s[p].typ, f.typ).value)
    case AtProbe(p) => WithType(s, p, Merge(dk, s[p].typ, f.typ).value)
    case AtExact(_) => s
    case NewVariant => s + [Variant(s, f)]
    case Added => s + [f]
  }

  function Target(dk: string, s: seq<LogicalField>, f: LogicalField): (l: Landing)
    ensures (l.AtName? || l.AtProbe?) ==> l.p < |s| && Merge(dk, s[l.p].typ, f.typ).Some?
    ensures (l.AtExact? || l.AtProbe?) ==>
              l.p < |s| && InFamily(s[l.p], Family(f.name)) && l.p != LastNamed(s, f.name, |s|)
    ensures l.AtExact? ==> s[l.p].typ == f.typ
    ensures l.AtName? ==> s[l.p].name == f.name
    decreases f, 0
  {
    var p := LastNamed(s, f.name, |s|);
    if p < 0 then
      if Versioned(f.name) && HasFamily(s, Family(f.name), |s|)
      then FamilyTarget(dk, s, Family(f.name), -1, f.typ)
      else Added
    else if Merge(dk, s[p].typ, f.typ).Some? then AtName(p)
    else FamilyTarget(dk, s, Family(f.name), p, f.typ)
  }

  function FamilyTarget(dk: string, s: seq<LogicalField>, fam: string, skip: int, i: LogicalType): (l: Landing)
    ensures !l.AtName? && !l.Added?
    ensures (l.AtExact? || l.AtProbe?) ==> l.p < |s| && InFamily(s[l.p], fam) && l.p != skip
    ensures l.AtExact? ==> s[l.p].typ == i
    ensures l.AtProbe? ==> Merge(dk, s[l.p].typ, i).Some?
    decreases i, s, 1
  {
    var e := ExactAt(s, fam, skip, i, |s|);
    if e >= 0 then AtExact(e)
    else
      var q := NewestCompatible(dk, s, fam, skip, i, |s|);
      if q >= 0 then AtProbe(q) else NewVariant
  }

  predicate HasFamily(s: seq<LogicalField>, fam: string, n: nat)
    requires n <= |s|
  {
    exists j :: 0 <= j < n && InFamily(s[j], fam)
  }

  lemma {:induction false} StillNone(s: seq<LogicalField>, fam: string, skip: int, i: LogicalType, q: int, n: nat)
    requires 0 < n <= |s| && -1 <= q < n - 1 && !(InFamily(s[n - 1], fam) && n - 1 != skip && s[n - 1].typ == i)
    requires forall j :: q < j < n - 1 && InFamily(s[j], fam) && j != skip ==> s[j].typ != i
    ensures forall j :: q < j < n && InFamily(s[j], fam) && j != skip ==> s[j].typ != i
  {
    hide Parse, InFamily;
  }

  /** The newest member, other than `skip`, whose type is exactly `i`; or -1. */
  function ExactAt(s: seq<LogicalField>, fam: string, skip: int, i: LogicalType, n: nat): (q: int)
    requires n <= |s|
    ensures -1 <= q < n
    ensures q >= 0 ==> InFamily(s[q], fam) && q != skip && s[q].typ == i
    ensures forall j :: q < j < n && InFamily(s[j], fam) && j != skip ==> s[j].typ != i
  {
    if n == 0 then -1
    else if InFamily(s[n - 1], fam) && n - 1 != skip && s[n - 1].typ == i then n - 1
    else
      var q := ExactAt(s, fam, skip, i, n - 1);
      StillNone(s, fam, skip, i, q, n);
      q
  }

  /** The newest member, other than `skip`, that can take `i`; or -1. */
  function NewestCompatible(dk: string, s: seq<LogicalField>, fam: string, skip: int, i: LogicalType, n: nat): (q: int)
    requires n <= |s|
    ensures -1 <= q < n
    ensures q >= 0 ==> InFamily(s[q], fam) && q != skip && Merge(dk, s[q].typ, i).Some?
    ensures forall j :: q < j < n && InFamily(s[j], fam) && j != skip ==> Merge(dk, s[j].typ, i).None?
    decreases i, s, 0, n
  {
    if n == 0 then -1
    else if InFamily(s[n - 1], fam) && n - 1 != skip && Merge(dk, s[n - 1].typ, i).Some? then n - 1
    else
      var q := NewestCompatible(dk, s, fam, skip, i, n - 1);
      StillRefused(dk, s, fam, skip, i, q, n);
      q
  }

  lemma {:induction false} StillRefused(dk: string, s: seq<LogicalField>, fam: string, skip: int, i: LogicalType,
                                        q: int, n: nat)
    requires 0 < n <= |s| && -1 <= q < n - 1
    requires !(InFamily(s[n - 1], fam) && n - 1 != skip && Merge(dk, s[n - 1].typ, i).Some?)
    requires forall j :: q < j < n - 1 && InFamily(s[j], fam) && j != skip ==> Merge(dk, s[j].typ, i).None?
    ensures forall j :: q < j < n && InFamily(s[j], fam) && j != skip ==> Merge(dk, s[j].typ, i).None?
    decreases i, s, 0, n - 1
  {
    hide Parse, InFamily, Merge;
  }

  /** Every member of the family among the first `n` fields has a version below `v`. */
  predicate AllBelow(s: seq<LogicalField>, fam: string, n: nat, v: nat)
    requires n <= |s|
  {
    forall j :: 0 <= j < n && InFamily(s[j], fam) ==> Version(s[j].name) < v
  }

  lemma {:induction false} OneMoreBelow(s: seq<LogicalField>, fam: string, n: nat, v: nat, w: nat)
    requires 0 < n <= |s| && AllBelow(s, fam, n - 1, v) && v <= w
    requires InFamily(s[n - 1], fam) ==> Version(s[n - 1].name) < w
    ensures AllBelow(s, fam, n, w)
  {
    hide Parse, InFamily, Version;
  }

  /** One past the highest version in the family, and at least 2. */
  function NextVersion(s: seq<LogicalField>, fam: string, n: nat): (v: nat)
    requires n <= |s|
    ensures v >= 2 && AllBelow(s, fam, n, v)
  {
    if n == 0 then 2
    else
      var v := NextVersion(s, fam, n - 1);
      var w := Version(s[n - 1].name) + 1;
      var next := if InFamily(s[n - 1], fam) && w > v then w else v;
      OneMoreBelow(s, fam, n, v, next);
      next
  }

  function Names(s: seq<LogicalField>): set<string> {
    set j | 0 <= j < |s| :: s[j].name
  }

  /** The first version from `v` on whose name is not taken. */
  function FreeVersion(taken: set<string>, fam: string, tag: string, v: nat): (w: nat)
    ensures w >= v && Make(fam, w, tag) !in taken
    ensures forall u :: v <= u < w ==> Make(fam, u, tag) in taken
    decreases taken
  {
    var candidate := Make(fam, v, tag);
    if candidate !in taken then v
    else
      var w := FreeVersion(taken - {candidate}, fam, tag, v + 1);
      MakeInjective(fam, v, w, tag);
      w
  }

  function VariantName(s: seq<LogicalField>, fam: string, t: LogicalType): string {
    var tag := VariantSemantic(t);
    Make(fam, FreeVersion(Names(s), fam, tag, NextVersion(s, fam, |s|)), tag)
  }

  function Variant(s: seq<LogicalField>, f: LogicalField): LogicalField {
    LogicalField(VariantName(s, Family(f.name), f.typ), true, f.typ)
  }
}
