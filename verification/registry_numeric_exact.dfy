/** What the numeric pass keeps, told apart from how it plans and emits. */
module RegistryNumericExact {
  import opened Basics
  import opened VariantNames
  import opened LogicalSchemas
  import opened RegistryMerge
  import opened RegistryNumeric

  // ------------------------------------------------------------ the kept number

  predicate FloatAt(s: seq<LogicalField>, fam: string, k: nat)
    requires k < |s|
  {
    Family(s[k].name) == fam && s[k].typ == FLOAT
  }

  /** A number under the family's own name. */
  predicate PlainAt(s: seq<LogicalField>, fam: string, k: nat)
    requires k < |s|
  {
    Family(s[k].name) == fam == s[k].name && Numeric(s[k])
  }

  predicate HasFloat(s: seq<LogicalField>, fam: string) {
    exists k :: 0 <= k < |s| && FloatAt(s, fam, k)
  }

  /** The number a family with a float is folded into: the first under the family's own name, or else the first
      float. */
  predicate Kept(s: seq<LogicalField>, fam: string, j: nat)
    requires j < |s|
  {
    HasFloat(s, fam) &&
    if exists k :: 0 <= k < |s| && PlainAt(s, fam, k)
    then PlainAt(s, fam, j) && forall k :: 0 <= k < j ==> !PlainAt(s, fam, k)
    else FloatAt(s, fam, j) && forall k :: 0 <= k < j ==> !FloatAt(s, fam, k)
  }

  lemma {:induction false} FirstFloatIs(s: seq<LogicalField>, fam: string)
    ensures var p := FirstFloat(s, fam, 0);
            && (p < |s| ==> FloatAt(s, fam, p)) && (p < |s| <==> HasFloat(s, fam))
            && forall k :: 0 <= k < p ==> !FloatAt(s, fam, k)
  {
    hide Family;
    var p := FirstFloat(s, fam, 0);
    forall k | 0 <= k < p ensures !FloatAt(s, fam, k) { assert InFamily(s[k], fam) ==> s[k].typ != FLOAT; }
    if p < |s| { assert FloatAt(s, fam, p); }
  }

  lemma {:induction false} FirstPlainIs(s: seq<LogicalField>, fam: string)
    ensures var p := FirstPlainNumeric(s, fam, 0);
            && (p < |s| ==> PlainAt(s, fam, p)) && (p < |s| <==> exists k :: 0 <= k < |s| && PlainAt(s, fam, k))
            && forall k :: 0 <= k < p ==> !PlainAt(s, fam, k)
  {
    hide Family;
    var p := FirstPlainNumeric(s, fam, 0);
    forall k | 0 <= k < p ensures !PlainAt(s, fam, k) {
      assert InFamily(s[k], fam) && s[k].name == fam ==> !Numeric(s[k]);
    }
    if p < |s| { assert PlainAt(s, fam, p); }
  }

  lemma {:induction false} KeepExactly(s: seq<LogicalField>, fam: string, j: nat)
    requires j < |s|
    ensures Keep(s, fam) == j <==> Kept(s, fam, j)
    ensures Keep(s, fam) == |s| <==> !HasFloat(s, fam)
  {
    hide FloatAt, PlainAt, HasFloat, FirstFloat, FirstPlainNumeric;
    FirstFloatIs(s, fam);
    FirstPlainIs(s, fam);
  }

  // --------------------------------------------------------------- every survivor

  /** A number of a family with a float stays only as the kept one; everything else stays. */
  predicate Stays(s: seq<LogicalField>, j: nat)
    requires j < |s|
  {
    Numeric(s[j]) && HasFloat(s, Family(s[j].name)) ==> Kept(s, Family(s[j].name), j)
  }

  /** The name follows the type: a version name keeps base and version, and any other name stays. */
  predicate Relabelled(name: string, typ: LogicalType, r: string) {
    if Parse(name) == None || Parse(name).value.semantic == VariantSemantic(typ) then r == name
    else
      && Parse(r).Some? && Parse(r).value.base == Parse(name).value.base
      && Parse(r).value.version == Parse(name).value.version && Parse(r).value.semantic == VariantSemantic(typ)
  }

  /** A field as it is put out: the kept number is a float. */
  predicate Becomes(s: seq<LogicalField>, j: nat, g: LogicalField)
    requires j < |s|
  {
    && g.nullable == s[j].nullable && Relabelled(s[j].name, g.typ, g.name)
    && g.typ == if Numeric(s[j]) && Kept(s, Family(s[j].name), j) then FLOAT else s[j].typ
  }

  /** The last field put out under the same name has the same type. */
  ghost predicate RepeatsLast(r: seq<LogicalField>, n: nat, g: LogicalField)
    requires n <= |r|
  {
    exists d :: 0 <= d < n && LastOf(r, d, n, g) && r[d].typ == g.typ
  }

  predicate LastOf(r: seq<LogicalField>, d: nat, n: nat, g: LogicalField)
    requires d < n <= |r|
  {
    r[d].name == g.name && forall k :: d < k < n ==> r[k].name != g.name
  }

  /** `r` has, in order, what stays of `s` and does not repeat what was last put out under its name; field `o[k]`
      becomes `r[k]`. */
  ghost predicate Collapses(s: seq<LogicalField>, r: seq<LogicalField>, o: seq<nat>) {
    && |o| == |r|
    && (forall k :: 0 <= k < |o| ==> o[k] < |s| && Stays(s, o[k]) && Becomes(s, o[k], r[k]) && !RepeatsLast(r, k, r[k]))
    && (forall k, l :: 0 <= k < l < |o| ==> o[k] < o[l])
    && (forall j :: 0 <= j < |s| && Stays(s, j) && j !in o ==> Dropped(s, r, o, j))
  }

  /** Field `j` repeats the last field that came of an earlier position under its name. */
  ghost predicate Dropped(s: seq<LogicalField>, r: seq<LogicalField>, o: seq<nat>, j: nat)
    requires j < |s| && |o| == |r|
  {
    exists n: nat, g :: Splits(o, n, j) && n <= |r| && Becomes(s, j, g) && RepeatsLast(r, n, g)
  }

  predicate Splits(o: seq<nat>, n: nat, j: nat) {
    n <= |o| && (forall k :: 0 <= k < n ==> o[k] < j) && forall k :: n <= k < |o| ==> j < o[k]
  }

  lemma {:induction false} StaysExactly(s: seq<LogicalField>, j: nat)
    requires j < |s|
    ensures Survives(s, j) <==> Stays(s, j)
  {
    hide Kept, HasFloat, Keep;
    KeepExactly(s, Family(s[j].name), j);
  }

  lemma {:induction false} SettledBecomes(s: seq<LogicalField>, j: nat)
    requires j < |s|
    ensures Becomes(s, j, Settled(s, j))
  {
    hide Kept, HasFloat, Keep, Parse;
    var fam := Family(s[j].name);
    KeepExactly(s, fam, j);
    var f := if Numeric(s[j]) && Keep(s, fam) == j then s[j].(typ := FLOAT) else s[j];
    CanonicalRelabels(f);
    CanonicalKeeps(f);
  }

  lemma {:induction false} CanonicalRelabels(f: LogicalField)
    ensures Relabelled(f.name, f.typ, Canonical(f).name)
  {
    hide ParseAt;
    if Versioned(f.name) {
      MakeParse(f.name);
      var p := Parse(f.name).value;
      ParseMake(p.base, p.version, VariantSemantic(f.typ));
    }
  }

  lemma {:induction false} EmitsExactly(s: seq<LogicalField>, j: nat)
    requires j < |s|
    ensures Emits(s, j) <==> Stays(s, j) && !RepeatsLast(Emit(s, j), |Emit(s, j)|, Settled(s, j))
  {
    hide Settled, Survives, Stays, Emit;
    StaysExactly(s, j);
    var g, out := Settled(s, j), Emit(s, j);
    var d := LastNamed(out, g.name, |out|);
    if d >= 0 { assert LastOf(out, d, |out|, g); }
  }

  // ------------------------------------------------------------------ one level

  lemma {:induction false} EmitGrows(s: seq<LogicalField>, j: nat, m: nat)
    requires j <= m <= |s|
    ensures Emit(s, j) <= Emit(s, m) && Origins(s, j) <= Origins(s, m)
    ensures forall k :: |Origins(s, j)| <= k < |Origins(s, m)| ==> j <= Origins(s, m)[k]
  {
    hide Emits;
    if j < m { EmitGrows(s, j, m - 1); }
  }

  lemma {:induction false} RepeatsPrefix(r: seq<LogicalField>, n: nat, g: LogicalField)
    requires n <= |r|
    ensures RepeatsLast(r[..n], n, g) <==> RepeatsLast(r, n, g)
  {
    forall d | 0 <= d < n ensures LastOf(r[..n], d, n, g) <==> LastOf(r, d, n, g) {
      assert forall k :: 0 <= k < n ==> r[..n][k] == r[k];
    }
  }

  /** Where position `j` falls among the origins. */
  lemma {:induction false} SplitsAt(s: seq<LogicalField>, j: nat)
    requires j < |s|
    ensures var r, o, n := Emit(s, |s|), Origins(s, |s|), |Emit(s, j)|;
            && n <= |r| == |o| && Emit(s, j) == r[..n]
            && (if Emits(s, j) then n < |o| && o[n] == j else j !in o && Splits(o, n, j))
  {
    hide Emits;
    EmitGrows(s, j, j + 1);
    EmitGrows(s, j + 1, |s|);
    EmittedInOrder(s, j);
    EmittedInOrder(s, |s|);
  }

  lemma {:induction false} LevelCollapses(s: seq<LogicalField>)
    ensures Collapses(s, Emit(s, |s|), Origins(s, |s|))
  {
    hide Emit, Emits, Origins, Settled, Stays, Becomes, RepeatsLast;
    var r, o := Emit(s, |s|), Origins(s, |s|);
    EmittedInOrder(s, |s|);
    forall k | 0 <= k < |o| ensures Stays(s, o[k]) && Becomes(s, o[k], r[k]) && !RepeatsLast(r, k, r[k]) {
      SettledBecomes(s, o[k]);
      EmitsExactly(s, o[k]);
      SplitsAt(s, o[k]);
      RepeatsPrefix(r, k, r[k]);
    }
    forall j | 0 <= j < |s| && Stays(s, j) && j !in o ensures Dropped(s, r, o, j) {
      SettledBecomes(s, j);
      EmitsExactly(s, j);
      SplitsAt(s, j);
      var n := |Emit(s, j)|;
      RepeatsPrefix(r, n, Settled(s, j));
      assert Splits(o, n, j) && Becomes(s, j, Settled(s, j));
    }
  }

  // ---------------------------------------------------------------- every level

  /** Field for field, a list with children normalised. */
  ghost predicate Children(s: seq<LogicalField>, c: seq<LogicalField>)
    decreases s, 0
  {
    |c| == |s| &&
    forall k :: 0 <= k < |s| ==>
      c[k].name == s[k].name && c[k].nullable == s[k].nullable && Normalizes(s[k].typ, c[k].typ)
  }

  ghost predicate Normalizes(t: LogicalType, r: LogicalType)
    decreases t, 1
  {
    match t
    case Scalar(_) => r == t
    case List(value) => r.List? && Normalizes(value, r.value)
    case Struct(fields) => r.Struct? && exists c, o :: Children(fields, c) && Collapses(c, r.fields, o)
  }

  /** The numeric pass collapses every struct level, the innermost first. */
  lemma {:induction false} NormalizesExactly(t: LogicalType)
    ensures Normalizes(t, Normalize(t))
  {
    match t
    case Scalar(_) =>
    case List(value) => NormalizesExactly(value);
    case Struct(fields) =>
      hide Collapses, Emit;
      var c := NormalizeChildren(fields);
      forall k | 0 <= k < |fields| ensures Normalizes(fields[k].typ, c[k].typ) { NormalizesExactly(fields[k].typ); }
      LevelCollapses(c);
      assert Children(fields, c) && Collapses(c, NormalizeFields(fields), Origins(c, |c|));
  }
}
