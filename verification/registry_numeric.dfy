/** Integer/float normalisation: one durable numeric field per family that has seen a float. */
module RegistryNumeric {
  import opened VariantNames
  import opened LogicalSchemas
  import opened RegistryMerge

  const INTEGER := Scalar(Int64)
  const FLOAT := Scalar(Float64)

  predicate Numeric(f: LogicalField) { f.typ == INTEGER || f.typ == FLOAT }

  // ----------------------------------------------------------- specification

  /** The first float of a family from `k` on, or the length. */
  function FirstFloat(s: seq<LogicalField>, fam: string, k: nat): (p: nat)
    requires k <= |s|
    ensures k <= p <= |s|
    ensures p < |s| ==> InFamily(s[p], fam) && s[p].typ == FLOAT
    ensures forall j :: k <= j < p && InFamily(s[j], fam) ==> s[j].typ != FLOAT
    decreases |s| - k
  {
    if k == |s| || (InFamily(s[k], fam) && s[k].typ == FLOAT) then k else FirstFloat(s, fam, k + 1)
  }

  /** The first numeric field named as its family, from `k` on, or the length. */
  function FirstPlainNumeric(s: seq<LogicalField>, fam: string, k: nat): (p: nat)
    requires k <= |s|
    ensures k <= p <= |s|
    ensures p < |s| ==> InFamily(s[p], fam) && s[p].name == fam && Numeric(s[p])
    ensures forall j :: k <= j < p && InFamily(s[j], fam) && s[j].name == fam ==> !Numeric(s[j])
    decreases |s| - k
  {
    if k == |s| || (InFamily(s[k], fam) && s[k].name == fam && Numeric(s[k])) then k
    else FirstPlainNumeric(s, fam, k + 1)
  }

  /** The one numeric field that a family with a float keeps; the length when it has no float. */
  function Keep(s: seq<LogicalField>, fam: string): (p: nat)
    ensures p <= |s|
    ensures p < |s| ==> InFamily(s[p], fam) && Numeric(s[p])
    ensures p < |s| <==> FirstFloat(s, fam, 0) < |s|
  {
    var float := FirstFloat(s, fam, 0);
    var plain := FirstPlainNumeric(s, fam, 0);
    if float == |s| || plain == |s| then float else plain
  }

  predicate Survives(s: seq<LogicalField>, j: nat)
    requires j < |s|
  {
    Numeric(s[j]) ==> Keep(s, Family(s[j].name)) in {j, |s|}
  }

  /** A generated name follows the type of its field. */
  function Canonical(f: LogicalField): LogicalField {
    match Parse(f.name)
    case None => f
    case Some(p) =>
      if p.semantic == VariantSemantic(f.typ) then f
      else f.(name := Make(p.base, p.version, VariantSemantic(f.typ)))
  }

  function Settled(s: seq<LogicalField>, j: nat): LogicalField
    requires j < |s|
  {
    Canonical(if Numeric(s[j]) && Keep(s, Family(s[j].name)) == j then s[j].(typ := FLOAT) else s[j])
  }

  /** What the pass has emitted after the first `n` fields. */
  function Emit(s: seq<LogicalField>, n: nat): seq<LogicalField>
    requires n <= |s|
    decreases n, 0
  {
    if n == 0 then []
    else
      var out := Emit(s, n - 1);
      if Emits(s, n - 1) then out + [Settled(s, n - 1)] else out
  }

  /** Field `j` survives and does not repeat what was last emitted under its name. */
  predicate Emits(s: seq<LogicalField>, j: nat)
    requires j < |s|
    decreases j, 1
  {
    Survives(s, j) &&
    var g := Settled(s, j);
    var out := Emit(s, j);
    var d := LastNamed(out, g.name, |out|);
    d < 0 || out[d].typ != g.typ
  }

  function Normalize(t: LogicalType): LogicalType {
    match t
    case Scalar(_) => t
    case List(value) => List(Normalize(value))
    case Struct(fields) => Struct(NormalizeFields(fields))
  }

  function NormalizeFields(s: seq<LogicalField>): seq<LogicalField>
    decreases s, 1
  {
    var c := NormalizeChildren(s);
    Emit(c, |c|)
  }

  function NormalizeChildren(s: seq<LogicalField>): (c: seq<LogicalField>)
    ensures |c| == |s|
    ensures forall j :: 0 <= j < |s| ==> c[j] == s[j].(typ := Normalize(s[j].typ))
    decreases s, 0
  {
    seq(|s|, j requires 0 <= j < |s| => s[j].(typ := Normalize(s[j].typ)))
  }

  // ------------------------------------------------------------- single fields

  lemma {:induction false} CanonicalKeeps(f: LogicalField)
    ensures var g := Canonical(f);
            && g.typ == f.typ && g.nullable == f.nullable
            && Family(g.name) == Family(f.name) && Version(g.name) == Version(f.name)
            && (Versioned(g.name) <==> Versioned(f.name))
            && (!Versioned(f.name) ==> g == f)
            && (Versioned(g.name) ==> Parse(g.name).value.semantic == VariantSemantic(g.typ))
            && Canonical(g) == g
  {
    hide ParseAt;
    if Versioned(f.name) {
      MakeParse(f.name);
      var p := Parse(f.name).value;
      ParseMake(p.base, p.version, VariantSemantic(f.typ));
    }
  }

  /** Settling keeps family and version, and changes no type but an integer's, to float. */
  lemma {:induction false} SettledKeeps(s: seq<LogicalField>, j: nat)
    requires j < |s|
    ensures var g := Settled(s, j);
            && g.nullable == s[j].nullable
            && Family(g.name) == Family(s[j].name) && Version(g.name) == Version(s[j].name)
            && (Versioned(g.name) <==> Versioned(s[j].name))
            && (!Versioned(s[j].name) ==> g.name == s[j].name)
            && Canonical(g) == g
            && g.typ == (if Numeric(s[j]) && Keep(s, Family(s[j].name)) == j then FLOAT else s[j].typ)
  {
    CanonicalKeeps(if Numeric(s[j]) && Keep(s, Family(s[j].name)) == j then s[j].(typ := FLOAT) else s[j]);
  }

  // ------------------------------------------------------------ what is emitted

  /** The source position of every emitted field. */
  ghost function Origins(s: seq<LogicalField>, n: nat): seq<nat>
    requires n <= |s|
  {
    if n == 0 then [] else if Emits(s, n - 1) then Origins(s, n - 1) + [n - 1] else Origins(s, n - 1)
  }

  /** Survivors keep their relative order. */
  lemma {:induction false} EmittedInOrder(s: seq<LogicalField>, n: nat)
    requires n <= |s|
    ensures var o := Origins(s, n);
            && |o| == |Emit(s, n)|
            && (forall k :: 0 <= k < |o| ==> o[k] < n && Emits(s, o[k]) && Emit(s, n)[k] == Settled(s, o[k]))
            && (forall k, l :: 0 <= k < l < |o| ==> o[k] < o[l])
  {
    hide Settled, Survives;
    if n > 0 { EmittedInOrder(s, n - 1); }
  }

  /** Whatever survives is represented in the output under its settled name and type. */
  lemma {:induction false} SurvivorEmitted(s: seq<LogicalField>, n: nat, j: nat) returns (k: nat)
    requires j < n <= |s| && Survives(s, j)
    ensures k < |Emit(s, n)|
    ensures Emit(s, n)[k].name == Settled(s, j).name && Emit(s, n)[k].typ == Settled(s, j).typ
  {
    hide Settled, Survives;
    if j < n - 1 {
      k := SurvivorEmitted(s, n - 1, j);
    } else if Emits(s, j) {
      k := |Emit(s, j)|;
    } else {
      var out := Emit(s, j);
      k := LastNamed(out, Settled(s, j).name, |out|);
    }
  }

  /** A numeric field leaves a numeric field of its family behind, a float if any was there. */
  lemma {:induction false} NumericSurvives(s: seq<LogicalField>, j: nat) returns (k: nat)
    requires j < |s| && Numeric(s[j])
    ensures var r := Emit(s, |s|);
            && k < |r| && InFamily(r[k], Family(s[j].name))
            && r[k].typ == if FirstFloat(s, Family(s[j].name), 0) < |s| then FLOAT else INTEGER
  {
    var fam := Family(s[j].name);
    var p := if Keep(s, fam) < |s| then Keep(s, fam) else j;
    assert InFamily(s[p], fam);
    SettledKeeps(s, p);
    k := SurvivorEmitted(s, |s|, p);
  }

  // -------------------------------------------------------- normal form, fixpoint

  /** A family with a float has that float as its only numeric field. */
  predicate OneNumeric(s: seq<LogicalField>) {
    forall j, k | 0 <= j < |s| && 0 <= k < |s| :: SharesFloat(s[j], s[k]) ==> j == k
  }

  predicate SharesFloat(f: LogicalField, g: LogicalField) {
    f.typ == FLOAT && Numeric(g) && Family(f.name) == Family(g.name)
  }

  predicate CanonicalNames(s: seq<LogicalField>) {
    forall j :: 0 <= j < |s| ==> Canonical(s[j]) == s[j]
  }

  predicate NoRepeats(s: seq<LogicalField>) {
    forall k :: 0 <= k < |s| ==> NoRepeat(s, k)
  }

  predicate NoRepeat(s: seq<LogicalField>, k: nat)
    requires k < |s|
  {
    var d := LastNamed(s, s[k].name, k);
    d < 0 || s[d].typ != s[k].typ
  }

  predicate NormalLevel(s: seq<LogicalField>) { OneNumeric(s) && CanonicalNames(s) && NoRepeats(s) }

  predicate Normal(t: LogicalType) {
    match t
    case Scalar(_) => true
    case List(value) => Normal(value)
    case Struct(fields) => NormalFields(fields)
  }

  predicate NormalFields(s: seq<LogicalField>) {
    NormalLevel(s) && forall j :: 0 <= j < |s| ==> Normal(s[j].typ)
  }

  lemma {:induction false} LastNamedPrefix(s: seq<LogicalField>, r: seq<LogicalField>, name: string, n: nat)
    requires n <= |s| && n <= |r| && s[..n] == r[..n]
    ensures LastNamed(s, name, n) == LastNamed(r, name, n)
  {
    if n > 0 {
      assert s[n - 1] == s[..n][n - 1] == r[..n][n - 1];
      assert s[..n - 1] == s[..n][..n - 1] == r[..n - 1];
      LastNamedPrefix(s, r, name, n - 1);
    }
  }

  lemma {:induction false} EmitNoRepeats(s: seq<LogicalField>, n: nat)
    requires n <= |s|
    ensures NoRepeats(Emit(s, n))
  {
    hide Settled, Survives;
    if n > 0 {
      EmitNoRepeats(s, n - 1);
      if Emits(s, n - 1) { NoRepeatsAppend(Emit(s, n - 1), Settled(s, n - 1)); }
    }
  }

  lemma {:induction false} NoRepeatsAppend(out: seq<LogicalField>, g: LogicalField)
    requires NoRepeats(out)
    requires var d := LastNamed(out, g.name, |out|); d < 0 || out[d].typ != g.typ
    ensures NoRepeats(out + [g])
  {
    var r := out + [g];
    forall k | 0 <= k < |r| ensures NoRepeat(r, k) {
      if k < |out| { assert NoRepeat(out, k); }
      LastNamedPrefix(out, r, r[k].name, k);
    }
  }

  lemma {:induction false} EmitOneNumeric(s: seq<LogicalField>)
    ensures OneNumeric(Emit(s, |s|))
  {
    var r, o := Emit(s, |s|), Origins(s, |s|);
    EmittedInOrder(s, |s|);
    forall j, k | 0 <= j < |r| && 0 <= k < |r| && SharesFloat(r[j], r[k])
      ensures j == k
    {
      SettledKeeps(s, o[j]);
      SettledKeeps(s, o[k]);
      assert Numeric(s[o[j]]) && Numeric(s[o[k]]);
      assert o[j] == o[k];
    }
  }

  lemma {:induction false} EmitCanonical(s: seq<LogicalField>)
    ensures CanonicalNames(Emit(s, |s|))
  {
    EmittedInOrder(s, |s|);
    forall k | 0 <= k < |Emit(s, |s|)| ensures Canonical(Emit(s, |s|)[k]) == Emit(s, |s|)[k] {
      SettledKeeps(s, Origins(s, |s|)[k]);
    }
  }

  lemma {:induction false} NormalizeIsNormal(t: LogicalType)
    ensures Normal(Normalize(t))
  {
    match t
    case Scalar(_) =>
    case List(value) => NormalizeIsNormal(value);
    case Struct(fields) => NormalizeFieldsIsNormal(fields);
  }

  /** One numeric per float family, names that follow types, no repeats: at every level. */
  lemma {:induction false} NormalizeFieldsIsNormal(s: seq<LogicalField>)
    ensures NormalFields(NormalizeFields(s))
  {
    var c := NormalizeChildren(s);
    var r := Emit(c, |c|);
    EmitOneNumeric(c);
    EmitCanonical(c);
    EmitNoRepeats(c, |c|);
    EmittedInOrder(c, |c|);
    forall k | 0 <= k < |r| ensures Normal(r[k].typ) {
      var j := Origins(c, |c|)[k];
      SettledKeeps(c, j);
      NormalizeIsNormal(s[j].typ);
    }
  }

  lemma {:induction false} NormalSettled(s: seq<LogicalField>, j: nat)
    requires j < |s| && OneNumeric(s) && Canonical(s[j]) == s[j]
    ensures Survives(s, j) && Settled(s, j) == s[j]
  {
    hide Parse;
    var fam := Family(s[j].name);
    var float, keep := FirstFloat(s, fam, 0), Keep(s, fam);
    if Numeric(s[j]) && keep < |s| {
      assert SharesFloat(s[float], s[j]) && SharesFloat(s[float], s[keep]);
    }
  }

  lemma {:induction false} EmitNormal(s: seq<LogicalField>, n: nat)
    requires n <= |s| && NormalLevel(s)
    ensures Emit(s, n) == s[..n]
  {
    hide Settled, Survives;
    if n > 0 {
      var j := n - 1;
      EmitNormal(s, j);
      assert Canonical(s[j]) == s[j];
      NormalSettled(s, j);
      assert NoRepeat(s, j);
      LastNamedPrefix(Emit(s, j), s, s[j].name, j);
      assert s[..n] == s[..j] + [s[j]];
    }
  }

  lemma {:induction false} NormalIsFixed(t: LogicalType)
    requires Normal(t)
    ensures Normalize(t) == t
  {
    match t
    case Scalar(_) =>
    case List(value) => NormalIsFixed(value);
    case Struct(fields) => NormalFieldsAreFixed(fields);
  }

  lemma {:induction false} NormalFieldsAreFixed(s: seq<LogicalField>)
    requires NormalFields(s)
    ensures NormalizeFields(s) == s
  {
    forall j | 0 <= j < |s| ensures Normalize(s[j].typ) == s[j].typ { NormalIsFixed(s[j].typ); }
    assert NormalizeChildren(s) == s;
    EmitNormal(s, |s|);
    assert s[..|s|] == s;
  }

  /** Normalising is idempotent on every tree. */
  lemma {:induction false} NormalizeTwice(s: seq<LogicalField>)
    ensures NormalizeFields(NormalizeFields(s)) == NormalizeFields(s)
  {
    NormalizeFieldsIsNormal(s);
    NormalFieldsAreFixed(NormalizeFields(s));
  }
}
