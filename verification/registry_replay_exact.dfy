/** Replay safety is exact: an unsafe state has an observation whose replay changes it. */
module RegistryReplayExact {
  import opened Basics
  import opened VariantNames
  import opened LogicalSchemas
  import opened SchemaEvolution
  import opened SchemaOrder
  import opened RegistryMerge
  import opened RegistryAbsorption
  import opened RegistryNumeric
  import opened RegistryVersions
  import opened RegistrySettling
  import opened RegistryReplay

  predicate ReplayIsNoOp(dk: string, s: seq<LogicalField>, incoming: seq<LogicalField>) {
    var n := NormalizeFields(MergeFields(dk, s, incoming));
    MergeFields(dk, n, incoming) == n
  }

  /** An observation under a version nobody has used. */
  function Probe(s: seq<LogicalField>, fam: string, i: LogicalType): LogicalField {
    LogicalField(Make(fam, NextVersion(s, fam, |s|), VariantSemantic(i)), true, i)
  }

  lemma {:induction false} ProbeFacts(s: seq<LogicalField>, fam: string, i: LogicalType)
    requires fam != ""
    ensures var f := Probe(s, fam, i);
            && Family(f.name) == fam && Versioned(f.name) && Canonical(f) == f && f.name != ""
            && LastNamed(s, f.name, |s|) == -1
  {
    ParseMake(fam, NextVersion(s, fam, |s|), VariantSemantic(i));
  }

  lemma {:induction false} SingleStep(dk: string, s: seq<LogicalField>, f: LogicalField)
    ensures MergeFields(dk, s, [f]) == Step(dk, s, f)
  {
    assert [f][1..] == [];
    assert MergeFields(dk, Step(dk, s, f), []) == Step(dk, s, f);
  }

  // ---------------------------------------------------------- an unsafe level

  lemma {:induction false} FamilyNotEmpty(name: string)
    requires Versioned(name)
    ensures Family(name) != ""
  {
    MakeParse(name);
  }

  /** What is exposed has a version name, and is widened by a plain type to a plain type. */
  lemma {:induction false} ExposedPlain(dk: string, s: seq<LogicalField>, j: nat, i: LogicalType)
    requires TidyLevel(s) && j < |s| && Exposed(dk, s, j, i)
    ensures Versioned(s[j].name) && Plain(i)
    ensures Merge(dk, s[j].typ, i).Some? && Plain(Merge(dk, s[j].typ, i).value)
  {
    hide Parse, Canonical;
    if !Overtaken(s, j, i) {
      var q :| 0 <= q < |s| && Repeats(dk, s, j, i, q);
      RepeatsPlain(dk, s, j, i, q);
    }
  }

  /** The probe lands on the exposed member. */
  lemma {:induction false} ProbeLands(dk: string, s: seq<LogicalField>, j: nat, i: LogicalType)
    requires TidyLevel(s) && j < |s| && Exposed(dk, s, j, i)
    ensures Target(dk, s, Probe(s, Family(s[j].name), i)) == AtProbe(j)
  {
    hide Parse;
    var fam := Family(s[j].name);
    var f := Probe(s, fam, i);
    ExposedPlain(dk, s, j, i);
    FamilyNotEmpty(s[j].name);
    ProbeFacts(s, fam, i);
    assert InFamily(s[j], fam);
    assert PastName(dk, s, f);
    ThroughFamily(dk, s, f);
  }

  lemma {:induction false} ProbePlaced(dk: string, s: seq<LogicalField>, j: nat, i: LogicalType)
    requires TidyFields(s) && j < |s| && Exposed(dk, s, j, i)
    ensures Merge(dk, s[j].typ, i).Some?
    ensures var f, c := Probe(s, Family(s[j].name), i), WithType(s, j, Merge(dk, s[j].typ, i).value);
            Placed(dk, s, f, c, j) && NormalizeChildren(c) == c
  {
    hide Parse, VariantName, Exposed;
    TidyIsLevel(s);
    ExposedPlain(dk, s, j, i);
    var fam, m := Family(s[j].name), Merge(dk, s[j].typ, i).value;
    var f, c := Probe(s, fam, i), WithType(s, j, m);
    FamilyNotEmpty(s[j].name);
    ProbeFacts(s, fam, i);
    ProbeLands(dk, s, j, i);
    PlainIsNormal(i);
    PlainIsNormal(m);
    forall k | 0 <= k < |s| ensures Normalize(s[k].typ) == s[k].typ { NormalIsFixed(s[k].typ); }
    assert NormalizeChildren(c) == c;
    UniqueFieldsSettle(s);
    OnePerFamilySettles(i);
    WidenedSettles(dk, s, j, i);
    Absorb(dk, s[j].typ, i);
  }

  /** There is a next in line: the float, or the member that is repeated. */
  lemma {:induction false} NextInLine(dk: string, s: seq<LogicalField>, j: nat, i: LogicalType)
    requires TidyLevel(s) && j < |s| && Exposed(dk, s, j, i)
    ensures NewestCompatible(dk, s, Family(s[j].name), -1, i, j) >= 0
  {
    hide Parse, Canonical;
    if Overtaken(s, j, i) {
      assert Merge(dk, FLOAT, INTEGER) == Some(FLOAT);
      assert FirstFloat(s, Family(s[j].name), 0) != j;
    } else {
      var q :| 0 <= q < |s| && Repeats(dk, s, j, i, q);
      RepeatOlder(dk, s, j, i, q);
      RepeatsPlain(dk, s, j, i, q);
    }
  }

  /** What is left of the family after the exposed member was dropped: the others, unchanged. */
  lemma {:induction false} OthersLeft(dk: string, s: seq<LogicalField>, f: LogicalField, c: seq<LogicalField>, j: nat,
                                      k: nat)
    requires TidyLevel(s) && Placed(dk, s, f, c, j) && Target(dk, s, f).AtProbe? && Exposed(dk, s, j, f.typ)
    requires k < |Emit(c, |c|)| && InFamily(Emit(c, |c|)[k], Family(f.name))
    ensures var o := Origins(c, |c|);
            k < |o| && o[k] < |s| && o[k] != j && InFamily(s[o[k]], Family(f.name)) && Emit(c, |c|)[k] == s[o[k]]
  {
    hide Parse, Settled, Survives, Exposed;
    ExposedDropped(dk, s, f, c, j);
    EmittedInOrder(c, |c|);
    var o := Origins(c, |c|)[k];
    SettledKeeps(c, o);
    OwnName(dk, s, f, c, j, o);
    OthersKept(dk, s, f, c, j, o);
  }

  /** Without backing, the member next in line is changed by the replay. */
  lemma {:induction false} UnbackedChanges(dk: string, s: seq<LogicalField>, j: nat, i: LogicalType)
    requires TidyFields(s) && j < |s| && Exposed(dk, s, j, i) && !Backed(dk, s, j, i)
    ensures Merge(dk, s[j].typ, i).Some?
    ensures var f, c := Probe(s, Family(s[j].name), i), WithType(s, j, Merge(dk, s[j].typ, i).value);
            !Stable(dk, Emit(c, |c|), f)
  {
    hide Parse, Settled, Survives, Exposed;
    TidyIsLevel(s);
    ExposedPlain(dk, s, j, i);
    var fam := Family(s[j].name);
    var f, c := Probe(s, fam, i), WithType(s, j, Merge(dk, s[j].typ, i).value);
    var r := Emit(c, |c|);
    FamilyNotEmpty(s[j].name);
    ProbeFacts(s, fam, i);
    ProbeLands(dk, s, j, i);
    ProbePlaced(dk, s, j, i);
    NextInLine(dk, s, j, i);
    ExposedDropped(dk, s, f, c, j);
    var q := NewestCompatible(dk, s, fam, -1, i, j);
    OthersKept(dk, s, f, c, j, q);
    var k := Emitted(dk, s, f, c, j, q);
    ProbeUnnamed(dk, s, f, c, j);
    ReplayLands(dk, s, f, c, j, q, k);
    assert Step(dk, r, f)[k].typ != r[k].typ;
  }

  lemma {:induction false} ProbeUnnamed(dk: string, s: seq<LogicalField>, f: LogicalField, c: seq<LogicalField>, j: nat)
    requires TidyLevel(s) && Placed(dk, s, f, c, j) && Target(dk, s, f).AtProbe? && Exposed(dk, s, j, f.typ)
    requires LastNamed(s, f.name, |s|) == -1
    ensures LastNamed(Emit(c, |c|), f.name, |Emit(c, |c|)|) == -1
  {
    hide Parse, Settled, Survives, Exposed;
    var r := Emit(c, |c|);
    forall k | 0 <= k < |r| ensures r[k].name != f.name {
      if InFamily(r[k], Family(f.name)) { OthersLeft(dk, s, f, c, j, k); }
    }
  }

  lemma {:induction false} AtProbeFamily(dk: string, s: seq<LogicalField>, f: LogicalField, c: seq<LogicalField>,
                                         j: nat)
    requires Placed(dk, s, f, c, j) && Target(dk, s, f).AtProbe?
    ensures j < |s| && InFamily(s[j], Family(f.name))
  {
    hide Parse;
  }

  /** The replayed probe lands on the next in line. */
  lemma {:induction false} ReplayLands(dk: string, s: seq<LogicalField>, f: LogicalField, c: seq<LogicalField>, j: nat,
                                       q: nat, k: nat)
    requires TidyLevel(s) && Placed(dk, s, f, c, j) && Target(dk, s, f).AtProbe? && Exposed(dk, s, j, f.typ)
    requires Versioned(f.name) && LastNamed(Emit(c, |c|), f.name, |Emit(c, |c|)|) == -1
    requires q == NewestCompatible(dk, s, Family(f.name), -1, f.typ, j)
    requires k < |Emit(c, |c|)| && k < |Origins(c, |c|)| && Origins(c, |c|)[k] == q && Emit(c, |c|)[k] == s[q]
    ensures Target(dk, Emit(c, |c|), f) == AtProbe(k)
  {
    hide Parse, Settled, Survives, Placed, Repeats, Overtaken, Emit, Emits, Origins, Merge, NewestCompatible, ExactAt;
    var r, fam := Emit(c, |c|), Family(f.name);
    EmittedInOrder(c, |c|);
    assert FirstInLine(dk, s, j, f.typ) && InFamily(s[j], fam) by { AtProbeFamily(dk, s, f, c, j); }
    hide Exposed;
    forall m | 0 <= m < |r| && InFamily(r[m], fam)
      ensures r[m].typ != f.typ && (m > k ==> Merge(dk, r[m].typ, f.typ).None?)
    {
      OthersLeft(dk, s, f, c, j, m);
    }
    assert InFamily(r[k], fam);
    assert PastName(dk, r, f);
    ThroughFamily(dk, r, f);
  }

  // ------------------------------------------------------- an unsafe level below

  lemma {:induction false} RetypedNormal(s: seq<LogicalField>, j: nat, t: LogicalType)
    requires TidyFields(s) && j < |s| && !s[j].typ.Scalar? && !t.Scalar?
    requires Normal(t) && VariantSemantic(t) == VariantSemantic(s[j].typ)
    ensures NormalFields(WithType(s, j, t)) && Distinct(FieldNames(WithType(s, j, t)))
  {
    hide Parse;
    var w := WithType(s, j, t);
    assert FieldNames(w) == FieldNames(s);
    forall k, l | 0 <= k < |w| && 0 <= l < |w| && SharesFloat(w[k], w[l]) ensures k == l {
      assert SharesFloat(s[k], s[l]);
    }
    forall k | 0 <= k < |w| ensures Canonical(w[k]) == w[k] {
      assert Canonical(s[k]) == s[k];
      RelabelledCanonical(s[k], w[k]);
    }
    forall k | 0 <= k < |w| ensures NoRepeat(w, k) { SoleNamed(w, k); }
  }

  /** A replay that changes a member's type changes the struct around it. */
  lemma {:induction false} ChangesAround(dk: string, s: seq<LogicalField>, j: nat, i: LogicalType)
    requires !Versioned(WrapperName(dk)) && TidyFields(s) && j < |s| && !s[j].typ.Scalar?
    requires Normal(i) && Replayable(i) && VariantSemantic(i) == VariantSemantic(s[j].typ)
    requires var m := Merge(dk, s[j].typ, i); m.Some? && Merge(dk, Normalize(m.value), i) != Some(Normalize(m.value))
    ensures !ReplayIsNoOp(dk, s, [LogicalField(s[j].name, true, i)])
  {
    hide Parse;
    var f, m := LogicalField(s[j].name, true, i), Merge(dk, s[j].typ, i).value;
    var n := Normalize(m);
    LabelledLanding(dk, s, f, j);
    SingleStep(dk, s, f);
    SameLabelMerges(dk, s[j].typ, i);
    NormalizeLabel(m);
    NormalizeIsNormal(m);
    var r, w := WithType(s, j, m), WithType(s, j, n);
    RetypedNormal(s, j, n);
    forall k | 0 <= k < |s| ensures Normalize(s[k].typ) == s[k].typ { NormalIsFixed(s[k].typ); }
    assert NormalizeChildren(r) == w;
    EmitNormal(w, |w|);
    assert w[..|w|] == w;
    assert NormalizeFields(r) == w;
    LabelledLanding(dk, w, f, j);
    SingleStep(dk, w, f);
    assert Step(dk, w, f)[j].typ != w[j].typ;
  }

  lemma {:induction false} SingleReplayable(f: LogicalField)
    requires Normal(f.typ) && Replayable(f.typ) && Canonical(f) == f && f.name != ""
    ensures NormalFields([f]) && ReplayableFields([f])
  {
    hide Parse;
    assert LastNamed([f], f.name, 0) == -1;
    assert AnchoredField([f][0]);
  }

  // -------------------------------------------------------------- whole trees

  lemma {:induction false} UnsafeFieldsInput(dk: string, s: seq<LogicalField>) returns (f: LogicalField)
    requires !Versioned(WrapperName(dk)) && TidyFields(s) && !SafeFields(dk, s)
    ensures NormalFields([f]) && ReplayableFields([f]) && !ReplayIsNoOp(dk, s, [f])
    decreases s
  {
    hide Parse, Exposed, Backed, ReplayIsNoOp;
    if !SafeLevel(dk, s) {
      var j, i :| 0 <= j < |s| && i in Candidates(s) && Exposed(dk, s, j, i) && !Backed(dk, s, j, i);
      f := Probe(s, Family(s[j].name), i);
      UnsafeLevelInput(dk, s, j, i);
    } else {
      var j :| 0 <= j < |s| && s[j].name != "" && !Safe(dk, s[j].typ);
      TidyMember(s, j);
      var i := UnsafeInput(dk, s[j].typ);
      f := LogicalField(s[j].name, true, i);
      assert Canonical(s[j]) == s[j];
      RelabelledCanonical(s[j], f);
      SingleReplayable(f);
      ChangesAround(dk, s, j, i);
    }
  }

  lemma {:induction false} UnsafeLevelInput(dk: string, s: seq<LogicalField>, j: nat, i: LogicalType)
    requires TidyFields(s) && j < |s| && Exposed(dk, s, j, i) && !Backed(dk, s, j, i)
    ensures var f := Probe(s, Family(s[j].name), i);
            NormalFields([f]) && ReplayableFields([f]) && !ReplayIsNoOp(dk, s, [f])
  {
    hide Parse, Backed, Exposed;
    TidyIsLevel(s);
    ExposedPlain(dk, s, j, i);
    var f, c := Probe(s, Family(s[j].name), i), WithType(s, j, Merge(dk, s[j].typ, i).value);
    FamilyNotEmpty(s[j].name);
    ProbeFacts(s, Family(s[j].name), i);
    PlainIsNormal(i);
    SingleReplayable(f);
    ProbeLands(dk, s, j, i);
    ProbePlaced(dk, s, j, i);
    SingleStep(dk, s, f);
    SingleStep(dk, Emit(c, |c|), f);
    UnbackedChanges(dk, s, j, i);
  }

  lemma {:induction false} UnsafeInput(dk: string, t: LogicalType) returns (i: LogicalType)
    requires !Versioned(WrapperName(dk)) && Tidy(t) && !Safe(dk, t)
    ensures Normal(i) && Replayable(i) && !i.Scalar? && !t.Scalar? && VariantSemantic(i) == VariantSemantic(t)
    ensures var m := Merge(dk, t, i); m.Some? && Merge(dk, Normalize(m.value), i) != Some(Normalize(m.value))
    decreases t
  {
    match t
    case List(value) =>
      i := UnsafeInput(dk, value);
      i := List(i);
    case Struct(fields) =>
      var f := UnsafeFieldsInput(dk, fields);
      i := Struct([f]);
  }

  /** Replay is a no-op for every observation exactly when the state is safe. */
  lemma {:induction false} ReplayExactly(dk: string, s: seq<LogicalField>)
    requires !Versioned(WrapperName(dk)) && TidyFields(s)
    ensures SafeFields(dk, s) <==>
            forall i :: NormalFields(i) && ReplayableFields(i) ==> ReplayIsNoOp(dk, s, i)
  {
    if SafeFields(dk, s) {
      forall i | NormalFields(i) && ReplayableFields(i) ensures ReplayIsNoOp(dk, s, i) { ReplayFields(dk, s, i); }
    } else {
      var f := UnsafeFieldsInput(dk, s);
    }
  }

  // -------------------------------------------------------- two unsafe states

  /** Three canonical siblings without a number make up a tidy state once their names differ. */
  lemma {:induction false} TidyThree(a: LogicalField, b: LogicalField, c: LogicalField)
    requires a.name != b.name && b.name != c.name && a.name != c.name
    requires Canonical(a) == a && Canonical(b) == b && Canonical(c) == c
    requires Plain(a.typ) && Plain(b.typ) && Plain(c.typ) && !Numeric(b) && !Numeric(c)
    ensures TidyFields([a, b, c])
  {
    hide Parse, Canonical;
    var s := [a, b, c];
    PlainIsNormal(a.typ);
    PlainIsNormal(b.typ);
    PlainIsNormal(c.typ);
    assert FieldNames(s) == [a.name, b.name, c.name];
    forall k | 0 <= k < |s| ensures NoRepeat(s, k) { SoleNamed(s, k); }
    forall k | 0 <= k < |s| ensures UniqueNames(s[k].typ) { PlainUnique(s[k].typ); }
  }

  lemma {:induction false} PlainUnique(t: LogicalType)
    requires Plain(t)
    ensures UniqueNames(t)
  {
    if t.List? { PlainUnique(t.value); }
  }

  /** A float overtakes: the float, then two null variants of one family. */
  lemma {:induction false} FloatThenNulls(dk: string) returns (s: seq<LogicalField>)
    ensures TidyFields(s) && WellVersionedFields(s) && !SafeFields(dk, s)
  {
    hide ParseAt;
    var nothing := Scalar(Null);
    assert VariantSemantic(FLOAT) == "float" && VariantSemantic(nothing) == "null";
    ParseMake("x", 2, "float");
    ParseMake("x", 3, "null");
    ParseMake("x", 4, "null");
    var a := LogicalField(Make("x", 2, "float"), true, FLOAT);
    var b := LogicalField(Make("x", 3, "null"), true, nothing);
    var c := LogicalField(Make("x", 4, "null"), true, nothing);
    s := [a, b, c];
    hide Parse;
    TidyThree(a, b, c);
    assert WellVersionedFields(s);
    assert Merge(dk, nothing, INTEGER) == Some(INTEGER) && Merge(dk, FLOAT, INTEGER) == Some(FLOAT);
    assert InFamily(s[0], "x") && InFamily(s[1], "x") && InFamily(s[2], "x");
    assert NewestCompatible(dk, s, "x", -1, INTEGER, 3) == 2;
    assert NewestCompatible(dk, s, "x", -1, INTEGER, 2) == 1;
    assert ExactAt(s, "x", -1, INTEGER, 3) < 0;
    assert FirstFloat(s, "x", 0) == 0;
    assert INTEGER in Candidates(s);
    assert Exposed(dk, s, 2, INTEGER) && !Backed(dk, s, 2, INTEGER);
  }

  lemma {:induction false} ShortName()
    ensures !Versioned("x")
  {
  }

  /** A list repeats: two list variants of one version, and between them a null that takes the element. */
  lemma {:induction false} ListThenNull(dk: string, a: LogicalField, b: LogicalField, c: LogicalField)
    requires Canonical(a) == a && Canonical(b) == b && Canonical(c) == c && Canonical(c.(typ := a.typ)) == a
    requires Family(a.name) == Family(b.name) == Family(c.name) == "x" && Versioned(a.name)
    requires Version(a.name) == Version(c.name) == 2 && Version(b.name) == 0
    requires a.typ == List(Scalar(Bool)) && b.typ == Scalar(Null) && c.typ == List(Scalar(Null))
    ensures TidyFields([a, b, c]) && NextVersion([a, b, c], "x", 3) == 3
    ensures Exposed(dk, [a, b, c], 2, Scalar(Bool)) && !Backed(dk, [a, b, c], 2, Scalar(Bool))
    ensures Scalar(Bool) in Candidates([a, b, c])
  {
    hide Parse, Canonical;
    var boolean, s := Scalar(Bool), [a, b, c];
    DifferentLabels(a, c);
    TidyThree(a, b, c);
    assert Merge(dk, Scalar(Null), boolean) == Some(boolean);
    assert Merge(dk, List(Scalar(Null)), boolean) == Some(List(boolean));
    assert InFamily(s[0], "x") && InFamily(s[1], "x") && InFamily(s[2], "x");
    assert NewestCompatible(dk, s, "x", -1, boolean, 3) == 2;
    assert NewestCompatible(dk, s, "x", -1, boolean, 2) == 1;
    assert boolean in Elements(s[0].typ);
    assert Repeats(dk, s, 2, boolean, 0);
    assert NextVersion(s, "x", 1) == 3 && NextVersion(s, "x", 2) == 3;
  }

  /** Unique names and safety from floats are not enough: the probe repeats a version, and its replay fills the null. */
  lemma {:induction false} RepeatedVersion(dk: string) returns (s: seq<LogicalField>, f: LogicalField)
    requires !Versioned(WrapperName(dk))
    ensures TidyFields(s) && !SafeFields(dk, s) && f == LogicalField(Make("x", 3, "boolean"), true, Scalar(Bool))
    ensures s == [LogicalField(Make("x", 2, "boolean_array"), true, List(Scalar(Bool))),
                  LogicalField("x", true, Scalar(Null)),
                  LogicalField(Make("x", 2, "null_array"), true, List(Scalar(Null)))]
    ensures NormalFields([f]) && ReplayableFields([f]) && !ReplayIsNoOp(dk, s, [f])
  {
    hide ParseAt, ReplayIsNoOp, Exposed, Backed;
    assert VariantSemantic(Scalar(Bool)) == "boolean" && VariantSemantic(Scalar(Null)) == "null";
    assert VariantSemantic(List(Scalar(Bool))) == "boolean_array"
      && VariantSemantic(List(Scalar(Null))) == "null_array";
    ParseMake("x", 2, "boolean_array");
    ParseMake("x", 2, "null_array");
    ShortName();
    var a := LogicalField(Make("x", 2, "boolean_array"), true, List(Scalar(Bool)));
    var b := LogicalField("x", true, Scalar(Null));
    var c := LogicalField(Make("x", 2, "null_array"), true, List(Scalar(Null)));
    s, f := [a, b, c], Probe([a, b, c], "x", Scalar(Bool));
    ListThenNull(dk, a, b, c);
    UnsafeLevelInput(dk, s, 2, Scalar(Bool));
  }

  lemma {:induction false} DifferentLabels(f: LogicalField, g: LogicalField)
    requires Canonical(f) == f && Canonical(g) == g && Versioned(f.name) && Plain(f.typ) && f.typ != g.typ
    ensures f.name != g.name
  {
    hide Parse, Canonical;
    if f.name == g.name {
      CanonicalLabel(f);
      CanonicalLabel(g);
      PlainLabels(f.typ, g.typ);
    }
  }

  // ------------------------------------------------ a repeated name, outside the equivalence

  /** A struct of booleans. */
  function Flags(names: seq<string>): LogicalType {
    Struct(seq(|names|, k requires 0 <= k < |names| => LogicalField(names[k], true, Scalar(Bool))))
  }

  lemma {:induction false} FlagsNormal(names: seq<string>)
    requires Distinct(names) && forall k :: 0 <= k < |names| ==> !Versioned(names[k])
    ensures Normal(Flags(names)) && VariantSemantic(Flags(names)) == "struct"
  {
    hide Parse;
    var s := Flags(names).fields;
    forall k | 0 <= k < |s| ensures NoRepeat(s, k) && Canonical(s[k]) == s[k] {
      assert forall d :: 0 <= d < k ==> s[d].name == names[d] != names[k];
    }
    assert OneNumeric(s) && CanonicalNames(s) && NoRepeats(s);
    assert NormalFields(s);
  }

  lemma {:induction false} FlagsSafe(dk: string, names: seq<string>)
    ensures Safe(dk, Flags(names))
  {
    hide Parse;
    var s := Flags(names).fields;
    forall j, i | 0 <= j < |s| && i in Candidates(s) ensures !Exposed(dk, s, j, i) {
      assert i == INTEGER && Merge(dk, s[j].typ, i) == None;
    }
    assert SafeLevel(dk, s) && forall j :: 0 <= j < |s| ==> Safe(dk, s[j].typ);
    assert SafeFields(dk, s);
  }

  lemma {:induction false} FlagsNeverRepeat(dk: string, names: seq<string>, others: seq<string>)
    ensures Merge(dk, Flags(names), INTEGER) != Some(Flags(others))
  {
    var s, o := Flags(names).fields, Flags(others).fields;
    assert (s + [LogicalField(WrapperName(dk), true, INTEGER)])[|s|].typ == INTEGER;
    assert forall k :: 0 <= k < |o| ==> o[k].typ != INTEGER;
  }

  /** Another flag is appended. */
  lemma {:induction false} FlagAdded(dk: string, name: string, other: string)
    requires !Versioned(other) && name != other
    ensures Merge(dk, Flags([name]), Flags([other])) == Some(Flags([name, other]))
  {
    var s, f := Flags([name]).fields, LogicalField(other, true, Scalar(Bool));
    assert Flags([other]).fields == [f] && [f][1..] == [];
    assert Target(dk, s, f) == Added;
    assert Step(dk, s, f) == s + [f] == Flags([name, other]).fields;
    assert MergeFields(dk, s + [f], []) == s + [f];
    assert MergeFields(dk, s, [f]) == s + [f];
  }

  lemma {:induction false} StructsSafe(dk: string, s: seq<LogicalField>, names: seq<seq<string>>)
    requires |names| == |s| && forall k :: 0 <= k < |s| ==> s[k].typ == Flags(names[k])
    ensures SafeFields(dk, s)
  {
    hide Parse, FirstInLine;
    forall j, i | 0 <= j < |s| && i in Candidates(s) ensures !Exposed(dk, s, j, i) {
      forall q | 0 <= q < |s| ensures !Repeats(dk, s, j, i, q) { FlagsNeverRepeat(dk, names[j], names[q]); }
    }
    forall j | 0 <= j < |s| ensures Safe(dk, s[j].typ) { FlagsSafe(dk, names[j]); }
  }

  /** The newest struct of the family takes a further flag. */
  lemma {:induction false} FlagLands(dk: string, s: seq<LogicalField>, f: LogicalField, n: string, m: string)
    requires Versioned(f.name) && f.typ == Flags([m]) && !Versioned(m) && n != m
    requires s != [] && forall k :: 0 <= k < |s| ==> InFamily(s[k], Family(f.name)) && s[k].name != f.name
    requires s[|s| - 1].typ == Flags([n]) && forall k :: 0 <= k < |s| ==> s[k].typ != f.typ
    ensures MergeFields(dk, s, [f]) == WithType(s, |s| - 1, Flags([n, m]))
  {
    hide Parse;
    FlagAdded(dk, n, m);
    assert Target(dk, s, f) == AtProbe(|s| - 1);
    assert [f][1..] == [];
    assert MergeFields(dk, Step(dk, s, f), []) == Step(dk, s, f);
  }

  lemma {:induction false} SecondDropped(a: LogicalField, b: LogicalField)
    requires !Versioned(a.name) && a.name != b.name && Canonical(b) == b
    requires a.typ.Struct? && b.typ.Struct? && Normal(a.typ) && Normal(b.typ)
    ensures NormalizeFields([a, b, a]) == [a, b]
  {
    hide Parse;
    var c := [a, b, a];
    NormalIsFixed(a.typ);
    NormalIsFixed(b.typ);
    assert NormalizeChildren(c) == c;
    assert Settled(c, 0) == a && Settled(c, 1) == b && Settled(c, 2) == a;
    assert Emit(c, 1) == [a];
    assert Emit(c, 2) == [a, b];
    assert LastNamed([a, b], a.name, 2) == 0;
    assert !Emits(c, 2);
  }

  lemma {:induction false} FlagNames()
    ensures !Versioned("a") && !Versioned("b") && !Versioned("c") && !Versioned("x")
  {
  }

  lemma {:induction false} FlagsDiffer()
    ensures Flags(["b"]) != Flags(["a", "b"]) && Flags(["b"]) != Flags(["c"]) && Flags(["b"]) != Flags(["a"])
    ensures Flags(["a"]) != Flags(["a", "b"]) && Flags(["c", "b"]) != Flags(["c"])
  {
    assert Flags(["a"]).fields[0].name == "a" && Flags(["b"]).fields[0].name == "b"
      && Flags(["c"]).fields[0].name == "c";
    assert |Flags(["a", "b"]).fields| == |Flags(["c", "b"]).fields| == 2;
  }

  lemma {:induction false} VariantNamesApart(b: LogicalField, f: LogicalField)
    requires b.name == Make("x", 2, "struct") && f.name == Make("x", 3, "struct")
    requires VariantSemantic(b.typ) == VariantSemantic(f.typ) == "struct"
    ensures Canonical(b) == b && Canonical(f) == f && Versioned(f.name) && Family(b.name) == Family(f.name) == "x"
    ensures b.name != f.name && b.name != "x" && f.name != "x" && f.name != ""
  {
    hide ParseAt;
    FlagNames();
    assert VariantSemantic(b.typ) == "struct";
    ParseMake("x", 2, "struct");
    ParseMake("x", 3, "struct");
  }

  lemma {:induction false} RepeatIsNormal(a: LogicalField, b: LogicalField, c: LogicalField)
    requires a.typ.Struct? && b.typ.Struct? && c.typ.Struct? && a.typ != c.typ && a.name == c.name != b.name
    requires Normal(a.typ) && Normal(b.typ) && Normal(c.typ)
    requires Canonical(a) == a && Canonical(b) == b && Canonical(c) == c
    ensures NormalFields([a, b, c])
  {
    hide Parse, Canonical;
    var s := [a, b, c];
    assert NoRepeat(s, 0) && NoRepeat(s, 1) && NoRepeat(s, 2);
  }

  lemma {:induction false} FlagObserved(f: LogicalField, m: string)
    requires Canonical(f) == f && f.name != "" && f.typ == Flags([m]) && !Versioned(m) && m != ""
    ensures NormalFields([f]) && ReplayableFields([f])
  {
    hide Parse, Canonical;
    FlagsNormal([m]);
    var g := LogicalField(m, true, Scalar(Bool));
    assert f.typ.fields == [g];
    assert OnePerFamily(g.typ) && AnchoredField(g);
    assert OnePerFamilyFields([g]) && AnchoredFields([g]);
    assert OnePerFamily(f.typ) && Anchored(f.typ) && AnchoredField(f);
    assert NoRepeat([f], 0);
  }

  /** Merging the flag and normalising drops the repeated name; merging it again changes the variant. */
  lemma {:induction false} DroppedThenChanged(dk: string, a: LogicalField, b: LogicalField, c: LogicalField,
                                              f: LogicalField)
    requires a == LogicalField("x", true, Flags(["a", "b"])) && c == LogicalField("x", true, Flags(["a"]))
    requires b.typ == Flags(["c"]) && f.typ == Flags(["b"])
    requires Canonical(b) == b && Versioned(f.name) && Family(b.name) == Family(f.name) == "x"
    requires b.name != f.name && b.name != "x" && f.name != "x"
    ensures !ReplayIsNoOp(dk, [a, b, c], [f])
  {
    hide Parse, Flags, Canonical, NormalizeFields, MergeFields;
    FlagNames();
    FlagsDiffer();
    FlagsNormal(["a", "b"]);
    FlagsNormal(["c"]);
    FlagLands(dk, [a, b, c], f, "a", "b");
    assert WithType([a, b, c], 2, Flags(["a", "b"])) == [a, b, a];
    SecondDropped(a, b);
    FlagLands(dk, [a, b], f, "c", "b");
    assert WithType([a, b], 1, Flags(["c", "b"]))[1] != b;
  }

  /** Without unique names the condition is not enough: a repeated name is dropped once it has caught up
      with the sibling before it, and the replay goes to the variant between them. */
  lemma {:induction false} RepeatedName(dk: string) returns (s: seq<LogicalField>, f: LogicalField)
    ensures s == [LogicalField("x", true, Flags(["a", "b"])), LogicalField(Make("x", 2, "struct"), true, Flags(["c"])),
                  LogicalField("x", true, Flags(["a"]))]
    ensures NormalFields(s) && SafeFields(dk, s) && NormalFields([f]) && ReplayableFields([f])
    ensures !ReplayIsNoOp(dk, s, [f])
  {
    hide Parse, Flags, Canonical, NormalFields, ReplayableFields, ReplayIsNoOp, SafeFields;
    FlagNames();
    FlagsDiffer();
    FlagsNormal(["a", "b"]);
    FlagsNormal(["a"]);
    FlagsNormal(["b"]);
    FlagsNormal(["c"]);
    var a := LogicalField("x", true, Flags(["a", "b"]));
    var b := LogicalField(Make("x", 2, "struct"), true, Flags(["c"]));
    var c := LogicalField("x", true, Flags(["a"]));
    s, f := [a, b, c], LogicalField(Make("x", 3, "struct"), true, Flags(["b"]));
    VariantNamesApart(b, f);
    CanonicalKeeps(a);
    CanonicalKeeps(c);
    StructsSafe(dk, s, [["a", "b"], ["c"], ["a"]]);
    RepeatIsNormal(a, b, c);
    FlagObserved(f, "b");
    DroppedThenChanged(dk, a, b, c, f);
  }
}
