/** Replay through the whole pipeline: normalising what a merge produced keeps it absorbed. */
module RegistryReplay {
  import opened Basics
  import opened VariantNames
  import opened LogicalSchemas
  import opened SchemaEvolution
  import opened SchemaOrder
  import opened RegistryMerge
  import opened RegistryAbsorption
  import opened RegistryNumeric
  import opened RegistryVersions
  import opened RegistrySettling

  predicate NullVariant(f: LogicalField) { f.typ == Scalar(Null) && Versioned(f.name) }

  predicate Absorbs(dk: string, g: LogicalField, i: LogicalType) { Merge(dk, g.typ, i) == Some(g.typ) }

  /** No member has exactly type `i`, and `j` is the newest member that can take it. */
  predicate FirstInLine(dk: string, s: seq<LogicalField>, j: nat, i: LogicalType)
    requires j < |s|
  {
    var fam := Family(s[j].name);
    ExactAt(s, fam, -1, i, |s|) < 0 && NewestCompatible(dk, s, fam, -1, i, |s|) == j
  }

  /** The integer that a null variant takes is dropped again in favour of the float of its family. */
  predicate Overtaken(s: seq<LogicalField>, j: nat, i: LogicalType)
    requires j < |s|
  {
    i == INTEGER && NullVariant(s[j]) && FirstFloat(s, Family(s[j].name), 0) < |s|
  }

  /** Widened by `i`, member `j` settles on the name and type of member `q`, and is dropped as its repeat. */
  predicate Repeats(dk: string, s: seq<LogicalField>, j: nat, i: LogicalType, q: nat)
    requires j < |s| && q < |s|
  {
    q != j && Merge(dk, s[j].typ, i) == Some(s[q].typ) && Canonical(s[j].(typ := s[q].typ)).name == s[q].name
  }

  /** The observation goes to a member that the numeric pass then drops. */
  predicate Exposed(dk: string, s: seq<LogicalField>, j: nat, i: LogicalType)
    requires j < |s|
  {
    FirstInLine(dk, s, j, i) && (Overtaken(s, j, i) || exists q :: 0 <= q < |s| && Repeats(dk, s, j, i, q))
  }

  /** The next in line takes the observation without changing. */
  predicate Backed(dk: string, s: seq<LogicalField>, j: nat, i: LogicalType)
    requires j < |s|
  {
    var q := NewestCompatible(dk, s, Family(s[j].name), -1, i, j);
    q >= 0 && Absorbs(dk, s[q], i)
  }

  /** The types a nested list is made of, outermost first. */
  function Elements(t: LogicalType): seq<LogicalType> {
    if t.List? then [t.value] + Elements(t.value) else []
  }

  /** The observations that can be exposed: integers, and elements of the members' lists. */
  function Candidates(s: seq<LogicalField>): set<LogicalType> {
    {INTEGER} + set k, i | 0 <= k < |s| && i in Elements(s[k].typ) :: i
  }

  predicate SafeLevel(dk: string, s: seq<LogicalField>) {
    forall j, i :: 0 <= j < |s| && i in Candidates(s) && Exposed(dk, s, j, i) ==> Backed(dk, s, j, i)
  }

  /** No struct level that a named observation can reach has an exposed, unbacked member. */
  predicate Safe(dk: string, t: LogicalType) {
    match t
    case Scalar(_) => true
    case List(value) => Safe(dk, value)
    case Struct(fields) => SafeFields(dk, fields)
  }

  predicate SafeFields(dk: string, s: seq<LogicalField>) {
    SafeLevel(dk, s) && forall j :: 0 <= j < |s| && s[j].name != "" ==> Safe(dk, s[j].typ)
  }

  /** A registry state: normalised, with unique names at every level. */
  predicate Tidy(t: LogicalType) { Normal(t) && UniqueNames(t) }

  predicate TidyFields(s: seq<LogicalField>) { NormalFields(s) && UniqueFields(s) }

  // ------------------------------------------------------------ widened members

  lemma {:induction false} ElementOfList(e: LogicalType, t: LogicalType)
    requires e in Elements(t)
    ensures List(e) in Elements(List(t))
  {
    if e != t.value { ElementOfList(e, t.value); }
  }

  /** A plain widening is by the widened type itself, or by an element of it. */
  lemma {:induction false} WidenedBy(dk: string, b: LogicalType, i: LogicalType)
    requires Merge(dk, b, i).Some? && Plain(Merge(dk, b, i).value) && Merge(dk, b, i) != Some(b)
    ensures var m := Merge(dk, b, i).value; Plain(i) && (i == m || i in Elements(m))
    ensures Merge(dk, b, i).value.Scalar? ==> b.Scalar?
    decreases b
  {
    var m := Merge(dk, b, i).value;
    if b.List? {
      var e := if i.List? then i.value else i;
      WidenedBy(dk, b.value, e);
      if i.List? && e in Elements(m.value) { ElementOfList(e, m.value); }
    }
  }

  /** A member that repeats another one was widened to a plain type, under a version name. */
  lemma {:induction false} RepeatsPlain(dk: string, s: seq<LogicalField>, j: nat, i: LogicalType, q: nat)
    requires TidyLevel(s) && j < |s| && q < |s| && Repeats(dk, s, j, i, q)
    ensures Versioned(s[j].name) && InFamily(s[q], Family(s[j].name)) && Version(s[q].name) == Version(s[j].name)
    ensures Plain(s[q].typ) && Plain(i) && s[q].typ != s[j].typ && (i == s[q].typ || i in Elements(s[q].typ))
  {
    hide Parse;
    var f, m := s[j], s[q].typ;
    var h := f.(typ := m);
    assert FieldNames(s)[j] != FieldNames(s)[q];
    assert Canonical(f) == f && Canonical(s[q]) == s[q];
    CanonicalKeeps(h);
    if VariantSemantic(m) == VariantSemantic(f.typ) { RelabelledName(f, h); }
    MergeRelabels(dk, f.typ, i);
    WidenedBy(dk, f.typ, i);
  }

  /** With distinct versions no member repeats another. */
  lemma {:induction false} DistinctNeverRepeat(dk: string, s: seq<LogicalField>, j: nat, i: LogicalType, q: nat)
    requires TidyLevel(s) && DistinctVersions(s) && j < |s| && q < |s|
    ensures !Repeats(dk, s, j, i, q)
  {
    hide Parse;
    if Repeats(dk, s, j, i, q) { RepeatsPlain(dk, s, j, i, q); }
    assert j != q ==> !Clash(s[j], s[q]) && !Clash(s[q], s[j]);
  }

  predicate TidyLevel(s: seq<LogicalField>) {
    OneNumeric(s) && CanonicalNames(s) && Distinct(FieldNames(s))
  }

  lemma {:induction false} OnePerFamilyVersions(t: LogicalType)
    requires OnePerFamily(t)
    ensures WellVersioned(t)
  {
    match t
    case Scalar(_) =>
    case List(value) => OnePerFamilyVersions(value);
    case Struct(fields) =>
      forall j | 0 <= j < |fields| ensures WellVersioned(fields[j].typ) { OnePerFamilyVersions(fields[j].typ); }
  }

  // ---------------------------------------------- where survivors are emitted

  lemma {:induction false} SoleNamed(r: seq<LogicalField>, j: nat)
    requires Distinct(FieldNames(r)) && j < |r|
    ensures LastNamed(r, r[j].name, |r|) == j && FirstNamed(r, r[j].name, 0) == j
    ensures forall k :: 0 <= k < |r| && r[k].name == r[j].name ==> k == j
  {
    var names := FieldNames(r);
    forall k | 0 <= k < |r| && k != j ensures r[k].name != r[j].name {
      assert names[k] == r[k].name && names[j] == r[j].name;
    }
  }

  lemma {:induction false} ApartNames(c: seq<LogicalField>)
    requires TellsApart(c)
    ensures Distinct(FieldNames(c))
  {
    hide Parse;
    forall j, k | 0 <= j < k < |c| ensures FieldNames(c)[j] != FieldNames(c)[k] { assert Apart(c[j], c[k]); }
  }

  lemma {:induction false} OriginOf(s: seq<LogicalField>, n: nat, j: nat) returns (k: nat)
    requires j < n <= |s| && Emits(s, j)
    ensures k < |Origins(s, n)| && Origins(s, n)[k] == j
  {
    hide Settled, Survives;
    if j == n - 1 { k := |Origins(s, n)| - 1; } else { k := OriginOf(s, n - 1, j); }
  }

  /** A survivor whose settled name no earlier field has is emitted, in order. */
  lemma {:induction false} Place(c: seq<LogicalField>, j: nat) returns (k: nat)
    requires j < |c| && Survives(c, j) && forall i :: 0 <= i < j ==> Settled(c, i).name != Settled(c, j).name
    ensures var r, o := Emit(c, |c|), Origins(c, |c|);
            k < |r| == |o| && o[k] == j && r[k] == Settled(c, j)
  {
    hide Settled, Survives;
    EmittedInOrder(c, j);
    k := OriginOf(c, |c|, j);
    EmittedInOrder(c, |c|);
  }

  /** A field under a plain name is always emitted. */
  lemma {:induction false} PlacePlain(c: seq<LogicalField>, j: nat) returns (k: nat)
    requires j < |c| && TellsApart(c) && !Versioned(c[j].name)
    ensures Survives(c, j)
    ensures var r, o := Emit(c, |c|), Origins(c, |c|);
            k < |r| == |o| && o[k] == j && r[k] == Settled(c, j)
  {
    hide Parse, Settled;
    ApartNames(c);
    PlainSurvives(c, j);
    SettledKeeps(c, j);
    forall i | 0 <= i < j ensures Settled(c, i).name != Settled(c, j).name {
      SettledKeeps(c, i);
      SoleNamed(c, i);
    }
    k := Place(c, j);
  }

  lemma {:induction false} PlainSurvives(c: seq<LogicalField>, j: nat)
    requires j < |c| && Distinct(FieldNames(c)) && !Versioned(c[j].name)
    ensures Survives(c, j)
  {
    hide Parse;
    SoleNamed(c, j);
  }

  lemma {:induction false} SettledSame(c: seq<LogicalField>, j: nat)
    requires j < |c| && Canonical(c[j]) == c[j] && Settled(c, j).typ == c[j].typ
    ensures Settled(c, j) == c[j]
  {
    SettledKeeps(c, j);
  }

  /** Settling keeps a type absorbed, and keeps it refused. */
  lemma {:induction false} SettledAlike(dk: string, c: seq<LogicalField>, j: nat, i: LogicalType)
    requires j < |c|
    ensures Merge(dk, c[j].typ, i) == Some(c[j].typ) ==> Merge(dk, Settled(c, j).typ, i) == Some(Settled(c, j).typ)
    ensures Merge(dk, c[j].typ, i).None? ==> Merge(dk, Settled(c, j).typ, i).None?
  {
    hide Parse, Settled, Survives;
    SettledKeeps(c, j);
  }

  // ------------------------------------------------- criteria for stability

  lemma {:induction false} StableByName(dk: string, r: seq<LogicalField>, f: LogicalField, k: nat)
    requires k < |r| && r[k].name == f.name && Distinct(FieldNames(r))
    requires Merge(dk, r[k].typ, f.typ) == Some(r[k].typ)
    ensures Stable(dk, r, f)
  {
    hide Parse;
    SoleNamed(r, k);
    assert Target(dk, r, f) == AtName(k);
    assert WithType(r, k, r[k].typ) == r;
  }

  lemma {:induction false} StableByExact(dk: string, r: seq<LogicalField>, f: LogicalField, k: nat)
    requires PastName(dk, r, f)
    requires k < |r| && InFamily(r[k], Family(f.name)) && k != LastNamed(r, f.name, |r|) && r[k].typ == f.typ
    ensures Stable(dk, r, f)
  {
    hide Parse;
    ThroughFamily(dk, r, f);
  }

  lemma {:induction false} StableByNewest(dk: string, r: seq<LogicalField>, f: LogicalField, k: nat)
    requires PastName(dk, r, f)
    requires k < |r| && InFamily(r[k], Family(f.name)) && k != LastNamed(r, f.name, |r|)
    requires Merge(dk, r[k].typ, f.typ) == Some(r[k].typ)
    requires forall l :: k < l < |r| && InFamily(r[l], Family(f.name)) && l != LastNamed(r, f.name, |r|)
                         ==> Merge(dk, r[l].typ, f.typ).None?
    ensures Stable(dk, r, f)
  {
    hide Parse;
    ThroughFamily(dk, r, f);
    assert NewestCompatible(dk, r, Family(f.name), LastNamed(r, f.name, |r|), f.typ, |r|) == k;
    assert WithType(r, k, r[k].typ) == r;
  }

  // --------------------------------------------- one field, merged and settled

  /** `c` is what `s` became in the family of `f`: the landing `l` holds `f`, the rest is as it was. */
  predicate Placed(dk: string, s: seq<LogicalField>, f: LogicalField, c: seq<LogicalField>, l: nat) {
    var fam := Family(f.name);
    && l < |c| && InFamily(c[l], fam) && TellsApart(c)
    && (forall j :: 0 <= j < |c| && j != l && InFamily(c[j], fam) ==> j < |s| && c[j] == s[j])
    && (forall j :: 0 <= j < |s| && j != l && InFamily(s[j], fam) ==> j < |c| && c[j] == s[j])
    && (l >= |s| ==> forall j :: 0 <= j < |s| && InFamily(s[j], fam) ==> !Clash(s[j], c[l]))
    && Merge(dk, c[l].typ, f.typ) == Some(c[l].typ)
    && match Target(dk, s, f)
       case AtName(p) => l == p && c[l] == s[l].(typ := Normalize(Merge(dk, s[l].typ, f.typ).value))
       case AtProbe(p) => l == p && c[l] == s[l].(typ := Normalize(Merge(dk, s[l].typ, f.typ).value))
       case AtExact(p) => l == p && c[l] == s[l]
       case NewVariant => l >= |s| && c[l].typ == f.typ
       case Added => l >= |s| && c[l] == f
  }

  /** Away from the landing, the family settles on the names it has. */
  lemma {:induction false} OwnName(dk: string, s: seq<LogicalField>, f: LogicalField, c: seq<LogicalField>, l: nat,
                                   k: nat)
    requires TidyLevel(s) && Placed(dk, s, f, c, l)
    requires k < |c| && k != l && InFamily(c[k], Family(f.name))
    ensures k < |s| && c[k] == s[k] && Settled(c, k).name == s[k].name
  {
    hide Parse, Settled;
    assert Canonical(s[k]) == s[k];
    SettledKeeps(c, k);
    if Versioned(c[k].name) { VersionedSettled(c, k); }
  }

  /** No other member of the family has the name that the landing settles on. */
  predicate Fresh(c: seq<LogicalField>, l: nat)
    requires l < |c|
  {
    forall j :: 0 <= j < |c| && j != l && InFamily(c[j], Family(c[l].name)) ==> c[j].name != Settled(c, l).name
  }

  /** Where a survivor of the family is emitted: the landing if its name is fresh, others if older. */
  lemma {:induction false} Emitted(dk: string, s: seq<LogicalField>, f: LogicalField, c: seq<LogicalField>, l: nat,
                                   q: nat)
    returns (k: nat)
    requires TidyLevel(s) && Placed(dk, s, f, c, l)
    requires q <= l && InFamily(c[q], Family(f.name)) && Survives(c, q) && (q == l ==> Fresh(c, l))
    ensures var r, o := Emit(c, |c|), Origins(c, |c|);
            k < |r| == |o| && o[k] == q && r[k] == Settled(c, q)
  {
    hide Parse, Settled, Survives, Canonical;
    SettledKeeps(c, q);
    forall i | 0 <= i < q ensures Settled(c, i).name != Settled(c, q).name {
      SettledKeeps(c, i);
      if InFamily(c[i], Family(f.name)) {
        OwnName(dk, s, f, c, l, i);
        if q < l {
          OwnName(dk, s, f, c, l, q);
          SoleNamed(s, i);
        }
      }
    }
    k := Place(c, q);
  }

  /** A landing that keeps its name, or that has a version of its own, is fresh. */
  lemma {:induction false} LandingFresh(dk: string, s: seq<LogicalField>, f: LogicalField, c: seq<LogicalField>, l: nat)
    requires TidyLevel(s) && Placed(dk, s, f, c, l)
    requires l < |s| ==> Settled(c, l).name == s[l].name
    ensures Fresh(c, l)
  {
    hide Parse, Settled;
    SettledKeeps(c, l);
    forall j | 0 <= j < |c| && j != l && InFamily(c[j], Family(f.name)) ensures c[j].name != Settled(c, l).name {
      assert c[j] == s[j];
      if l < |s| { SoleNamed(s, j); } else { assert !Clash(s[j], c[l]); }
    }
  }

  /** A settled field under the name of `f` takes `f`, or is the one that refused it before. */
  lemma {:induction false} NamedAfter(dk: string, s: seq<LogicalField>, f: LogicalField, c: seq<LogicalField>, l: nat,
                                      k: nat)
    requires TidyLevel(s) && Canonical(f) == f && Placed(dk, s, f, c, l)
    requires k < |Emit(c, |c|)| && Emit(c, |c|)[k].name == f.name
    ensures var g, o := Emit(c, |c|)[k], Origins(c, |c|);
            || Merge(dk, g.typ, f.typ) == Some(g.typ)
            || (|o| > k && o[k] == LastNamed(s, f.name, |s|) && o[k] != l && !Versioned(f.name)
                && Merge(dk, g.typ, f.typ).None?)
  {
    hide Parse, Settled, Survives;
    EmittedInOrder(c, |c|);
    var j, g := Origins(c, |c|)[k], Emit(c, |c|)[k];
    SettledKeeps(c, j);
    SettledAlike(dk, c, j, f.typ);
    if j != l {
      assert InFamily(c[j], Family(f.name));
      if Versioned(f.name) {
        CanonicalLabel(f);
        CanonicalLabel(g);
        SameLabelMerges(dk, g.typ, f.typ);
        if g.typ == s[j].typ && !g.typ.Scalar? {
          SettledSame(c, j);
          LabelledLanding(dk, s, f, j);
        }
      } else {
        SoleNamed(s, j);
      }
    }
  }

  /** A field of the name and label of `f` is where `f` lands. */
  lemma {:induction false} LabelledLanding(dk: string, s: seq<LogicalField>, f: LogicalField, j: nat)
    requires Distinct(FieldNames(s)) && j < |s| && s[j].name == f.name
    requires VariantSemantic(s[j].typ) == VariantSemantic(f.typ)
    ensures Target(dk, s, f) == AtName(j)
  {
    SameLabelMerges(dk, s[j].typ, f.typ);
    SoleNamed(s, j);
  }

  /** The name of `f` does not settle the matter, before or after. */
  predicate Undecided(dk: string, s: seq<LogicalField>, f: LogicalField, r: seq<LogicalField>) {
    var n := LastNamed(r, f.name, |r|);
    PastName(dk, s, f) && (n < 0 || !Absorbs(dk, r[n], f.typ))
  }

  lemma {:induction false} PastNameAfter(dk: string, s: seq<LogicalField>, f: LogicalField, c: seq<LogicalField>,
                                         l: nat, k: nat)
    requires TidyLevel(s) && Canonical(f) == f && Placed(dk, s, f, c, l) && Undecided(dk, s, f, Emit(c, |c|))
    requires k < |Emit(c, |c|)| && InFamily(Emit(c, |c|)[k], Family(f.name))
    ensures PastName(dk, Emit(c, |c|), f)
  {
    hide Parse, Settled, Survives;
    var r := Emit(c, |c|);
    var n, p := LastNamed(r, f.name, |r|), LastNamed(s, f.name, |s|);
    ThroughFamily(dk, s, f);
    if n >= 0 {
      NamedAfter(dk, s, f, c, l, n);
    } else if !Versioned(f.name) {
      assert InFamily(s[p], Family(f.name)) && p != l;
      SettledKeeps(c, p);
      var k := PlacePlain(c, p);
    }
  }

  /** A family left as it was keeps every member. */
  lemma {:induction false} Untouched(dk: string, s: seq<LogicalField>, f: LogicalField, c: seq<LogicalField>, l: nat)
    requires TidyLevel(s) && Placed(dk, s, f, c, l) && l < |s| && c[l] == s[l]
    ensures Survives(c, l) && Settled(c, l) == c[l]
  {
    hide Parse, PastName;
    var fam := Family(f.name);
    var float, keep := FirstFloat(c, fam, 0), Keep(c, fam);
    if Numeric(c[l]) && keep < |c| {
      assert c[float] == s[float] && c[keep] == s[keep];
      assert SharesFloat(s[float], s[l]) && SharesFloat(s[float], s[keep]);
    }
    assert Canonical(s[l]) == s[l];
  }

  /** An integer that found no float to join stays an integer. */
  lemma {:induction false} NoFloat(dk: string, s: seq<LogicalField>, f: LogicalField, c: seq<LogicalField>, l: nat)
    requires Placed(dk, s, f, c, l) && PastName(dk, s, f) && f.typ == c[l].typ == INTEGER
    requires forall j :: 0 <= j < |s| && j != l && InFamily(s[j], Family(f.name)) && j != LastNamed(s, f.name, |s|)
                         ==> s[j].typ != FLOAT
    ensures Survives(c, l) && Settled(c, l).typ == INTEGER
  {
    hide Parse, Settled;
    var fam := Family(f.name);
    var float := FirstFloat(c, fam, 0);
    assert Merge(dk, FLOAT, INTEGER) == Some(FLOAT);
    SettledKeeps(c, l);
  }

  /** Where an exact type or a new variant is found again. */
  lemma {:induction false} FoundExact(dk: string, s: seq<LogicalField>, f: LogicalField, c: seq<LogicalField>, l: nat)
    requires TidyLevel(s) && Placed(dk, s, f, c, l) && f.typ != FLOAT
    requires Target(dk, s, f).AtExact? || Target(dk, s, f).NewVariant?
    ensures Survives(c, l) && Settled(c, l).typ == f.typ
  {
    hide Parse, Settled;
    ThroughFamily(dk, s, f);
    SettledKeeps(c, l);
    if Target(dk, s, f).AtExact? {
      Untouched(dk, s, f, c, l);
    } else if f.typ == INTEGER {
      assert Merge(dk, FLOAT, INTEGER) == Some(FLOAT);
      NoFloat(dk, s, f, c, l);
    }
  }

  /** The newest compatible member survives, unless a float replaces it by a float. */
  lemma {:induction false} ProbeSurvives(dk: string, s: seq<LogicalField>, f: LogicalField, c: seq<LogicalField>,
                                         l: nat)
    requires TidyLevel(s) && Placed(dk, s, f, c, l) && Target(dk, s, f).AtProbe?
    requires f.typ != FLOAT || c[l].typ != FLOAT
    requires !Overtaken(s, l, f.typ)
    ensures Survives(c, l)
  {
    hide Parse, Settled, Survives;
    ThroughFamily(dk, s, f);
    if !Numeric(c[l]) {
      NonNumericSurvives(c, l);
    } else {
      NumericResult(dk, s[l].typ, f.typ);
      if c[l].typ == s[l].typ {
        Untouched(dk, s, f, c, l);
      } else if !Versioned(s[l].name) {
        ApartNames(c);
        PlainSurvives(c, l);
      } else {
        NoFloat(dk, s, f, c, l);
      }
    }
  }

  lemma {:induction false} NonNumericSurvives(c: seq<LogicalField>, l: nat)
    requires l < |c| && !Numeric(c[l])
    ensures Survives(c, l)
  {
  }

  /** A merge yields a number by keeping it, by filling a null, or by promoting an integer. */
  lemma {:induction false} NumericResult(dk: string, b: LogicalType, i: LogicalType)
    requires Merge(dk, b, i).Some?
    ensures var t := Normalize(Merge(dk, b, i).value);
            t in {INTEGER, FLOAT} ==> t == b || (t == i && (b == Scalar(Null) || t == FLOAT))
  {
  }

  /** Members newer than `q` refuse `f`, apart from one that did not survive. */
  lemma {:induction false} NewerRefuse(dk: string, s: seq<LogicalField>, f: LogicalField, c: seq<LogicalField>, l: nat,
                                       q: nat, k: nat, m: nat)
    requires TidyLevel(s) && Canonical(f) == f && Placed(dk, s, f, c, l) && Target(dk, s, f).AtProbe?
    requires q == l || (l < |c| && !Emits(c, l))
    requires forall j :: q < j < |s| && InFamily(s[j], Family(f.name)) && j != l && j != LastNamed(s, f.name, |s|)
                         ==> Merge(dk, s[j].typ, f.typ).None?
    requires var r, o := Emit(c, |c|), Origins(c, |c|);
             && k < m < |r| == |o| && o[k] == q
             && InFamily(r[m], Family(f.name)) && r[m].name != f.name
    ensures Merge(dk, Emit(c, |c|)[m].typ, f.typ).None?
  {
    hide Parse, Settled, Survives;
    EmittedInOrder(c, |c|);
    var j, p := Origins(c, |c|)[m], LastNamed(s, f.name, |s|);
    SettledKeeps(c, j);
    SettledAlike(dk, c, j, f.typ);
    ThroughFamily(dk, s, f);
    assert c[j] == s[j];
    if j == p {
      assert Canonical(s[j]) == s[j];
      CanonicalLabel(s[j]);
      CanonicalLabel(f);
      LabelledLanding(dk, s, f, j);
    }
  }

  /** `f` is stable at the newest emitted member that takes it. */
  lemma {:induction false} NewestStable(dk: string, s: seq<LogicalField>, f: LogicalField, c: seq<LogicalField>,
                                        l: nat, q: nat)
    requires TidyLevel(s) && Canonical(f) == f && Placed(dk, s, f, c, l) && Undecided(dk, s, f, Emit(c, |c|))
    requires Target(dk, s, f).AtProbe? && q <= l && Survives(c, q) && InFamily(c[q], Family(f.name))
    requires Absorbs(dk, c[q], f.typ)
    requires if q == l then Fresh(c, l) else !Emits(c, l)
    requires forall j :: q < j < |s| && InFamily(s[j], Family(f.name)) && j != l && j != LastNamed(s, f.name, |s|)
                         ==> Merge(dk, s[j].typ, f.typ).None?
    ensures Stable(dk, Emit(c, |c|), f)
  {
    hide Parse, Settled, Survives, Fresh;
    var r, fam := Emit(c, |c|), Family(f.name);
    var k := Emitted(dk, s, f, c, l, q);
    SettledKeeps(c, q);
    SettledAlike(dk, c, q, f.typ);
    PastNameAfter(dk, s, f, c, l, k);
    EmitDistinct(c, |c|);
    forall m | k < m < |r| && InFamily(r[m], fam) && m != LastNamed(r, f.name, |r|)
      ensures Merge(dk, r[m].typ, f.typ).None?
    {
      SoleNamed(r, m);
      NewerRefuse(dk, s, f, c, l, q, k, m);
    }
    StableByNewest(dk, r, f, k);
  }

  // ------------------------------------------------------- a landing that is dropped

  lemma {:induction false} PlainName(name: string)
    requires Versioned(name)
    ensures Family(name) != name
  {
    MakeParse(name);
  }

  lemma {:induction false} OvertakenDropped(dk: string, s: seq<LogicalField>, f: LogicalField, c: seq<LogicalField>,
                                            l: nat)
    requires Placed(dk, s, f, c, l) && Target(dk, s, f).AtProbe? && Overtaken(s, l, f.typ)
    ensures !Survives(c, l)
  {
    hide Parse, Settled, Canonical, TellsApart, Clash, FirstFloat, FirstPlainNumeric;
    var fam := Family(f.name);
    var float := FirstFloat(s, fam, 0);
    assert c[l] == s[l].(typ := INTEGER) && c[float] == s[float];
    hide Placed, Merge;
    assert FirstFloat(c, fam, 0) <= float;
    PlainName(c[l].name);
  }

  /** An integer overtaken, or a list widened, leaves the numbers of the family as they were. */
  lemma {:induction false} OthersKept(dk: string, s: seq<LogicalField>, f: LogicalField, c: seq<LogicalField>, l: nat,
                                      q: nat)
    requires TidyLevel(s) && Placed(dk, s, f, c, l) && Target(dk, s, f).AtProbe?
    requires Overtaken(s, l, f.typ) || (!Numeric(s[l]) && !Numeric(c[l]))
    requires q < |s| && q != l && InFamily(s[q], Family(f.name))
    ensures q < |c| && c[q] == s[q] && Survives(c, q) && Settled(c, q) == s[q]
  {
    hide Parse, Settled, Canonical, TellsApart, Clash, FirstFloat, FirstPlainNumeric, Merge;
    var fam := Family(f.name);
    var float, keep := FirstFloat(c, fam, 0), Keep(c, fam);
    SettledKeeps(c, q);
    assert Canonical(s[q]) == s[q];
    if Overtaken(s, l, f.typ) { PlainName(c[l].name); }
    if Numeric(c[q]) && keep < |c| {
      assert keep != l && float != l && c[keep] == s[keep] && c[float] == s[float];
      assert SharesFloat(s[float], s[q]) && SharesFloat(s[float], s[keep]);
    }
    SettledSame(c, q);
  }

  /** A widened landing that settles on a name of the family is exposed. */
  lemma {:induction false} RepeatFound(dk: string, s: seq<LogicalField>, f: LogicalField, c: seq<LogicalField>, l: nat,
                                       q: nat)
    requires TidyLevel(s) && Placed(dk, s, f, c, l) && Target(dk, s, f).AtProbe?
    requires q < |c| && q != l && InFamily(c[q], Family(f.name)) && c[q].name == Settled(c, l).name
    ensures q < |s| && c[q] == s[q] && Repeats(dk, s, l, f.typ, q) && c[l].typ == s[q].typ
  {
    hide Parse, Settled;
    var m := Merge(dk, s[l].typ, f.typ).value;
    OwnName(dk, s, f, c, l, q);
    SoleNamed(s, q);
    SettledKeeps(c, l);
    VersionedSettled(c, l);
    NormalizeLabel(m);
    assert Canonical(s[l]) == s[l] && Canonical(s[q]) == s[q];
    if VariantSemantic(m) == VariantSemantic(s[l].typ) { RelabelledName(s[l], c[l]); }
    MergeRelabels(dk, s[l].typ, f.typ);
    PlainIsNormal(m);
    SettledLabels(c[l], s[q]);
    PlainLabels(m, s[q].typ);
  }

  /** Nobody older than the landing's name is looked at: the line is the same with and without it. */
  lemma {:induction false} LineUp(dk: string, s: seq<LogicalField>, f: LogicalField, l: nat)
    requires Target(dk, s, f) == AtProbe(l) && OnePerFamily(f.typ)
    ensures FirstInLine(dk, s, l, f.typ)
  {
    hide Parse;
    var fam, p := Family(f.name), LastNamed(s, f.name, |s|);
    ThroughFamily(dk, s, f);
    SelfMerge(dk, f.typ);
  }

  /** A member that takes the repeated name is older than the landing, and a list. */
  lemma {:induction false} RepeatOlder(dk: string, s: seq<LogicalField>, l: nat, i: LogicalType, q: nat)
    requires TidyLevel(s) && l < |s| && q < |s| && FirstInLine(dk, s, l, i) && Repeats(dk, s, l, i, q)
    ensures q < l && Absorbs(dk, s[q], i) && i in Elements(s[q].typ) && i in Candidates(s)
    ensures s[l].typ.List? && s[q].typ.List? && OnePerFamily(i)
  {
    hide Parse, Canonical;
    RepeatsPlain(dk, s, l, i, q);
    PlainIsNormal(i);
    Absorb(dk, s[l].typ, i);
    assert i != s[q].typ;
    assert Merge(dk, s[q].typ, i).Some?;
  }

  /** What is exposed is dropped, and leaves the rest of its family as it was. */
  lemma {:induction false} ExposedDropped(dk: string, s: seq<LogicalField>, f: LogicalField, c: seq<LogicalField>,
                                          l: nat)
    requires TidyLevel(s) && Placed(dk, s, f, c, l) && Target(dk, s, f).AtProbe? && Exposed(dk, s, l, f.typ)
    ensures !Emits(c, l) && (Overtaken(s, l, f.typ) || (!Numeric(s[l]) && !Numeric(c[l])))
  {
    hide Parse, Settled, Survives, Canonical;
    if Overtaken(s, l, f.typ) {
      OvertakenDropped(dk, s, f, c, l);
    } else {
      var q :| 0 <= q < |s| && Repeats(dk, s, l, f.typ, q);
      RepeatOlder(dk, s, l, f.typ, q);
      RepeatsPlain(dk, s, l, f.typ, q);
      PlainIsNormal(s[q].typ);
      OthersKept(dk, s, f, c, l, q);
      var k := Emitted(dk, s, f, c, l, q);
      VersionedSettled(c, l);
      if Emits(c, l) {
        var m := OriginOf(c, |c|, l);
        EmittedInOrder(c, |c|);
        EmitDistinct(c, |c|);
        SoleNamed(Emit(c, |c|), k);
      }
    }
  }

  /** The observation of a dropped landing is taken by the next in line, unchanged. */
  lemma {:induction false} DroppedStable(dk: string, s: seq<LogicalField>, f: LogicalField, c: seq<LogicalField>,
                                         l: nat)
    requires TidyLevel(s) && SafeLevel(dk, s) && Canonical(f) == f && Target(dk, s, f).AtProbe?
    requires Placed(dk, s, f, c, l) && Undecided(dk, s, f, Emit(c, |c|))
    requires Exposed(dk, s, l, f.typ) && f.typ in Candidates(s)
    ensures Stable(dk, Emit(c, |c|), f)
  {
    hide Parse, Settled, Survives, Exposed;
    ExposedDropped(dk, s, f, c, l);
    var q := BackedNext(dk, s, l, f.typ);
    OthersKept(dk, s, f, c, l, q);
    NewestStable(dk, s, f, c, l, q);
  }

  lemma {:induction false} BackedNext(dk: string, s: seq<LogicalField>, j: nat, i: LogicalType) returns (q: nat)
    requires SafeLevel(dk, s) && j < |s| && i in Candidates(s) && Exposed(dk, s, j, i)
    ensures q < j && InFamily(s[q], Family(s[j].name)) && Absorbs(dk, s[q], i)
    ensures forall k :: q < k < |s| && InFamily(s[k], Family(s[j].name)) && k != j ==> Merge(dk, s[k].typ, i).None?
  {
    assert Backed(dk, s, j, i);
    q := NewestCompatible(dk, s, Family(s[j].name), -1, i, j);
  }

  lemma {:induction false} FloatStable(dk: string, s: seq<LogicalField>, f: LogicalField, c: seq<LogicalField>, l: nat)
    requires TidyLevel(s) && Canonical(f) == f && Placed(dk, s, f, c, l) && Undecided(dk, s, f, Emit(c, |c|))
    requires c[l].typ == f.typ == FLOAT
    ensures Stable(dk, Emit(c, |c|), f)
  {
    hide Parse, Settled, Survives;
    var k := NumericSurvives(c, l);
    PastNameAfter(dk, s, f, c, l, k);
    assert Merge(dk, FLOAT, FLOAT) == Some(FLOAT);
    StableByExact(dk, Emit(c, |c|), f, k);
  }

  lemma {:induction false} ExactStable(dk: string, s: seq<LogicalField>, f: LogicalField, c: seq<LogicalField>, l: nat)
    requires TidyLevel(s) && Canonical(f) == f && Placed(dk, s, f, c, l) && Undecided(dk, s, f, Emit(c, |c|))
    requires f.typ != FLOAT && OnePerFamily(f.typ)
    requires Target(dk, s, f).AtExact? || Target(dk, s, f).NewVariant?
    ensures Stable(dk, Emit(c, |c|), f)
  {
    hide Parse, Settled, Survives;
    FoundExact(dk, s, f, c, l);
    SelfMerge(dk, f.typ);
    if l < |s| { Untouched(dk, s, f, c, l); }
    LandingFresh(dk, s, f, c, l);
    var k := Emitted(dk, s, f, c, l, l);
    SettledKeeps(c, l);
    PastNameAfter(dk, s, f, c, l, k);
    StableByExact(dk, Emit(c, |c|), f, k);
  }

  lemma {:induction false} ProbeStable(dk: string, s: seq<LogicalField>, f: LogicalField, c: seq<LogicalField>, l: nat)
    requires TidyLevel(s) && Canonical(f) == f && Placed(dk, s, f, c, l) && Undecided(dk, s, f, Emit(c, |c|))
    requires Target(dk, s, f).AtProbe? && (f.typ != FLOAT || c[l].typ != FLOAT)
    requires !Overtaken(s, l, f.typ) && Fresh(c, l)
    ensures Stable(dk, Emit(c, |c|), f)
  {
    hide Parse, Settled, Survives;
    ProbeSurvives(dk, s, f, c, l);
    ThroughFamily(dk, s, f);
    NewestStable(dk, s, f, c, l, l);
  }

  /** After settling, the field merged last is stable. */
  lemma {:induction false} PlacedStable(dk: string, s: seq<LogicalField>, f: LogicalField, c: seq<LogicalField>, l: nat)
    requires TidyLevel(s) && SafeLevel(dk, s) && Canonical(f) == f && OnePerFamily(f.typ) && Placed(dk, s, f, c, l)
    ensures Stable(dk, Emit(c, |c|), f)
  {
    hide Parse, Settled, Survives, SafeLevel, Overtaken, Fresh;
    var r := Emit(c, |c|);
    var n := LastNamed(r, f.name, |r|);
    ThroughFamily(dk, s, f);
    if Target(dk, s, f).AtName? || Target(dk, s, f).Added? {
      NamedStable(dk, s, f, c, l);
    } else if n >= 0 && Absorbs(dk, r[n], f.typ) {
      EmitDistinct(c, |c|);
      StableByName(dk, r, f, n);
    } else if f.typ == FLOAT && c[l].typ == FLOAT {
      FloatStable(dk, s, f, c, l);
    } else if Target(dk, s, f).AtProbe? {
      if !Overtaken(s, l, f.typ) && Fresh(c, l) {
        ProbeStable(dk, s, f, c, l);
      } else {
        DroppedExposed(dk, s, f, c, l);
        DroppedStable(dk, s, f, c, l);
      }
    } else {
      ExactStable(dk, s, f, c, l);
    }
  }

  lemma {:induction false} DroppedExposed(dk: string, s: seq<LogicalField>, f: LogicalField, c: seq<LogicalField>,
                                          l: nat)
    requires TidyLevel(s) && OnePerFamily(f.typ) && Placed(dk, s, f, c, l) && Target(dk, s, f).AtProbe?
    requires Overtaken(s, l, f.typ) || !Fresh(c, l)
    ensures Exposed(dk, s, l, f.typ) && f.typ in Candidates(s)
  {
    hide Parse, Settled, Survives;
    LineUp(dk, s, f, l);
    if !Overtaken(s, l, f.typ) {
      var q :| 0 <= q < |c| && q != l && InFamily(c[q], Family(c[l].name)) && c[q].name == Settled(c, l).name;
      RepeatFound(dk, s, f, c, l, q);
      RepeatOlder(dk, s, l, f.typ, q);
    }
  }

  /** A field that landed under its own name is found under it again. */
  lemma {:induction false} NamedStable(dk: string, s: seq<LogicalField>, f: LogicalField, c: seq<LogicalField>, l: nat)
    requires TidyLevel(s) && Canonical(f) == f
    requires Placed(dk, s, f, c, l) && (Target(dk, s, f).AtName? || Target(dk, s, f).Added?)
    ensures Stable(dk, Emit(c, |c|), f)
  {
    hide Parse, Settled, Survives, Fresh;
    NameKept(dk, s, f, c, l);
    LandingFresh(dk, s, f, c, l);
    var k := Emitted(dk, s, f, c, l, l);
    SettledAlike(dk, c, l, f.typ);
    EmitDistinct(c, |c|);
    StableByName(dk, Emit(c, |c|), f, k);
  }

  lemma {:induction false} NameKept(dk: string, s: seq<LogicalField>, f: LogicalField, c: seq<LogicalField>, l: nat)
    requires TidyLevel(s) && Canonical(f) == f
    requires Placed(dk, s, f, c, l) && (Target(dk, s, f).AtName? || Target(dk, s, f).Added?)
    ensures Survives(c, l) && Settled(c, l).name == f.name
  {
    hide Parse, Settled, Survives, Canonical, TellsApart, Clash, Merge;
    SettledKeeps(c, l);
    if !Versioned(f.name) {
      ApartNames(c);
      PlainSurvives(c, l);
    } else if Target(dk, s, f).Added? {
      AddedAlone(dk, s, f, c, l);
    } else {
      CanonicalLabel(f);
      assert Canonical(s[l]) == s[l];
      CanonicalLabel(s[l]);
      SameLabelMerges(dk, s[l].typ, f.typ);
      NormalizeLabel(Merge(dk, s[l].typ, f.typ).value);
      if c[l].typ.Scalar? { Untouched(dk, s, f, c, l); } else { LabelKept(c, l); }
    }
  }

  lemma {:induction false} LabelKept(c: seq<LogicalField>, l: nat)
    requires l < |c| && Versioned(c[l].name) && !c[l].typ.Scalar?
    requires Parse(c[l].name).value.semantic == VariantSemantic(c[l].typ)
    ensures Survives(c, l) && Settled(c, l) == c[l]
  {
    hide ParseAt;
  }

  lemma {:induction false} AddedAlone(dk: string, s: seq<LogicalField>, f: LogicalField, c: seq<LogicalField>, l: nat)
    requires Canonical(f) == f && Versioned(f.name) && Placed(dk, s, f, c, l) && Target(dk, s, f).Added?
    ensures Survives(c, l) && Settled(c, l) == f
  {
    hide Parse;
    var fam := Family(f.name);
    assert forall j :: 0 <= j < |s| ==> !InFamily(s[j], fam);
    assert forall j :: 0 <= j < |c| && InFamily(c[j], fam) ==> j == l;
    var keep := Keep(c, fam);
    var float := FirstFloat(c, fam, 0);
    assert keep in {l, |c|};
    assert float in {l, |c|};
  }

  // --------------------------------------------------- one field among many

  /** `r` is `s` after merging `f`, as far as the family of `f` goes; `l` is where it landed. */
  predicate Landed(dk: string, s: seq<LogicalField>, f: LogicalField, r: seq<LogicalField>, l: nat) {
    var fam := Family(f.name);
    && |s| <= |r| && l < |r| && InFamily(r[l], fam)
    && (forall j :: 0 <= j < |r| && j != l && InFamily(r[j], fam) ==> j < |s| && r[j] == s[j])
    && (forall j :: 0 <= j < |s| && j != l && InFamily(s[j], fam) ==> r[j] == s[j])
    && (l >= |s| ==> forall j :: 0 <= j < |s| && InFamily(s[j], fam) ==> !Clash(s[j], r[l]))
    && match Target(dk, s, f)
       case AtName(p) => l == p && r[l] == s[l].(typ := Merge(dk, s[l].typ, f.typ).value)
       case AtProbe(p) => l == p && r[l] == s[l].(typ := Merge(dk, s[l].typ, f.typ).value)
       case AtExact(p) => l == p && r[l] == s[l]
       case NewVariant => l >= |s| && r[l].typ == f.typ
       case Added => l >= |s| && r[l] == f
  }

  lemma {:induction false} LandedNow(dk: string, s: seq<LogicalField>, f: LogicalField) returns (l: nat)
    requires AnchoredField(f)
    ensures Landed(dk, s, f, Step(dk, s, f), l)
  {
    hide Parse, VariantName;
    match Target(dk, s, f)
    case AtName(p) => l := p;
    case AtProbe(p) => l := p;
    case AtExact(p) => l := p;
    case NewVariant =>
      l := |s|;
      VariantFamily(dk, s, f);
      forall j | 0 <= j < |s| ensures !Clash(s[j], Variant(s, f)) { VariantDistinct(s, f, j); }
    case Added =>
      l := |s|;
      forall j | 0 <= j < |s| ensures !Clash(s[j], f) { AddedDistinct(dk, s, f, j); }
  }

  lemma {:induction false} LandedThrough(dk: string, s: seq<LogicalField>, s1: seq<LogicalField>, f: LogicalField,
                      r: seq<LogicalField>, l: nat)
    requires SameFamily(s, s1, Family(f.name)) && Landed(dk, s1, f, r, l)
    ensures Landed(dk, s, f, r, l)
  {
    hide Parse;
    SameTarget(dk, s, s1, f);
    if l < |s1| { assert InFamily(s1[l], Family(f.name)); }
  }

  lemma {:induction false} LandedStill(dk: string, s: seq<LogicalField>, f: LogicalField, r: seq<LogicalField>,
                                       r': seq<LogicalField>, l: nat)
    requires Landed(dk, s, f, r, l) && SameFamily(r, r', Family(f.name))
    ensures Landed(dk, s, f, r', l)
  {
    hide Parse;
    forall j | 0 <= j < |r'| && InFamily(r'[j], Family(f.name)) ensures j < |r| && r'[j] == r[j] {
      assert j < |r| ==> InFamily(r[j], Family(f.name));
    }
  }

  lemma {:induction false} LandedAmong(dk: string, s: seq<LogicalField>, incoming: seq<LogicalField>, k: nat)
    returns (l: nat)
    requires ReplayableFields(incoming) && k < |incoming|
    ensures Landed(dk, s, incoming[k], MergeFields(dk, s, incoming), l)
    decreases incoming
  {
    hide Parse, Landed, SameFamily;
    var s1, r, fam := Step(dk, s, incoming[0]), MergeFields(dk, s, incoming), Family(incoming[k].name);
    if k == 0 {
      l := LandedNow(dk, s, incoming[0]);
      assert forall k :: 0 <= k < |incoming[1..]| ==> AnchoredField(incoming[1..][k]);
      OthersElsewhere(dk, s1, incoming[1..], fam);
      LandedStill(dk, s, incoming[0], s1, r, l);
    } else {
      assert AnchoredField(incoming[0]);
      StepElsewhere(dk, s, incoming[0], fam);
      l := LandedAmong(dk, s1, incoming[1..], k - 1);
      LandedThrough(dk, s, s1, incoming[k], r, l);
    }
  }

  lemma {:induction false} PlacedFrom(dk: string, s: seq<LogicalField>, f: LogicalField, r: seq<LogicalField>, l: nat)
    requires TidyFields(s) && Normal(f.typ) && OnePerFamily(f.typ)
    requires Landed(dk, s, f, r, l) && TellsApart(r)
    requires l < |s| && Merge(dk, s[l].typ, f.typ).Some? ==>
               var t := Normalize(Merge(dk, s[l].typ, f.typ).value); Merge(dk, t, f.typ) == Some(t)
    ensures Placed(dk, s, f, NormalizeChildren(r), l)
  {
    hide Parse, Canonical, Clash, Apart;
    var c := NormalizeChildren(r);
    forall j | 0 <= j < |s| ensures s[j].(typ := Normalize(s[j].typ)) == s[j] { NormalIsFixed(s[j].typ); }
    NormalIsFixed(f.typ);
    SelfMerge(dk, f.typ);
    ChildrenApart(r);
  }

  // ------------------------------------------------------------- whole trees

  lemma {:induction false} TidyMember(s: seq<LogicalField>, j: nat)
    requires TidyFields(s) && j < |s|
    ensures Tidy(s[j].typ)
  {
  }

  /** Safe where it matters: a null observation needs no safety. */
  predicate SafeFor(dk: string, b: LogicalType, i: LogicalType) { i == Scalar(Null) || Safe(dk, b) }

  lemma {:induction false} SafeLanding(dk: string, s: seq<LogicalField>, f: LogicalField, l: nat)
    requires SafeFields(dk, s) && AnchoredField(f) && l < |s| && InFamily(s[l], Family(f.name))
    ensures SafeFor(dk, s[l].typ, f.typ)
  {
    if s[l].name == "" && Versioned(f.name) { MakeParse(f.name); }
  }

  lemma {:induction false} ReplayField(dk: string, s: seq<LogicalField>, incoming: seq<LogicalField>, k: nat)
    requires !Versioned(WrapperName(dk)) && k < |incoming|
    requires TidyFields(s) && SafeFields(dk, s) && NormalFields(incoming) && ReplayableFields(incoming)
    requires TellsApart(MergeFields(dk, s, incoming))
    ensures Stable(dk, NormalizeFields(MergeFields(dk, s, incoming)), incoming[k])
    decreases incoming, 0
  {
    hide Parse, Placed, TidyFields, SafeFields;
    var f, r := incoming[k], MergeFields(dk, s, incoming);
    var l := LandedAmong(dk, s, incoming, k);
    assert AnchoredField(f);
    if l < |s| && Merge(dk, s[l].typ, f.typ).Some? {
      TidyMember(s, l);
      LandedFamily(dk, s, f, r, l);
      SafeLanding(dk, s, f, l);
      Replay(dk, s[l].typ, f.typ);
    }
    PlacedFrom(dk, s, f, r, l);
    assert TidyLevel(s) && SafeLevel(dk, s) && Canonical(f) == f by {
      TidyIsLevel(s);
      SafeIsLevel(dk, s);
    }
    PlacedStable(dk, s, f, NormalizeChildren(r), l);
  }

  lemma {:induction false} LandedFamily(dk: string, s: seq<LogicalField>, f: LogicalField, r: seq<LogicalField>, l: nat)
    requires Landed(dk, s, f, r, l) && l < |s|
    ensures InFamily(s[l], Family(f.name))
  {
    hide Parse;
  }

  lemma {:induction false} SafeIsLevel(dk: string, s: seq<LogicalField>)
    requires SafeFields(dk, s)
    ensures SafeLevel(dk, s)
  {
  }

  lemma {:induction false} TidyIsLevel(s: seq<LogicalField>)
    requires TidyFields(s)
    ensures TidyLevel(s)
  {
  }

  lemma {:induction false} ReplayFields(dk: string, s: seq<LogicalField>, incoming: seq<LogicalField>)
    requires !Versioned(WrapperName(dk))
    requires TidyFields(s) && SafeFields(dk, s) && NormalFields(incoming) && ReplayableFields(incoming)
    ensures var n := NormalizeFields(MergeFields(dk, s, incoming)); MergeFields(dk, n, incoming) == n
    decreases incoming, 1
  {
    hide Parse;
    OnePerFamilySettles(Struct(incoming));
    UniqueFieldsSettle(s);
    MergeFieldsSettles(dk, s, incoming);
    var n := NormalizeFields(MergeFields(dk, s, incoming));
    forall k | 0 <= k < |incoming| ensures Stable(dk, n, incoming[k]) { ReplayField(dk, s, incoming, k); }
    StableFields(dk, n, incoming);
  }

  /** Merging, then normalising, leaves nothing for the same observation to change. */
  lemma {:induction false} Replay(dk: string, b: LogicalType, i: LogicalType)
    requires !Versioned(WrapperName(dk))
    requires Tidy(b) && SafeFor(dk, b, i) && Normal(i) && Replayable(i)
    ensures var m := Merge(dk, b, i);
            m.Some? ==> Merge(dk, Normalize(m.value), i) == Some(Normalize(m.value))
    decreases i, b, 0
  {
    match b
    case Scalar(_) =>
    case List(value) => Replay(dk, value, if i.List? then i.value else i);
    case Struct(fields) =>
      if i.Struct? {
        ReplayFields(dk, fields, i.fields);
      } else if i.Scalar? {
        ReplayScalar(dk, fields, i);
      }
  }

  lemma {:induction false} SafeMember(dk: string, s: seq<LogicalField>, p: nat)
    requires Safe(dk, Struct(s)) && p < |s| && s[p].name != ""
    ensures Safe(dk, s[p].typ)
  {
    assert SafeFields(dk, s);
  }

  lemma {:induction false} ReplayScalar(dk: string, s: seq<LogicalField>, i: LogicalType)
    requires !Versioned(WrapperName(dk)) && i.Scalar?
    requires TidyFields(s) && SafeFor(dk, Struct(s), i)
    ensures var m := Merge(dk, Struct(s), i);
            m.Some? ==> Merge(dk, Normalize(m.value), i) == Some(Normalize(m.value))
    decreases i, s, 0
  {
    hide Parse;
    var p, key := FirstNamed(s, WrapperName(dk), 0), WrapperName(dk);
    if p == |s| {
      ReplayWrapper(dk, s, s + [LogicalField(key, true, i)], p, i);
    } else {
      TidyMember(s, p);
      if Safe(dk, Struct(s)) { SafeMember(dk, s, p); }
      Replay(dk, s[p].typ, i);
      var t := Merge(dk, s[p].typ, i);
      if t.Some? { ReplayWrapper(dk, s, WithType(s, p, t.value), p, i); }
    }
  }

  lemma {:induction false} ReplayWrapper(dk: string, s: seq<LogicalField>, r: seq<LogicalField>, p: nat, i: LogicalType)
    requires !Versioned(WrapperName(dk)) && i.Scalar? && TidyFields(s)
    requires p < |r| && r[p].name == WrapperName(dk) && Merge(dk, Struct(s), i) == Some(Struct(r))
    requires var t := Normalize(r[p].typ); Merge(dk, t, i) == Some(t)
    ensures var n := NormalizeFields(r); Merge(dk, Struct(n), i) == Some(Struct(n))
  {
    hide Parse, Settled, Survives;
    var c := NormalizeChildren(r);
    UniqueFieldsSettle(s);
    MergeSettles(dk, Struct(s), i);
    ChildrenApart(r);
    SettledKeeps(c, p);
    SettledAlike(dk, c, p, i);
    var k := PlacePlain(c, p);
    EmitDistinct(c, |c|);
    SoleNamed(Emit(c, |c|), k);
    WrapperStable(dk, Emit(c, |c|), k, i);
  }
}
