/** Absorption and coverage need non-empty names, and need exactly that. */
module RegistryAnchored {
  import opened Basics
  import opened VariantNames
  import opened LogicalSchemas
  import opened RegistryMerge
  import opened RegistryAbsorption
  import opened RegistryGrowth
  import opened RegistryCoverage
  import opened RegistryReplay

  /** A scalar that refuses `t`. */
  function Clashing(t: LogicalType): LogicalType {
    if t == Scalar(Utf8) then Scalar(Bool) else Scalar(Utf8)
  }

  /** The only nameless field is the first, and it refuses `t`. */
  predicate Stuck(dk: string, s: seq<LogicalField>, t: LogicalType) {
    && s != [] && s[0] == LogicalField("", true, Clashing(t))
    && forall j :: 0 < j < |s| ==> s[j].name != ""
  }

  lemma {:induction false} ClashingRefuses(dk: string, t: LogicalType)
    requires t != Scalar(Null)
    ensures Merge(dk, Clashing(t), t).None? && Clashing(t) != t && !Covers(dk, Clashing(t), t)
  {
  }

  lemma {:induction false} Nameless(name: string)
    ensures Family(name) == "" <==> name == ""
  {
    if Versioned(name) { MakeParse(name); }
  }

  lemma {:induction false} MadeNonEmpty(fam: string, v: nat, semantic: string)
    ensures Make(fam, v, semantic) != ""
  {
  }

  /** Merging never repairs a stuck field, and each nameless observation adds another variant. */
  lemma {:induction false} StuckStep(dk: string, s: seq<LogicalField>, t: LogicalType, f: LogicalField)
    requires t != Scalar(Null) && Stuck(dk, s, t) && (f.name == "" ==> f.typ == t)
    ensures Stuck(dk, Step(dk, s, f), t)
    ensures f.name == "" ==> |Step(dk, s, f)| > |s|
  {
    hide Parse;
    ClashingRefuses(dk, t);
    Nameless(f.name);
    forall j | 0 <= j < |s| ensures InFamily(s[j], "") <==> j == 0 { Nameless(s[j].name); }
    if f.name == "" {
      assert LastNamed(s, "", |s|) == 0;
      assert Family("") == "" by { Nameless(""); }
      assert PastName(dk, s, f);
      ThroughFamily(dk, s, f);
    }
    if Target(dk, s, f) == NewVariant {
      var fam, tag := Family(f.name), VariantSemantic(f.typ);
      MadeNonEmpty(fam, FreeVersion(Names(s), fam, tag, NextVersion(s, fam, |s|)), tag);
    }
  }

  lemma {:induction false} StuckFields(dk: string, s: seq<LogicalField>, t: LogicalType, incoming: seq<LogicalField>)
    requires t != Scalar(Null) && Stuck(dk, s, t)
    requires forall k :: 0 <= k < |incoming| && incoming[k].name == "" ==> incoming[k].typ == t
    ensures var r := MergeFields(dk, s, incoming);
            Stuck(dk, r, t) && ((exists k :: 0 <= k < |incoming| && incoming[k].name == "") ==> |r| > |s|)
    decreases incoming
  {
    if incoming != [] {
      var s1 := Step(dk, s, incoming[0]);
      StuckStep(dk, s, t, incoming[0]);
      StuckFields(dk, s1, t, incoming[1..]);
      StepGrows(dk, s, incoming[0]);
      MergeFieldsGrows(dk, s1, incoming[1..]);
      if exists k :: 0 <= k < |incoming| && incoming[k].name == "" {
        var k :| 0 <= k < |incoming| && incoming[k].name == "";
        if k > 0 { assert incoming[1..][k - 1].name == ""; }
      }
    }
  }

  /** A base on which merging `i` twice differs from merging it once, and `i` is not covered. */
  lemma {:induction false} UnanchoredBase(dk: string, i: LogicalType) returns (b: LogicalType)
    requires OnePerFamily(i) && !Anchored(i)
    ensures var m := Merge(dk, b, i);
            && m.Some? && Merge(dk, m.value, i).Some? && Merge(dk, m.value, i) != m
            && !Covers(dk, m.value, i)
  {
    match i
    case List(value) =>
      b := UnanchoredBase(dk, value);
      b := List(b);
    case Struct(fields) =>
      var s := UnanchoredFields(dk, fields);
      b := Struct(s);
  }

  lemma {:induction false} UnanchoredFields(dk: string, i: seq<LogicalField>) returns (s: seq<LogicalField>)
    requires OnePerFamilyFields(i) && !AnchoredFields(i)
    ensures var r := MergeFields(dk, s, i); MergeFields(dk, r, i) != r && !CoversFields(dk, r, i)
  {
    if k :| 0 <= k < |i| && !Rooted(i[k]) {
      s := [LogicalField("", true, Clashing(i[k].typ))];
      NamelessLost(dk, s, i, k);
    } else {
      var k :| 0 <= k < |i| && !AnchoredField(i[k]);
      var b := UnanchoredBase(dk, i[k].typ);
      s := [LogicalField(i[k].name, true, b)];
      BelowLost(dk, b, i, k);
    }
  }

  lemma {:induction false} NamelessLost(dk: string, s: seq<LogicalField>, i: seq<LogicalField>, k: nat)
    requires OnePerFamilyFields(i) && k < |i| && i[k].name == "" && i[k].typ != Scalar(Null)
    requires s == [LogicalField("", true, Clashing(i[k].typ))]
    ensures var r := MergeFields(dk, s, i); MergeFields(dk, r, i) != r && !CoversFields(dk, r, i)
  {
    hide Parse;
    var t, r := i[k].typ, MergeFields(dk, s, i);
    forall j | 0 <= j < |i| && i[j].name == "" ensures j == k { assert Family(i[j].name) == Family(i[k].name); }
    StuckFields(dk, s, t, i);
    StuckFields(dk, r, t, i);
    ClashingRefuses(dk, t);
    Nameless("");
    forall j | 0 <= j < |r| && InFamily(r[j], "") ensures j == 0 { Nameless(r[j].name); }
    assert !CoversIn(dk, r, "", t);
  }

  /** Below a named field, only that field's own family matters. */
  lemma {:induction false} BelowLost(dk: string, b: LogicalType, i: seq<LogicalField>, k: nat)
    requires OnePerFamilyFields(i) && k < |i| && forall j :: 0 <= j < |i| ==> Rooted(i[j])
    requires var m := Merge(dk, b, i[k].typ);
             && m.Some? && Merge(dk, m.value, i[k].typ).Some? && Merge(dk, m.value, i[k].typ) != m
             && !Covers(dk, m.value, i[k].typ)
    ensures var r := MergeFields(dk, [LogicalField(i[k].name, true, b)], i);
            MergeFields(dk, r, i) != r && !CoversFields(dk, r, i)
  {
    hide Parse;
    var f, s := i[k], [LogicalField(i[k].name, true, b)];
    var fam, r := Family(f.name), MergeFields(dk, s, i);
    var m := Merge(dk, b, f.typ).value;
    OwnSlot(dk, s, i, k, b);
    OwnSlot(dk, r, i, k, m);
    assert forall j :: 0 <= j < |r| && InFamily(r[j], fam) ==> j == 0;
    assert !CoversIn(dk, r, fam, f.typ);
  }

  /** The first field alone is of the family of `i[k]`, so only `i[k]` changes it. */
  predicate Alone(s: seq<LogicalField>, f: LogicalField, t: LogicalType) {
    && s != [] && s[0] == LogicalField(f.name, true, t)
    && forall j :: 0 < j < |s| ==> !InFamily(s[j], Family(f.name))
  }

  lemma {:induction false} OwnSlot(dk: string, s: seq<LogicalField>, i: seq<LogicalField>, k: nat, t: LogicalType)
    requires DistinctFamilies(i) && k < |i| && forall j :: 0 <= j < |i| ==> Rooted(i[j])
    requires Alone(s, i[k], t) && Merge(dk, t, i[k].typ).Some?
    ensures Alone(MergeFields(dk, s, i), i[k], Merge(dk, t, i[k].typ).value)
    decreases i
  {
    hide Parse;
    var s1, f := Step(dk, s, i[0]), i[k];
    if k == 0 {
      assert LastNamed(s, f.name, |s|) == 0 by { assert forall j :: 0 < j < |s| ==> s[j].name != f.name; }
      assert Target(dk, s, f) == AtName(0);
      assert Alone(s1, f, Merge(dk, t, f.typ).value);
      OthersElsewhere(dk, s1, i[1..], Family(f.name));
    } else {
      StepElsewhere(dk, s, i[0], Family(f.name));
      assert InFamily(s[0], Family(f.name));
      OwnSlot(dk, s1, i[1..], k - 1, t);
    }
  }

  /** Merging `i` is absorbed by every base exactly when its non-null fields have names. */
  lemma {:induction false} AbsorbExactly(dk: string, i: LogicalType)
    requires OnePerFamily(i)
    ensures Anchored(i) <==>
            forall b :: (match Merge(dk, b, i) case Some(m) => Merge(dk, m, i) == Some(m) case None => true)
  {
    if Anchored(i) {
      forall b ensures (match Merge(dk, b, i) case Some(m) => Merge(dk, m, i) == Some(m) case None => true) {
        Absorb(dk, b, i);
      }
    } else {
      var b := UnanchoredBase(dk, i);
    }
  }

  /** Merging `i` covers it on every base under exactly the same condition. */
  lemma {:induction false} CoversExactly(dk: string, i: LogicalType)
    requires OnePerFamily(i)
    ensures Anchored(i) <==>
            forall b :: (match Merge(dk, b, i) case Some(m) => Covers(dk, m, i) case None => true)
  {
    if Anchored(i) {
      forall b ensures (match Merge(dk, b, i) case Some(m) => Covers(dk, m, i) case None => true) {
        MergeCovers(dk, b, i);
      }
    } else {
      var b := UnanchoredBase(dk, i);
    }
  }
}
