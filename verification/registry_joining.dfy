/** Which inputs keep the names of every registry unique. */
module RegistryJoining {
  import opened Basics
  import opened VariantNames
  import opened LogicalSchemas
  import opened SchemaOrder
  import opened RegistryMerge
  import opened RegistryAbsorption
  import opened RegistryDrift
  import opened RegistryNumeric
  import opened RegistryCoverage
  import opened RegistryRun

  /** A run of one letter, longer than every name. */
  function LongName(s: seq<LogicalField>): (r: string)
    ensures r != "" && forall j :: 0 <= j < |r| ==> r[j] == 'x'
    ensures forall k :: 0 <= k < |s| ==> |s[k].name| < |r|
  {
    if s == [] then "x"
    else
      var r := LongName(s[1..]);
      assert forall k :: 1 <= k < |s| ==> s[k] == s[1..][k - 1];
      if |s[0].name| < |r| then r else seq(|s[0].name| + 1, _ => 'x')
  }

  lemma {:induction false} LongIsPlain(name: string)
    requires forall j :: 0 <= j < |name| ==> name[j] == 'x'
    ensures !Versioned(name)
  {
  }

  lemma {:induction false} FamilyIsShorter(name: string)
    ensures |Family(name)| <= |name|
  {
  }

  /** Fields of new families are all appended as they are. */
  lemma {:induction false} AllAdded(dk: string, s: seq<LogicalField>, incoming: seq<LogicalField>)
    requires DistinctFamilies(s + incoming)
    ensures MergeFields(dk, s, incoming) == s + incoming
    decreases incoming
  {
    hide Parse;
    if incoming == [] {
      assert s + incoming == s;
    } else {
      var f, all := incoming[0], s + incoming;
      forall j | 0 <= j < |s| ensures Family(s[j].name) != Family(f.name) {
        assert all[j] == s[j] && all[|s|] == f;
      }
      NewFamilyAdded(dk, s, f);
      assert s + [f] + incoming[1..] == all;
      AllAdded(dk, s + [f], incoming[1..]);
    }
  }

  /** And they are logged as added, one after the other, each under the path of its family. */
  lemma {:induction false} AllLogged(dk: string, s: seq<LogicalField>, incoming: seq<LogicalField>, parent: string)
    requires DistinctFamilies(s + incoming)
    ensures var log := FieldDrifts(dk, s, incoming, parent);
            |log| == |incoming| && forall k :: 0 <= k < |log| ==>
              var path := (if parent == "" then "" else parent + ".") + Family(incoming[k].name);
              log[k] == DriftEvent(path, incoming[k].name, NewlyAdded, None, incoming[k].typ)
    decreases incoming
  {
    hide Parse, Family;
    if incoming != [] {
      var f, all := incoming[0], s + incoming;
      forall j | 0 <= j < |s| ensures Family(s[j].name) != Family(f.name) {
        assert all[j] == s[j] && all[|s|] == f;
      }
      NewFamilyAdded(dk, s, f);
      assert s + [f] + incoming[1..] == all;
      AllLogged(dk, s + [f], incoming[1..], parent);
    }
  }

  lemma {:induction false} NewFamilyAdded(dk: string, s: seq<LogicalField>, f: LogicalField)
    requires forall j :: 0 <= j < |s| ==> Family(s[j].name) != Family(f.name)
    ensures Target(dk, s, f) == Added && Step(dk, s, f) == s + [f]
  {
    hide Parse;
  }

  /** A registry of one null field, in a family that the input does not have. */
  lemma {:induction false} OutsideField(s: seq<LogicalField>) returns (f: LogicalField)
    requires DistinctFamilies(s)
    ensures DistinctFamilies([f] + s) && NormalFields([f]) && UniqueFields([f])
  {
    f := LogicalField(LongName(s), true, Scalar(Null));
    LongIsPlain(f.name);
    forall k | 0 <= k < |s| ensures Family(f.name) != Family(s[k].name) { FamilyIsShorter(s[k].name); }
    hide Parse;
    var all := [f] + s;
    forall j, k | 0 <= j < k < |all| ensures Family(all[j].name) != Family(all[k].name) {
      assert all[k] == s[k - 1] && (j > 0 ==> all[j] == s[j - 1]);
    }
    assert Canonical(f) == f && NoRepeat([f], 0) && Normal(f.typ);
  }

  /** Every non-empty registry with unique names keeps them exactly when the input's are unique
      below its top level, for inputs with one field per family there. */
  lemma {:induction false} JoinsExactly(dk: string, inferred: seq<LogicalField>)
    requires DistinctFamilies(NormalizeFields(inferred))
    ensures UniqueInside(NormalizeFields(inferred)) <==>
            forall g :: g != [] && UniqueFields(NormalizeFields(g)) ==> UniqueFields(Combined(dk, g, inferred))
  {
    hide NormalizeFields, UniqueInside, UniqueFields, Combined, DistinctFamilies;
    if UniqueInside(NormalizeFields(inferred)) {
      forall g | g != [] && UniqueFields(NormalizeFields(g)) ensures UniqueFields(Combined(dk, g, inferred)) {
        CombinedUnique(dk, g, inferred);
      }
    } else {
      var f := RepeatsStay(dk, inferred);
    }
  }

  /** A repeated name below the top level is still there after joining a registry with nothing in common. */
  lemma {:induction false} RepeatsStay(dk: string, inferred: seq<LogicalField>) returns (f: LogicalField)
    requires DistinctFamilies(NormalizeFields(inferred)) && !UniqueInside(NormalizeFields(inferred))
    ensures UniqueFields(NormalizeFields([f])) && !UniqueFields(Combined(dk, [f], inferred))
  {
    hide NormalizeFields, Normalize, MergeFields, NormalFields, DistinctFamilies, Family;
    var i := NormalizeFields(inferred);
    f := OutsideField(i);
    NormalFieldsAreFixed([f]);
    AllAdded(dk, [f], i);
    var k :| 0 <= k < |i| && !UniqueNames(i[k].typ);
    NormalMember(inferred, k);
    assert ([f] + i)[k + 1] == i[k];
    var j := Represented([f] + i, k + 1);
  }

  lemma {:induction false} NormalMember(s: seq<LogicalField>, k: nat)
    requires k < |NormalizeFields(s)|
    ensures var t := NormalizeFields(s)[k].typ; Normalize(t) == t
  {
    hide NormalizeFields;
    NormalizeFieldsIsNormal(s);
    NormalIsFixed(NormalizeFields(s)[k].typ);
  }
}
