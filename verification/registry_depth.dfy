/** Parquet record depth is exact over merges. */
module RegistryDepth {
  import opened Basics
  import opened VariantNames
  import opened LogicalSchemas
  import opened RegistryMerge
  import opened RegistryNumeric

  /** Nesting of records; lists add none. */
  function Depth(t: LogicalType): nat {
    match t
    case Scalar(_) => 0
    case List(value) => Depth(value)
    case Struct(fields) => 1 + FieldsDepth(fields)
  }

  function FieldsDepth(s: seq<LogicalField>): (d: nat)
    ensures forall j :: 0 <= j < |s| ==> Depth(s[j].typ) <= d
    ensures d == 0 || exists j :: 0 <= j < |s| && Depth(s[j].typ) == d
  {
    if s == [] then 0
    else
      var d, e := FieldsDepth(s[..|s| - 1]), Depth(s[|s| - 1].typ);
      assert forall j :: 0 <= j < |s| - 1 ==> s[j] == s[..|s| - 1][j];
      Max(d, e)
  }

  /** The depth of a list of fields is the least bound on theirs. */
  lemma {:induction false} DepthIs(s: seq<LogicalField>, d: nat)
    requires forall j :: 0 <= j < |s| ==> Depth(s[j].typ) <= d
    requires d == 0 || exists j :: 0 <= j < |s| && Depth(s[j].typ) == d
    ensures FieldsDepth(s) == d
  {
  }

  lemma {:induction false} DepthWithType(s: seq<LogicalField>, p: nat, t: LogicalType)
    requires p < |s| && Depth(s[p].typ) <= Depth(t)
    ensures FieldsDepth(WithType(s, p, t)) == Max(FieldsDepth(s), Depth(t))
  {
    var s', d := WithType(s, p, t), FieldsDepth(s);
    if Depth(t) >= d {
      assert s'[p].typ == t;
    } else {
      var j :| 0 <= j < |s| && Depth(s[j].typ) == d;
      assert s'[j] == s[j];
    }
    DepthIs(s', Max(d, Depth(t)));
  }

  lemma {:induction false} DepthAppended(s: seq<LogicalField>, f: LogicalField)
    ensures FieldsDepth(s + [f]) == Max(FieldsDepth(s), Depth(f.typ))
  {
    assert (s + [f])[..|s|] == s;
  }

  lemma {:induction false} DepthFirst(s: seq<LogicalField>)
    requires s != []
    ensures FieldsDepth(s) == Max(Depth(s[0].typ), FieldsDepth(s[1..]))
  {
    var rest, d := FieldsDepth(s[1..]), Depth(s[0].typ);
    if rest > d {
      var j :| 0 <= j < |s[1..]| && Depth(s[1..][j].typ) == rest;
      assert s[j + 1] == s[1..][j];
    }
    forall j | 0 <= j < |s| ensures Depth(s[j].typ) <= Max(d, rest) {
      if j > 0 { assert s[j] == s[1..][j - 1]; }
    }
    DepthIs(s, Max(d, rest));
  }

  lemma {:induction false} StepDepth(dk: string, s: seq<LogicalField>, f: LogicalField)
    ensures FieldsDepth(Step(dk, s, f)) == Max(FieldsDepth(s), Depth(f.typ))
    decreases f, 1
  {
    hide Parse;
    match Target(dk, s, f)
    case AtExact(p) => assert Depth(s[p].typ) <= FieldsDepth(s);
    case Added => DepthAppended(s, f);
    case NewVariant => DepthAppended(s, Variant(s, f));
    case AtName(p) =>
      MergeDepth(dk, s[p].typ, f.typ);
      DepthWithType(s, p, Merge(dk, s[p].typ, f.typ).value);
    case AtProbe(p) =>
      MergeDepth(dk, s[p].typ, f.typ);
      DepthWithType(s, p, Merge(dk, s[p].typ, f.typ).value);
  }

  lemma {:induction false} MergeFieldsDepth(dk: string, s: seq<LogicalField>, incoming: seq<LogicalField>)
    ensures FieldsDepth(MergeFields(dk, s, incoming)) == Max(FieldsDepth(s), FieldsDepth(incoming))
    decreases incoming
  {
    if incoming != [] {
      StepDepth(dk, s, incoming[0]);
      MergeFieldsDepth(dk, Step(dk, s, incoming[0]), incoming[1..]);
      DepthFirst(incoming);
    }
  }

  /** The merged tree is as deep as the deeper of the two, also where a list absorbs a struct. */
  lemma {:induction false} MergeDepth(dk: string, b: LogicalType, i: LogicalType)
    ensures var m := Merge(dk, b, i); m.Some? ==> Depth(m.value) == Max(Depth(b), Depth(i))
    decreases i, b, 0
  {
    match b
    case Scalar(_) =>
    case List(value) => MergeDepth(dk, value, if i.List? then i.value else i);
    case Struct(fields) =>
      if i.Struct? {
        MergeFieldsDepth(dk, fields, i.fields);
      } else if i.Scalar? {
        var p := FirstNamed(fields, WrapperName(dk), 0);
        if p == |fields| {
          DepthAppended(fields, LogicalField(WrapperName(dk), true, i));
        } else {
          MergeDepth(dk, fields[p].typ, i);
          var t := Merge(dk, fields[p].typ, i);
          if t.Some? { DepthWithType(fields, p, t.value); }
        }
      }
  }

  /** Normalising drops scalars only, so it keeps the depth. */
  lemma {:induction false} NormalizeDepth(t: LogicalType)
    ensures Depth(Normalize(t)) == Depth(t)
  {
    match t
    case Scalar(_) =>
    case List(value) => NormalizeDepth(value);
    case Struct(fields) => NormalizeFieldsDepth(fields);
  }

  lemma {:induction false} NormalizeFieldsDepth(s: seq<LogicalField>)
    ensures FieldsDepth(NormalizeFields(s)) == FieldsDepth(s)
  {
    hide Parse, Settled;
    var c, r, d := NormalizeChildren(s), NormalizeFields(s), FieldsDepth(s);
    forall j | 0 <= j < |s| ensures Depth(c[j].typ) == Depth(s[j].typ) { NormalizeDepth(s[j].typ); }
    EmittedInOrder(c, |c|);
    forall k | 0 <= k < |r| ensures Depth(r[k].typ) <= d {
      SettledKeeps(c, Origins(c, |c|)[k]);
    }
    if d > 0 {
      var j :| 0 <= j < |s| && Depth(s[j].typ) == d;
      SettledKeeps(c, j);
      var k := SurvivorEmitted(c, |c|, j);
      assert Depth(r[k].typ) == d;
    }
    DepthIs(r, d);
  }

  // ------------------------------------------------------------------- methods

  method ParquetDepthType(t: LogicalType) returns (d: nat)
    ensures d == Depth(t)
    decreases t, 0
  {
    match t {
      case Scalar(_) => return 0;
      case List(value) => d := ParquetDepthType(value);
      case Struct(fields) =>
        var deepest := ParquetSchemaDepth(fields);
        return 1 + deepest;
    }
  }

  /** A running maximum over the fields. */
  method ParquetSchemaDepth(s: seq<LogicalField>) returns (d: nat)
    ensures d == FieldsDepth(s)
    decreases s, 1
  {
    d := 0;
    for k := 0 to |s|
      invariant forall j :: 0 <= j < k ==> Depth(s[j].typ) <= d
      invariant d == 0 || exists j :: 0 <= j < k && Depth(s[j].typ) == d
    {
      var e := ParquetDepthType(s[k].typ);
      d := Max(d, e);
    }
    DepthIs(s, d);
  }
}
