/** The drift log: one entry for every durable change, none otherwise. */
module RegistryDrift {
  import opened Basics
  import opened VariantNames
  import opened LogicalSchemas
  import opened RegistryMerge
  import opened RegistryGrowth

  datatype DriftKind = NewlyAdded | NewVersionGenerated | TypePromoted

  datatype DriftEvent = DriftEvent(
    path: string, output: string, kind: DriftKind, previous: Option<LogicalType>, current: LogicalType)

  function JoinPath(parent: string, child: string): string {
    if parent == "" then child else parent + "." + child
  }

  /** A change that logged nothing deeper is logged as a promotion of its own field. */
  function Noted(deeper: seq<DriftEvent>, f: LogicalField, t: LogicalType, path: string): seq<DriftEvent> {
    if f.typ != t && deeper == [] then [DriftEvent(path, f.name, TypePromoted, Some(f.typ), t)] else deeper
  }

  /** What merging `i` into `b` logs below `path`. */
  function TypeDrifts(dk: string, b: LogicalType, i: LogicalType, path: string): seq<DriftEvent>
    decreases i, b, 0
  {
    match b
    case Scalar(_) => []
    case List(value) => TypeDrifts(dk, value, if i.List? then i.value else i, path + "[]")
    case Struct(fields) =>
      if i.Struct? then FieldDrifts(dk, fields, i.fields, path)
      else if i.List? then []
      else
        var key := WrapperName(dk);
        var keyPath := JoinPath(path, key);
        var p := FirstNamed(fields, key, 0);
        if p == |fields| then [DriftEvent(keyPath, key, NewlyAdded, None, i)]
        else
          match Merge(dk, fields[p].typ, i)
          case Some(t) => Noted(TypeDrifts(dk, fields[p].typ, i, keyPath), fields[p], t, keyPath)
          case None => []
  }

  function FieldDrifts(dk: string, s: seq<LogicalField>, incoming: seq<LogicalField>, parent: string): seq<DriftEvent>
    decreases incoming
  {
    if incoming == [] then []
    else StepDrifts(dk, s, incoming[0], parent) + FieldDrifts(dk, Step(dk, s, incoming[0]), incoming[1..], parent)
  }

  function StepDrifts(dk: string, s: seq<LogicalField>, f: LogicalField, parent: string): seq<DriftEvent>
    decreases f, 1
  {
    var path := JoinPath(parent, Family(f.name));
    match Target(dk, s, f)
    case AtName(p) => WidenDrifts(dk, s[p], f.typ, path)
    case AtProbe(p) => WidenDrifts(dk, s[p], f.typ, path)
    case AtExact(_) => []
    case NewVariant =>
      var p := LastNamed(s, f.name, |s|);
      [DriftEvent(path, Variant(s, f).name, NewVersionGenerated, if p < 0 then None else Some(s[p].typ), f.typ)]
    case Added => [DriftEvent(path, f.name, NewlyAdded, None, f.typ)]
  }

  function WidenDrifts(dk: string, g: LogicalField, i: LogicalType, path: string): seq<DriftEvent>
    requires Merge(dk, g.typ, i).Some?
    decreases i, g, 1
  {
    Noted(TypeDrifts(dk, g.typ, i, path), g, Merge(dk, g.typ, i).value, path)
  }

  // ------------------------------------------------ logged exactly when changed

  /** A merge that logs has changed its base; one that fails logs nothing. */
  lemma {:induction false} DriftMeansChange(dk: string, b: LogicalType, i: LogicalType, path: string)
    ensures TypeDrifts(dk, b, i, path) != [] ==> Merge(dk, b, i).Some? && Merge(dk, b, i) != Some(b)
    decreases i, b, 0
  {
    match b
    case Scalar(_) =>
    case List(value) => DriftMeansChange(dk, value, if i.List? then i.value else i, path + "[]");
    case Struct(fields) =>
      if i.Struct? {
        DriftExactlyWhenChanged(dk, fields, i.fields, path);
      } else if i.Scalar? {
        var p := FirstNamed(fields, WrapperName(dk), 0);
        if p < |fields| {
          DriftMeansChange(dk, fields[p].typ, i, JoinPath(path, WrapperName(dk)));
          var t := Merge(dk, fields[p].typ, i);
          assert t.Some? ==> WithType(fields, p, t.value)[p].typ == t.value;
        }
      }
  }

  lemma {:induction false} WidenLogged(dk: string, s: seq<LogicalField>, p: nat, i: LogicalType, path: string)
    requires p < |s| && Merge(dk, s[p].typ, i).Some?
    ensures WidenDrifts(dk, s[p], i, path) != [] <==> WithType(s, p, Merge(dk, s[p].typ, i).value) != s
    decreases i, s, 1
  {
    DriftMeansChange(dk, s[p].typ, i, path);
    var t := Merge(dk, s[p].typ, i).value;
    assert WithType(s, p, t)[p].typ == t;
    assert t == s[p].typ ==> WithType(s, p, t) == s;
  }

  lemma {:induction false} StepLogged(dk: string, s: seq<LogicalField>, f: LogicalField, parent: string)
    ensures StepDrifts(dk, s, f, parent) != [] <==> Step(dk, s, f) != s
    decreases f, 1
  {
    var path := JoinPath(parent, Family(f.name));
    match Target(dk, s, f)
    case AtExact(_) =>
    case Added => assert |Step(dk, s, f)| != |s|;
    case NewVariant => assert |Step(dk, s, f)| != |s|;
    case AtName(p) => WidenLogged(dk, s, p, f.typ, path);
    case AtProbe(p) => WidenLogged(dk, s, p, f.typ, path);
  }

  /** A merge of fields logs at least one event if and only if its result differs from its base. */
  lemma {:induction false} DriftExactlyWhenChanged(dk: string, s: seq<LogicalField>, incoming: seq<LogicalField>,
                                                   parent: string)
    ensures FieldDrifts(dk, s, incoming, parent) != [] <==> MergeFields(dk, s, incoming) != s
    decreases incoming
  {
    if incoming != [] {
      var s1, r := Step(dk, s, incoming[0]), MergeFields(dk, s, incoming);
      StepLogged(dk, s, incoming[0], parent);
      DriftExactlyWhenChanged(dk, s1, incoming[1..], parent);
      if r == s {
        // growth cannot be undone, so neither part changed anything
        StepGrows(dk, s, incoming[0]);
        MergeFieldsGrows(dk, s1, incoming[1..]);
        ExtendsAntisymmetric(Struct(s), Struct(s1));
      }
    }
  }

  // ---------------------------------------- the log accounts for every new field

  /** All fields of a tree, at every depth. */
  function FieldCount(t: LogicalType): nat {
    match t
    case Scalar(_) => 0
    case List(value) => FieldCount(value)
    case Struct(fields) => FieldsCount(fields)
  }

  function FieldsCount(s: seq<LogicalField>): nat {
    if s == [] then 0
    else FieldsCount(s[..|s| - 1]) + 1 + FieldCount(s[|s| - 1].typ)
  }

  /** The fields that a log reports as newly added or newly versioned, with their subtrees. */
  function Reported(ds: seq<DriftEvent>): nat {
    if ds == [] then 0
    else Reported(ds[1..]) + if ds[0].kind == TypePromoted then 0 else 1 + FieldCount(ds[0].current)
  }

  lemma {:induction false} ReportedAppend(ds: seq<DriftEvent>, es: seq<DriftEvent>)
    ensures Reported(ds + es) == Reported(ds) + Reported(es)
  {
    if ds == [] {
      assert ds + es == es;
    } else {
      ReportedAppend(ds[1..], es);
      assert (ds + es)[1..] == ds[1..] + es;
    }
  }

  lemma {:induction false} CountWithType(s: seq<LogicalField>, p: nat, t: LogicalType)
    requires p < |s|
    ensures FieldsCount(WithType(s, p, t)) + FieldCount(s[p].typ) == FieldsCount(s) + FieldCount(t)
  {
    var s' := WithType(s, p, t);
    if p == |s| - 1 {
      assert s'[..|s| - 1] == s[..|s| - 1];
    } else {
      CountWithType(s[..|s| - 1], p, t);
      assert s'[..|s| - 1] == WithType(s[..|s| - 1], p, t);
    }
  }

  lemma {:induction false} CountAppended(s: seq<LogicalField>, f: LogicalField)
    ensures FieldsCount(s + [f]) == FieldsCount(s) + 1 + FieldCount(f.typ)
  {
    assert (s + [f])[..|s|] == s;
  }

  lemma {:induction false} WidenAccounted(dk: string, s: seq<LogicalField>, p: nat, i: LogicalType, path: string)
    requires p < |s| && Merge(dk, s[p].typ, i).Some?
    ensures FieldsCount(WithType(s, p, Merge(dk, s[p].typ, i).value))
         == FieldsCount(s) + Reported(WidenDrifts(dk, s[p], i, path))
    decreases i, s, 1
  {
    EveryFieldAccounted(dk, s[p].typ, i, path);
    CountWithType(s, p, Merge(dk, s[p].typ, i).value);
  }

  lemma {:induction false} StepAccounted(dk: string, s: seq<LogicalField>, f: LogicalField, parent: string)
    ensures FieldsCount(Step(dk, s, f)) == FieldsCount(s) + Reported(StepDrifts(dk, s, f, parent))
    decreases f, 1
  {
    var path := JoinPath(parent, Family(f.name));
    match Target(dk, s, f)
    case AtExact(_) =>
    case Added => CountAppended(s, f);
    case NewVariant => CountAppended(s, Variant(s, f));
    case AtName(p) => WidenAccounted(dk, s, p, f.typ, path);
    case AtProbe(p) => WidenAccounted(dk, s, p, f.typ, path);
  }

  lemma {:induction false} FieldsAccounted(dk: string, s: seq<LogicalField>, incoming: seq<LogicalField>,
                                           parent: string)
    ensures FieldsCount(MergeFields(dk, s, incoming)) == FieldsCount(s) + Reported(FieldDrifts(dk, s, incoming, parent))
    decreases incoming
  {
    if incoming != [] {
      var s1 := Step(dk, s, incoming[0]);
      StepAccounted(dk, s, incoming[0], parent);
      FieldsAccounted(dk, s1, incoming[1..], parent);
      ReportedAppend(StepDrifts(dk, s, incoming[0], parent), FieldDrifts(dk, s1, incoming[1..], parent));
    }
  }

  /** The merged tree has exactly the fields of its base and those the log reports. */
  lemma {:induction false} EveryFieldAccounted(dk: string, b: LogicalType, i: LogicalType, path: string)
    ensures var m := Merge(dk, b, i);
            m.Some? ==> FieldCount(m.value) == FieldCount(b) + Reported(TypeDrifts(dk, b, i, path))
    decreases i, b, 0
  {
    match b
    case Scalar(_) =>
    case List(value) => EveryFieldAccounted(dk, value, if i.List? then i.value else i, path + "[]");
    case Struct(fields) =>
      if i.Struct? {
        FieldsAccounted(dk, fields, i.fields, path);
      } else if i.Scalar? {
        var p := FirstNamed(fields, WrapperName(dk), 0);
        if p == |fields| {
          CountAppended(fields, LogicalField(WrapperName(dk), true, i));
        } else {
          EveryFieldAccounted(dk, fields[p].typ, i, JoinPath(path, WrapperName(dk)));
          var t := Merge(dk, fields[p].typ, i);
          if t.Some? { CountWithType(fields, p, t.value); }
        }
      }
  }
}
