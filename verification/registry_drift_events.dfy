/** What the events of the drift log say: each one is found in the merged tree along its path. */
module RegistryDriftEvents {
  import opened Basics
  import opened VariantNames
  import opened LogicalSchemas
  import opened RegistryMerge
  import opened RegistryAbsorption
  import opened RegistryGrowth
  import opened RegistryDrift
  import opened RegistryReconciling

  // -------------------------------------------------------------- following a path

  /** A field is found one step further: under its family, the wrapper member also under its own name. */
  predicate Leads(dk: string, here: string, name: string, path: string) {
    path == JoinPath(here, Family(name)) || (name == WrapperName(dk) && path == JoinPath(here, name))
  }

  /** The name of a version tells its family, which the path ends with, and its type. */
  ghost predicate VersionOf(e: DriftEvent, here: string, fam: string, v: nat) {
    v >= 2 && e.path == JoinPath(here, fam) && e.output == Make(fam, v, VariantSemantic(e.current))
  }

  /** The event tells how field `k` of a level came about: widened from what it was, or new. A change inside
      records is told at their fields, so what is told as widened is a scalar, or lists of one. */
  ghost predicate Tells(dk: string, e: DriftEvent, s: seq<LogicalField>, r: seq<LogicalField>, k: nat, here: string) {
    && k < |r| && e.output == r[k].name && Extends(e.current, r[k].typ)
    && match e.kind
       case TypePromoted =>
         && Leads(dk, here, e.output, e.path)
         && e.previous.Some? && e.previous.value != e.current && Extends(e.previous.value, e.current)
         && Core(e.previous.value).Scalar?
         && (k < |s| ==> Extends(s[k].typ, e.previous.value))
       case NewlyAdded => |s| <= k && Leads(dk, here, e.output, e.path) && e.previous == None
       case NewVersionGenerated =>
         && |s| <= k && r[k].nullable && (exists fam, v :: VersionOf(e, here, fam, v))
         && (e.previous.Some? ==> !Reconciles(dk, e.previous.value, e.current))
  }

  /** What a base type has where the merged type has a list or a struct; nothing when it has no such place. */
  function ElementOf(b: Option<LogicalType>): Option<LogicalType> {
    if b.Some? && b.value.List? then Some(b.value.value) else None
  }

  function FieldsOf(b: Option<LogicalType>): seq<LogicalField> {
    if b.Some? && b.value.Struct? then b.value.fields else []
  }

  function TypeAt(s: seq<LogicalField>, k: nat): Option<LogicalType> {
    if k < |s| then Some(s[k].typ) else None
  }

  /** The event tells about a field of this level or, following its path, of a level below. */
  ghost predicate Found(dk: string, e: DriftEvent, s: seq<LogicalField>, r: seq<LogicalField>, here: string)
    decreases r, 1
  {
    exists k :: 0 <= k < |r| && FoundAt(dk, e, s, r, k, here)
  }

  ghost predicate FoundAt(dk: string, e: DriftEvent, s: seq<LogicalField>, r: seq<LogicalField>, k: nat, here: string)
    requires k < |r|
    decreases r, 0
  {
    || Tells(dk, e, s, r, k, here)
    || FoundIn(dk, e, TypeAt(s, k), r[k].typ, JoinPath(here, Family(r[k].name)))
    || (r[k].name == WrapperName(dk) && FoundIn(dk, e, TypeAt(s, k), r[k].typ, JoinPath(here, r[k].name)))
  }

  ghost predicate FoundIn(dk: string, e: DriftEvent, b: Option<LogicalType>, u: LogicalType, path: string)
    decreases u, 0
  {
    match u
    case Scalar(_) => false
    case List(value) => FoundIn(dk, e, ElementOf(b), value, path + "[]")
    case Struct(fields) => Found(dk, e, FieldsOf(b), fields, path)
  }

  // ------------------------------------------------- found stays found as trees grow

  lemma {:induction false} TellsGrown(dk: string, e: DriftEvent, s: seq<LogicalField>, r: seq<LogicalField>,
                                      q: seq<LogicalField>, k: nat, here: string)
    requires Tells(dk, e, s, r, k, here) && ExtendsFields(r, q)
    ensures Tells(dk, e, s, q, k, here)
  {
    hide Leads, Reconciles, Extends, VersionOf;
    assert ExtendsField(r[k], q[k]);
    ExtendsTransitive(e.current, r[k].typ, q[k].typ);
  }

  lemma {:induction false} FoundAtGrown(dk: string, e: DriftEvent, s: seq<LogicalField>, r: seq<LogicalField>,
                                        q: seq<LogicalField>, k: nat, here: string)
    requires k < |r| && FoundAt(dk, e, s, r, k, here) && ExtendsFields(r, q)
    ensures FoundAt(dk, e, s, q, k, here)
    decreases r, 1
  {
    hide Tells, FoundIn, Extends;
    assert ExtendsField(r[k], q[k]);
    if Tells(dk, e, s, r, k, here) {
      TellsGrown(dk, e, s, r, q, k, here);
    } else if FoundIn(dk, e, TypeAt(s, k), r[k].typ, JoinPath(here, Family(r[k].name))) {
      FoundInGrown(dk, e, TypeAt(s, k), r[k].typ, q[k].typ, JoinPath(here, Family(r[k].name)));
    } else {
      FoundInGrown(dk, e, TypeAt(s, k), r[k].typ, q[k].typ, JoinPath(here, r[k].name));
    }
  }

  lemma {:induction false} FoundGrown(dk: string, e: DriftEvent, s: seq<LogicalField>, r: seq<LogicalField>,
                                      q: seq<LogicalField>, here: string)
    requires Found(dk, e, s, r, here) && ExtendsFields(r, q)
    ensures Found(dk, e, s, q, here)
    decreases r, 2
  {
    hide FoundAt, Extends;
    var k :| 0 <= k < |r| && FoundAt(dk, e, s, r, k, here);
    FoundAtGrown(dk, e, s, r, q, k, here);
  }

  lemma {:induction false} FoundInGrown(dk: string, e: DriftEvent, b: Option<LogicalType>, u: LogicalType,
                                        w: LogicalType, path: string)
    requires FoundIn(dk, e, b, u, path) && Extends(u, w)
    ensures FoundIn(dk, e, b, w, path)
    decreases u, 0
  {
    match u
    case List(value) => FoundInGrown(dk, e, ElementOf(b), value, w.value, path + "[]");
    case Struct(fields) => FoundGrown(dk, e, FieldsOf(b), fields, w.fields, path);
  }

  /** A base grows into another one; what is not there yet may become anything. */
  predicate Precedes(b: Option<LogicalType>, c: Option<LogicalType>) {
    b.Some? ==> c.Some? && Extends(b.value, c.value)
  }

  lemma {:induction false} TellsEarlier(dk: string, e: DriftEvent, s: seq<LogicalField>, s1: seq<LogicalField>,
                                        r: seq<LogicalField>, k: nat, here: string)
    requires Tells(dk, e, s1, r, k, here) && ExtendsFields(s, s1)
    ensures Tells(dk, e, s, r, k, here)
  {
    hide Leads, Reconciles, Extends, VersionOf;
    if k < |s| {
      assert ExtendsField(s[k], s1[k]);
      if e.kind == TypePromoted { ExtendsTransitive(s[k].typ, s1[k].typ, e.previous.value); }
    }
  }

  lemma {:induction false} FoundAtEarlier(dk: string, e: DriftEvent, s: seq<LogicalField>, s1: seq<LogicalField>,
                                          r: seq<LogicalField>, k: nat, here: string)
    requires k < |r| && FoundAt(dk, e, s1, r, k, here) && ExtendsFields(s, s1)
    ensures FoundAt(dk, e, s, r, k, here)
    decreases r, 1
  {
    hide Tells, FoundIn, Extends;
    assert k < |s| ==> ExtendsField(s[k], s1[k]);
    if Tells(dk, e, s1, r, k, here) {
      TellsEarlier(dk, e, s, s1, r, k, here);
    } else if FoundIn(dk, e, TypeAt(s1, k), r[k].typ, JoinPath(here, Family(r[k].name))) {
      FoundInEarlier(dk, e, TypeAt(s, k), TypeAt(s1, k), r[k].typ, JoinPath(here, Family(r[k].name)));
    } else {
      FoundInEarlier(dk, e, TypeAt(s, k), TypeAt(s1, k), r[k].typ, JoinPath(here, r[k].name));
    }
  }

  lemma {:induction false} FoundEarlier(dk: string, e: DriftEvent, s: seq<LogicalField>, s1: seq<LogicalField>,
                                        r: seq<LogicalField>, here: string)
    requires Found(dk, e, s1, r, here) && ExtendsFields(s, s1)
    ensures Found(dk, e, s, r, here)
    decreases r, 2
  {
    hide FoundAt, Extends;
    var k :| 0 <= k < |r| && FoundAt(dk, e, s1, r, k, here);
    FoundAtEarlier(dk, e, s, s1, r, k, here);
  }

  lemma {:induction false} FoundInEarlier(dk: string, e: DriftEvent, b: Option<LogicalType>, c: Option<LogicalType>,
                                          u: LogicalType, path: string)
    requires FoundIn(dk, e, c, u, path) && Precedes(b, c)
    ensures FoundIn(dk, e, b, u, path)
    decreases u, 0
  {
    match u
    case List(value) => FoundInEarlier(dk, e, ElementOf(b), ElementOf(c), value, path + "[]");
    case Struct(fields) => FoundEarlier(dk, e, FieldsOf(b), FieldsOf(c), fields, path);
  }

  // ------------------------------------------------------------------ every event

  lemma {:induction false} RecordsLogInside(dk: string, b: LogicalType, i: LogicalType, path: string)
    requires Merge(dk, b, i).Some? && Core(b).Struct?
    ensures Merge(dk, b, i) != Some(b) ==> TypeDrifts(dk, b, i, path) != []
  {
    match b
    case List(value) => RecordsLogInside(dk, value, if i.List? then i.value else i, path + "[]");
    case Struct(fields) =>
      if i.Struct? {
        DriftExactlyWhenChanged(dk, fields, i.fields, path);
      } else {
        var p := FirstNamed(fields, WrapperName(dk), 0);
        assert p < |fields| ==> WithType(fields, p, fields[p].typ) == fields;
      }
  }

  lemma {:induction false} WidenFound(dk: string, s: seq<LogicalField>, p: nat, i: LogicalType, here: string,
                                      path: string, e: DriftEvent)
    requires p < |s| && Merge(dk, s[p].typ, i).Some? && e in WidenDrifts(dk, s[p], i, path)
    requires path == JoinPath(here, Family(s[p].name))
             || (s[p].name == WrapperName(dk) && path == JoinPath(here, s[p].name))
    ensures FoundAt(dk, e, s, WithType(s, p, Merge(dk, s[p].typ, i).value), p, here)
    decreases i, s, 1
  {
    hide FoundIn, Merge, TypeDrifts, Extends;
    var t := Merge(dk, s[p].typ, i).value;
    var r := WithType(s, p, t);
    MergeGrows(dk, s[p].typ, i);
    if e in TypeDrifts(dk, s[p].typ, i, path) {
      TypeEventsFound(dk, s[p].typ, i, path, e);
    } else {
      ExtendsReflexive(t);
      ExtendsReflexive(s[p].typ);
      if Core(s[p].typ).Struct? { RecordsLogInside(dk, s[p].typ, i, path); }
      assert Tells(dk, e, s, r, p, here);
    }
  }

  lemma {:induction false} VariantTells(dk: string, s: seq<LogicalField>, f: LogicalField, parent: string,
                                        e: DriftEvent)
    requires Target(dk, s, f) == NewVariant && e in StepDrifts(dk, s, f, parent)
    ensures Tells(dk, e, s, Step(dk, s, f), |s|, parent) && e.kind == NewVersionGenerated
  {
    hide Parse, Extends, Reconciles;
    var p := LastNamed(s, f.name, |s|);
    ExtendsReflexive(f.typ);
    var v := VariantIsLeast(s, f);
    assert VersionOf(e, parent, Family(f.name), v);
    if p >= 0 { MergesExactly(dk, s[p].typ, f.typ); }
  }

  lemma {:induction false} AddedTells(dk: string, s: seq<LogicalField>, f: LogicalField, parent: string)
    requires Target(dk, s, f) == Added
    ensures var log := StepDrifts(dk, s, f, parent);
            |log| == 1 && log[0].kind == NewlyAdded && Tells(dk, log[0], s, Step(dk, s, f), |s|, parent)
  {
    hide Parse, Extends;
    ExtendsReflexive(f.typ);
  }

  lemma {:induction false} StepFound(dk: string, s: seq<LogicalField>, f: LogicalField, parent: string, e: DriftEvent)
    requires e in StepDrifts(dk, s, f, parent)
    ensures Found(dk, e, s, Step(dk, s, f), parent)
    decreases f, 1
  {
    hide Parse, FoundIn, Merge, TypeDrifts, Extends;
    var path, r := JoinPath(parent, Family(f.name)), Step(dk, s, f);
    match Target(dk, s, f)
    case AtName(p) =>
      WidenFound(dk, s, p, f.typ, parent, path, e);
      assert FoundAt(dk, e, s, r, p, parent);
    case AtProbe(p) =>
      WidenFound(dk, s, p, f.typ, parent, path, e);
      assert FoundAt(dk, e, s, r, p, parent);
    case Added =>
      AddedTells(dk, s, f, parent);
      assert FoundAt(dk, e, s, r, |s|, parent);
    case NewVariant =>
      VariantTells(dk, s, f, parent, e);
      assert FoundAt(dk, e, s, r, |s|, parent);
  }

  /** Every event of a merge of fields is found in the result. */
  lemma {:induction false} EventsFound(dk: string, s: seq<LogicalField>, incoming: seq<LogicalField>, parent: string,
                                       e: DriftEvent)
    requires e in FieldDrifts(dk, s, incoming, parent)
    ensures Found(dk, e, s, MergeFields(dk, s, incoming), parent)
    decreases incoming
  {
    hide Found, Step, StepDrifts;
    var s1, r := Step(dk, s, incoming[0]), MergeFields(dk, s, incoming);
    StepGrows(dk, s, incoming[0]);
    MergeFieldsGrows(dk, s1, incoming[1..]);
    if e in StepDrifts(dk, s, incoming[0], parent) {
      StepFound(dk, s, incoming[0], parent, e);
      FoundGrown(dk, e, s, s1, r, parent);
    } else {
      EventsFound(dk, s1, incoming[1..], parent, e);
      FoundEarlier(dk, e, s, s1, r, parent);
    }
  }

  /** Every event of a merge of types is found in the result. */
  lemma {:induction false} TypeEventsFound(dk: string, b: LogicalType, i: LogicalType, path: string, e: DriftEvent)
    requires Merge(dk, b, i).Some? && e in TypeDrifts(dk, b, i, path)
    ensures FoundIn(dk, e, Some(b), Merge(dk, b, i).value, path)
    decreases i, b, 0
  {
    match b
    case List(value) => TypeEventsFound(dk, value, if i.List? then i.value else i, path + "[]", e);
    case Struct(fields) =>
      if i.Struct? {
        EventsFound(dk, fields, i.fields, path, e);
      } else {
        WrapperFound(dk, fields, i, path, e);
      }
  }

  lemma {:induction false} WrapperFound(dk: string, fields: seq<LogicalField>, i: LogicalType, path: string,
                                        e: DriftEvent)
    requires i.Scalar? && Merge(dk, Struct(fields), i).Some? && e in TypeDrifts(dk, Struct(fields), i, path)
    ensures Found(dk, e, fields, Merge(dk, Struct(fields), i).value.fields, path)
    decreases i, fields, 2
  {
    hide Parse, FoundIn, Extends;
    var p := FirstNamed(fields, WrapperName(dk), 0);
    var r := Merge(dk, Struct(fields), i).value.fields;
    if p == |fields| {
      ExtendsReflexive(i);
      assert FoundAt(dk, e, fields, r, p, path);
    } else {
      WidenFound(dk, fields, p, i, path, JoinPath(path, WrapperName(dk)), e);
      assert FoundAt(dk, e, fields, r, p, path);
    }
  }

  // ----------------------------------------------------------- every change is told

  /** Every field that is new, or that changed, has an event: new ones their own, changed ones one that is
      found at them. */
  ghost predicate Told(dk: string, log: seq<DriftEvent>, s: seq<LogicalField>, r: seq<LogicalField>, k: nat,
                       here: string)
    requires k < |r|
  {
    if k < |s| then r[k] != s[k] ==> exists e :: e in log && FoundAt(dk, e, s, r, k, here)
    else exists e :: e in log && e.kind != TypePromoted && Tells(dk, e, s, r, k, here)
  }

  lemma {:induction false} WidenTold(dk: string, s: seq<LogicalField>, p: nat, f: LogicalField, parent: string)
    requires p < |s| && Merge(dk, s[p].typ, f.typ).Some? && InFamily(s[p], Family(f.name))
    ensures var r := WithType(s, p, Merge(dk, s[p].typ, f.typ).value);
            Told(dk, WidenDrifts(dk, s[p], f.typ, JoinPath(parent, Family(f.name))), s, r, p, parent)
  {
    hide Parse, FoundAt, Merge, WidenDrifts;
    var path, r := JoinPath(parent, Family(f.name)), WithType(s, p, Merge(dk, s[p].typ, f.typ).value);
    var log := WidenDrifts(dk, s[p], f.typ, path);
    WidenLogged(dk, s, p, f.typ, path);
    if r[p] != s[p] {
      assert log[0] in log;
      WidenFound(dk, s, p, f.typ, parent, path, log[0]);
    }
  }

  lemma {:induction false} StepTold(dk: string, s: seq<LogicalField>, f: LogicalField, parent: string, k: nat)
    requires k < |Step(dk, s, f)|
    ensures Told(dk, StepDrifts(dk, s, f, parent), s, Step(dk, s, f), k, parent)
  {
    hide Parse, FoundAt, Merge, WidenDrifts, Tells, VariantName;
    var log := StepDrifts(dk, s, f, parent);
    match Target(dk, s, f)
    case AtExact(_) =>
    case AtName(p) => if k == p { WidenTold(dk, s, p, f, parent); }
    case AtProbe(p) => if k == p { WidenTold(dk, s, p, f, parent); }
    case Added =>
      assert log[0] in log;
      AddedTells(dk, s, f, parent);
    case NewVariant =>
      assert log[0] in log;
      VariantTells(dk, s, f, parent, log[0]);
  }

  /** Every new or changed field of the result is told about by some event. */
  lemma {:induction false} EveryChangeTold(dk: string, s: seq<LogicalField>, incoming: seq<LogicalField>,
                                           parent: string, k: nat)
    requires k < |MergeFields(dk, s, incoming)|
    ensures Told(dk, FieldDrifts(dk, s, incoming, parent), s, MergeFields(dk, s, incoming), k, parent)
    decreases incoming
  {
    hide Step, StepDrifts, FoundAt, Tells, Extends;
    if incoming != [] {
      var s1, r := Step(dk, s, incoming[0]), MergeFields(dk, s, incoming);
      var first, rest := StepDrifts(dk, s, incoming[0], parent), FieldDrifts(dk, s1, incoming[1..], parent);
      StepGrows(dk, s, incoming[0]);
      MergeFieldsGrows(dk, s1, incoming[1..]);
      EveryChangeTold(dk, s1, incoming[1..], parent, k);
      if k < |s1| { StepTold(dk, s, incoming[0], parent, k); }
      ToldTogether(dk, first, rest, s, s1, r, k, parent);
    }
  }

  lemma {:induction false} ToldTogether(dk: string, first: seq<DriftEvent>, rest: seq<DriftEvent>, s: seq<LogicalField>,
                                        s1: seq<LogicalField>, r: seq<LogicalField>, k: nat, here: string)
    requires k < |r| && ExtendsFields(s, s1) && ExtendsFields(s1, r)
    requires k < |s1| ==> Told(dk, first, s, s1, k, here)
    requires Told(dk, rest, s1, r, k, here)
    ensures Told(dk, first + rest, s, r, k, here)
  {
    hide FoundAt, Tells, Extends;
    if k >= |s1| {
      var e :| e in rest && e.kind != TypePromoted && Tells(dk, e, s1, r, k, here);
      TellsEarlier(dk, e, s, s1, r, k, here);
      assert e in first + rest;
    } else if k >= |s| {
      var e :| e in first && e.kind != TypePromoted && Tells(dk, e, s, s1, k, here);
      TellsGrown(dk, e, s, s1, r, k, here);
      assert e in first + rest;
    } else if s1[k] != s[k] {
      var e :| e in first && FoundAt(dk, e, s, s1, k, here);
      FoundAtGrown(dk, e, s, s1, r, k, here);
      assert e in first + rest;
    } else if r[k] != s[k] {
      var e :| e in rest && FoundAt(dk, e, s1, r, k, here);
      FoundAtEarlier(dk, e, s, s1, r, k, here);
      assert e in first + rest;
    }
  }

  // ------------------------------------------- exactly, for one field per family

  /** The event gives the very types that the field has in the base and in the result. */
  ghost predicate TellsExactly(dk: string, e: DriftEvent, s: seq<LogicalField>, r: seq<LogicalField>, k: nat,
                               here: string) {
    && Tells(dk, e, s, r, k, here) && e.current == r[k].typ
    && (e.kind == TypePromoted ==> e.previous == TypeAt(s, k))
  }

  ghost predicate ExactlyAt(dk: string, e: DriftEvent, s: seq<LogicalField>, r: seq<LogicalField>, k: nat, here: string)
    requires k < |r|
    decreases r, 0
  {
    || TellsExactly(dk, e, s, r, k, here)
    || (k < |s| && ExactlyIn(dk, e, s[k].typ, r[k].typ, JoinPath(here, Family(r[k].name))))
    || (k < |s| && r[k].name == WrapperName(dk) && ExactlyIn(dk, e, s[k].typ, r[k].typ, JoinPath(here, r[k].name)))
  }

  ghost predicate ExactlyIn(dk: string, e: DriftEvent, b: LogicalType, u: LogicalType, path: string)
    decreases u, 0
  {
    match u
    case Scalar(_) => false
    case List(value) => b.List? && ExactlyIn(dk, e, b.value, value, path + "[]")
    case Struct(fields) => b.Struct? && exists k :: 0 <= k < |fields| && ExactlyAt(dk, e, b.fields, fields, k, path)
  }

  /** Field `k` is the same before and after what else was merged. */
  lemma {:induction false} ExactlyStill(dk: string, e: DriftEvent, s: seq<LogicalField>, r: seq<LogicalField>,
                                        s': seq<LogicalField>, r': seq<LogicalField>, k: nat, here: string)
    requires k < |r| && k < |r'| && r'[k] == r[k] && ExactlyAt(dk, e, s, r, k, here)
    requires TypeAt(s', k) == TypeAt(s, k)
    ensures ExactlyAt(dk, e, s', r', k, here)
  {
    hide Leads, Reconciles, Extends, VersionOf, ExactlyIn;
  }

  lemma {:induction false} WidenExactly(dk: string, s: seq<LogicalField>, p: nat, i: LogicalType, here: string,
                                        path: string, e: DriftEvent)
    requires p < |s| && Merge(dk, s[p].typ, i).Some? && Replayable(i) && e in WidenDrifts(dk, s[p], i, path)
    requires path == JoinPath(here, Family(s[p].name))
             || (s[p].name == WrapperName(dk) && path == JoinPath(here, s[p].name))
    ensures ExactlyAt(dk, e, s, WithType(s, p, Merge(dk, s[p].typ, i).value), p, here)
    decreases i, s, 1
  {
    hide ExactlyIn, Merge, TypeDrifts, Extends, Replayable;
    var t := Merge(dk, s[p].typ, i).value;
    MergeGrows(dk, s[p].typ, i);
    if e in TypeDrifts(dk, s[p].typ, i, path) {
      TypeEventsExact(dk, s[p].typ, i, path, e);
    } else {
      if Core(s[p].typ).Struct? { RecordsLogInside(dk, s[p].typ, i, path); }
      ExtendsReflexive(t);
      ExtendsReflexive(s[p].typ);
      assert Tells(dk, e, s, WithType(s, p, t), p, here);
    }
  }

  lemma {:induction false} StepExactly(dk: string, s: seq<LogicalField>, f: LogicalField, parent: string, e: DriftEvent)
    returns (k: nat)
    requires OnePerFamily(f.typ) && AnchoredField(f) && e in StepDrifts(dk, s, f, parent)
    ensures k < |Step(dk, s, f)| && InFamily(Step(dk, s, f)[k], Family(f.name))
    ensures ExactlyAt(dk, e, s, Step(dk, s, f), k, parent)
    decreases f, 1
  {
    hide Parse, ExactlyIn, Merge, TypeDrifts, Extends, OnePerFamily, Anchored, VariantName;
    var path := JoinPath(parent, Family(f.name));
    match Target(dk, s, f)
    case AtName(p) =>
      k := p;
      WidenExactly(dk, s, p, f.typ, parent, path, e);
    case AtProbe(p) =>
      k := p;
      WidenExactly(dk, s, p, f.typ, parent, path, e);
    case Added =>
      k := |s|;
      AddedTells(dk, s, f, parent);
    case NewVariant =>
      k := |s|;
      VariantTells(dk, s, f, parent, e);
      VariantFamily(dk, s, f);
  }

  /** With one field per family every event gives the types of its field in the base and in the result. */
  lemma {:induction false} EventsExact(dk: string, s: seq<LogicalField>, incoming: seq<LogicalField>, parent: string,
                                       e: DriftEvent) returns (k: nat, n: nat)
    requires ReplayableFields(incoming) && e in FieldDrifts(dk, s, incoming, parent)
    ensures var r := MergeFields(dk, s, incoming);
            && k < |r| && n < |incoming| && InFamily(r[k], Family(incoming[n].name))
            && ExactlyAt(dk, e, s, r, k, parent)
    decreases incoming
  {
    hide Parse, Step, StepDrifts, ExactlyAt, OnePerFamily, Anchored;
    var s1, r, fam := Step(dk, s, incoming[0]), MergeFields(dk, s, incoming), Family(incoming[0].name);
    StepGrows(dk, s, incoming[0]);
    MergeFieldsGrows(dk, s1, incoming[1..]);
    assert forall j :: 0 <= j < |incoming| ==> AnchoredField(incoming[j]);
    if e in StepDrifts(dk, s, incoming[0], parent) {
      k := StepExactly(dk, s, incoming[0], parent, e);
      n := 0;
      OthersElsewhere(dk, s1, incoming[1..], fam);
      ExactlyStill(dk, e, s, s1, s, r, k, parent);
    } else {
      k, n := EventsExact(dk, s1, incoming[1..], parent, e);
      n := n + 1;
      StepElsewhere(dk, s, incoming[0], Family(incoming[n].name));
      SameTypeAt(s, s1, r, Family(incoming[n].name), k);
      ExactlyStill(dk, e, s1, r, s, r, k, parent);
    }
  }

  lemma {:induction false} SameTypeAt(s: seq<LogicalField>, s1: seq<LogicalField>, r: seq<LogicalField>, fam: string,
                                      k: nat)
    requires SameFamily(s, s1, fam) && ExtendsFields(s1, r) && k < |r| && InFamily(r[k], fam)
    ensures TypeAt(s, k) == TypeAt(s1, k)
  {
    hide Parse, Extends;
    if k < |s1| { assert ExtendsField(s1[k], r[k]); }
  }

  lemma {:induction false} TypeEventsExact(dk: string, b: LogicalType, i: LogicalType, path: string, e: DriftEvent)
    requires Merge(dk, b, i).Some? && Replayable(i) && e in TypeDrifts(dk, b, i, path)
    ensures ExactlyIn(dk, e, b, Merge(dk, b, i).value, path)
    decreases i, b, 0
  {
    match b
    case List(value) => TypeEventsExact(dk, value, if i.List? then i.value else i, path + "[]", e);
    case Struct(fields) =>
      if i.Struct? {
        var k, n := EventsExact(dk, fields, i.fields, path, e);
      } else {
        WrapperExactly(dk, fields, i, path, e);
      }
  }

  lemma {:induction false} WrapperExactly(dk: string, fields: seq<LogicalField>, i: LogicalType, path: string,
                                          e: DriftEvent)
    requires i.Scalar? && Merge(dk, Struct(fields), i).Some? && e in TypeDrifts(dk, Struct(fields), i, path)
    ensures ExactlyIn(dk, e, Struct(fields), Merge(dk, Struct(fields), i).value, path)
    decreases i, fields, 2
  {
    hide Parse, Extends;
    var p := FirstNamed(fields, WrapperName(dk), 0);
    var r := Merge(dk, Struct(fields), i).value.fields;
    if p == |fields| {
      ExtendsReflexive(i);
    } else {
      WidenExactly(dk, fields, p, i, path, JoinPath(path, WrapperName(dk)), e);
    }
    assert ExactlyAt(dk, e, fields, r, p, path);
  }

  // --------------------------------------------------------------- one appended field

  /** A step that appends a field logs it alone: as a version, with the type of the last field of its name
      before it, where the family decided; else as added. */
  lemma {:induction false} AppendReported(dk: string, s: seq<LogicalField>, f: LogicalField, parent: string)
    requires |Step(dk, s, f)| > |s|
    ensures var log, r := StepDrifts(dk, s, f, parent), Step(dk, s, f);
            && |log| == 1 && r[..|s|] == s && |r| == |s| + 1
            && log[0].output == r[|s|].name && log[0].current == r[|s|].typ == f.typ
            && log[0].path == JoinPath(parent, Family(f.name))
            && log[0].kind == (if exists skip :: FamilyDecides(dk, s, f, skip) then NewVersionGenerated else NewlyAdded)
            && if Unnamed(s, f.name) then log[0].previous == None
               else exists p: nat :: LastOf(s, f.name, p) && log[0].previous == Some(s[p].typ)
  {
    hide Parse, Merge, Reconciles, VariantName;
    var p := LastNamed(s, f.name, |s|);
    if p >= 0 {
      MergesExactly(dk, s[p].typ, f.typ);
      assert LastOf(s, f.name, p);
      assert FamilyDecides(dk, s, f, p);
    } else if Target(dk, s, f) == NewVariant {
      assert FamilyDecides(dk, s, f, -1);
    } else {
      assert forall q: nat :: !LastOf(s, f.name, q);
    }
  }

  lemma {:induction false} ScalarsLogNothingInside(dk: string, b: LogicalType, i: LogicalType, path: string)
    requires Core(b).Scalar?
    ensures TypeDrifts(dk, b, i, path) == []
  {
    if b.List? { ScalarsLogNothingInside(dk, b.value, if i.List? then i.value else i, path + "[]"); }
  }

  /** A step that widens a scalar, or lists of one, logs that alone: the path, the name and both types. */
  lemma {:induction false} WideningReported(dk: string, s: seq<LogicalField>, f: LogicalField, parent: string, p: nat)
    requires p < |s| == |Step(dk, s, f)| && Step(dk, s, f)[p] != s[p] && Core(s[p].typ).Scalar?
    ensures StepDrifts(dk, s, f, parent) ==
            [DriftEvent(JoinPath(parent, Family(f.name)), s[p].name, TypePromoted, Some(s[p].typ),
              Step(dk, s, f)[p].typ)]
  {
    hide Parse, Merge, Variant;
    ScalarsLogNothingInside(dk, s[p].typ, f.typ, JoinPath(parent, Family(f.name)));
  }

  /** The log of a list of fields is the log of its first part, and then that of the rest. */
  lemma {:induction false} LogsJoin(dk: string, s: seq<LogicalField>, a: seq<LogicalField>, b: seq<LogicalField>,
                                    parent: string)
    ensures MergeFields(dk, s, a + b) == MergeFields(dk, MergeFields(dk, s, a), b)
    ensures FieldDrifts(dk, s, a + b, parent) ==
            FieldDrifts(dk, s, a, parent) + FieldDrifts(dk, MergeFields(dk, s, a), b, parent)
    decreases a
  {
    hide Step, StepDrifts;
    if a == [] {
      assert a + b == b;
    } else {
      assert (a + b)[0] == a[0] && (a + b)[1..] == a[1..] + b;
      LogsJoin(dk, Step(dk, s, a[0]), a[1..], b, parent);
    }
  }

  /** A family that is observed twice passes through a type that neither the base nor the result has. */
  lemma {:induction false} PassesBetween(dk: string, s: seq<LogicalField>, incoming: seq<LogicalField>)
    requires s == [LogicalField("x", true, Scalar(Null))]
    requires incoming == [LogicalField("x", true, Scalar(Int64)), LogicalField("x", true, Scalar(Float64))]
    ensures MergeFields(dk, s, incoming) == [LogicalField("x", true, Scalar(Float64))]
    ensures FieldDrifts(dk, s, incoming, "") ==
            [DriftEvent("x", "x", TypePromoted, Some(Scalar(Null)), Scalar(Int64)),
             DriftEvent("x", "x", TypePromoted, Some(Scalar(Int64)), Scalar(Float64))]
  {
    hide Parse, Family;
    assert Family("x") == "x" by { PlainX(); }
    var mid := [LogicalField("x", true, Scalar(Int64))];
    OneWidened(dk, Scalar(Null), Scalar(Int64));
    OneWidened(dk, Scalar(Int64), Scalar(Float64));
    LogsJoin(dk, s, [incoming[0]], [incoming[1]], "");
    assert incoming == [incoming[0]] + [incoming[1]];
    assert MergeFields(dk, s, [incoming[0]]) == mid;
  }

  lemma {:induction false} PlainX()
    ensures Family("x") == "x"
  {
  }

  lemma {:induction false} OneWidened(dk: string, b: LogicalType, i: LogicalType)
    requires b.Scalar? && i.Scalar? && b != i && Merge(dk, b, i) == Some(i)
    ensures var s, f := [LogicalField("x", true, b)], LogicalField("x", true, i);
            && MergeFields(dk, s, [f]) == [f]
            && FieldDrifts(dk, s, [f], "") == [DriftEvent("x", "x", TypePromoted, Some(b), i)]
  {
    hide Parse, Family, Merge;
    PlainX();
    var s, f := [LogicalField("x", true, b)], LogicalField("x", true, i);
    assert LastNamed(s, "x", 1) == 0 && Target(dk, s, f) == AtName(0);
    assert Step(dk, s, f) == [f];
    WideningReported(dk, s, f, "", 0);
  }
}
