/** What a registry node means, apart from how it is read: the reader accepts exactly that, within the limits. */
module SchemaJsonMeaning {
  import opened Basics
  import opened LogicalSchemas
  import opened SchemaJson

  /** The last member of a key has this value. */
  ghost predicate Says(node: Json, key: string, value: Json) {
    node.JObject? && exists k :: 0 <= k < |node.members| && SaysAt(node.members, k, key, value)
  }

  predicate SaysAt(members: seq<Member>, k: nat, key: string, value: Json)
    requires k < |members|
  {
    members[k] == Member(key, value) && forall j :: k < j < |members| ==> members[j].key != key
  }

  predicate Silent(node: Json, key: string) {
    node.JObject? && forall j :: 0 <= j < |node.members| ==> node.members[j].key != key
  }

  /** An object whose kind, and what belongs to that kind, spell the type; other members do not matter. */
  ghost predicate MeansType(node: Json, t: LogicalType)
    decreases t, 1
  {
    && Says(node, "kind", JString(KindName(t)))
    && match t
       case Scalar(_) => true
       case List(value) => exists v :: Says(node, "value", v) && MeansType(v, value)
       case Struct(fields) => exists a :: Says(node, "fields", a) && a.JArray? && MeansFields(a.elements, fields)
  }

  ghost predicate MeansFields(a: seq<Json>, s: seq<LogicalField>)
    decreases s, 0
  {
    |a| == |s| && forall k :: 0 <= k < |s| ==> MeansField(a[k], s[k])
  }

  /** A named field with a type; it is nullable unless it says otherwise. */
  ghost predicate MeansField(node: Json, f: LogicalField)
    decreases f, 2
  {
    && Says(node, "name", JString(f.name)) && f.name != ""
    && (exists t :: Says(node, "type", t) && MeansType(t, f.typ))
    && (if Silent(node, "nullable") then f.nullable else Says(node, "nullable", JBool(f.nullable)))
  }

  // ----------------------------------------------------------------- members

  lemma {:induction false} LastSays(members: seq<Member>, key: string, value: Json)
    ensures LastMember(members, key) == Some(value) <==>
            exists k :: 0 <= k < |members| && SaysAt(members, k, key, value)
  {
    if members != [] {
      var n := |members| - 1;
      var before := members[..n];
      if members[n] == Member(key, value) {
        assert SaysAt(members, n, key, value);
      } else if members[n].key != key {
        LastSays(before, key, value);
        forall k | 0 <= k < n ensures SaysAt(before, k, key, value) <==> SaysAt(members, k, key, value) {
          SaysEarlier(members, k, key, value);
        }
      }
    }
  }

  lemma {:induction false} SaysEarlier(members: seq<Member>, k: nat, key: string, value: Json)
    requires k < |members| - 1 && members[|members| - 1].key != key
    ensures SaysAt(members[..|members| - 1], k, key, value) <==> SaysAt(members, k, key, value)
  {
    var before := members[..|members| - 1];
    assert forall j :: 0 <= j < |before| ==> before[j] == members[j];
  }

  lemma {:induction false} LastSilent(members: seq<Member>, key: string)
    ensures LastMember(members, key) == None <==> forall j :: 0 <= j < |members| ==> members[j].key != key
  {
    if members != [] {
      var before := members[..|members| - 1];
      LastSilent(before, key);
      assert forall j :: 0 <= j < |before| ==> before[j] == members[j];
    }
  }

  /** A member is found exactly when the node says it. */
  lemma {:induction false} FoundIfSaid(node: Json, key: string, value: Json)
    ensures ObjectMember(node, key) == Some(value) <==> Says(node, key, value)
    ensures node.JObject? ==> (ObjectMember(node, key) == None <==> Silent(node, key))
    ensures Says(node, key, value) ==> node.JObject?
  {
    if node.JObject? {
      LastSays(node.members, key, value);
      LastSilent(node.members, key);
    }
  }

  // ------------------------------------------------------------ accepted, so meant

  lemma {:induction false} KindIs(kind: string, t: LogicalType)
    ensures t.Scalar? ==> (ScalarOf(kind) == Some(t.kind) <==> kind == KindName(t))
    ensures ScalarOf(KindName(t)).Some? <==> t.Scalar?
  {
  }

  lemma {:induction false} AcceptedType(node: Json, depth: nat, budget: nat)
    requires DecodeType(node, depth, budget).Ok?
    ensures MeansType(node, DecodeType(node, depth, budget).value.0)
    decreases node, 0
  {
    hide ObjectMember, ScalarOf, KindName, Says;
    var t, kind := DecodeType(node, depth, budget).value.0, ObjectMember(node, "kind").value;
    KindIs(kind.chars, t);
    FoundIfSaid(node, "kind", kind);
    if ScalarOf(kind.chars).Some? {
    } else if kind.chars == "list" {
      var v := ObjectMember(node, "value").value;
      FoundIfSaid(node, "value", v);
      AcceptedType(v, depth + 1, budget - 1);
      NestedKinds(t);
    } else {
      var a := ObjectMember(node, "fields").value;
      FoundIfSaid(node, "fields", a);
      AcceptedFields(a.elements, depth, budget - 1);
      NestedKinds(t);
    }
  }

  lemma {:induction false} NestedKinds(t: LogicalType)
    ensures (t.List? ==> KindName(t) == "list") && (t.Struct? ==> KindName(t) == "struct")
  {
  }

  lemma {:induction false} AcceptedField(node: Json, depth: nat, budget: nat)
    requires DecodeField(node, depth, budget).Ok?
    ensures MeansField(node, DecodeField(node, depth, budget).value.0)
    decreases node, 1
  {
    hide ObjectMember, Says, MeansType, Silent;
    var name, typ := ObjectMember(node, "name").value, ObjectMember(node, "type").value;
    FoundIfSaid(node, "name", name);
    FoundIfSaid(node, "type", typ);
    AcceptedType(typ, depth + 1, budget - 1);
    var flag := ObjectMember(node, "nullable");
    FoundIfSaid(node, "nullable", if flag.Some? then flag.value else JNull);
  }

  lemma {:induction false} AcceptedFields(a: seq<Json>, depth: nat, budget: nat)
    requires DecodeFields(a, depth, budget).Ok?
    ensures MeansFields(a, DecodeFields(a, depth, budget).value.0)
    decreases a, 2
  {
    hide MeansField, DecodeField;
    if a == [] {
    } else {
      hide MeansFields;
      var n := |a| - 1;
      var before := DecodeFields(a[..n], depth, budget).value;
      AcceptedFields(a[..n], depth, budget);
      AcceptedField(a[n], depth, before.1);
      MeansNext(a[..n], a[n], before.0, DecodeField(a[n], depth, before.1).value.0);
      assert a[..n] + [a[n]] == a;
    }
  }

  lemma {:induction false} MeansNext(a: seq<Json>, x: Json, s: seq<LogicalField>, f: LogicalField)
    requires MeansFields(a, s) && MeansField(x, f)
    ensures MeansFields(a + [x], s + [f])
  {
  }

  // ------------------------------------------------------------ meant, so accepted

  lemma {:induction false} MeansObject(node: Json, t: LogicalType)
    requires MeansType(node, t)
    ensures node.JObject?
  {
  }

  lemma {:induction false} MeantType(node: Json, t: LogicalType, depth: nat, budget: nat)
    requires MeansType(node, t) && Fits(t, depth, budget)
    ensures DecodeType(node, depth, budget) == Ok((t, budget - Nodes(t)))
    decreases t, 1
  {
    hide ObjectMember, ScalarOf, KindName, Says, Writable;
    FoundIfSaid(node, "kind", JString(KindName(t)));
    KindIs(KindName(t), t);
    NestedKinds(t);
    match t
    case Scalar(_) =>
    case List(value) =>
      var v :| Says(node, "value", v) && MeansType(v, value);
      FoundIfSaid(node, "value", v);
      MeansObject(v, value);
      FitsInside(t, depth, budget);
      MeantType(v, value, depth + 1, budget - 1);
    case Struct(fields) =>
      var a :| Says(node, "fields", a) && a.JArray? && MeansFields(a.elements, fields);
      FoundIfSaid(node, "fields", a);
      FitsInside(t, depth, budget);
      MeantFields(a.elements, fields, depth, budget - 1);
  }

  lemma {:induction false} FitsInside(t: LogicalType, depth: nat, budget: nat)
    requires Fits(t, depth, budget)
    ensures budget > 0 && depth <= MAX_DEPTH
    ensures t.List? ==> Fits(t.value, depth + 1, budget - 1)
    ensures t.Struct? ==> FieldsFit(t.fields, depth, budget - 1)
  {
  }

  lemma {:induction false} MeantField(node: Json, f: LogicalField, depth: nat, budget: nat)
    requires MeansField(node, f) && FieldFits(f, depth, budget)
    ensures DecodeField(node, depth, budget) == Ok((f, budget - 1 - Nodes(f.typ)))
    decreases f, 2
  {
    hide ObjectMember, Says, MeansType, Silent;
    var t :| Says(node, "type", t) && MeansType(t, f.typ);
    FoundIfSaid(node, "name", JString(f.name));
    FoundIfSaid(node, "type", t);
    FoundIfSaid(node, "nullable", JBool(f.nullable));
    MeansObject(t, f.typ);
    MeantType(t, f.typ, depth + 1, budget - 1);
  }

  lemma {:induction false} MeantFields(a: seq<Json>, s: seq<LogicalField>, depth: nat, budget: nat)
    requires depth <= MAX_DEPTH && MeansFields(a, s) && FieldsFit(s, depth, budget)
    ensures DecodeFields(a, depth, budget) == Ok((s, budget - FieldsNodes(s)))
    decreases s, 0, |s|
  {
    hide MeansField, FieldFits, FieldsFit, DecodeField;
    if s == [] {
    } else {
      var n := |s| - 1;
      FitsSplit(s, depth, budget);
      assert a[..n] + [a[n]] == a && s[..n] + [s[n]] == s;
      MeantFields(a[..n], s[..n], depth, budget);
      MeantField(a[n], s[n], depth, budget - FieldsNodes(s[..n]));
      DecodeLast(a[..n], a[n], depth, budget);
      hide DecodeFields;
    }
  }

  /** A type is read from a node exactly when the node means it and it is within the limits. */
  lemma {:induction false} TypeReadExactly(node: Json, t: LogicalType, depth: nat, budget: nat, left: nat)
    ensures DecodeType(node, depth, budget) == Ok((t, left)) <==>
            MeansType(node, t) && Fits(t, depth, budget) && left == budget - Nodes(t)
  {
    hide DecodeType, MeansType, Fits, Nodes;
    if DecodeType(node, depth, budget) == Ok((t, left)) {
      AcceptedType(node, depth, budget);
      TypeCharged(node, depth, budget);
    }
    if MeansType(node, t) && Fits(t, depth, budget) { MeantType(node, t, depth, budget); }
  }

  /** A field likewise; one that says nothing about nulls is read as nullable. */
  lemma {:induction false} FieldReadExactly(node: Json, f: LogicalField, depth: nat, budget: nat, left: nat)
    ensures DecodeField(node, depth, budget) == Ok((f, left)) <==>
            MeansField(node, f) && FieldFits(f, depth, budget) && left == budget - 1 - Nodes(f.typ)
    ensures DecodeField(node, depth, budget) == Ok((f, left)) && Silent(node, "nullable") ==> f.nullable
  {
    hide Fits, Nodes, Says, Silent, MeansType;
    if DecodeField(node, depth, budget) == Ok((f, left)) {
      AcceptedField(node, depth, budget);
      FieldCharged(node, depth, budget);
    }
    hide DecodeField;
    if MeansField(node, f) && FieldFits(f, depth, budget) { MeantField(node, f, depth, budget); }
  }

  /** A schema is read from a root exactly when its fields mean it and it is within the limits. */
  lemma {:induction false} SchemaReadExactly(root: Json, s: seq<LogicalField>)
    ensures DecodeSchema(root) == Ok(s) <==>
            && (exists a :: Says(root, "fields", a) && a.JArray? && MeansFields(a.elements, s))
            && FieldsFit(s, 0, MAX_NODES)
  {
    hide DecodeFields, MeansFields, FieldsFit, Says, ObjectMember;
    if DecodeSchema(root) == Ok(s) {
      var a := ObjectMember(root, "fields").value;
      FoundIfSaid(root, "fields", a);
      AcceptedFields(a.elements, 0, MAX_NODES);
      FieldsCharged(a.elements, 0, MAX_NODES);
    }
    if FieldsFit(s, 0, MAX_NODES) && exists a :: Says(root, "fields", a) && a.JArray? && MeansFields(a.elements, s) {
      var a :| Says(root, "fields", a) && a.JArray? && MeansFields(a.elements, s);
      FoundIfSaid(root, "fields", a);
      MeantFields(a.elements, s, 0, MAX_NODES);
    }
  }
}
