/** The canonical form: of all nodes that mean a type, the one that says everything once and in a fixed order. */
module SchemaJsonCanonical {
  import opened LogicalSchemas
  import opened SchemaJson
  import opened SchemaJsonMeaning

  predicate HasKeys(node: Json, keys: seq<string>) {
    node.JObject? && |node.members| == |keys| && forall k :: 0 <= k < |keys| ==> node.members[k].key == keys[k]
  }

  /** A type says its kind first and then what belongs to it, a field its name, whether it is nullable and its type;
      nothing is left out or added, at any level. */
  ghost predicate ExplicitType(node: Json, t: LogicalType)
    decreases t, 1
  {
    match t
    case Scalar(_) => HasKeys(node, ["kind"])
    case List(value) => HasKeys(node, ["kind", "value"]) && ExplicitType(node.members[1].value, value)
    case Struct(fields) =>
      && HasKeys(node, ["kind", "fields"]) && node.members[1].value.JArray?
      && ExplicitFields(node.members[1].value.elements, fields)
  }

  ghost predicate ExplicitFields(a: seq<Json>, s: seq<LogicalField>)
    decreases s, 0
  {
    |a| == |s| && forall k :: 0 <= k < |s| ==> ExplicitField(a[k], s[k])
  }

  ghost predicate ExplicitField(node: Json, f: LogicalField)
    decreases f, 2
  {
    HasKeys(node, ["name", "nullable", "type"]) && ExplicitType(node.members[2].value, f.typ)
  }

  /** Every field has a name, at every level. */
  predicate NamedType(t: LogicalType) {
    match t
    case Scalar(_) => true
    case List(value) => NamedType(value)
    case Struct(fields) => NamedFields(fields)
  }

  predicate NamedFields(s: seq<LogicalField>) {
    forall k :: 0 <= k < |s| ==> s[k].name != "" && NamedType(s[k].typ)
  }

  // -------------------------------------------------------------------- members

  lemma {:induction false} SaysMember(members: seq<Member>, k: nat, value: Json)
    requires k < |members| && forall j :: 0 <= j < |members| && j != k ==> members[j].key != members[k].key
    ensures Says(JObject(members), members[k].key, value) <==> value == members[k].value
    ensures !Silent(JObject(members), members[k].key)
  {
    var node, key := JObject(members), members[k].key;
    if Says(node, key, value) {
      var j :| 0 <= j < |members| && SaysAt(members, j, key, value);
    }
    if value == members[k].value { assert SaysAt(members, k, key, value); }
  }

  /** With the keys of a type, its members are what it says. */
  lemma {:induction false} TwoMembers(node: Json, other: string, kind: Json, value: Json)
    requires HasKeys(node, ["kind", other]) && other != "kind"
    ensures node == JObject([Member("kind", kind), Member(other, value)]) <==>
            Says(node, "kind", kind) && Says(node, other, value)
    ensures Says(node, other, value) <==> node.members[1].value == value
  {
    hide Says;
    var m := node.members;
    assert m[0].key == "kind" && m[1].key == other;
    SaysMember(m, 0, kind);
    SaysMember(m, 1, value);
    assert m == [m[0], m[1]];
  }

  lemma {:induction false} ThreeMembers(node: Json, name: Json, nullable: Json, typ: Json)
    requires HasKeys(node, ["name", "nullable", "type"])
    ensures node == JObject([Member("name", name), Member("nullable", nullable), Member("type", typ)]) <==>
            Says(node, "name", name) && Says(node, "nullable", nullable) && Says(node, "type", typ)
    ensures Says(node, "type", typ) <==> node.members[2].value == typ
    ensures !Silent(node, "nullable")
  {
    hide Says, Silent;
    var m := node.members;
    assert m[0].key == "name" && m[1].key == "nullable" && m[2].key == "type";
    SaysMember(m, 0, name);
    SaysMember(m, 1, nullable);
    SaysMember(m, 2, typ);
    assert m == [m[0], m[1], m[2]];
  }

  lemma {:induction false} OneMember(node: Json, kind: Json)
    requires HasKeys(node, ["kind"])
    ensures node == JObject([Member("kind", kind)]) <==> Says(node, "kind", kind)
  {
    hide Says;
    var m := node.members;
    assert m[0].key == "kind";
    SaysMember(m, 0, kind);
    assert m == [m[0]];
  }

  // ------------------------------------------------------------- canonical form

  /** A type's canonical node is the only explicit node that means it. */
  lemma {:induction false} CanonicalExactly(node: Json, t: LogicalType)
    ensures MeansType(node, t) && ExplicitType(node, t) <==> node == EncodeType(t) && NamedType(t)
    decreases t, 1
  {
    hide Says, KindName;
    NestedKinds(t);
    match t
    case Scalar(_) => if HasKeys(node, ["kind"]) { OneMember(node, JString(KindName(t))); }
    case List(value) =>
      if HasKeys(node, ["kind", "value"]) {
        var v := node.members[1].value;
        TwoMembers(node, "value", JString("list"), v);
        TwoMembers(node, "value", JString("list"), EncodeType(value));
        OnlyListSaid(node, value);
        CanonicalExactly(v, value);
      }
    case Struct(fields) =>
      if HasKeys(node, ["kind", "fields"]) {
        var a := node.members[1].value;
        TwoMembers(node, "fields", JString("struct"), a);
        TwoMembers(node, "fields", JString("struct"), JArray(EncodeFields(fields)));
        OnlyFieldsSaid(node, fields);
        if a.JArray? { CanonicalFields(a.elements, fields); }
      }
  }

  lemma {:induction false} OnlyListSaid(node: Json, value: LogicalType)
    requires HasKeys(node, ["kind", "value"])
    ensures MeansType(node, List(value)) <==>
            Says(node, "kind", JString("list")) && MeansType(node.members[1].value, value)
  {
    hide Says;
    forall v ensures Says(node, "value", v) <==> node.members[1].value == v {
      TwoMembers(node, "value", JString("list"), v);
    }
  }

  lemma {:induction false} OnlyFieldsSaid(node: Json, fields: seq<LogicalField>)
    requires HasKeys(node, ["kind", "fields"])
    ensures var a := node.members[1].value;
            MeansType(node, Struct(fields)) <==>
            Says(node, "kind", JString("struct")) && a.JArray? && MeansFields(a.elements, fields)
  {
    hide Says, MeansFields;
    forall v ensures Says(node, "fields", v) <==> node.members[1].value == v {
      TwoMembers(node, "fields", JString("struct"), v);
    }
  }

  lemma {:induction false} OnlyTypeSaid(node: Json, f: LogicalField)
    requires HasKeys(node, ["name", "nullable", "type"])
    ensures MeansField(node, f) <==>
            && f.name != "" && MeansType(node.members[2].value, f.typ)
            && Says(node, "name", JString(f.name)) && Says(node, "nullable", JBool(f.nullable))
  {
    hide Says, Silent, MeansType;
    var t := node.members[2].value;
    ThreeMembers(node, t, t, t);
    forall v ensures Says(node, "type", v) <==> t == v { ThreeMembers(node, v, v, v); }
  }

  lemma {:induction false} CanonicalField(node: Json, f: LogicalField)
    ensures MeansField(node, f) && ExplicitField(node, f) <==>
            node == EncodeField(f) && f.name != "" && NamedType(f.typ)
    decreases f, 2
  {
    hide Says, MeansField, MeansType, ExplicitType, EncodeType, NamedType;
    if HasKeys(node, ["name", "nullable", "type"]) {
      var t := node.members[2].value;
      OnlyTypeSaid(node, f);
      ThreeMembers(node, JString(f.name), JBool(f.nullable), t);
      ThreeMembers(node, JString(f.name), JBool(f.nullable), EncodeType(f.typ));
      CanonicalExactly(t, f.typ);
    }
  }

  lemma {:induction false} EncodedAt(s: seq<LogicalField>, k: nat)
    requires k < |s|
    ensures EncodeFields(s)[k] == EncodeField(s[k])
  {
    if k < |s| - 1 { EncodedAt(s[..|s| - 1], k); }
  }

  lemma {:induction false} CanonicalFields(a: seq<Json>, s: seq<LogicalField>)
    ensures MeansFields(a, s) && ExplicitFields(a, s) <==> a == EncodeFields(s) && NamedFields(s)
    decreases s, 0
  {
    hide MeansField, ExplicitField, NamedType, EncodeFields;
    if |a| == |s| {
      forall k | 0 <= k < |s|
        ensures MeansField(a[k], s[k]) && ExplicitField(a[k], s[k]) <==>
                a[k] == EncodeFields(s)[k] && s[k].name != "" && NamedType(s[k].typ)
      {
        CanonicalField(a[k], s[k]);
        EncodedAt(s, k);
      }
    }
  }

  /** And so for a whole schema. */
  lemma {:induction false} CanonicalSchema(root: Json, s: seq<LogicalField>)
    ensures root == EncodeSchema(s) && NamedFields(s) <==>
            && HasKeys(root, ["fields"]) && root.members[0].value.JArray?
            && MeansFields(root.members[0].value.elements, s)
            && ExplicitFields(root.members[0].value.elements, s)
  {
    hide MeansFields, ExplicitFields, NamedFields, EncodeFields;
    CanonicalFields(EncodeFields(s), s);
    if HasKeys(root, ["fields"]) {
      var m := root.members;
      assert m == [m[0]];
      if m[0].value.JArray? { CanonicalFields(m[0].value.elements, s); }
    }
  }
}
