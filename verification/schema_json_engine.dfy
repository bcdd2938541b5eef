/** The schema writer that appends to one buffer, and the recursive reader that draws on one budget. */
module SchemaJsonEngine {
  import opened Basics
  import opened LogicalSchemas
  import opened SchemaJson
  import opened SchemaText

  // ------------------------------------------------------------------- writer

  lemma {:induction false} EmptyBody()
    ensures Body("") == ""
  {
  }

  lemma {:induction false} BodyNext(value: string, k: nat)
    requires k < |value|
    ensures Body(value[..k + 1]) == Body(value[..k]) + Escape(value[k])
  {
    hide Escape;
    assert value[..k + 1][..k] == value[..k];
  }

  lemma {:induction false} RunCopied(value: string, a: nat, b: nat)
    requires a <= b <= |value| && forall j :: a <= j < b ==> !RequiresEscape(value[j])
    ensures Body(value[..b]) == Body(value[..a]) + value[a..b]
  {
    hide Escape;
    assert forall j :: 0 <= j < b - a ==> !RequiresEscape(value[a..b][j]);
    hide RequiresEscape;
    BodyPlain(value[a..b]);
    BodyConcat(value[..a], value[a..b]);
    assert value[..b] == value[..a] + value[a..b];
  }

  lemma {:induction false} ElementsAppend(a: seq<Json>, x: Json)
    ensures ElementsText(a + [x]) == ElementsText(a) + (if a == [] then "" else ",") + Text(x)
  {
    hide Text;
    if a == [] {
      assert a + [x] == [x];
    } else {
      ElementsAppend(a[1..], x);
      assert (a + [x])[1..] == a[1..] + [x];
      var more, tail := ElementsText(a[1..]), "," + Text(x);
      if |a| == 1 {
        assert ElementsText(a[1..] + [x]) == Text(x);
        assert ElementsText(a + [x]) == Text(a[0]) + "," + Text(x);
      } else {
        assert ElementsText(a[1..] + [x]) == more + tail;
        assert ElementsText(a) == Text(a[0]) + "," + more;
        assert ElementsText(a + [x]) == Text(a[0]) + "," + (more + tail);
        Regroup(Text(a[0]) + ",", more, tail);
        Regroup(ElementsText(a), ",", Text(x));
      }
    }
  }

  /** One more field in the text of an array. */
  lemma {:induction false} FieldWritten(fields: seq<LogicalField>, i: nat)
    requires i < |fields|
    ensures ElementsText(EncodeFields(fields[..i + 1])) ==
            ElementsText(EncodeFields(fields[..i])) + (if i == 0 then "" else ",") + Text(EncodeField(fields[i]))
  {
    hide EncodeField, ElementsText;
    assert fields[..i + 1][..i] == fields[..i];
    assert EncodeFields(fields[..i + 1]) == EncodeFields(fields[..i]) + [EncodeField(fields[i])];
    ElementsAppend(EncodeFields(fields[..i]), EncodeField(fields[i]));
  }

  lemma {:induction false} NothingWritten()
    ensures EncodeFields([]) == [] && ElementsText([]) == ""
  {
  }

  /** A key with its separators, as an object member starts. */
  function KeyText(first: bool, key: string): string {
    (if first then "" else ",") + Quote(key) + ":"
  }

  /** One more member, before the closing brace. */
  lemma {:induction false} NextMember(ms: seq<Member>, m: Member)
    requires ms != []
    ensures MembersText(ms + [m]) == MembersText(ms) + (KeyText(false, m.key) + Text(m.value))
  {
    hide Text, Quote;
    assert KeyText(false, m.key) + Text(m.value) == "," + MemberText(m) by {
      Regroup(",", Quote(m.key), ":");
      Regroup(",", Quote(m.key) + ":", Text(m.value));
    }
    hide MemberText, KeyText;
    assert (ms + [m])[1..] == ms[1..] + [m];
    if |ms| == 1 {
      assert ms[1..] + [m] == [m];
      Regroup(MemberText(ms[0]), ",", MemberText(m));
    } else {
      NextMember(ms[1..], m);
      Regroup(MemberText(ms[0]) + ",", MembersText(ms[1..]), "," + MemberText(m));
    }
  }

  /** The buffer after an object's first member. */
  lemma {:induction false} Begun(start: string, out: string, m: Member)
    requires out == start + "{" + (KeyText(true, m.key) + Text(m.value))
    ensures out == start + ("{" + MembersText([m]))
  {
    hide Text, Quote;
    assert KeyText(true, m.key) == Quote(m.key) + ":";
    Regroup(start, "{", MemberText(m));
  }

  /** The buffer after one more member. */
  lemma {:induction false} Continued(start: string, before: string, out: string, ms: seq<Member>, m: Member)
    requires ms != [] && before == start + ("{" + MembersText(ms))
             && out == before + KeyText(false, m.key) + Text(m.value)
    ensures out == start + ("{" + MembersText(ms + [m]))
  {
    hide Text, KeyText;
    NextMember(ms, m);
    var item := KeyText(false, m.key) + Text(m.value);
    Regroup(before, KeyText(false, m.key), Text(m.value));
    Regroup(start, "{" + MembersText(ms), item);
    Regroup("{", MembersText(ms), item);
  }

  /** The buffer once the closing brace follows. */
  lemma {:induction false} Closed(start: string, out: string, ms: seq<Member>)
    requires out == start + ("{" + MembersText(ms))
    ensures out + "}" == start + Text(JObject(ms))
  {
    Regroup(start, "{" + MembersText(ms), "}");
  }

  class JsonWriter {
    var out: string

    constructor ()
      ensures out == ""
    {
      out := "";
    }

    /** Quotes a string, copying the runs between escaped characters. */
    method AppendString(value: string)
      modifies this
      ensures out == old(out) + Quote(value)
    {
      hide Escape, RequiresEscape, Body;
      out := out + "\"";
      ghost var start := out;
      var runStart := 0;
      assert value[..0] == "";
      EmptyBody();
      for index := 0 to |value|
        invariant 0 <= runStart <= index
        invariant out == start + Body(value[..runStart])
        invariant forall j :: runStart <= j < index ==> !RequiresEscape(value[j])
      {
        if RequiresEscape(value[index]) {
          RunCopied(value, runStart, index);
          BodyNext(value, index);
          if index > runStart {
            out := out + value[runStart..index];
          }
          assert out == start + Body(value[..index]);
          out := out + Escape(value[index]);
          runStart := index + 1;
        }
      }
      RunCopied(value, runStart, |value|);
      assert value[..|value|] == value;
      if runStart < |value| {
        out := out + value[runStart..];
      }
      assert out == start + Body(value);
      out := out + "\"";
    }

    method AppendKey(first: bool, key: string) returns (stillFirst: bool)
      modifies this
      ensures out == old(out) + KeyText(first, key) && !stillFirst
    {
      hide Quote;
      if !first { out := out + ","; }
      stillFirst := false;
      AppendString(key);
      out := out + ":";
    }

    method AppendStringField(first: bool, key: string, value: string) returns (stillFirst: bool)
      modifies this
      ensures out == old(out) + (KeyText(first, key) + Text(JString(value))) && !stillFirst
    {
      hide KeyText, Quote;
      stillFirst := AppendKey(first, key);
      AppendString(value);
    }

    method AppendLogicalTypeJson(t: LogicalType)
      modifies this
      ensures out == old(out) + Text(EncodeType(t))
      decreases t, 0
    {
      hide KeyText;
      assert (t.Struct? ==> KindName(t) == "struct") && (t.List? ==> KindName(t) == "list");
      hide KindName;
      ghost var start := out;
      ghost var kind := Member("kind", JString(KindName(t)));
      out := out + "{";
      var first := AppendStringField(true, "kind", KindName(t));
      Begun(start, out, kind);
      if t.Struct? {
        ghost var fields := Member("fields", JArray(EncodeFields(t.fields)));
        ghost var before := out;
        first := AppendKey(first, "fields");
        AppendLogicalFieldsJson(t.fields);
        Continued(start, before, out, [kind], fields);
        assert [kind] + [fields] == EncodeType(t).members;
      } else if t.List? {
        ghost var value := Member("value", EncodeType(t.value));
        ghost var before := out;
        first := AppendKey(first, "value");
        AppendLogicalTypeJson(t.value);
        Continued(start, before, out, [kind], value);
        assert [kind] + [value] == EncodeType(t).members;
      }
      Closed(start, out, EncodeType(t).members);
      out := out + "}";
    }

    method AppendLogicalFieldJson(field: LogicalField)
      modifies this
      ensures out == old(out) + Text(EncodeField(field))
      decreases field, 0
    {
      hide KeyText;
      ghost var start := out;
      ghost var name, nullable := Member("name", JString(field.name)), Member("nullable", JBool(field.nullable));
      ghost var typ := Member("type", EncodeType(field.typ));
      out := out + "{";
      var first := AppendStringField(true, "name", field.name);
      Begun(start, out, name);
      ghost var before := out;
      first := AppendKey(first, "nullable");
      out := out + if field.nullable then "true" else "false";
      Continued(start, before, out, [name], nullable);
      before := out;
      first := AppendKey(first, "type");
      AppendLogicalTypeJson(field.typ);
      Continued(start, before, out, [name, nullable], typ);
      assert [name] + [nullable] == [name, nullable] && [name, nullable] + [typ] == EncodeField(field).members;
      Closed(start, out, EncodeField(field).members);
      out := out + "}";
    }

    method AppendLogicalFieldsJson(fields: seq<LogicalField>)
      modifies this
      ensures out == old(out) + Text(JArray(EncodeFields(fields)))
      decreases fields, 1
    {
      hide EncodeField, EncodeFields, ElementsText;
      out := out + "[";
      ghost var start := out;
      assert fields[..0] == [];
      NothingWritten();
      for i := 0 to |fields|
        invariant out == start + ElementsText(EncodeFields(fields[..i]))
      {
        FieldWritten(fields, i);
        if i != 0 { out := out + ","; }
        AppendLogicalFieldJson(fields[i]);
      }
      assert fields[..|fields|] == fields;
      out := out + "]";
    }

    /** The canonical text of a schema. */
    method AppendCanonicalSchemaJson(fields: seq<LogicalField>)
      modifies this
      ensures out == old(out) + Text(EncodeSchema(fields))
    {
      hide KeyText;
      ghost var start := out;
      ghost var member := Member("fields", JArray(EncodeFields(fields)));
      out := out + "{";
      var first := AppendKey(true, "fields");
      AppendLogicalFieldsJson(fields);
      Regroup(start + "{", KeyText(true, "fields"), Text(member.value));
      Begun(start, out, member);
      Closed(start, out, [member]);
      out := out + "}";
    }
  }

  // ------------------------------------------------------------------- reader

  class RegistrySchemaBudget {
    var remainingNodes: nat

    constructor ()
      ensures remainingNodes == MAX_NODES
    {
      remainingNodes := MAX_NODES;
    }

    method ConsumeNode() returns (ok: bool)
      modifies this
      ensures ok == (old(remainingNodes) > 0)
      ensures remainingNodes == if ok then old(remainingNodes) - 1 else old(remainingNodes)
    {
      if remainingNodes == 0 { return false; }
      remainingNodes := remainingNodes - 1;
      return true;
    }
  }

  /** Scans every member; the last one of the key stays. */
  method FindMember(node: Json, key: string) returns (r: Option<Json>)
    ensures r == ObjectMember(node, key)
  {
    if !node.JObject? { return None; }
    r := None;
    var members := node.members;
    assert members[..0] == [];
    for k := 0 to |members|
      invariant r == LastMember(members[..k], key)
    {
      assert members[..k + 1][..k] == members[..k];
      if members[k].key == key { r := Some(members[k].value); }
    }
    assert members[..|members|] == members;
  }

  /** A reply and the drawn-down budget are those of a pure decoding. */
  ghost predicate Matches<T>(r: Decoded<T>, left: nat, spec: Decoded<(T, nat)>) {
    match spec
    case Err(e) => r == Err(e)
    case Ok(p) => r == Ok(p.0) && left == p.1
  }

  method LogicalTypeFromRegistryNode(node: Json, depth: nat, budget: RegistrySchemaBudget)
    returns (r: Decoded<LogicalType>)
    modifies budget
    ensures Matches(r, budget.remainingNodes, DecodeType(node, depth, old(budget.remainingNodes)))
    decreases node, 0
  {
    hide ObjectMember, ScalarOf;
    if depth > MAX_DEPTH { return Err(TooDeep); }
    var ok := budget.ConsumeNode();
    if !ok { return Err(TooManyNodes); }
    if !node.JObject? { return Err(NotAnObject); }
    var kind := FindMember(node, "kind");
    if kind == None { return Err(MissingMember); }
    if !kind.value.JString? { return Err(BadKind); }
    var name := kind.value.chars;
    var scalar := ScalarOf(name);
    if scalar.Some? { return Ok(Scalar(scalar.value)); }
    if name == "list" {
      var value := FindMember(node, "value");
      if value == None { return Err(MissingMember); }
      if !value.value.JObject? { return Err(NotAnObject); }
      var element := LogicalTypeFromRegistryNode(value.value, depth + 1, budget);
      if element.Err? { return Err(element.error); }
      return Ok(List(element.value));
    }
    if name == "struct" {
      var fields := FindMember(node, "fields");
      if fields == None { return Err(MissingMember); }
      if !fields.value.JArray? { return Err(NotAnArray); }
      var decoded := LogicalFieldsFromRegistryArray(fields.value.elements, depth, budget);
      if decoded.Err? { return Err(decoded.error); }
      return Ok(Struct(decoded.value));
    }
    return Err(BadKind);
  }

  method LogicalFieldFromRegistryNode(node: Json, depth: nat, budget: RegistrySchemaBudget)
    returns (r: Decoded<LogicalField>)
    modifies budget
    ensures Matches(r, budget.remainingNodes, DecodeField(node, depth, old(budget.remainingNodes)))
    decreases node, 1
  {
    hide ObjectMember;
    var ok := budget.ConsumeNode();
    if !ok { return Err(TooManyNodes); }
    if !node.JObject? { return Err(NotAnObject); }
    var name := FindMember(node, "name");
    if name == None { return Err(MissingMember); }
    if !name.value.JString? || name.value.chars == "" { return Err(BadName); }
    var typ := FindMember(node, "type");
    if typ == None { return Err(MissingMember); }
    if !typ.value.JObject? { return Err(NotAnObject); }
    var nullable := true;
    var flag := FindMember(node, "nullable");
    if flag.Some? {
      if !flag.value.JBool? { return Err(BadNullable); }
      nullable := flag.value.truth;
    }
    assert DecodeNullable(node) == Ok(nullable);
    var decoded := LogicalTypeFromRegistryNode(typ.value, depth + 1, budget);
    if decoded.Err? { return Err(decoded.error); }
    return Ok(LogicalField(name.value.chars, nullable, decoded.value));
  }

  lemma {:induction false} NothingDecoded(depth: nat, budget: nat)
    ensures DecodeFields([], depth, budget) == Ok(([], budget))
  {
  }

  lemma {:induction false} ErrorSticks(a: seq<Json>, k: nat, depth: nat, budget: nat)
    requires k <= |a| && DecodeFields(a[..k], depth, budget).Err?
    ensures DecodeFields(a, depth, budget) == DecodeFields(a[..k], depth, budget)
  {
    if k < |a| {
      var n := |a| - 1;
      assert a[..n][..k] == a[..k];
      ErrorSticks(a[..n], k, depth, budget);
    } else {
      assert a[..k] == a;
    }
  }

  method LogicalFieldsFromRegistryArray(elements: seq<Json>, depth: nat, budget: RegistrySchemaBudget)
    returns (r: Decoded<seq<LogicalField>>)
    modifies budget
    ensures Matches(r, budget.remainingNodes, DecodeFields(elements, depth, old(budget.remainingNodes)))
    decreases elements, 2
  {
    hide DecodeField, DecodeFields;
    var fields := [];
    assert elements[..0] == [];
    NothingDecoded(depth, budget.remainingNodes);
    for k := 0 to |elements|
      invariant DecodeFields(elements[..k], depth, old(budget.remainingNodes)) == Ok((fields, budget.remainingNodes))
    {
      DecodeLast(elements[..k], elements[k], depth, old(budget.remainingNodes));
      assert elements[..k + 1] == elements[..k] + [elements[k]];
      if |fields| >= MAX_FIELDS {
        ErrorSticks(elements, k + 1, depth, old(budget.remainingNodes));
        return Err(TooManyFields);
      }
      var field := LogicalFieldFromRegistryNode(elements[k], depth, budget);
      if field.Err? {
        ErrorSticks(elements, k + 1, depth, old(budget.remainingNodes));
        return Err(field.error);
      }
      fields := fields + [field.value];
    }
    assert elements[..|elements|] == elements;
    return Ok(fields);
  }

  method CanonicalSchemaFromJson(root: Json) returns (r: Decoded<seq<LogicalField>>)
    ensures r == DecodeSchema(root)
  {
    hide ObjectMember;
    if !root.JObject? { return Err(NotAnObject); }
    var fields := FindMember(root, "fields");
    if fields == None { return Err(MissingMember); }
    if !fields.value.JArray? { return Err(NotAnArray); }
    var budget := new RegistrySchemaBudget();
    r := LogicalFieldsFromRegistryArray(fields.value.elements, 0, budget);
  }
}
