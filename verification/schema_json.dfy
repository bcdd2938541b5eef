/** Canonical schemas as JSON values: the writer's encoding and the budgeted reader. */
module SchemaJson {
  import opened Basics
  import opened LogicalSchemas

  datatype Member = Member(key: string, value: Json)

  datatype Json =
    | JNull
    | JBool(truth: bool)
    | JNumber(text: string)
    | JString(chars: string)
    | JArray(elements: seq<Json>)
    | JObject(members: seq<Member>)

  type Decoded<T> = Outcome<T, DecodeError>

  datatype DecodeError =
    NotAnObject | NotAnArray | MissingMember | BadName | BadNullable | BadKind | TooManyNodes | TooManyFields | TooDeep

  const MAX_FIELDS: nat := 65_536
  const MAX_NODES: nat := 262_144
  const MAX_DEPTH: nat := 512

  // ----------------------------------------------------------------- encoding

  function KindName(t: LogicalType): string {
    match t
    case Scalar(Null) => "null"
    case Scalar(Bool) => "bool"
    case Scalar(Int64) => "int64"
    case Scalar(Float64) => "float64"
    case Scalar(Utf8) => "string"
    case Scalar(TimestampNs) => "timestamp_ns"
    case Scalar(Date32) => "date32"
    case Scalar(Time32s) => "time32s"
    case Struct(_) => "struct"
    case List(_) => "list"
  }

  function EncodeType(t: LogicalType): Json {
    match t
    case Scalar(_) => JObject([Member("kind", JString(KindName(t)))])
    case Struct(fields) => JObject([Member("kind", JString("struct")), Member("fields", JArray(EncodeFields(fields)))])
    case List(value) => JObject([Member("kind", JString("list")), Member("value", EncodeType(value))])
  }

  function EncodeField(f: LogicalField): Json {
    JObject([Member("name", JString(f.name)), Member("nullable", JBool(f.nullable)), Member("type", EncodeType(f.typ))])
  }

  function EncodeFields(s: seq<LogicalField>): (r: seq<Json>)
    ensures |r| == |s|
  {
    if s == [] then [] else EncodeFields(s[..|s| - 1]) + [EncodeField(s[|s| - 1])]
  }

  function EncodeSchema(fields: seq<LogicalField>): Json {
    JObject([Member("fields", JArray(EncodeFields(fields)))])
  }

  // ----------------------------------------------------------------- decoding

  /** The last member of a key wins. */
  function LastMember(members: seq<Member>, key: string): (r: Option<Json>)
    ensures r.Some? ==> exists m :: m in members && m.key == key && m.value == r.value
    ensures r == None ==> forall m :: m in members ==> m.key != key
  {
    if members == [] then None
    else if members[|members| - 1].key == key then Some(members[|members| - 1].value)
    else LastMember(members[..|members| - 1], key)
  }

  function ObjectMember(node: Json, key: string): (r: Option<Json>)
    ensures r.Some? ==> r.value < node
  {
    if node.JObject? then LastMember(node.members, key) else None
  }

  function ScalarOf(kind: string): Option<ScalarKind> {
    if kind == "null" then Some(Null)
    else if kind == "bool" then Some(Bool)
    else if kind == "int64" then Some(Int64)
    else if kind == "float64" then Some(Float64)
    else if kind == "string" then Some(Utf8)
    else if kind == "timestamp_ns" then Some(TimestampNs)
    else if kind == "date32" then Some(Date32)
    else if kind == "time32s" then Some(Time32s)
    else None
  }

  /** A type node at a depth, with `budget` nodes left; the result carries what is left after it. */
  function DecodeType(node: Json, depth: nat, budget: nat): Decoded<(LogicalType, nat)>
    decreases node, 0
  {
    if depth > MAX_DEPTH then Err(TooDeep)
    else if budget == 0 then Err(TooManyNodes)
    else if !node.JObject? then Err(NotAnObject)
    else
      match ObjectMember(node, "kind")
      case None => Err(MissingMember)
      case Some(kind) =>
        if !kind.JString? then Err(BadKind)
        else if ScalarOf(kind.chars).Some? then Ok((Scalar(ScalarOf(kind.chars).value), budget - 1))
        else if kind.chars == "list" then
          match ObjectMember(node, "value") {
            case None => Err(MissingMember)
            case Some(value) =>
              if !value.JObject? then Err(NotAnObject)
              else
                match DecodeType(value, depth + 1, budget - 1)
                case Err(e) => Err(e)
                case Ok(p) => Ok((List(p.0), p.1))
          }
        else if kind.chars == "struct" then
          match ObjectMember(node, "fields") {
            case None => Err(MissingMember)
            case Some(fields) =>
              if !fields.JArray? then Err(NotAnArray)
              else
                match DecodeFields(fields.elements, depth, budget - 1)
                case Err(e) => Err(e)
                case Ok(p) => Ok((Struct(p.0), p.1))
          }
        else Err(BadKind)
  }

  function DecodeNullable(node: Json): Decoded<bool> {
    match ObjectMember(node, "nullable")
    case None => Ok(true)
    case Some(flag) => if flag.JBool? then Ok(flag.truth) else Err(BadNullable)
  }

  function DecodeField(node: Json, depth: nat, budget: nat): Decoded<(LogicalField, nat)>
    decreases node, 1
  {
    if budget == 0 then Err(TooManyNodes)
    else if !node.JObject? then Err(NotAnObject)
    else
      match (ObjectMember(node, "name"), ObjectMember(node, "type"))
      case (None, _) => Err(MissingMember)
      case (Some(name), None) => if name.JString? && name.chars != "" then Err(MissingMember) else Err(BadName)
      case (Some(name), Some(typ)) =>
        if !name.JString? || name.chars == "" then Err(BadName)
        else if !typ.JObject? then Err(NotAnObject)
        else if DecodeNullable(node).Err? then Err(DecodeNullable(node).error)
        else
          match DecodeType(typ, depth + 1, budget - 1)
          case Err(e) => Err(e)
          case Ok(p) => Ok((LogicalField(name.chars, DecodeNullable(node).value, p.0), p.1))
  }

  function DecodeFields(a: seq<Json>, depth: nat, budget: nat): Decoded<(seq<LogicalField>, nat)>
    decreases a, 2
  {
    if a == [] then Ok(([], budget))
    else
      match DecodeFields(a[..|a| - 1], depth, budget)
      case Err(e) => Err(e)
      case Ok(before) =>
        if |before.0| >= MAX_FIELDS then Err(TooManyFields)
        else
          match DecodeField(a[|a| - 1], depth, before.1)
          case Err(e) => Err(e)
          case Ok(p) => Ok((before.0 + [p.0], p.1))
  }

  function DecodeSchema(root: Json): Decoded<seq<LogicalField>> {
    if !root.JObject? then Err(NotAnObject)
    else
      match ObjectMember(root, "fields")
      case None => Err(MissingMember)
      case Some(fields) =>
        if !fields.JArray? then Err(NotAnArray)
        else
          match DecodeFields(fields.elements, 0, MAX_NODES)
          case Err(e) => Err(e)
          case Ok(p) => Ok(p.0)
  }

  // ------------------------------------------------------------------- limits

  /** One node per type and one per field. */
  function Nodes(t: LogicalType): nat {
    match t
    case Scalar(_) => 1
    case Struct(fields) => 1 + FieldsNodes(fields)
    case List(value) => 1 + Nodes(value)
  }

  function FieldsNodes(s: seq<LogicalField>): nat {
    if s == [] then 0 else FieldsNodes(s[..|s| - 1]) + 1 + Nodes(s[|s| - 1].typ)
  }

  /** Steps from a type node down to its deepest type node. */
  function Height(t: LogicalType): nat {
    match t
    case Scalar(_) => 0
    case Struct(fields) => FieldsHeight(fields)
    case List(value) => 1 + Height(value)
  }

  function FieldsHeight(s: seq<LogicalField>): nat {
    if s == [] then 0
    else
      var before, last := FieldsHeight(s[..|s| - 1]), 1 + Height(s[|s| - 1].typ);
      if before < last then last else before
  }

  /** No field has an empty name and no struct has too many fields. */
  predicate Writable(t: LogicalType) {
    match t
    case Scalar(_) => true
    case Struct(fields) => WritableFields(fields)
    case List(value) => Writable(value)
  }

  predicate WritableFields(s: seq<LogicalField>) {
    |s| <= MAX_FIELDS && (s != [] ==>
      WritableFields(s[..|s| - 1]) && s[|s| - 1].name != "" && Writable(s[|s| - 1].typ))
  }

  predicate Fits(t: LogicalType, depth: nat, budget: nat) {
    Writable(t) && depth + Height(t) <= MAX_DEPTH && Nodes(t) <= budget
  }

  predicate FieldsFit(s: seq<LogicalField>, depth: nat, budget: nat) {
    WritableFields(s) && depth + FieldsHeight(s) <= MAX_DEPTH && FieldsNodes(s) <= budget
  }

  // --------------------------------------------------------------- round trip

  lemma {:induction false} KindNames(t: LogicalType)
    ensures t.Scalar? ==> ScalarOf(KindName(t)) == Some(t.kind)
    ensures !t.Scalar? ==> ScalarOf(KindName(t)) == None
  {
  }

  lemma {:induction false} Pair(a: Member, b: Member)
    requires a.key != b.key
    ensures ObjectMember(JObject([a, b]), a.key) == Some(a.value)
    ensures ObjectMember(JObject([a, b]), b.key) == Some(b.value)
  {
    assert [a, b][..1] == [a];
  }

  lemma {:induction false} FieldMembers(f: LogicalField)
    ensures ObjectMember(EncodeField(f), "name") == Some(JString(f.name))
    ensures ObjectMember(EncodeField(f), "type") == Some(EncodeType(f.typ))
    ensures DecodeNullable(EncodeField(f)) == Ok(f.nullable)
  {
    var a, b, c :=
      Member("name", JString(f.name)), Member("nullable", JBool(f.nullable)), Member("type", EncodeType(f.typ));
    assert [a, b, c][..2] == [a, b] && [a, b][..1] == [a];
  }

  lemma {:induction false} EncodedScalar(kind: ScalarKind, depth: nat, budget: nat)
    requires depth <= MAX_DEPTH && budget > 0
    ensures DecodeType(EncodeType(Scalar(kind)), depth, budget) == Ok((Scalar(kind), budget - 1))
  {
    KindNames(Scalar(kind));
    hide ScalarOf, KindName;
    assert ObjectMember(EncodeType(Scalar(kind)), "kind") == Some(JString(KindName(Scalar(kind))));
  }

  lemma {:induction false} EncodedList(value: LogicalType, depth: nat, budget: nat)
    requires depth <= MAX_DEPTH && budget > 0
    ensures var r := DecodeType(EncodeType(value), depth + 1, budget - 1);
            DecodeType(EncodeType(List(value)), depth, budget) ==
            if r.Err? then Err(r.error) else Ok((List(r.value.0), r.value.1))
  {
    KindNames(List(value));
    hide ScalarOf;
    Pair(Member("kind", JString("list")), Member("value", EncodeType(value)));
    hide ObjectMember;
  }

  lemma {:induction false} EncodedStruct(fields: seq<LogicalField>, depth: nat, budget: nat)
    requires depth <= MAX_DEPTH && budget > 0
    ensures var r := DecodeFields(EncodeFields(fields), depth, budget - 1);
            DecodeType(EncodeType(Struct(fields)), depth, budget) ==
            if r.Err? then Err(r.error) else Ok((Struct(r.value.0), r.value.1))
  {
    KindNames(Struct(fields));
    hide ScalarOf;
    Pair(Member("kind", JString("struct")), Member("fields", JArray(EncodeFields(fields))));
    hide ObjectMember;
  }

  /** The reader accepts this encoded type exactly within the limits and charges its node count. */
  ghost predicate TypeAgrees(t: LogicalType, depth: nat, budget: nat) {
    var r := DecodeType(EncodeType(t), depth, budget);
    if Fits(t, depth, budget) then r == Ok((t, budget - Nodes(t))) else r.Err?
  }

  lemma {:induction false} Refused(t: LogicalType, depth: nat, budget: nat)
    requires depth > MAX_DEPTH || budget == 0
    ensures TypeAgrees(t, depth, budget)
  {
    assert Nodes(t) >= 1;
  }

  lemma {:induction false} ListAgrees(value: LogicalType, depth: nat, budget: nat)
    requires depth <= MAX_DEPTH && budget > 0 && TypeAgrees(value, depth + 1, budget - 1)
    ensures TypeAgrees(List(value), depth, budget)
  {
    hide ObjectMember, ScalarOf, KindName;
    EncodedList(value, depth, budget);
    assert Fits(List(value), depth, budget) <==> Fits(value, depth + 1, budget - 1);
    assert Nodes(List(value)) == 1 + Nodes(value);
    hide Fits;
  }

  lemma {:induction false} StructAgrees(fields: seq<LogicalField>, depth: nat, budget: nat)
    requires depth <= MAX_DEPTH && budget > 0 && Agrees(fields, depth, budget - 1)
    ensures TypeAgrees(Struct(fields), depth, budget)
  {
    hide ObjectMember, ScalarOf, KindName;
    EncodedStruct(fields, depth, budget);
    assert Fits(Struct(fields), depth, budget) <==> FieldsFit(fields, depth, budget - 1);
    assert Nodes(Struct(fields)) == 1 + FieldsNodes(fields);
    hide Fits, FieldsFit;
  }

  /** Decoding an encoded type succeeds exactly within the limits and charges its node count. */
  lemma {:induction false} TypeRoundTrip(t: LogicalType, depth: nat, budget: nat)
    ensures TypeAgrees(t, depth, budget)
    decreases t, 0
  {
    hide TypeAgrees, Agrees;
    if depth > MAX_DEPTH || budget == 0 {
      Refused(t, depth, budget);
    } else {
      match t
      case Scalar(kind) => ScalarAgrees(kind, depth, budget);
      case List(value) =>
        TypeRoundTrip(value, depth + 1, budget - 1);
        ListAgrees(value, depth, budget);
      case Struct(fields) =>
        FieldsRoundTrip(fields, depth, budget - 1);
        StructAgrees(fields, depth, budget);
    }
  }

  lemma {:induction false} ScalarAgrees(kind: ScalarKind, depth: nat, budget: nat)
    requires depth <= MAX_DEPTH && budget > 0
    ensures TypeAgrees(Scalar(kind), depth, budget)
  {
    hide ObjectMember, ScalarOf, KindName;
    EncodedScalar(kind, depth, budget);
  }

  lemma {:induction false} FieldRoundTrip(f: LogicalField, depth: nat, budget: nat)
    requires depth <= MAX_DEPTH
    ensures FieldAgrees(f, depth, budget)
    decreases f, 1
  {
    FieldMembers(f);
    hide ObjectMember, ScalarOf, DecodeNullable, Fits;
    if budget > 0 { TypeRoundTrip(f.typ, depth + 1, budget - 1); }
  }

  /** One field at its place: named, and its type within what is left. */
  predicate FieldFits(f: LogicalField, depth: nat, budget: nat) {
    f.name != "" && budget > 0 && Fits(f.typ, depth + 1, budget - 1)
  }

  lemma {:induction false} FitsSplit(s: seq<LogicalField>, depth: nat, budget: nat)
    requires depth <= MAX_DEPTH && s != []
    ensures var before := s[..|s| - 1];
            FieldsFit(s, depth, budget) <==>
            && FieldsFit(before, depth, budget) && |before| < MAX_FIELDS
            && FieldFits(s[|s| - 1], depth, budget - FieldsNodes(before))
  {
  }

  /** The array loop's last step. */
  lemma {:induction false} DecodeLast(a: seq<Json>, x: Json, depth: nat, budget: nat)
    ensures var before := DecodeFields(a, depth, budget);
            DecodeFields(a + [x], depth, budget) ==
            if before.Err? then before
            else if |before.value.0| >= MAX_FIELDS then Err(TooManyFields)
            else
              var r := DecodeField(x, depth, before.value.1);
              if r.Err? then Err(r.error) else Ok((before.value.0 + [r.value.0], r.value.1))
  {
    assert (a + [x])[..|a + [x]| - 1] == a;
  }

  /** The reader accepts this encoded list exactly within the limits and charges its node count. */
  ghost predicate Agrees(s: seq<LogicalField>, depth: nat, budget: nat) {
    var r := DecodeFields(EncodeFields(s), depth, budget);
    if FieldsFit(s, depth, budget) then r == Ok((s, budget - FieldsNodes(s))) else r.Err?
  }

  /** The same for one field. */
  ghost predicate FieldAgrees(f: LogicalField, depth: nat, budget: nat) {
    var r := DecodeField(EncodeField(f), depth, budget);
    if FieldFits(f, depth, budget) then r == Ok((f, budget - 1 - Nodes(f.typ))) else r.Err?
  }

  lemma {:induction false} EncodeLast(s: seq<LogicalField>)
    requires s != []
    ensures EncodeFields(s) == EncodeFields(s[..|s| - 1]) + [EncodeField(s[|s| - 1])]
    ensures FieldsNodes(s) == FieldsNodes(s[..|s| - 1]) + 1 + Nodes(s[|s| - 1].typ)
  {
  }

  lemma {:induction false} AgreesStep(s: seq<LogicalField>, depth: nat, budget: nat)
    requires depth <= MAX_DEPTH && s != [] && Agrees(s[..|s| - 1], depth, budget)
    requires FieldsFit(s[..|s| - 1], depth, budget) ==>
             FieldAgrees(s[|s| - 1], depth, budget - FieldsNodes(s[..|s| - 1]))
    ensures Agrees(s, depth, budget)
  {
    hide FieldFits, FieldsFit, EncodeField, EncodeFields, FieldsNodes, DecodeField, DecodeFields, Nodes;
    var before, last := s[..|s| - 1], s[|s| - 1];
    assert s == before + [last];
    FitsSplit(s, depth, budget);
    EncodeLast(s);
    DecodeLast(EncodeFields(before), EncodeField(last), depth, budget);
  }

  lemma {:induction false} FieldsRoundTrip(s: seq<LogicalField>, depth: nat, budget: nat)
    requires depth <= MAX_DEPTH
    ensures Agrees(s, depth, budget)
    decreases s, 2
  {
    if s != [] {
      FieldsRoundTrip(s[..|s| - 1], depth, budget);
      if FieldsFit(s[..|s| - 1], depth, budget) {
        FieldRoundTrip(s[|s| - 1], depth, budget - FieldsNodes(s[..|s| - 1]));
      }
      AgreesStep(s, depth, budget);
    }
  }

  /** The schema round trip, with its exact domain. */
  lemma {:induction false} SchemaRoundTrip(fields: seq<LogicalField>)
    ensures FieldsFit(fields, 0, MAX_NODES) ==> DecodeSchema(EncodeSchema(fields)) == Ok(fields)
    ensures !FieldsFit(fields, 0, MAX_NODES) ==> DecodeSchema(EncodeSchema(fields)).Err?
  {
    FieldsRoundTrip(fields, 0, MAX_NODES);
    assert ObjectMember(EncodeSchema(fields), "fields") == Some(JArray(EncodeFields(fields)));
  }

  // --------------------------------------------------------------- fail closed

  /** Whatever JSON is read, an accepted type is within the limits and was charged node by node. */
  lemma {:induction false} TypeCharged(node: Json, depth: nat, budget: nat)
    requires DecodeType(node, depth, budget).Ok?
    ensures var p := DecodeType(node, depth, budget).value; Fits(p.0, depth, budget) && p.1 == budget - Nodes(p.0)
    decreases node, 0
  {
    hide ObjectMember, ScalarOf;
    var kind := ObjectMember(node, "kind").value;
    if ScalarOf(kind.chars).Some? {
    } else if kind.chars == "list" {
      TypeCharged(ObjectMember(node, "value").value, depth + 1, budget - 1);
    } else {
      FieldsCharged(ObjectMember(node, "fields").value.elements, depth, budget - 1);
    }
  }

  lemma {:induction false} FieldCharged(node: Json, depth: nat, budget: nat)
    requires DecodeField(node, depth, budget).Ok?
    ensures var p := DecodeField(node, depth, budget).value;
            p.0.name != "" && Fits(p.0.typ, depth + 1, budget - 1) && p.1 == budget - 1 - Nodes(p.0.typ)
    decreases node, 1
  {
    TypeCharged(ObjectMember(node, "type").value, depth + 1, budget - 1);
  }

  lemma {:induction false} FieldsCharged(a: seq<Json>, depth: nat, budget: nat)
    requires depth <= MAX_DEPTH && DecodeFields(a, depth, budget).Ok?
    ensures var p := DecodeFields(a, depth, budget).value;
            FieldsFit(p.0, depth, budget) && p.1 == budget - FieldsNodes(p.0)
    decreases a, 2
  {
    if a != [] {
      FieldsCharged(a[..|a| - 1], depth, budget);
      var before := DecodeFields(a[..|a| - 1], depth, budget).value;
      FieldCharged(a[|a| - 1], depth, before.1);
      var p := DecodeFields(a, depth, budget).value;
      assert p.0[..|p.0| - 1] == before.0;
    }
  }

  /** Reading, writing and reading again changes nothing. */
  lemma {:induction false} AcceptedSchemasRoundTrip(root: Json)
    requires DecodeSchema(root).Ok?
    ensures FieldsFit(DecodeSchema(root).value, 0, MAX_NODES)
    ensures DecodeSchema(EncodeSchema(DecodeSchema(root).value)) == DecodeSchema(root)
  {
    FieldsCharged(ObjectMember(root, "fields").value.elements, 0, MAX_NODES);
    SchemaRoundTrip(DecodeSchema(root).value);
  }
}
