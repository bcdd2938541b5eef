/** Logical schema trees: named, nullable, typed fields. */
module LogicalSchemas {
  import opened VariantNames

  datatype ScalarKind = Null | Bool | Int64 | Float64 | Utf8 | TimestampNs | Date32 | Time32s

  datatype LogicalType =
    | Scalar(kind: ScalarKind)
    | Struct(fields: seq<LogicalField>)
    | List(value: LogicalType)

  datatype LogicalField = LogicalField(name: string, nullable: bool, typ: LogicalType)

  /** The label a generated variant name carries for a type. */
  function VariantSemantic(t: LogicalType): (s: string)
    ensures Label(s)
    ensures s[|s| - 1] == 'y' <==> t.List?
  {
    match t
    case Scalar(kind) => ScalarSemantic(kind)
    case Struct(_) => "struct"
    case List(value) => ArrayLabel(VariantSemantic(value)); VariantSemantic(value) + "_array"
  }

  function ScalarSemantic(kind: ScalarKind): (s: string)
    ensures Label(s) && s[|s| - 1] != 'y'
  {
    match kind
    case Null => "null"
    case Bool => "boolean"
    case Int64 => "integer"
    case Float64 => "float"
    case Utf8 => "string"
    case TimestampNs => "timestamp"
    case Date32 => "date"
    case Time32s => "time"
  }

  lemma {:induction false} ArrayLabel(s: string)
    requires Label(s)
    ensures Label(s + "_array") && (s + "_array")[|s| + 5] == 'y'
  {
    var r := s + "_array";
    assert forall j :: 0 <= j < |s| ==> r[j] == s[j];
    assert r[|s|..] == "_array";
  }

  /** Index of the last field of a name among the first `n`, or -1. */
  function LastNamed(s: seq<LogicalField>, name: string, n: nat): (p: int)
    requires n <= |s|
    ensures -1 <= p < n
    ensures p >= 0 ==> s[p].name == name
    ensures forall j :: p < j < n ==> s[j].name != name
  {
    if n == 0 then -1 else if s[n - 1].name == name then n - 1 else LastNamed(s, name, n - 1)
  }

  /** Index of the first field of a name from `k` on, or the length. */
  function FirstNamed(s: seq<LogicalField>, name: string, k: nat): (p: nat)
    requires k <= |s|
    ensures k <= p <= |s|
    ensures p < |s| ==> s[p].name == name
    ensures forall j :: k <= j < p ==> s[j].name != name
    decreases |s| - k
  {
    if k == |s| || s[k].name == name then k else FirstNamed(s, name, k + 1)
  }

  /** Name lookups depend on the names only. */
  lemma {:induction false} SameNames(s: seq<LogicalField>, s': seq<LogicalField>, name: string)
    requires |s| <= |s'| && forall j :: 0 <= j < |s| ==> s'[j].name == s[j].name
    requires forall j :: |s| <= j < |s'| ==> s'[j].name != name
    ensures LastNamed(s', name, |s'|) == LastNamed(s, name, |s|)
    ensures FirstNamed(s, name, 0) < |s| ==> FirstNamed(s', name, 0) == FirstNamed(s, name, 0)
    ensures FirstNamed(s, name, 0) == |s| ==> FirstNamed(s', name, 0) == |s'|
  {
    var p, p' := LastNamed(s, name, |s|), LastNamed(s', name, |s'|);
    assert p >= 0 ==> s'[p].name == name;
    assert p' >= 0 ==> p' < |s| && s[p'].name == name;
    var q, q' := FirstNamed(s, name, 0), FirstNamed(s', name, 0);
    assert q < |s| ==> s'[q].name == name;
    assert q' < |s'| ==> q' < |s| && s[q'].name == name;
  }
}
