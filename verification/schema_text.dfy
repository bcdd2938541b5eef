/** The canonical schema's JSON text: what the writer appends, and that the text determines the schema. */
module SchemaText {
  import opened Basics
  import opened LogicalSchemas
  import opened SchemaJson

  // --------------------------------------------------------------- characters

  const BACKSPACE := '\U{8}'
  const FORM_FEED := '\U{c}'

  predicate RequiresEscape(c: char) {
    c < ' ' || c == '"' || c == '\\'
  }

  function Hex(n: nat): (h: char)
    requires n < 16
  {
    if n < 10 then ('0' as int + n) as char else ('a' as int + n - 10) as char
  }

  function Escape(c: char): (s: string)
    ensures s != "" && s[0] != '"'
    ensures RequiresEscape(c) <==> s[0] == '\\'
  {
    if c == '"' then "\\\""
    else if c == '\\' then "\\\\"
    else if c == BACKSPACE then "\\b"
    else if c == FORM_FEED then "\\f"
    else if c == '\n' then "\\n"
    else if c == '\r' then "\\r"
    else if c == '\t' then "\\t"
    else if c < ' ' then ['\\', 'u', '0', '0', Hex(c as int / 16), Hex(c as int % 16)]
    else [c]
  }

  function HexValue(c: char): Option<nat> {
    if '0' <= c <= '9' then Some(c as int - '0' as int)
    else if 'a' <= c <= 'f' then Some(c as int - 'a' as int + 10)
    else if 'A' <= c <= 'F' then Some(c as int - 'A' as int + 10)
    else None
  }

  /** Reads one character of a string by section 7 of RFC 8259; code units of surrogate pairs are not read. */
  function ReadChar(s: string): (r: Option<(char, string)>)
    ensures r.Some? ==> |r.value.1| < |s|
  {
    if s == "" || s[0] < ' ' || s[0] == '"' then None
    else if s[0] != '\\' then Some((s[0], s[1..]))
    else if |s| < 2 then None
    else if s[1] in "\"\\/" then Some((s[1], s[2..]))
    else if s[1] == 'b' then Some((BACKSPACE, s[2..]))
    else if s[1] == 'f' then Some((FORM_FEED, s[2..]))
    else if s[1] == 'n' then Some(('\n', s[2..]))
    else if s[1] == 'r' then Some(('\r', s[2..]))
    else if s[1] == 't' then Some(('\t', s[2..]))
    else if s[1] == 'u' && |s| >= 6 then
      match (HexValue(s[2]), HexValue(s[3]), HexValue(s[4]), HexValue(s[5]))
      case (Some(a), Some(b), Some(c), Some(d)) =>
        var code := 4096 * a + 256 * b + 16 * c + d;
        if 0xD800 <= code < 0xE000 then None else Some((code as char, s[6..]))
      case _ => None
    else None
  }

  /** Reads the rest of a string up to its closing quote. */
  function ReadString(s: string): (r: Option<(string, string)>)
    ensures r.Some? ==> |r.value.1| < |s|
    decreases |s|
  {
    if s == "" then None
    else if s[0] == '"' then Some(("", s[1..]))
    else
      match ReadChar(s)
      case None => None
      case Some(first) =>
        match ReadString(first.1)
        case None => None
        case Some(more) => Some(([first.0] + more.0, more.1))
  }

  lemma {:induction false} HexRead(n: nat)
    requires n < 16
    ensures HexValue(Hex(n)) == Some(n)
  {
  }

  /** An escaped character reads back as itself. */
  lemma {:induction false} EscapeReads(c: char, r: string)
    ensures ReadChar(Escape(c) + r) == Some((c, r))
  {
    var x := Escape(c) + r;
    assert x[|Escape(c)|..] == r;
    if c < ' ' && |Escape(c)| == 6 {
      HexRead(c as int / 16);
      HexRead(c as int % 16);
      assert x[4] == Hex(c as int / 16) && x[5] == Hex(c as int % 16);
    }
  }

  function Body(s: string): string {
    if s == "" then "" else Body(s[..|s| - 1]) + Escape(s[|s| - 1])
  }

  function Quote(s: string): string {
    "\"" + Body(s) + "\""
  }

  lemma {:induction false} Regroup(a: string, b: string, c: string)
    ensures a + b + c == a + (b + c)
  {
  }

  lemma {:induction false} BodyConcat(s: string, t: string)
    ensures Body(s + t) == Body(s) + Body(t)
  {
    hide Escape;
    if t == "" {
      assert s + t == s;
    } else {
      var n := |t| - 1;
      BodyConcat(s, t[..n]);
      assert (s + t)[..|s + t| - 1] == s + t[..n];
      Regroup(Body(s), Body(t[..n]), Escape(t[n]));
    }
  }

  /** No text that reads as a character is shorter than its escape. */
  lemma {:induction false} EscapeShortest(x: string)
    requires ReadChar(x).Some?
    ensures var p := ReadChar(x).value; |Escape(p.0)| <= |x| - |p.1|
  {
    hide HexValue;
    assert x[0] != '\\' ==> !RequiresEscape(x[0]) && |Escape(x[0])| == 1;
  }

  /** No text that reads as a string is shorter than the written one. */
  lemma {:induction false} BodyShortest(x: string)
    requires ReadString(x).Some?
    ensures var p := ReadString(x).value; |Body(p.0)| + 1 <= |x| - |p.1|
    decreases |x|
  {
    hide Escape, Body, ReadChar;
    if x[0] == '"' {
      assert Body("") == "" by { NoBody(); }
    } else {
      var first := ReadChar(x).value;
      EscapeShortest(x);
      BodyShortest(first.1);
      var more := ReadString(first.1).value.0;
      BodyFirst([first.0] + more);
      assert ([first.0] + more)[1..] == more;
    }
  }

  lemma {:induction false} NoBody()
    ensures Body("") == ""
  {
  }

  lemma {:induction false} PlainChar(c: char)
    requires !RequiresEscape(c)
    ensures Escape(c) == [c]
  {
  }

  lemma {:induction false} BodyPlain(s: string)
    requires forall j :: 0 <= j < |s| ==> !RequiresEscape(s[j])
    ensures Body(s) == s
  {
    hide Escape, RequiresEscape;
    if s != "" {
      BodyPlain(s[..|s| - 1]);
      PlainChar(s[|s| - 1]);
    }
  }

  lemma {:induction false} BodyFirst(s: string)
    requires s != ""
    ensures Body(s) == Escape(s[0]) + Body(s[1..])
  {
    BodyConcat(s[..1], s[1..]);
    assert s[..1] + s[1..] == s;
    assert Body(s[..1]) == Escape(s[0]) by { assert Body("") == ""; assert s[..1][..0] == ""; }
  }

  /** A written string reads back as itself, whatever follows it. */
  lemma {:induction false} QuoteReads(s: string, r: string)
    ensures ReadString(Body(s) + ("\"" + r)) == Some((s, r))
  {
    hide Escape, ReadChar;
    QuoteOpens(s, r);
    if s == "" {
      assert (['"'] + r)[1..] == r;
    } else {
      hide Body;
      EscapeReads(s[0], Body(s[1..]) + ("\"" + r));
      QuoteReads(s[1..], r);
      assert s == [s[0]] + s[1..];
    }
  }

  lemma {:induction false} QuoteOpens(s: string, r: string)
    ensures var x := Body(s) + ("\"" + r); x[0] == '"' <==> s == ""
    ensures s == "" ==> Body(s) + ("\"" + r) == ['"'] + r
    ensures s != "" ==> Body(s) + ("\"" + r) == Escape(s[0]) + (Body(s[1..]) + ("\"" + r))
  {
    hide Escape;
    if s != "" {
      BodyFirst(s);
      Regroup(Escape(s[0]), Body(s[1..]), "\"" + r);
    } else {
      assert Body(s) == "";
    }
  }

  // -------------------------------------------------------------------- values

  /** Values the schema writer produces: no numbers and no null. */
  predicate Written(j: Json) {
    match j
    case JNull => false
    case JNumber(_) => false
    case JBool(_) => true
    case JString(_) => true
    case JArray(elements) => forall k :: 0 <= k < |elements| ==> Written(elements[k])
    case JObject(members) => forall k :: 0 <= k < |members| ==> Written(members[k].value)
  }

  function Text(j: Json): string {
    match j
    case JNull => "null"
    case JNumber(text) => text
    case JBool(truth) => if truth then "true" else "false"
    case JString(chars) => Quote(chars)
    case JArray(elements) => "[" + ElementsText(elements) + "]"
    case JObject(members) => "{" + MembersText(members) + "}"
  }

  function ElementsText(a: seq<Json>): string {
    if a == [] then "" else if |a| == 1 then Text(a[0]) else Text(a[0]) + "," + ElementsText(a[1..])
  }

  function MemberText(m: Member): string {
    Quote(m.key) + ":" + Text(m.value)
  }

  function MembersText(ms: seq<Member>): string {
    if ms == [] then "" else if |ms| == 1 then MemberText(ms[0]) else MemberText(ms[0]) + "," + MembersText(ms[1..])
  }

  /** What a value's text starts with tells its kind. */
  function Opening(j: Json): char
    requires Written(j)
  {
    match j
    case JBool(truth) => if truth then 't' else 'f'
    case JString(_) => '"'
    case JArray(_) => '['
    case JObject(_) => '{'
  }

  lemma {:induction false} TextOpens(j: Json)
    requires Written(j)
    ensures Text(j) != "" && Text(j)[0] == Opening(j)
  {
  }

  /** Reads one value by RFC 8259, without insignificant whitespace or numbers. */
  function ReadValue(s: string): (r: Option<(Json, string)>)
    ensures r.Some? ==> |r.value.1| < |s|
    decreases |s|, 0
  {
    if s == "" then None
    else if s[0] == '"' then
      match ReadString(s[1..]) {
        case None => None
        case Some(p) => Some((JString(p.0), p.1))
      }
    else if "true" <= s then Some((JBool(true), s[4..]))
    else if "false" <= s then Some((JBool(false), s[5..]))
    else if "null" <= s then Some((JNull, s[4..]))
    else if "[]" <= s then Some((JArray([]), s[2..]))
    else if "{}" <= s then Some((JObject([]), s[2..]))
    else if s[0] == '[' then
      match ReadElements(s[1..]) {
        case None => None
        case Some(p) => Some((JArray(p.0), p.1))
      }
    else if s[0] == '{' then
      match ReadMembers(s[1..]) {
        case None => None
        case Some(p) => Some((JObject(p.0), p.1))
      }
    else None
  }

  /** Reads the elements of a non-empty array and its closing bracket. */
  function ReadElements(s: string): (r: Option<(seq<Json>, string)>)
    ensures r.Some? ==> |r.value.1| < |s|
    decreases |s|, 1
  {
    match ReadValue(s)
    case None => None
    case Some(first) =>
      if first.1 == "" then None
      else if first.1[0] == ']' then Some(([first.0], first.1[1..]))
      else if first.1[0] == ',' then
        match ReadElements(first.1[1..]) {
          case None => None
          case Some(more) => Some(([first.0] + more.0, more.1))
        }
      else None
  }

  function ReadMember(s: string): (r: Option<(Member, string)>)
    ensures r.Some? ==> |r.value.1| < |s|
    decreases |s|, 1
  {
    if s == "" || s[0] != '"' then None
    else
      match ReadString(s[1..])
      case None => None
      case Some(key) =>
        if key.1 == "" || key.1[0] != ':' then None
        else
          match ReadValue(key.1[1..])
          case None => None
          case Some(value) => Some((Member(key.0, value.0), value.1))
  }

  /** Reads the members of a non-empty object and its closing brace. */
  function ReadMembers(s: string): (r: Option<(seq<Member>, string)>)
    ensures r.Some? ==> |r.value.1| < |s|
    decreases |s|, 2
  {
    match ReadMember(s)
    case None => None
    case Some(first) =>
      if first.1 == "" then None
      else if first.1[0] == '}' then Some(([first.0], first.1[1..]))
      else if first.1[0] == ',' then
        match ReadMembers(first.1[1..]) {
          case None => None
          case Some(more) => Some(([first.0] + more.0, more.1))
        }
      else None
  }

  /** Every written value reads back as itself, whatever follows it. */
  lemma {:induction false} TextReads(j: Json, r: string)
    requires Written(j)
    ensures ReadValue(Text(j) + r) == Some((j, r))
    decreases j, 0
  {
    TextParts(j, r);
    Tail(Opening(j), AfterOpening(j, r));
    match j
    case JBool(truth) => WordReads(truth, r);
    case JString(s) => QuoteReads(s, r);
    case JArray(s) => ArrayReads(s, r);
    case JObject(s) => ObjectReads(s, r);
  }

  lemma {:induction false} Tail(c: char, x: string)
    ensures ([c] + x)[0] == c && ([c] + x)[1..] == x
  {
  }

  lemma {:induction false} WordReads(truth: bool, r: string)
    ensures ReadValue(Text(JBool(truth)) + r) == Some((JBool(truth), r))
  {
    var word := if truth then "true" else "false";
    assert (word + r)[|word|..] == r && word <= word + r && (word + r)[0] == word[0];
  }

  lemma {:induction false} BracketReads(x: string)
    requires x != ""
    ensures var s := ['['] + x;
            ReadValue(s) ==
            if x[0] == ']' then Some((JArray([]), x[1..]))
            else match ReadElements(x) case None => None case Some(p) => Some((JArray(p.0), p.1))
  {
    hide ReadElements, ReadMembers, ReadString;
    var s := ['['] + x;
    Tail('[', x);
    assert s[1] == x[0] && s[2..] == x[1..];
  }

  lemma {:induction false} ArrayReads(a: seq<Json>, r: string)
    requires forall k :: 0 <= k < |a| ==> Written(a[k])
    ensures ReadValue(['['] + (ElementsText(a) + ("]" + r))) == Some((JArray(a), r))
    decreases a, 2
  {
    hide Text, ReadValue, ReadElements, Written;
    var x := ElementsText(a) + ("]" + r);
    ElementsOpen(a, r);
    BracketReads(x);
    if a == [] {
      assert x == [']'] + r;
    } else {
      ElementsReads(a, r);
    }
  }

  lemma {:induction false} ObjectReads(a: seq<Member>, r: string)
    requires forall k :: 0 <= k < |a| ==> Written(a[k].value)
    ensures ReadValue(['{'] + (MembersText(a) + ("}" + r))) == Some((JObject(a), r))
    decreases a, 3
  {
    hide MemberText;
    var x := MembersText(a) + ("}" + r);
    MembersOpen(a, r);
    Tail('{', x);
    var s := ['{'] + x;
    assert s[1] == x[0];
    if a == [] {
      assert x == ['}'] + r && s[2..] == r;
    } else {
      MembersReads(a, r);
    }
  }

  function AfterOpening(j: Json, r: string): string
    requires Written(j)
  {
    match j
    case JBool(truth) => (if truth then "rue" else "alse") + r
    case JString(s) => Body(s) + ("\"" + r)
    case JArray(s) => ElementsText(s) + ("]" + r)
    case JObject(s) => MembersText(s) + ("}" + r)
  }

  lemma {:induction false} TextParts(j: Json, r: string)
    requires Written(j)
    ensures Text(j) + r == [Opening(j)] + AfterOpening(j, r)
  {
    match j
    case JBool(truth) =>
    case JString(s) => Nested("\"", Body(s), "\"", r);
    case JArray(s) => Nested("[", ElementsText(s), "]", r);
    case JObject(s) => Nested("{", MembersText(s), "}", r);
  }

  lemma {:induction false} Nested(open: string, body: string, close: string, r: string)
    ensures open + body + close + r == open + (body + (close + r))
  {
  }

  /** What follows the first element. */
  function AfterElement(a: seq<Json>, r: string): string
    requires a != []
  {
    [if |a| == 1 then ']' else ','] + MoreElements(a, r)
  }

  function MoreElements(a: seq<Json>, r: string): string
    requires a != []
  {
    if |a| == 1 then r else ElementsText(a[1..]) + ("]" + r)
  }

  lemma {:induction false} ElementsParts(a: seq<Json>, r: string)
    requires a != []
    ensures ElementsText(a) + ("]" + r) == Text(a[0]) + AfterElement(a, r)
  {
    hide Text;
    if |a| > 1 {
      Nested(Text(a[0]), ",", ElementsText(a[1..]), "]" + r);
    } else {
      assert ElementsText(a) == Text(a[0]);
    }
  }

  lemma {:induction false} ElementsOpen(a: seq<Json>, r: string)
    requires a != [] ==> Written(a[0])
    ensures var x := ElementsText(a) + ("]" + r); x != "" && (a == [] <==> x[0] == ']')
  {
    if a != [] {
      ElementsParts(a, r);
      TextOpens(a[0]);
    } else {
      assert ElementsText(a) == "";
    }
  }

  lemma {:induction false} ElementsReads(a: seq<Json>, r: string)
    requires a != [] && forall k :: 0 <= k < |a| ==> Written(a[k])
    ensures ReadElements(ElementsText(a) + ("]" + r)) == Some((a, r))
    decreases a, 1
  {
    hide Text, ElementsText, ReadValue;
    ElementsParts(a, r);
    TextReads(a[0], AfterElement(a, r));
    Tail(if |a| == 1 then ']' else ',', MoreElements(a, r));
    if |a| > 1 { ElementsReads(a[1..], r); } else { assert a == [a[0]]; }
    assert a == [a[0]] + a[1..];
  }

  lemma {:induction false} MemberReads(m: Member, r: string)
    requires Written(m.value)
    ensures ReadMember(MemberText(m) + r) == Some((m, r))
    decreases m, 1
  {
    hide Text, Body, ReadValue, ReadString;
    var value := Text(m.value) + r;
    MemberParts(m, r);
    Tail('"', Body(m.key) + ("\"" + ([':'] + value)));
    QuoteReads(m.key, [':'] + value);
    Tail(':', value);
    TextReads(m.value, r);
  }

  lemma {:induction false} MemberParts(m: Member, r: string)
    ensures MemberText(m) + r == ['"'] + (Body(m.key) + ("\"" + ([':'] + (Text(m.value) + r))))
  {
    hide Text, Body;
    Nested(Quote(m.key), ":", Text(m.value), r);
    Nested("\"", Body(m.key), "\"", [':'] + (Text(m.value) + r));
  }

  /** What follows the first member. */
  function AfterMember(a: seq<Member>, r: string): string
    requires a != []
  {
    [if |a| == 1 then '}' else ','] + MoreMembers(a, r)
  }

  function MoreMembers(a: seq<Member>, r: string): string
    requires a != []
  {
    if |a| == 1 then r else MembersText(a[1..]) + ("}" + r)
  }

  lemma {:induction false} MembersParts(a: seq<Member>, r: string)
    requires a != []
    ensures MembersText(a) + ("}" + r) == MemberText(a[0]) + AfterMember(a, r)
  {
    hide MemberText;
    if |a| > 1 { Nested(MemberText(a[0]), ",", MembersText(a[1..]), "}" + r); }
  }

  lemma {:induction false} MembersOpen(a: seq<Member>, r: string)
    ensures var x := MembersText(a) + ("}" + r); x != "" && (a == [] <==> x[0] == '}')
  {
    if a != [] {
      MembersParts(a, r);
      MemberParts(a[0], AfterMember(a, r));
    } else {
      assert MembersText(a) == "";
    }
  }

  lemma {:induction false} MembersReads(a: seq<Member>, r: string)
    requires a != [] && forall k :: 0 <= k < |a| ==> Written(a[k].value)
    ensures ReadMembers(MembersText(a) + ("}" + r)) == Some((a, r))
    decreases a, 2
  {
    hide MemberText;
    MembersParts(a, r);
    MemberReads(a[0], AfterMember(a, r));
    Tail(if |a| == 1 then '}' else ',', MoreMembers(a, r));
    if |a| > 1 { MembersReads(a[1..], r); } else { assert a == [a[0]]; }
    assert a == [a[0]] + a[1..];
  }

  // ------------------------------------------------------------------- schemas

  lemma {:induction false} TypeWritten(t: LogicalType)
    ensures Written(EncodeType(t))
    decreases t, 0
  {
    match t
    case Scalar(_) =>
    case Struct(fields) => FieldsWritten(fields);
    case List(value) => TypeWritten(value);
  }

  lemma {:induction false} FieldsWritten(s: seq<LogicalField>)
    ensures forall k :: 0 <= k < |s| ==> Written(EncodeFields(s)[k])
    decreases s, 1
  {
    if s != [] {
      FieldsWritten(s[..|s| - 1]);
      TypeWritten(s[|s| - 1].typ);
    }
  }

  lemma {:induction false} KindDiffers(a: LogicalType, b: LogicalType)
    requires KindName(a) == KindName(b)
    ensures a.Scalar? ==> a == b
    ensures a.Struct? <==> b.Struct?
    ensures a.List? <==> b.List?
  {
    KindNames(a);
    KindNames(b);
    assert "struct"[0] != "list"[0];
  }

  lemma {:induction false} TypeEncodingUnique(a: LogicalType, b: LogicalType)
    requires EncodeType(a) == EncodeType(b)
    ensures a == b
    decreases a, 0
  {
    assert EncodeType(a).members[0].value.chars == KindName(a) && EncodeType(b).members[0].value.chars == KindName(b);
    KindDiffers(a, b);
    hide KindName;
    match a
    case Scalar(_) =>
    case Struct(fields) =>
      assert EncodeType(a).members[1].value.elements == EncodeType(b).members[1].value.elements;
      FieldsEncodingUnique(fields, b.fields);
    case List(value) =>
      assert EncodeType(a).members[1].value == EncodeType(b).members[1].value;
      TypeEncodingUnique(value, b.value);
  }

  lemma {:induction false} FieldEncodingUnique(f: LogicalField, g: LogicalField)
    requires EncodeField(f) == EncodeField(g)
    ensures f == g
    decreases f, 0
  {
    FieldMembers(f);
    FieldMembers(g);
    TypeEncodingUnique(f.typ, g.typ);
  }

  lemma {:induction false} FieldsEncodingUnique(a: seq<LogicalField>, b: seq<LogicalField>)
    requires EncodeFields(a) == EncodeFields(b)
    ensures a == b
    decreases a, 1
  {
    assert |a| == |EncodeFields(a)| == |EncodeFields(b)| == |b|;
    if a != [] {
      var n := |a| - 1;
      var x, y := EncodeFields(a), EncodeFields(b);
      assert x[..n] == EncodeFields(a[..n]) && y[..n] == EncodeFields(b[..n]);
      FieldsEncodingUnique(a[..n], b[..n]);
      FieldEncodingUnique(a[n], b[n]);
      assert a == a[..n] + [a[n]] && b == b[..n] + [b[n]];
    }
  }

  /** A schema within the limits is read back from its canonical text; any other text of a schema is refused. */
  lemma {:induction false} TextRoundTrip(fields: seq<LogicalField>)
    ensures var read := ReadValue(Text(EncodeSchema(fields)));
            && read == Some((EncodeSchema(fields), ""))
            && (FieldsFit(fields, 0, MAX_NODES) ==> DecodeSchema(read.value.0) == Ok(fields))
            && (!FieldsFit(fields, 0, MAX_NODES) ==> DecodeSchema(read.value.0).Err?)
  {
    SchemaWritten(fields);
    TextReads(EncodeSchema(fields), "");
    assert Text(EncodeSchema(fields)) + "" == Text(EncodeSchema(fields));
    SchemaRoundTrip(fields);
  }

  /** Two schemas have the same canonical text exactly when they are the same schema. */
  lemma {:induction false} TextDeterminesSchema(a: seq<LogicalField>, b: seq<LogicalField>)
    ensures Text(EncodeSchema(a)) == Text(EncodeSchema(b)) <==> a == b
  {
    if Text(EncodeSchema(a)) == Text(EncodeSchema(b)) {
      TextRoundTrip(a);
      TextRoundTrip(b);
      assert EncodeSchema(a).members[0].value.elements == EncodeSchema(b).members[0].value.elements;
      FieldsEncodingUnique(a, b);
    }
  }

  lemma {:induction false} SchemaWritten(s: seq<LogicalField>)
    ensures Written(EncodeSchema(s))
  {
    FieldsWritten(s);
    assert Written(JArray(EncodeFields(s)));
  }
}
