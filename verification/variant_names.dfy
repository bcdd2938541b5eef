/** Versioned field names `<base>_v<version>_<semantic>`: the codec behind variant families. */
module VariantNames {
  import opened Basics

  datatype VersionedName = VersionedName(base: string, version: nat, semantic: string)

  // ---------------------------------------------------------------- scanning

  /** The last position before `k` that starts "_v", or -1. */
  function LastMarker(s: string, k: nat): (m: int)
    requires k < |s| || k == 0
    ensures -1 <= m < k
    ensures m >= 0 ==> s[m] == '_' && s[m + 1] == 'v'
    ensures forall j :: m < j < k ==> !(s[j] == '_' && s[j + 1] == 'v')
  {
    if k == 0 then -1
    else if s[k - 1] == '_' && s[k] == 'v' then k - 1
    else LastMarker(s, k - 1)
  }

  /** The first underscore at or after `k`, or the length of `s`. */
  function NextUnderscore(s: string, k: nat): (u: nat)
    requires k <= |s|
    ensures k <= u <= |s|
    ensures u < |s| ==> s[u] == '_'
    ensures forall j :: k <= j < u ==> s[j] != '_'
    decreases |s| - k
  {
    if k == |s| || s[k] == '_' then k else NextUnderscore(s, k + 1)
  }

  predicate AllDigits(s: string) { forall j :: 0 <= j < |s| ==> Digit(s[j]) }

  /** The number a decimal digit string denotes. */
  function DecimalValue(s: string): nat
    requires AllDigits(s)
  {
    if s == "" then 0
    else 10 * DecimalValue(s[..|s| - 1]) + (s[|s| - 1] as int - '0' as int)
  }

  /** The decimal digits of a number, without leading zeros. */
  function Decimal(n: nat): (s: string)
    ensures s != "" && AllDigits(s)
    ensures DecimalValue(s) == n
    ensures n > 0 ==> s[0] != '0'
  {
    var last := [(n % 10 + '0' as int) as char];
    if n < 10 then assert last[..0] == ""; last
    else
      var s := Decimal(n / 10) + last;
      assert s[..|s| - 1] == Decimal(n / 10);
      s
  }

  /** Lowercase words joined by single underscores. */
  predicate SemanticShape(s: string) {
    && s != "" && s[0] != '_' && s[|s| - 1] != '_'
    && (forall j :: 0 <= j < |s| ==> Letter(s[j]) || s[j] == '_')
    && (forall j :: 0 < j < |s| ==> !(s[j - 1] == '_' && s[j] == '_'))
  }

  // ------------------------------------------------------------------- codec

  /** The parse given the position of the last "_v"; -1 stands for none. */
  function ParseAt(name: string, marker: int): Option<VersionedName>
    requires -1 <= marker < |name|
  {
    if |name| < 7 || marker <= 0 || marker + 3 >= |name| then None
    else
      var sep := NextUnderscore(name, marker + 2);
      if sep == marker + 2 || sep + 1 >= |name| then None
      else
        var digits := name[marker + 2..sep];
        var semantic := name[sep + 1..];
        if AllDigits(digits) && DecimalValue(digits) >= 2 && SemanticShape(semantic)
        then Some(VersionedName(name[..marker], DecimalValue(digits), semantic))
        else None
  }

  function Parse(name: string): Option<VersionedName> {
    ParseAt(name, if name == "" then -1 else LastMarker(name, |name| - 1))
  }

  function Make(base: string, version: nat, semantic: string): string {
    base + "_v" + Decimal(version) + "_" + semantic
  }

  /** The name shared by all variants of one source field. */
  function Family(name: string): string {
    match Parse(name) case Some(p) => p.base case None => name
  }

  /** The version of a generated variant; 0 for an unversioned name. */
  function Version(name: string): nat {
    match Parse(name) case Some(p) => p.version case None => 0
  }

  predicate Versioned(name: string) { Parse(name).Some? }

  // ------------------------------------------------------------- round trips

  /** After an underscore, no version marker starts here. */
  predicate Unmarked(s: string) {
    && (s != "" ==> s[0] != 'v')
    && (forall j :: 0 < j < |s| ==> !(s[j - 1] == '_' && s[j] == 'v'))
  }

  /** Semantic labels a generated name may carry: no label starts a new version marker. */
  predicate Label(s: string) {
    |s| >= 2 && SemanticShape(s) && Unmarked(s)
  }

  /** Character by character, what a made name looks like. */
  lemma {:induction false} MadeLayout(base: string, digits: string, semantic: string, name: string)
    requires name == base + "_v" + digits + "_" + semantic
    ensures |name| == |base| + |digits| + |semantic| + 3
    ensures forall j :: 0 <= j < |base| ==> name[j] == base[j]
    ensures name[|base|] == '_' && name[|base| + 1] == 'v'
    ensures forall j :: 0 <= j < |digits| ==> name[|base| + 2 + j] == digits[j]
    ensures name[|base| + 2 + |digits|] == '_'
    ensures forall j :: 0 <= j < |semantic| ==> name[|base| + 3 + |digits| + j] == semantic[j]
  {
  }

  /** The version marker of a made name is the last one in it. */
  lemma {:induction false} MadeMarker(base: string, digits: string, semantic: string, name: string)
    requires AllDigits(digits) && Unmarked(semantic)
    requires name == base + "_v" + digits + "_" + semantic
    ensures LastMarker(name, |name| - 1) == |base|
  {
    var m, sep := |base|, |base| + 2 + |digits|;
    MadeLayout(base, digits, semantic, name);
    forall j | m < j < |name| - 1 ensures !(name[j] == '_' && name[j + 1] == 'v') {
      if m + 2 <= j < sep {
        assert name[j] == name[m + 2 + (j - m - 2)] && Digit(digits[j - m - 2]);
      } else if j == sep {
        assert name[j + 1] == name[m + 3 + |digits| + 0] == semantic[0];
      } else if j > sep {
        assert name[j] == name[m + 3 + |digits| + (j - sep - 1)] == semantic[j - sep - 1];
        assert name[j + 1] == name[m + 3 + |digits| + (j - sep)] == semantic[j - sep];
      }
    }
  }

  lemma {:induction false} MadeSeparator(base: string, digits: string, semantic: string, name: string)
    requires AllDigits(digits)
    requires name == base + "_v" + digits + "_" + semantic
    ensures NextUnderscore(name, |base| + 2) == |base| + 2 + |digits|
  {
    MadeLayout(base, digits, semantic, name);
    forall j | |base| + 2 <= j < |base| + 2 + |digits| ensures name[j] != '_' {
      assert name[j] == name[|base| + 2 + (j - |base| - 2)] && Digit(digits[j - |base| - 2]);
    }
  }

  lemma {:induction false} MadeSlices(base: string, digits: string, semantic: string, name: string)
    requires name == base + "_v" + digits + "_" + semantic
    ensures name[..|base|] == base
    ensures name[|base| + 2..|base| + 2 + |digits|] == digits
    ensures name[|base| + 3 + |digits|..] == semantic
  {
  }

  /** A name spells a version: a base, the marker, a number from two on and a label without a marker. A name
      of fewer than seven characters never does. */
  predicate SpellsVersion(name: string, p: VersionedName, digits: string) {
    && name == p.base + "_v" + digits + "_" + p.semantic && |name| >= 7
    && p.base != "" && digits != "" && AllDigits(digits) && DecimalValue(digits) == p.version >= 2
    && SemanticShape(p.semantic) && Unmarked(p.semantic)
  }

  lemma {:induction false} ParseParts(name: string, p: VersionedName, digits: string)
    requires SpellsVersion(name, p, digits)
    ensures Parse(name) == Some(p)
  {
    hide SemanticShape, AllDigits, ParseAt, Unmarked;
    MadeMarker(p.base, digits, p.semantic, name);
    MadeSeparator(p.base, digits, p.semantic, name);
    MadeSlices(p.base, digits, p.semantic, name);
    NotEmpty(p.semantic);
    SlicesParsed(p.base, digits, p.semantic, name);
  }

  lemma {:induction false} NotEmpty(s: string)
    requires SemanticShape(s)
    ensures s != ""
  {
  }

  lemma {:induction false} SlicesParsed(base: string, digits: string, semantic: string, name: string)
    requires |name| == |base| + |digits| + |semantic| + 3 >= 7
    requires name[..|base|] == base && name[|base| + 2..|base| + 2 + |digits|] == digits
    requires name[|base| + 3 + |digits|..] == semantic && NextUnderscore(name, |base| + 2) == |base| + 2 + |digits|
    requires base != "" && digits != "" && AllDigits(digits) && semantic != "" && SemanticShape(semantic)
    requires DecimalValue(digits) >= 2
    ensures ParseAt(name, |base|) == Some(VersionedName(base, DecimalValue(digits), semantic))
  {
    hide SemanticShape, AllDigits;
  }

  /** Nothing after the last marker and the digits starts another one. */
  lemma {:induction false} AfterMarker(name: string, m: nat, sep: nat)
    requires m < sep < |name| - 1 && name[sep] == '_' && m == LastMarker(name, |name| - 1)
    ensures Unmarked(name[sep + 1..])
  {
    var s := name[sep + 1..];
    assert s[0] == name[sep + 1];
    forall j | 0 < j < |s| ensures !(s[j - 1] == '_' && s[j] == 'v') {
      assert s[j - 1] == name[sep + j] && s[j] == name[sep + j + 1];
    }
  }

  /** The parser accepts exactly the names that spell a version. */
  lemma {:induction false} ParseExactly(name: string, p: VersionedName)
    ensures Parse(name) == Some(p) <==> exists digits :: SpellsVersion(name, p, digits)
  {
    hide SemanticShape, AllDigits, Unmarked, DecimalValue;
    if Parse(name) == Some(p) {
      var m := LastMarker(name, |name| - 1);
      var sep := NextUnderscore(name, m + 2);
      AfterMarker(name, m, sep);
      var digits := name[m + 2..sep];
      assert name == p.base + "_v" + digits + "_" + p.semantic;
      assert SpellsVersion(name, p, digits);
    }
    if digits :| SpellsVersion(name, p, digits) { ParseParts(name, p, digits); }
  }

  lemma {:induction false} LabelShape(s: string)
    requires Label(s)
    ensures |s| >= 2 && SemanticShape(s) && Unmarked(s)
  {
  }

  /** Parsing a made name returns its three parts, so it joins the family it was made for. */
  lemma {:induction false} ParseMake(base: string, version: nat, semantic: string)
    requires base != "" && version >= 2 && Label(semantic)
    ensures Parse(Make(base, version, semantic)) == Some(VersionedName(base, version, semantic))
  {
    LabelShape(semantic);
    ParseParts(Make(base, version, semantic), VersionedName(base, version, semantic), Decimal(version));
  }

  lemma {:induction false} NotVersioned(base: string, version: nat, semantic: string, name: string)
    requires Label(semantic) && name == Make(base, version, semantic) && (base == "" || version < 2)
    ensures !Versioned(name)
  {
    hide SemanticShape, AllDigits, DecimalValue, Decimal, Unmarked;
    MadeMarker(base, Decimal(version), semantic, name);
    MadeSeparator(base, Decimal(version), semantic, name);
    MadeSlices(base, Decimal(version), semantic, name);
  }

  /** A made name is a versioned name exactly when it has a base and a version from two on. */
  lemma {:induction false} MakeVersioned(base: string, version: nat, semantic: string)
    requires Label(semantic)
    ensures Versioned(Make(base, version, semantic)) <==> base != "" && version >= 2
  {
    hide Parse, Label, Make;
    if base != "" && version >= 2 {
      ParseMake(base, version, semantic);
    } else {
      NotVersioned(base, version, semantic, Make(base, version, semantic));
    }
  }

  lemma {:induction false} DecimalUnique(s: string)
    requires s != "" && AllDigits(s) && (s[0] != '0' || |s| == 1)
    ensures Decimal(DecimalValue(s)) == s
  {
    var init, d := s[..|s| - 1], s[|s| - 1] as int - '0' as int;
    assert Digit(s[|s| - 1]);
    if init == "" {
      assert DecimalValue(s) == d;
      assert Decimal(d) == [(d + '0' as int) as char] == s;
    } else {
      DecimalUnique(init);
      LeadingDigit(init);
      var n := DecimalValue(s);
      assert n / 10 == DecimalValue(init) && n % 10 == d;
      assert s == init + [s[|s| - 1]];
    }
  }

  lemma {:induction false} LeadingDigit(s: string)
    requires s != "" && AllDigits(s) && s[0] != '0'
    ensures DecimalValue(s) >= 1
  {
    assert Digit(s[|s| - 1]) && Digit(s[0]);
    if |s| > 1 { LeadingDigit(s[..|s| - 1]); } else { assert s[..0] == ""; }
  }

  lemma {:induction false} MakeInjective(base: string, v: nat, w: nat, semantic: string)
    ensures Make(base, v, semantic) == Make(base, w, semantic) ==> v == w
  {
    var a, b := Make(base, v, semantic), Make(base, w, semantic);
    assert Decimal(v) == a[|base| + 2..|a| - |semantic| - 1];
    assert Decimal(w) == b[|base| + 2..|b| - |semantic| - 1];
  }

  /** A versioned name is its parts; making it again gives it back exactly when its
      version was written without leading zeros. */
  lemma {:induction false} MakeParse(name: string)
    requires Versioned(name)
    ensures var p := Parse(name).value;
            && p.base != "" && p.version >= 2
            && |name| > |p.base| + 2 && p.base < name
            && (Make(p.base, p.version, p.semantic) == name <==> name[|p.base| + 2] != '0')
  {
    var p, m := Parse(name).value, LastMarker(name, |name| - 1);
    var sep := NextUnderscore(name, m + 2);
    var digits := name[m + 2..sep];
    assert name == p.base + "_v" + digits + "_" + p.semantic;
    assert digits[0] == name[m + 2];
    if digits[0] != '0' {
      DecimalUnique(digits);
    } else {
      MadeLayout(p.base, Decimal(p.version), p.semantic, Make(p.base, p.version, p.semantic));
    }
  }

  // ------------------------------------------------------------------- methods

  /** One pass with a flag for the character before. */
  method ScanSemantic(s: string) returns (ok: bool)
    requires s != ""
    ensures ok <==> SemanticShape(s)
  {
    var previousUnderscore := false;
    for k := 0 to |s|
      invariant previousUnderscore <==> k > 0 && s[k - 1] == '_'
      invariant forall j :: 0 <= j < k ==> Letter(s[j]) || s[j] == '_'
      invariant forall j :: 0 < j < k ==> !(s[j - 1] == '_' && s[j] == '_')
    {
      if !Letter(s[k]) && s[k] != '_' { return false; }
      if s[k] == '_' && previousUnderscore { return false; }
      previousUnderscore := s[k] == '_';
    }
    return s[0] != '_' && s[|s| - 1] != '_';
  }

  method ParseVersionedFieldName(name: string) returns (r: Option<VersionedName>)
    ensures r == Parse(name)
  {
    if |name| < 7 { return None; }
    var marker := LastMarker(name, |name| - 1);
    if marker <= 0 || marker + 3 >= |name| { return None; }
    var sep := NextUnderscore(name, marker + 2);
    if sep == |name| || sep == marker + 2 || sep + 1 >= |name| { return None; }
    var digits := name[marker + 2..sep];
    if !AllDigits(digits) || DecimalValue(digits) < 2 { return None; }
    var semantic := name[sep + 1..];
    var ok := ScanSemantic(semantic);
    if !ok { return None; }
    return Some(VersionedName(name[..marker], DecimalValue(digits), semantic));
  }
}
