/** Cleaning one field name: the two alphabets, and deterministic collision suffixes. */
module NameCleaning {
  import opened Basics

  datatype Policy = Preserve | LowerSnake | LowerAlpha

  datatype Options = Options(policy: Policy, defaultKey: string)

  function Lowered(c: char): char {
    if 'A' <= c <= 'Z' then (c as int + 32) as char else c
  }

  // -------------------------------------------------------- lower alphabetic

  /** A non-empty run of lower-case letters. */
  predicate Alpha(s: string) {
    s != "" && forall j :: 0 <= j < |s| ==> Letter(s[j])
  }

  /** The letters of a name, lowered, and nothing else. */
  function Letters(s: string): (r: string)
    ensures forall j :: 0 <= j < |r| ==> Letter(r[j])
  {
    if s == "" then ""
    else
      var c := Lowered(s[|s| - 1]);
      if Letter(c) then Letters(s[..|s| - 1]) + [c] else Letters(s[..|s| - 1])
  }

  function AlphaBase(s: string): (r: string)
    ensures Alpha(r)
  {
    if Letters(s) == "" then "field" else Letters(s)
  }

  // --------------------------------------------------------------- lower snake

  /** Lower-case words of letters and digits joined by single underscores, a letter first. */
  predicate Snake(s: string) {
    && s != "" && Letter(s[0]) && s[|s| - 1] != '_'
    && (forall j :: 0 <= j < |s| ==> Letter(s[j]) || Digit(s[j]) || s[j] == '_')
    && (forall j :: 0 <= j < |s| - 1 ==> s[j] != '_' || s[j + 1] != '_')
  }

  function SnakeChar(c: char): char {
    if Letter(Lowered(c)) || Digit(c) then Lowered(c) else '_'
  }

  /** Words joined by single underscores, with no leading one: what the collapsing loop builds. */
  predicate Collapsed(s: string) {
    && (s != "" ==> s[0] != '_')
    && (forall j :: 0 <= j < |s| ==> Letter(s[j]) || Digit(s[j]) || s[j] == '_')
    && (forall j :: 0 <= j < |s| - 1 ==> s[j] != '_' || s[j + 1] != '_')
  }

  function Collapse(s: string): (r: string)
    ensures Collapsed(r)
  {
    if s == "" then ""
    else
      var before, c := Collapse(s[..|s| - 1]), SnakeChar(s[|s| - 1]);
      if c != '_' then before + [c]
      else if before == "" || before[|before| - 1] == '_' then before
      else before + "_"
  }

  function Trim(s: string): string {
    if s != "" && s[|s| - 1] == '_' then Trim(s[..|s| - 1]) else s
  }

  lemma {:induction false} TrimKeeps(s: string)
    requires Collapsed(s)
    ensures Collapsed(Trim(s)) && (Trim(s) != "" ==> Trim(s)[|Trim(s)| - 1] != '_')
  {
    if s != "" && s[|s| - 1] == '_' { TrimKeeps(s[..|s| - 1]); }
  }

  function Prefixed(s: string): string {
    var named := if s == "" then "field" else s;
    if Digit(named[0]) then "field_" + named else named
  }

  function SnakeBase(s: string): (r: string)
    ensures Snake(r)
  {
    TrimKeeps(Collapse(s));
    PrefixedSnake(Trim(Collapse(s)));
    Prefixed(Trim(Collapse(s)))
  }

  lemma {:induction false} PrefixedSnake(s: string)
    requires Collapsed(s) && (s != "" ==> s[|s| - 1] != '_')
    ensures Snake(Prefixed(s))
  {
    if s != "" && Digit(s[0]) { PrefixKeeps(s); }
  }

  lemma {:induction false} PrefixKeeps(s: string)
    requires Collapsed(s) && s != "" && s[|s| - 1] != '_' && Digit(s[0])
    ensures Snake("field_" + s)
  {
    var r := "field_" + s;
    assert forall j :: 6 <= j < |r| ==> r[j] == s[j - 6];
    assert r[..6] == "field_";
    assert forall j :: 0 <= j < 5 ==> r[j] == r[..6][j] && Letter("field_"[j]);
    assert r[5] == '_' && r[6] == s[0];
    forall j | 0 <= j < |r| ensures Letter(r[j]) || Digit(r[j]) || r[j] == '_' {
      if j >= 6 { assert r[j] == s[j - 6]; }
    }
    forall j | 0 <= j < |r| - 1 ensures r[j] != '_' || r[j + 1] != '_' {
      if j >= 6 { assert r[j] == s[j - 6] && r[j + 1] == s[j - 6 + 1]; }
    }
  }

  // ----------------------------------------------------------- exact fixpoints

  lemma {:induction false} LettersFixed(s: string)
    requires forall j :: 0 <= j < |s| ==> Letter(s[j])
    ensures Letters(s) == s
  {
    if s != "" {
      LettersFixed(s[..|s| - 1]);
      assert s == s[..|s| - 1] + [s[|s| - 1]];
    }
  }

  lemma {:induction false} CollapseFixed(s: string)
    requires Collapsed(s)
    ensures Collapse(s) == s
  {
    if s != "" {
      CollapseFixed(s[..|s| - 1]);
      assert s == s[..|s| - 1] + [s[|s| - 1]];
      assert |s| > 1 ==> s[|s| - 2] == s[..|s| - 1][|s| - 2];
    }
  }

  /** Cleaning changes a name exactly when it is not already in the policy's form. */
  lemma {:induction false} CleanFormsAreFixed(s: string)
    ensures AlphaBase(s) == s <==> Alpha(s)
    ensures SnakeBase(s) == s <==> Snake(s)
  {
    if Alpha(s) { LettersFixed(s); }
    if Snake(s) { CollapseFixed(s); }
  }

  // ---------------------------------------------------------------- suffixes

  /** The next suffix letters drawn from a hash state; a used-up state is reseeded by the suffix so far. */
  function Suffix(hash: string -> nat, state: nat, sofar: string, n: nat): (r: string)
    decreases n
  {
    if n == 0 then sofar
    else
      var next := sofar + [('a' as int + state % 26) as char];
      Suffix(hash, if state / 26 == 0 then hash(next) else state / 26, next, n - 1)
  }

  lemma {:induction false} SuffixLetters(hash: string -> nat, state: nat, sofar: string, n: nat)
    requires forall j :: 0 <= j < |sofar| ==> Letter(sofar[j])
    ensures var r := Suffix(hash, state, sofar, n);
            |r| == |sofar| + n && sofar <= r && forall j :: 0 <= j < |r| ==> Letter(r[j])
    decreases n
  {
    if n > 0 {
      var next := sofar + [('a' as int + state % 26) as char];
      SuffixLetters(hash, if state / 26 == 0 then hash(next) else state / 26, next, n - 1);
    }
  }

  function WithSuffix(hash: string -> nat, dirty: string, base: string, length: nat): string {
    base + Suffix(hash, hash(dirty), "", length)
  }

  /** The form a cleaned name has under a policy. */
  predicate InAlphabet(policy: Policy, s: string) {
    match policy
    case Preserve => true
    case LowerSnake => Snake(s)
    case LowerAlpha => Alpha(s)
  }

  lemma {:induction false} LettersStayInAlphabet(policy: Policy, s: string, letters: string)
    requires InAlphabet(policy, s) && forall j :: 0 <= j < |letters| ==> Letter(letters[j])
    ensures InAlphabet(policy, s + letters)
  {
    var r := s + letters;
    assert forall j :: |s| <= j < |r| ==> r[j] == letters[j - |s|];
  }

  function CleanBase(options: Options, dirty: string): (r: string)
    ensures dirty == options.defaultKey ==> r == dirty
    ensures dirty != options.defaultKey ==> InAlphabet(options.policy, r)
  {
    if dirty == options.defaultKey then dirty
    else
      match options.policy
      case Preserve => dirty
      case LowerSnake => SnakeBase(dirty)
      case LowerAlpha => AlphaBase(dirty)
  }

  // ------------------------------------------------------------------ methods

  /** Draws the suffix letter by letter. */
  method CleanWithSuffix(hash: string -> nat, dirty: string, base: string, length: nat) returns (out: string)
    ensures out == WithSuffix(hash, dirty, base, length)
  {
    out := base;
    var state := hash(dirty);
    ghost var sofar := "";
    for i := 0 to length
      invariant state >= 0 && out == base + sofar
      invariant Suffix(hash, state, sofar, length - i) == Suffix(hash, hash(dirty), "", length)
    {
      var c := ('a' as int + state % 26) as char;
      out := out + [c];
      sofar := sofar + [c];
      assert out[|base|..] == sofar;
      state := state / 26;
      if state == 0 { state := hash(out[|base|..]); }
    }
  }

  /** One pass over the name, then the trailing underscores and the prefix. */
  method CleanLowerSnake(dirty: string) returns (out: string)
    ensures out == SnakeBase(dirty)
  {
    out := "";
    var previousUnderscore := false;
    assert dirty[..0] == "";
    for k := 0 to |dirty|
      invariant out == Collapse(dirty[..k])
      invariant out != "" ==> (previousUnderscore <==> out[|out| - 1] == '_')
    {
      assert dirty[..k + 1][..k] == dirty[..k];
      var clean := SnakeChar(dirty[k]);
      if clean == '_' {
        if !previousUnderscore && out != "" { out := out + [clean]; }
        previousUnderscore := true;
      } else {
        out := out + [clean];
        previousUnderscore := false;
      }
    }
    assert dirty[..|dirty|] == dirty;
    while out != "" && out[|out| - 1] == '_'
      invariant Trim(out) == Trim(Collapse(dirty))
      decreases |out|
    {
      out := out[..|out| - 1];
    }
    if out == "" { out := "field"; }
    if Digit(out[0]) { out := "field_" + out; }
  }

  method CleanFieldNameBase(options: Options, dirty: string) returns (out: string)
    ensures out == CleanBase(options, dirty)
  {
    if dirty == options.defaultKey || options.policy == Preserve { return dirty; }
    if options.policy == LowerSnake {
      out := CleanLowerSnake(dirty);
      return;
    }
    out := "";
    assert dirty[..0] == "";
    for k := 0 to |dirty|
      invariant out == Letters(dirty[..k])
    {
      assert dirty[..k + 1][..k] == dirty[..k];
      var clean := Lowered(dirty[k]);
      if Letter(clean) { out := out + [clean]; }
    }
    assert dirty[..|dirty|] == dirty;
    if out == "" { out := "field"; }
  }
}
