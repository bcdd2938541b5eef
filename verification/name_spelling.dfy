/** What a cleaned name spells: the words of the original, lowered, and where they are joined. */
module NameSpelling {
  import opened Basics
  import opened NameCleaning

  const UPPER := "ABCDEFGHIJKLMNOPQRSTUVWXYZ"
  const LOWER := "abcdefghijklmnopqrstuvwxyz"

  /** Lowering follows the alphabet and leaves every other character alone. */
  lemma {:induction false} LoweredByAlphabet(c: char)
    ensures if 'A' <= c <= 'Z' then exists k :: 0 <= k < 26 && UPPER[k] == c && Lowered(c) == LOWER[k]
            else Lowered(c) == c
  {
    var k := c as int - 'A' as int;
    assert forall j :: 0 <= j < 26 ==> UPPER[j] as int == 'A' as int + j && LOWER[j] as int == 'a' as int + j;
    if 0 <= k < 26 { assert UPPER[k] == c && Lowered(c) == LOWER[k]; }
  }

  predicate Alphabetic(c: char) {
    'a' <= c <= 'z' || 'A' <= c <= 'Z'
  }

  predicate Wordlike(c: char) {
    Alphabetic(c) || '0' <= c <= '9'
  }

  /** The characters that are kept, lowered, with an underscore wherever others stood between two of them. */
  function Spelled(s: string, n: nat): string
    requires n <= |s|
  {
    if n == 0 then ""
    else
      var before := Spelled(s, n - 1);
      if !Wordlike(s[n - 1]) then before
      else before + (if before != "" && !Wordlike(s[n - 2]) then "_" else "") + [Lowered(s[n - 1])]
  }

  // -------------------------------------------------------------- lower snake

  /** An underscore is pending after the first `n` characters. */
  predicate Pending(s: string, n: nat)
    requires n <= |s|
  {
    Spelled(s, n) != "" && !Wordlike(s[n - 1])
  }

  lemma {:induction false} KeptChar(c: char)
    ensures SnakeChar(c) == if Wordlike(c) then Lowered(c) else '_'
    ensures Wordlike(c) ==> Lowered(c) != '_'
    ensures Letter(Lowered(c)) <==> Alphabetic(c)
  {
  }

  lemma {:induction false} SpelledEnds(s: string, n: nat)
    requires n <= |s|
    ensures var w := Spelled(s, n); w != "" ==> w[|w| - 1] != '_'
  {
    if n > 0 {
      SpelledEnds(s, n - 1);
      KeptChar(s[n - 1]);
    }
  }

  lemma {:induction false} CollapseSpells(s: string, n: nat)
    requires n <= |s|
    ensures Collapse(s[..n]) == Spelled(s, n) + if Pending(s, n) then "_" else ""
  {
    hide SnakeChar, Wordlike, Lowered;
    if n == 0 {
      assert s[..0] == "";
    } else {
      CollapseSpells(s, n - 1);
      SpelledEnds(s, n - 1);
      KeptChar(s[n - 1]);
      assert s[..n][..n - 1] == s[..n - 1];
    }
  }

  lemma {:induction false} TrimPending(w: string)
    requires w != "" ==> w[|w| - 1] != '_'
    ensures Trim(w) == w && (w != "" ==> Trim(w + "_") == w)
  {
    assert (w + "_")[..|w|] == w;
  }

  /** A lower-snake base spells the name, under a prefix when it would start with a digit, and is "field" when
      nothing is left to spell. */
  lemma {:induction false} SnakeSpells(s: string)
    ensures var w := Spelled(s, |s|);
            SnakeBase(s) == if w == "" then "field" else if '0' <= w[0] <= '9' then "field_" + w else w
  {
    hide Collapse, Trim, Spelled;
    CollapseSpells(s, |s|);
    assert s[..|s|] == s;
    SpelledEnds(s, |s|);
    TrimPending(Spelled(s, |s|));
    assert Spelled(s, |s|) + "" == Spelled(s, |s|);
  }

  // ------------------------------------------------------------ letter by letter

  /** `places` are the positions of the kept characters of `s`, in order. */
  ghost predicate Places(s: string, keep: char -> bool, places: seq<nat>, n: nat)
    requires n <= |s|
  {
    && (forall j :: 0 <= j < |places| ==> places[j] < n && keep(s[places[j]]))
    && (forall i :: 0 <= i < n && keep(s[i]) ==> i in places)
    && (forall j, k :: 0 <= j < k < |places| ==> places[j] < places[k])
  }

  /** The word has exactly the kept characters, lowered and in order, each next to the one before it, or one
      underscore apart where other characters stood between them. */
  ghost predicate Spells(s: string, places: seq<nat>, w: string, at: seq<nat>) {
    Holds(s, places, w, at) && Joins(places, w, at)
  }

  ghost predicate Holds(s: string, places: seq<nat>, w: string, at: seq<nat>) {
    && |at| == |places|
    && (at == [] <==> w == "") && (at != [] ==> at[0] == 0 && at[|at| - 1] == |w| - 1)
    && (forall j :: 0 <= j < |at| ==> places[j] < |s| && at[j] < |w| && w[at[j]] == Lowered(s[places[j]]))
  }

  ghost predicate Joins(places: seq<nat>, w: string, at: seq<nat>) {
    |at| == |places| && forall j :: 0 <= j < |at| - 1 ==> Joined(places[j], places[j + 1], w, at[j], at[j + 1])
  }

  ghost predicate Joined(p: nat, q: nat, w: string, a: nat, b: nat) {
    if q == p + 1 then b == a + 1 else b == a + 2 && b <= |w| && w[a + 1] == '_'
  }

  lemma {:induction false} NoPlaces(s: string, keep: char -> bool)
    ensures Places(s, keep, [], 0)
  {
  }

  lemma {:induction false} PlacesNext(s: string, keep: char -> bool, places: seq<nat>, n: nat)
    requires n < |s| && Places(s, keep, places, n)
    ensures Places(s, keep, if keep(s[n]) then places + [n] else places, n + 1)
  {
    if keep(s[n]) { PlacesMore(s, keep, places, n); }
  }

  lemma {:induction false} PlacesMore(s: string, keep: char -> bool, places: seq<nat>, n: nat)
    requires n < |s| && keep(s[n]) && Places(s, keep, places, n)
    ensures Places(s, keep, places + [n], n + 1)
  {
    var r := places + [n];
    forall i | 0 <= i < n + 1 && keep(s[i]) ensures i in r {
      if i < n { assert i in places; } else { assert r[|places|] == i; }
    }
    forall j, k | 0 <= j < k < |r| ensures r[j] < r[k] {
      assert r[j] == places[j] < n;
    }
  }

  lemma {:induction false} HoldsNext(s: string, places: seq<nat>, w: string, at: seq<nat>, n: nat, gap: string)
    requires n < |s| && Holds(s, places, w, at) && (w == "" ==> gap == "")
    ensures var r := w + gap + [Lowered(s[n])]; Holds(s, places + [n], r, at + [|r| - 1])
  {
    hide Lowered;
    var r := w + gap + [Lowered(s[n])];
    assert forall j :: 0 <= j < |w| ==> r[j] == w[j];
    assert r[|r| - 1] == Lowered(s[n]);
  }

  lemma {:induction false} JoinsNext(s: string, places: seq<nat>, w: string, at: seq<nat>, n: nat, gap: string)
    requires n < |s| && Holds(s, places, w, at) && Joins(places, w, at)
    requires places != [] ==> gap == if places[|places| - 1] + 1 == n then "" else "_"
    ensures var r := w + gap + [Lowered(s[n])]; Joins(places + [n], r, at + [|r| - 1])
  {
    hide Lowered;
    var r := w + gap + [Lowered(s[n])];
    var to, next := at + [|r| - 1], places + [n];
    assert forall j :: 0 <= j < |w| ==> r[j] == w[j];
    forall j | 0 <= j < |to| - 1 ensures Joined(next[j], next[j + 1], r, to[j], to[j + 1]) {
      if j < |at| - 1 { assert Joined(places[j], places[j + 1], w, at[j], at[j + 1]); } else {
        assert r[|w|..] == gap + [Lowered(s[n])];
      }
    }
  }

  lemma {:induction false} SpellsNext(s: string, n: nat, places: seq<nat>, at: seq<nat>)
    requires n < |s| && Wordlike(s[n]) && Spells(s, places, Spelled(s, n), at)
    requires places != [] ==> places[|places| - 1] < n && (places[|places| - 1] == n - 1 <==> Wordlike(s[n - 1]))
    ensures Spells(s, places + [n], Spelled(s, n + 1), at + [|Spelled(s, n + 1)| - 1])
  {
    hide Wordlike, Lowered, Joins;
    var w := Spelled(s, n);
    var gap := if w != "" && !Wordlike(s[n - 1]) then "_" else "";
    assert Spelled(s, n + 1) == w + gap + [Lowered(s[n])];
    HoldsNext(s, places, w, at, n, gap);
    JoinsNext(s, places, w, at, n, gap);
  }

  lemma {:induction false} SpelledAt(s: string, n: nat) returns (places: seq<nat>, at: seq<nat>)
    requires n <= |s|
    ensures Places(s, Wordlike, places, n) && Spells(s, places, Spelled(s, n), at)
    ensures places != [] ==> places[|places| - 1] < n && (places[|places| - 1] == n - 1 <==> Wordlike(s[n - 1]))
  {
    hide Wordlike, Places, Spells;
    if n == 0 {
      places, at := [], [];
      NoPlaces(s, Wordlike);
      NothingSpelled(s);
    } else {
      places, at := SpelledAt(s, n - 1);
      PlacesNext(s, Wordlike, places, n - 1);
      if Wordlike(s[n - 1]) {
        SpellsNext(s, n - 1, places, at);
        places, at := places + [n - 1], at + [|Spelled(s, n)| - 1];
      }
    }
  }

  lemma {:induction false} NothingSpelled(s: string)
    ensures Spells(s, [], Spelled(s, 0), [])
  {
  }

  // ---------------------------------------------------------------- lower alpha

  ghost predicate Copied(s: string, places: seq<nat>, w: string) {
    |w| == |places| && forall j :: 0 <= j < |w| ==> places[j] < |s| && w[j] == Lowered(s[places[j]])
  }

  /** A lower-alphabetic base has exactly the letters of the name, lowered and in order, or is "field". */
  lemma {:induction false} AlphaSpells(s: string) returns (places: seq<nat>)
    ensures Places(s, Alphabetic, places, |s|)
    ensures if places == [] then AlphaBase(s) == "field" else Copied(s, places, AlphaBase(s))
  {
    places := LettersAt(s, |s|);
    assert s[..|s|] == s;
  }

  lemma {:induction false} LettersNext(s: string, n: nat)
    requires n < |s|
    ensures Letters(s[..n + 1]) == Letters(s[..n]) + if Alphabetic(s[n]) then [Lowered(s[n])] else []
  {
    KeptChar(s[n]);
    assert s[..n + 1][..n] == s[..n];
  }

  lemma {:induction false} CopiedNext(s: string, places: seq<nat>, w: string, n: nat)
    requires n < |s| && Copied(s, places, w)
    ensures Copied(s, places + [n], w + [Lowered(s[n])])
  {
    hide Lowered;
  }

  lemma {:induction false} LettersAt(s: string, n: nat) returns (places: seq<nat>)
    requires n <= |s|
    ensures Places(s, Alphabetic, places, n) && Copied(s, places, Letters(s[..n]))
  {
    if n == 0 {
      places := [];
      assert s[..0] == "";
      NoPlaces(s, Alphabetic);
    } else {
      hide Lowered, Alphabetic, Letters, Places, Copied;
      places := LettersAt(s, n - 1);
      LettersNext(s, n - 1);
      PlacesNext(s, Alphabetic, places, n - 1);
      CopiedNext(s, places, Letters(s[..n - 1]), n - 1);
      if Alphabetic(s[n - 1]) { places := places + [n - 1]; }
    }
  }
}
