/** Lexicographic order on names, and sorting by it. */
module NameOrder {
  import opened Basics

  /** `a` comes before `b`, or is `b`, in byte order. */
  predicate Below(a: string, b: string) {
    a == "" || (b != "" && (a[0] < b[0] || (a[0] == b[0] && Below(a[1..], b[1..]))))
  }

  lemma {:induction false} BelowTotal(a: string, b: string)
    ensures Below(a, b) || Below(b, a)
  {
    if a != "" && b != "" && a[0] == b[0] { BelowTotal(a[1..], b[1..]); }
  }

  lemma {:induction false} BelowAntisymmetric(a: string, b: string)
    requires Below(a, b) && Below(b, a)
    ensures a == b
  {
    if a != "" {
      BelowAntisymmetric(a[1..], b[1..]);
      assert a == [a[0]] + a[1..] && b == [b[0]] + b[1..];
    }
  }

  lemma {:induction false} BelowTransitive(a: string, b: string, c: string)
    requires Below(a, b) && Below(b, c)
    ensures Below(a, c)
  {
    if a != "" && a[0] == b[0] == c[0] { BelowTransitive(a[1..], b[1..], c[1..]); }
  }

  predicate DiffersAt(a: string, b: string, k: nat) {
    k < |a| && k < |b| && a[..k] == b[..k] && a[k] < b[k]
  }

  /** One name comes before another where they first differ, or where it ends. */
  lemma {:induction false} BelowAtDifference(a: string, b: string)
    ensures Below(a, b) <==> a <= b || exists k: nat :: DiffersAt(a, b, k)
  {
    hide DiffersAt;
    if a != "" && b != "" {
      DiffersFirst(a, b);
      if a[0] == b[0] {
        BelowAtDifference(a[1..], b[1..]);
        assert a == [a[0]] + a[1..] && b == [b[0]] + b[1..];
        if k: nat :| DiffersAt(a, b, k) { DiffersLater(a, b, k - 1); }
        if k: nat :| DiffersAt(a[1..], b[1..], k) { DiffersLater(a, b, k); }
      }
    } else {
      NoDifference(a, b);
    }
  }

  lemma {:induction false} DiffersFirst(a: string, b: string)
    requires a != "" && b != ""
    ensures DiffersAt(a, b, 0) <==> a[0] < b[0]
    ensures forall k: nat :: k > 0 && DiffersAt(a, b, k) ==> a[0] == b[0]
  {
    forall k: nat | k > 0 && DiffersAt(a, b, k) ensures a[0] == b[0] { assert a[..k][0] == b[..k][0]; }
  }

  lemma {:induction false} DiffersLater(a: string, b: string, k: nat)
    requires a != "" && b != "" && a[0] == b[0]
    ensures DiffersAt(a[1..], b[1..], k) <==> DiffersAt(a, b, k + 1)
  {
    if k + 1 < |a| && k + 1 < |b| {
      assert a[..k + 1] == [a[0]] + a[1..][..k] && b[..k + 1] == [b[0]] + b[1..][..k];
    }
  }

  lemma {:induction false} NoDifference(a: string, b: string)
    requires a == "" || b == ""
    ensures forall k: nat :: !DiffersAt(a, b, k)
  {
  }

  predicate Ascending(s: seq<string>) {
    forall j, k :: 0 <= j < k < |s| ==> Below(s[j], s[k])
  }

  lemma {:induction false} AscendsFrom(x: string, s: seq<string>)
    requires Ascending(s) && s != [] && Below(x, s[0])
    ensures Ascending([x] + s)
  {
    hide Below;
    forall k | 0 < k < |s| ensures Below(x, s[k]) { BelowTransitive(x, s[0], s[k]); }
  }

  lemma {:induction false} AscendsPast(x: string, s: seq<string>, rest: seq<string>)
    requires Ascending(s) && s != [] && !Below(x, s[0])
    requires Ascending(rest) && multiset(rest) == multiset(s[1..]) + multiset{x}
    ensures Ascending([s[0]] + rest) && multiset([s[0]] + rest) == multiset(s) + multiset{x}
  {
    hide Below;
    BelowTotal(x, s[0]);
    assert s == [s[0]] + s[1..];
    forall k | 0 <= k < |rest| ensures Below(s[0], rest[k]) {
      assert rest[k] in multiset(rest);
      if rest[k] != x {
        assert rest[k] in multiset(s[1..]);
        var j :| 0 <= j < |s| - 1 && s[1..][j] == rest[k];
        assert s[j + 1] == rest[k];
      }
    }
  }

  function Insert(x: string, s: seq<string>): (r: seq<string>)
    requires Ascending(s)
    ensures Ascending(r) && multiset(r) == multiset(s) + multiset{x}
  {
    if s == [] then [x]
    else if Below(x, s[0]) then
      AscendsFrom(x, s);
      [x] + s
    else
      var rest := Insert(x, s[1..]);
      AscendsPast(x, s, rest);
      [s[0]] + rest
  }

  /** The names in ascending order, each as often as before. */
  function Sort(s: seq<string>): (r: seq<string>)
    ensures Ascending(r) && multiset(r) == multiset(s) && |r| == |s|
    ensures forall x :: x in r <==> x in s
  {
    if s == [] then []
    else
      var r := Insert(s[0], Sort(s[1..]));
      assert s == [s[0]] + s[1..];
      assert |r| == |multiset(r)| == |multiset(s)| == |s|;
      assert forall x :: x in r <==> x in multiset(r);
      r
  }

  lemma {:induction false} DistinctCounts(s: seq<string>)
    ensures Distinct(s) <==> forall x :: multiset(s)[x] <= 1
  {
    if s != [] {
      DistinctCounts(s[1..]);
      assert s == [s[0]] + s[1..];
      assert Distinct(s) <==> s[0] !in s[1..] && Distinct(s[1..]);
      assert forall x :: multiset(s)[x] == multiset(s[1..])[x] + if x == s[0] then 1 else 0;
      assert s[0] in s[1..] <==> multiset(s)[s[0]] > 1;
    }
  }

  lemma {:induction false} SortDistinct(s: seq<string>)
    requires Distinct(s)
    ensures Distinct(Sort(s))
  {
    DistinctCounts(s);
    DistinctCounts(Sort(s));
  }

  /** Ascending lists of distinct names with the same members are the same list. */
  lemma {:induction false} AscendingUnique(a: seq<string>, b: seq<string>)
    requires Ascending(a) && Ascending(b) && Distinct(a) && Distinct(b)
    requires forall x :: x in a <==> x in b
    ensures a == b
  {
    if a == [] {
      SomeMember(b);
    } else {
      assert a[0] in a && a[0] in b;
      assert b[0] in b && b[0] in a;
      BelowFirst(a, b[0]);
      BelowFirst(b, a[0]);
      BelowAntisymmetric(a[0], b[0]);
      forall x ensures x in a[1..] <==> x in b[1..] {
        assert x in a <==> x == a[0] || x in a[1..];
        assert x in b <==> x == b[0] || x in b[1..];
      }
      AscendingUnique(a[1..], b[1..]);
      assert a == [a[0]] + a[1..] && b == [b[0]] + b[1..];
    }
  }

  lemma {:induction false} SomeMember(s: seq<string>)
    ensures s != [] ==> exists x :: x in s
  {
    if s != [] { assert s[0] in s; }
  }

  lemma {:induction false} BelowFirst(a: seq<string>, x: string)
    requires Ascending(a) && x in a
    ensures Below(a[0], x)
  {
    var k :| 0 <= k < |a| && a[k] == x;
    if k == 0 { BelowTotal(x, x); }
  }

  lemma {:induction false} SortUnique(s: seq<string>, r: seq<string>)
    requires Distinct(s) && Distinct(r) && forall x :: x in s <==> x in r
    ensures Sort(s) == Sort(r)
  {
    SortDistinct(s);
    SortDistinct(r);
    AscendingUnique(Sort(s), Sort(r));
  }

  /** Distinct lists with the same members are rearrangements of one another. */
  lemma {:induction false} SameCounts(a: seq<string>, b: seq<string>)
    requires Distinct(a) && Distinct(b) && forall x :: x in a <==> x in b
    ensures multiset(a) == multiset(b)
  {
    DistinctCounts(a);
    DistinctCounts(b);
    forall x ensures multiset(a)[x] == multiset(b)[x] {
      assert (x in a <==> x in multiset(a)) && (x in b <==> x in multiset(b));
    }
  }
}
