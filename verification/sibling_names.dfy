/** Cleaning the names of sibling fields together, so that no two come out equal. */
module SiblingNames {
  import opened Basics
  import opened NameOrder
  import opened NameCleaning
  import opened Rearrangement

  const INITIAL_SUFFIX_LENGTH: nat := 6
  const MAX_SUFFIX_LENGTH: nat := 16

  // ---------------------------------------------------------- one name's choice

  /** Longer suffixes are tried while the candidate is taken. */
  function Probe(hash: string -> nat, used: set<string>, dirty: string, base: string, candidate: string,
                 length: nat): string
    decreases MAX_SUFFIX_LENGTH + 1 - length
  {
    if candidate in used && length <= MAX_SUFFIX_LENGTH
    then Probe(hash, used, dirty, base, WithSuffix(hash, dirty, base, length), length + 1)
    else candidate
  }

  /** The taken names at least as long as a candidate: fewer with every letter of padding. */
  ghost function AsLong(used: set<string>, candidate: string): set<string> {
    set u | u in used && |u| >= |candidate|
  }

  function Pad(used: set<string>, candidate: string): (r: string)
    ensures r !in used && candidate <= r && forall j :: |candidate| <= j < |r| ==> r[j] == 'z'
    decreases AsLong(used, candidate)
  {
    if candidate in used then
      assert candidate in AsLong(used, candidate) && candidate !in AsLong(used, candidate + "z");
      Pad(used, candidate + "z")
    else candidate
  }

  /** The name a field gets when `used` are taken; `crowded` when several siblings share its base. */
  function Chosen(hash: string -> nat, used: set<string>, dirty: string, base: string, crowded: bool): (r: string)
    ensures r !in used
  {
    var first := if crowded then WithSuffix(hash, dirty, base, INITIAL_SUFFIX_LENGTH) else base;
    Pad(used, Probe(hash, used, dirty, base, first, INITIAL_SUFFIX_LENGTH))
  }

  /** The chosen name is the base followed by letters. */
  ghost predicate Lengthens(base: string, r: string) {
    base <= r && forall j :: |base| <= j < |r| ==> Letter(r[j])
  }

  lemma {:induction false} SuffixLengthens(hash: string -> nat, dirty: string, base: string, length: nat)
    ensures Lengthens(base, WithSuffix(hash, dirty, base, length))
  {
    SuffixLetters(hash, hash(dirty), "", length);
    var suffix := Suffix(hash, hash(dirty), "", length);
    assert forall j :: |base| <= j < |base + suffix| ==> (base + suffix)[j] == suffix[j - |base|];
  }

  lemma {:induction false} ProbeLengthens(hash: string -> nat, used: set<string>, dirty: string, base: string,
                                          candidate: string, length: nat)
    requires Lengthens(base, candidate)
    ensures Lengthens(base, Probe(hash, used, dirty, base, candidate, length))
    decreases MAX_SUFFIX_LENGTH + 1 - length
  {
    if candidate in used && length <= MAX_SUFFIX_LENGTH {
      SuffixLengthens(hash, dirty, base, length);
      ProbeLengthens(hash, used, dirty, base, WithSuffix(hash, dirty, base, length), length + 1);
    }
  }

  lemma {:induction false} ChosenLengthens(hash: string -> nat, used: set<string>, dirty: string, base: string,
                                           crowded: bool)
    ensures Lengthens(base, Chosen(hash, used, dirty, base, crowded))
  {
    SuffixLengthens(hash, dirty, base, INITIAL_SUFFIX_LENGTH);
    var first := if crowded then WithSuffix(hash, dirty, base, INITIAL_SUFFIX_LENGTH) else base;
    ProbeLengthens(hash, used, dirty, base, first, INITIAL_SUFFIX_LENGTH);
  }

  // -------------------------------------------------------- all names, in order

  function Bases(options: Options, names: seq<string>): (r: seq<string>)
    ensures |r| == |names|
    ensures forall k :: 0 <= k < |names| ==> r[k] == CleanBase(options, names[k])
  {
    seq(|names|, k requires 0 <= k < |names| => CleanBase(options, names[k]))
  }

  predicate Crowded(bases: multiset<string>, base: string) {
    bases[base] > 1
  }

  function Members(s: seq<string>): set<string> {
    set x | x in s
  }

  /** The names chosen for the first `k` of an ordered list, each avoiding those before it. */
  function Choices(hash: string -> nat, options: Options, bases: multiset<string>, ordered: seq<string>,
                   k: nat): (r: seq<string>)
    requires k <= |ordered|
    ensures |r| == k
  {
    if k == 0 then []
    else
      var before := Choices(hash, options, bases, ordered, k - 1);
      var base := CleanBase(options, ordered[k - 1]);
      before + [Chosen(hash, Members(before), ordered[k - 1], base, Crowded(bases, base))]
  }

  lemma {:induction false} ChoicesGrow(hash: string -> nat, options: Options, bases: multiset<string>,
                                       ordered: seq<string>, j: nat, k: nat)
    requires j <= k <= |ordered|
    ensures Choices(hash, options, bases, ordered, j) <= Choices(hash, options, bases, ordered, k)
    decreases k
  {
    hide Chosen, CleanBase, Members, Crowded;
    if j < k { ChoicesGrow(hash, options, bases, ordered, j, k - 1); }
  }

  lemma {:induction false} ChoicesDistinct(hash: string -> nat, options: Options, bases: multiset<string>,
                                           ordered: seq<string>, k: nat)
    requires k <= |ordered|
    ensures Distinct(Choices(hash, options, bases, ordered, k))
  {
    hide Chosen, CleanBase, Crowded;
    if k > 0 {
      ChoicesDistinct(hash, options, bases, ordered, k - 1);
      var before, all := Choices(hash, options, bases, ordered, k - 1), Choices(hash, options, bases, ordered, k);
      assert all[k - 1] !in Members(before);
      assert forall j :: 0 <= j < k - 1 ==> all[j] == before[j] && before[j] in Members(before);
    }
  }

  lemma {:induction false} ChoiceLengthens(hash: string -> nat, options: Options, bases: multiset<string>,
                                           ordered: seq<string>, j: nat)
    requires j < |ordered|
    ensures Lengthens(CleanBase(options, ordered[j]), Choices(hash, options, bases, ordered, |ordered|)[j])
  {
    ChoicesGrow(hash, options, bases, ordered, j + 1, |ordered|);
    var base := CleanBase(options, ordered[j]);
    ChosenLengthens(hash, Members(Choices(hash, options, bases, ordered, j)), ordered[j], base, Crowded(bases, base));
  }

  // -------------------------------------------------------------- sorted order

  /** Puts index `i` after every index whose name is not above its own. */
  function Place(names: seq<string>, i: nat, order: seq<nat>): seq<nat>
    requires i < |names| && forall k :: 0 <= k < |order| ==> order[k] < |names|
  {
    if order == [] || Below(names[order[|order| - 1]], names[i]) then order + [i]
    else Place(names, i, order[..|order| - 1]) + [order[|order| - 1]]
  }

  /** The first `n` indices by name, and by position where names are equal. */
  function Order(names: seq<string>, n: nat): (r: seq<nat>)
    requires n <= |names|
    ensures |r| == n && forall k :: 0 <= k < n ==> r[k] < n
  {
    if n == 0 then [] else
    PlaceHolds(names, n - 1, Order(names, n - 1));
    Place(names, n - 1, Order(names, n - 1))
  }

  lemma {:induction false} PlaceHolds(names: seq<string>, i: nat, order: seq<nat>)
    requires i < |names| && forall k :: 0 <= k < |order| ==> order[k] < i
    ensures |Place(names, i, order)| == |order| + 1
    ensures forall k :: 0 <= k <= |order| ==> Place(names, i, order)[k] <= i
    ensures forall x :: x in Place(names, i, order) <==> x == i || x in order
  {
    if order != [] && !Below(names[order[|order| - 1]], names[i]) {
      PlaceHolds(names, i, order[..|order| - 1]);
      assert order == order[..|order| - 1] + [order[|order| - 1]];
    }
  }

  lemma {:induction false} AscendsTo(s: seq<string>, x: string)
    requires Ascending(s) && forall k :: 0 <= k < |s| ==> Below(s[k], x)
    ensures Ascending(s + [x])
  {
  }

  lemma {:induction false} PlaceSorts(names: seq<string>, i: nat, order: seq<nat>)
    requires i < |names| && forall k :: 0 <= k < |order| ==> order[k] < i
    requires Ascending(Through(names, order))
    ensures forall k :: 0 <= k < |Place(names, i, order)| ==> Place(names, i, order)[k] < |names|
    ensures Ascending(Through(names, Place(names, i, order)))
  {
    hide Below;
    PlaceHolds(names, i, order);
    if order == [] {
    } else {
      var n, read := |order| - 1, Through(names, order);
      var last := read[n];
      if Below(last, names[i]) {
        forall k | 0 <= k < n ensures Below(read[k], names[i]) { BelowTransitive(read[k], last, names[i]); }
        AscendsTo(read, names[i]);
        assert Through(names, order + [i]) == read + [names[i]];
      } else {
        assert Through(names, order[..n]) == read[..n];
        PlaceSorts(names, i, order[..n]);
        var rest := Place(names, i, order[..n]);
        PlaceBelow(names, i, order[..n], last);
        AscendsTo(Through(names, rest), last);
        assert Through(names, rest + [order[n]]) == Through(names, rest) + [last];
      }
    }
  }

  lemma {:induction false} PlaceBelow(names: seq<string>, i: nat, order: seq<nat>, last: string)
    requires i < |names| && forall k :: 0 <= k < |order| ==> order[k] < i
    requires !Below(last, names[i]) && forall k :: 0 <= k < |order| ==> Below(names[order[k]], last)
    ensures forall k :: 0 <= k < |Place(names, i, order)| ==>
              Place(names, i, order)[k] < |names| && Below(names[Place(names, i, order)[k]], last)
  {
    hide Below;
    PlaceHolds(names, i, order);
    BelowTotal(last, names[i]);
    var placed := Place(names, i, order);
    forall k | 0 <= k < |placed| ensures placed[k] < |names| && Below(names[placed[k]], last) {
      assert placed[k] in placed;
    }
  }

  lemma {:induction false} PlaceOnce(names: seq<string>, i: nat, order: seq<nat>)
    requires i < |names| && Distinct(order) && forall k :: 0 <= k < |order| ==> order[k] < i
    ensures Distinct(Place(names, i, order))
  {
    if order != [] && !Below(names[order[|order| - 1]], names[i]) {
      var n := |order| - 1;
      PlaceOnce(names, i, order[..n]);
      PlaceHolds(names, i, order[..n]);
      var rest := Place(names, i, order[..n]);
      forall k | 0 <= k < |rest| ensures rest[k] != order[n] { assert rest[k] in rest; }
    }
  }

  lemma {:induction false} OrderSorts(names: seq<string>, n: nat)
    requires n <= |names|
    ensures Ascending(Through(names, Order(names, n))) && Distinct(Order(names, n))
    ensures forall i :: 0 <= i < n <==> i in Order(names, n)
  {
    hide Place, Ascending, Distinct;
    if n == 0 {
      NothingSorted(names);
    } else {
      var order := Order(names, n - 1);
      OrderSorts(names, n - 1);
      PlaceSorts(names, n - 1, order);
      PlaceOnce(names, n - 1, order);
      PlaceHolds(names, n - 1, order);
      assert Order(names, n) == Place(names, n - 1, order);
    }
  }

  lemma {:induction false} NothingSorted(names: seq<string>)
    ensures Ascending(Through(names, [])) && Distinct<nat>([])
  {
  }

  // ------------------------------------------------------------- the whole list

  function Position(order: seq<nat>, i: nat): (p: nat)
    requires i in order
    ensures p < |order| && order[p] == i
  {
    if order[|order| - 1] == i then |order| - 1 else
    assert order == order[..|order| - 1] + [order[|order| - 1]];
    Position(order[..|order| - 1], i)
  }

  function Sorted(names: seq<string>): (r: seq<string>)
    ensures |r| == |names|
  {
    Through(names, Order(names, |names|))
  }

  /** Every sibling's final name, at its own position. */
  function Cleaned(hash: string -> nat, options: Options, names: seq<string>): (r: seq<string>)
    ensures |r| == |names|
  {
    if options.policy == Preserve then names
    else
      var order := Order(names, |names|);
      var choices := Choices(hash, options, multiset(Bases(options, names)), Sorted(names), |names|);
      OrderSorts(names, |names|);
      seq(|names|, i requires 0 <= i < |names| => choices[Position(order, i)])
  }

  lemma {:induction false} CleanedAt(hash: string -> nat, options: Options, names: seq<string>, k: nat)
    requires options.policy != Preserve && k < |names|
    ensures Cleaned(hash, options, names)[Order(names, |names|)[k]]
            == Choices(hash, options, multiset(Bases(options, names)), Sorted(names), |names|)[k]
  {
    hide Choices;
    OrderSorts(names, |names|);
    var order := Order(names, |names|);
    assert Position(order, order[k]) == k;
  }

  /** Sibling names come out pairwise distinct, whatever the hash and even for equal inputs. */
  lemma {:induction false} SiblingsDistinct(hash: string -> nat, options: Options, names: seq<string>)
    requires options.policy != Preserve
    ensures Distinct(Cleaned(hash, options, names))
  {
    hide Choices;
    OrderSorts(names, |names|);
    ChoicesDistinct(hash, options, multiset(Bases(options, names)), Sorted(names), |names|);
    var order := Order(names, |names|);
    forall i, j | 0 <= i < j < |names| ensures Position(order, i) != Position(order, j) {
      assert i in order && j in order;
    }
  }

  /** Apart from the exempt default key, every name is in the policy's form. */
  lemma {:induction false} SiblingsInAlphabet(hash: string -> nat, options: Options, names: seq<string>, i: nat)
    requires options.policy != Preserve && i < |names|
    ensures names[i] != options.defaultKey ==> InAlphabet(options.policy, Cleaned(hash, options, names)[i])
    ensures Lengthens(CleanBase(options, names[i]), Cleaned(hash, options, names)[i])
  {
    OrderSorts(names, |names|);
    var order := Order(names, |names|);
    assert i in order;
    var k := Position(order, i);
    CleanedAt(hash, options, names, k);
    ChoiceLengthens(hash, options, multiset(Bases(options, names)), Sorted(names), k);
    var base, r := CleanBase(options, names[i]), Cleaned(hash, options, names)[i];
    if names[i] != options.defaultKey {
      LettersStayInAlphabet(options.policy, base, r[|base|..]);
      assert base + r[|base|..] == r;
    }
  }

  lemma {:induction false} SortedCanonical(a: seq<string>, b: seq<string>)
    requires Distinct(a) && Distinct(b) && forall x :: x in a <==> x in b
    ensures Sorted(a) == Sorted(b) && Distinct(Sorted(a))
  {
    SortedHolds(a);
    SortedHolds(b);
    AscendingUnique(Sorted(a), Sorted(b));
  }

  lemma {:induction false} SortedMember(a: seq<string>, x: string)
    ensures x in Sorted(a) <==> x in a
  {
    OrderSorts(a, |a|);
    hide Order, Below;
    if x in a {
      var i :| 0 <= i < |a| && a[i] == x;
      assert i in Order(a, |a|);
      assert Sorted(a)[Position(Order(a, |a|), i)] == x;
    }
  }

  lemma {:induction false} SortedHolds(a: seq<string>)
    requires Distinct(a)
    ensures Ascending(Sorted(a)) && Distinct(Sorted(a)) && forall x :: x in Sorted(a) <==> x in a
  {
    OrderSorts(a, |a|);
    hide Order, Below;
    forall x ensures x in Sorted(a) <==> x in a { SortedMember(a, x); }
    var order := Order(a, |a|);
    forall j, k | 0 <= j < k < |a| ensures Sorted(a)[j] != Sorted(a)[k] { assert order[j] != order[k]; }
  }

  lemma {:induction false} SkipBases(options: Options, s: seq<string>, k: nat)
    requires k < |s|
    ensures Bases(options, Skip(s, k)) == Skip(Bases(options, s), k)
  {
  }

  /** Rearranged lists have the same bases, counted. */
  lemma {:induction false} BasesCanonical(options: Options, a: seq<string>, b: seq<string>)
    requires multiset(a) == multiset(b)
    ensures multiset(Bases(options, a)) == multiset(Bases(options, b))
    decreases |a|
  {
    hide CleanBase;
    if a == [] {
      assert |b| == |multiset(b)| == 0;
    } else {
      assert a[0] in multiset(b);
      var k :| 0 <= k < |b| && b[k] == a[0];
      SkipCounts(a, 0);
      SkipCounts(b, k);
      assert |Skip(a, 0)| == |multiset(Skip(a, 0))| == |multiset(a)| - 1;
      BasesCanonical(options, Skip(a, 0), Skip(b, k));
      SkipBases(options, a, 0);
      SkipBases(options, b, k);
      SkipCounts(Bases(options, a), 0);
      SkipCounts(Bases(options, b), k);
    }
  }

  /** A sibling's final name is the one chosen at its place in the sorted list. */
  lemma {:induction false} CleanedByName(hash: string -> nat, options: Options, names: seq<string>, i: nat)
    returns (k: nat)
    requires options.policy != Preserve && i < |names|
    ensures k < |names| && Sorted(names)[k] == names[i]
    ensures Cleaned(hash, options, names)[i]
            == Choices(hash, options, multiset(Bases(options, names)), Sorted(names), |names|)[k]
  {
    hide Choices;
    OrderSorts(names, |names|);
    assert i in Order(names, |names|);
    k := Position(Order(names, |names|), i);
  }

  ghost predicate SameMembers(a: seq<string>, b: seq<string>) {
    forall x :: x in a <==> x in b
  }

  lemma {:induction false} Canonical(options: Options, a: seq<string>, b: seq<string>)
    requires Distinct(a) && Distinct(b) && SameMembers(a, b)
    ensures |a| == |b| && Sorted(a) == Sorted(b) && Distinct(Sorted(a))
    ensures multiset(Bases(options, a)) == multiset(Bases(options, b))
  {
    hide Sorted;
    SortedCanonical(a, b);
    assert |a| == |Sorted(a)| == |Sorted(b)| == |b|;
    SameCounts(a, b);
    BasesCanonical(options, a, b);
  }

  /** For distinct inputs, rearranging the siblings rearranges their final names the same way. */
  lemma {:induction false} Equivariant(hash: string -> nat, options: Options, a: seq<string>, b: seq<string>, i: nat,
                                       j: nat)
    requires Distinct(a) && Distinct(b) && SameMembers(a, b)
    requires i < |a| && j < |b| && a[i] == b[j]
    ensures Cleaned(hash, options, a)[i] == Cleaned(hash, options, b)[j]
  {
    if options.policy != Preserve {
      hide Choices, Sorted, Cleaned, SameMembers;
      Canonical(options, a, b);
      var k := CleanedByName(hash, options, a, i);
      var m := CleanedByName(hash, options, b, j);
    }
  }

  // -------------------------------------------------------------- the fast path

  lemma {:induction false} BaseChosen(hash: string -> nat, used: set<string>, dirty: string, base: string)
    requires base !in used
    ensures Chosen(hash, used, dirty, base, false) == base
  {
  }

  lemma {:induction false} UncrowdedChoices(hash: string -> nat, options: Options, bases: multiset<string>,
                                            ordered: seq<string>, k: nat)
    requires k <= |ordered| && Distinct(Bases(options, ordered))
    requires forall x :: bases[x] <= 1
    ensures Choices(hash, options, bases, ordered, k) == Bases(options, ordered)[..k]
  {
    hide CleanBase, Chosen;
    if k > 0 {
      UncrowdedChoices(hash, options, bases, ordered, k - 1);
      var all, before := Bases(options, ordered), Choices(hash, options, bases, ordered, k - 1);
      var base := CleanBase(options, ordered[k - 1]);
      assert base !in before;
      BaseChosen(hash, Members(before), ordered[k - 1], base);
      assert all[..k] == all[..k - 1] + [base];
    }
  }

  /** When no two bases are equal, every sibling keeps its base. */
  lemma {:induction false} DistinctBasesKept(hash: string -> nat, options: Options, names: seq<string>)
    requires options.policy != Preserve && Distinct(Bases(options, names))
    ensures Cleaned(hash, options, names) == Bases(options, names)
  {
    hide Choices, Order, Cleaned, Ascending, CleanBase;
    var bases, ordered := Bases(options, names), Sorted(names);
    DistinctCounts(bases);
    OrderSorts(names, |names|);
    var order := Order(names, |names|);
    SortedBases(options, names);
    UncrowdedChoices(hash, options, multiset(bases), ordered, |names|);
    forall i | 0 <= i < |names| ensures Cleaned(hash, options, names)[i] == bases[i] {
      assert i in order;
      CleanedAt(hash, options, names, Position(order, i));
    }
  }

  lemma {:induction false} SortedBases(options: Options, names: seq<string>)
    requires Distinct(Bases(options, names))
    ensures Distinct(Bases(options, Sorted(names)))
  {
    hide Order, Ascending, CleanBase;
    var bases, ordered, order := Bases(options, names), Sorted(names), Order(names, |names|);
    OrderSorts(names, |names|);
    forall j, k | 0 <= j < k < |names| ensures Bases(options, ordered)[j] != Bases(options, ordered)[k] {
      assert order[j] != order[k] && bases[order[j]] != bases[order[k]];
    }
  }
}
