/** Which name every sibling gets: in name order, the first of its candidates that no earlier sibling has. */
module NameChoices {
  import opened Basics
  import opened NameOrder
  import opened NameCleaning
  import opened SiblingNames
  import opened SchemaNames
  import opened ReservedNames
  import opened Rearrangement

  // -------------------------------------------------------- letters of a suffix

  /** A number in base 26 with the letters as digits, the lowest digit first. */
  function Numeral(value: nat): (w: string) {
    [('a' as int + value % 26) as char] + if value < 26 then "" else Numeral(value / 26)
  }

  function ValueOf(w: string): nat
    requires forall j :: 0 <= j < |w| ==> Letter(w[j])
  {
    if w == "" then 0
    else
      assert Letter(w[0]);
      w[0] as int - 'a' as int + 26 * ValueOf(w[1..])
  }

  /** The numeral of a value is the only word of letters that has it and does not end in a needless zero. */
  lemma {:induction false} NumeralIs(value: nat, w: string)
    requires w != "" && forall j :: 0 <= j < |w| ==> Letter(w[j])
    ensures w == Numeral(value) <==> ValueOf(w) == value && (|w| > 1 ==> w[|w| - 1] != 'a')
  {
    var digit, rest := w[0] as int - 'a' as int, w[1..];
    assert w == [w[0]] + rest;
    if rest == "" {
      assert ValueOf(w) == digit;
    } else {
      assert forall j :: 0 <= j < |rest| ==> rest[j] == w[j + 1];
      NumeralIs(value / 26, rest);
      assert ValueOf(w) == digit + 26 * ValueOf(rest);
      if |rest| > 1 || rest[0] != 'a' { HighDigit(rest); }
    }
  }

  /** A word that does not end in a zero is not zero. */
  lemma {:induction false} HighDigit(w: string)
    requires w != "" && forall j :: 0 <= j < |w| ==> Letter(w[j])
    ensures w[|w| - 1] != 'a' ==> ValueOf(w) > 0
  {
    if |w| > 1 { HighDigit(w[1..]); }
  }

  /** A suffix is the numeral of the name's hash, cut off where it is long enough; otherwise the numeral of the hash
      of the suffix so far goes on. */
  lemma {:induction false} SuffixByNumerals(hash: string -> nat, seed: nat, sofar: string, n: nat)
    ensures var w := Numeral(seed);
            Suffix(hash, seed, sofar, n) ==
            if n <= |w| then sofar + w[..n] else Suffix(hash, hash(sofar + w), sofar + w, n - |w|)
    decreases n
  {
    hide Suffix, Numeral;
    SuffixStep(hash, seed, sofar, n);
    var w, next, rest := Numeral(seed), sofar + Numeral(seed)[..1], Numeral(seed / 26);
    if n == 0 {
      assert sofar + w[..0] == sofar;
    } else if seed < 26 {
      assert w[..1] == w;
      SuffixStep(hash, hash(next), next, n - 1);
    } else {
      SuffixByNumerals(hash, seed / 26, next, n - 1);
      assert next + rest == sofar + w;
      if n <= |w| { assert next + rest[..n - 1] == sofar + w[..n]; }
    }
  }

  lemma {:induction false} SuffixStep(hash: string -> nat, seed: nat, sofar: string, n: nat)
    ensures var w := Numeral(seed);
            && w != "" && w == w[..1] + (if seed < 26 then "" else Numeral(seed / 26))
            && var next := sofar + w[..1];
            Suffix(hash, seed, sofar, n) ==
            if n == 0 then sofar else Suffix(hash, if seed < 26 then hash(next) else seed / 26, next, n - 1)
  {
    var w := Numeral(seed);
    assert w[..1] == [('a' as int + seed % 26) as char];
  }

  // ------------------------------------------------------------------ candidates

  /** The base, then the base with longer and longer suffixes, then the longest one padded. */
  function Candidate(hash: string -> nat, dirty: string, base: string, rank: nat): string {
    if rank < INITIAL_SUFFIX_LENGTH then base
    else if rank <= MAX_SUFFIX_LENGTH then WithSuffix(hash, dirty, base, rank)
    else Candidate(hash, dirty, base, rank - 1) + "z"
  }

  /** A base that siblings share is no candidate. */
  predicate Tried(crowded: bool, rank: nat) {
    rank >= INITIAL_SUFFIX_LENGTH || (rank == 0 && !crowded)
  }

  ghost predicate TakenBelow(hash: string -> nat, used: set<string>, dirty: string, base: string, crowded: bool,
                             rank: nat) {
    forall k: nat :: k < rank && Tried(crowded, k) ==> Candidate(hash, dirty, base, k) in used
  }

  lemma {:induction false} ProbeFirst(hash: string -> nat, used: set<string>, dirty: string, base: string,
                                      crowded: bool, p: nat, length: nat)
    returns (rank: nat)
    requires Tried(crowded, p) && TakenBelow(hash, used, dirty, base, crowded, p)
    requires INITIAL_SUFFIX_LENGTH <= length <= MAX_SUFFIX_LENGTH + 1
    requires p == length - 1 || (length == INITIAL_SUFFIX_LENGTH && p in {0, length})
    ensures p <= rank && Tried(crowded, rank) && TakenBelow(hash, used, dirty, base, crowded, rank)
    ensures var r := Probe(hash, used, dirty, base, Candidate(hash, dirty, base, p), length);
            r == Candidate(hash, dirty, base, rank) && (r !in used || rank == MAX_SUFFIX_LENGTH)
    decreases MAX_SUFFIX_LENGTH + 1 - length
  {
    hide WithSuffix;
    if Candidate(hash, dirty, base, p) in used && length <= MAX_SUFFIX_LENGTH {
      rank := ProbeFirst(hash, used, dirty, base, crowded, length, length + 1);
    } else {
      rank := p;
    }
  }

  lemma {:induction false} PadFirst(hash: string -> nat, used: set<string>, dirty: string, base: string,
                                    crowded: bool, p: nat)
    returns (rank: nat)
    requires Tried(crowded, p) && TakenBelow(hash, used, dirty, base, crowded, p)
    requires Candidate(hash, dirty, base, p) !in used || p >= MAX_SUFFIX_LENGTH
    ensures Tried(crowded, rank) && TakenBelow(hash, used, dirty, base, crowded, rank)
    ensures Pad(used, Candidate(hash, dirty, base, p)) == Candidate(hash, dirty, base, rank)
    decreases AsLong(used, Candidate(hash, dirty, base, p))
  {
    hide WithSuffix;
    var candidate := Candidate(hash, dirty, base, p);
    if candidate in used {
      assert Candidate(hash, dirty, base, p + 1) == candidate + "z";
      assert candidate in AsLong(used, candidate) && candidate !in AsLong(used, candidate + "z");
      rank := PadFirst(hash, used, dirty, base, crowded, p + 1);
    } else {
      rank := p;
    }
  }

  /** The chosen name is the first candidate that is not taken. */
  lemma {:induction false} ChosenIsFirstFree(hash: string -> nat, used: set<string>, dirty: string, base: string,
                                             crowded: bool)
    returns (rank: nat)
    ensures Tried(crowded, rank) && TakenBelow(hash, used, dirty, base, crowded, rank)
    ensures Chosen(hash, used, dirty, base, crowded) == Candidate(hash, dirty, base, rank)
  {
    hide WithSuffix, Pad, Probe;
    var p := if crowded then INITIAL_SUFFIX_LENGTH else 0;
    rank := ProbeFirst(hash, used, dirty, base, crowded, p, INITIAL_SUFFIX_LENGTH);
    rank := PadFirst(hash, used, dirty, base, crowded, rank);
  }

  // ------------------------------------------------------------------- the order

  /** Sibling `j` gets its name before sibling `i`: by name, and by position where names are equal. */
  predicate Before(names: seq<string>, j: nat, i: nat)
    requires i < |names| && j < |names|
  {
    if names[j] == names[i] then j < i else Below(names[j], names[i])
  }

  ghost predicate InOrder(names: seq<string>, order: seq<nat>) {
    && (forall k :: 0 <= k < |order| ==> order[k] < |names|)
    && forall p, q :: 0 <= p < q < |order| ==> Before(names, order[p], order[q])
  }

  lemma {:induction false} BeforeOnce(names: seq<string>, j: nat, i: nat)
    requires i < |names| && j < |names| && i != j
    ensures Before(names, j, i) <==> !Before(names, i, j)
  {
    BelowTotal(names[i], names[j]);
    if Below(names[i], names[j]) && Below(names[j], names[i]) { BelowAntisymmetric(names[i], names[j]); }
  }

  /** Names are handed out in that order. */
  lemma {:induction false} OrderIs(names: seq<string>, n: nat)
    requires n <= |names|
    ensures InOrder(names, Order(names, n))
  {
    hide Below, Place;
    var order := Order(names, n);
    OrderSorts(names, n);
    forall p, q | 0 <= p < q < n ensures Before(names, order[p], order[q]) {
      var read := Through(names, order);
      assert Below(read[p], read[q]);
      if names[order[p]] == names[order[q]] { OrderStable(names, n, p, q); }
    }
  }

  lemma {:induction false} OrderStable(names: seq<string>, n: nat, p: nat, q: nat)
    requires n <= |names| && p < q < n && names[Order(names, n)[p]] == names[Order(names, n)[q]]
    ensures Order(names, n)[p] < Order(names, n)[q]
  {
    hide Below, Place, Order;
    var before, order := Order(names, n - 1), Order(names, n);
    var m := OrderSplits(names, n);
    assert q > m ==> order[q] == before[q - 1];
    BelowTotal(names[n - 1], names[n - 1]);
    if p != m && q != m {
      var a, b := if p < m then p else p - 1, if q < m then q else q - 1;
      assert order[p] == before[a] && order[q] == before[b];
      OrderStable(names, n - 1, a, b);
    }
  }

  lemma {:induction false} OrderSplits(names: seq<string>, n: nat) returns (m: nat)
    requires 0 < n <= |names|
    ensures var before := Order(names, n - 1);
            && m <= n - 1 && Order(names, n) == before[..m] + [n - 1] + before[m..]
            && forall k :: m <= k < n - 1 ==> !Below(names[before[k]], names[n - 1])
  {
    hide Below, Place;
    PlaceHolds(names, n - 1, Order(names, n - 1));
    m := PlaceSplits(names, n - 1, Order(names, n - 1));
  }

  /** Placing an index cuts the order where the names begin to be above its own. */
  lemma {:induction false} PlaceSplits(names: seq<string>, i: nat, order: seq<nat>) returns (m: nat)
    requires i < |names| && forall k :: 0 <= k < |order| ==> order[k] < i
    ensures m <= |order| && Place(names, i, order) == order[..m] + [i] + order[m..]
    ensures forall k :: m <= k < |order| ==> !Below(names[order[k]], names[i])
  {
    hide Below;
    if order == [] || Below(names[order[|order| - 1]], names[i]) {
      m := |order|;
    } else {
      var n := |order| - 1;
      m := PlaceSplits(names, i, order[..n]);
      assert order[..n][..m] == order[..m] && order[..n][m..] + [order[n]] == order[m..];
    }
  }

  // ------------------------------------------------------------ every sibling's name

  /** The names of the siblings that come before one. */
  ghost function Earlier(hash: string -> nat, options: Options, names: seq<string>, i: nat): set<string>
    requires i < |names|
  {
    var clean := Cleaned(hash, options, names);
    set j | 0 <= j < |names| && Before(names, j, i) :: clean[j]
  }

  lemma {:induction false} EarlierChosen(hash: string -> nat, options: Options, names: seq<string>, k: nat)
    requires options.policy != Preserve && k < |names|
    ensures var all := Choices(hash, options, multiset(Bases(options, names)), Sorted(names), |names|);
            Members(all[..k]) == Earlier(hash, options, names, Order(names, |names|)[k])
  {
    hide Choices, Cleaned, Before, Order;
    var order, clean := Order(names, |names|), Cleaned(hash, options, names);
    var all := Choices(hash, options, multiset(Bases(options, names)), Sorted(names), |names|);
    var earlier := Earlier(hash, options, names, order[k]);
    OrderIs(names, |names|);
    OrderSorts(names, |names|);
    forall p | 0 <= p < k ensures all[p] in earlier {
      CleanedAt(hash, options, names, p);
      assert Before(names, order[p], order[k]);
    }
    forall j | 0 <= j < |names| && Before(names, j, order[k]) ensures clean[j] in all[..k] {
      assert j in order;
      var p := Position(order, j);
      CleanedAt(hash, options, names, p);
      NotAfter(names, order, p, k);
      assert all[..k][p] == clean[j];
    }
  }

  lemma {:induction false} NotAfter(names: seq<string>, order: seq<nat>, p: nat, k: nat)
    requires InOrder(names, order) && p < |order| && k < |order| && Before(names, order[p], order[k])
    ensures p < k
  {
    hide Below;
    if p > k && order[p] != order[k] { BeforeOnce(names, order[p], order[k]); }
  }

  /** Every sibling gets the first of its candidates that no sibling before it has. */
  lemma {:induction false} NamedExactly(hash: string -> nat, options: Options, names: seq<string>, i: nat)
    returns (rank: nat)
    requires options.policy != Preserve && i < |names|
    ensures var base, crowded := CleanBase(options, names[i]), Shared(options, names, i);
            var earlier := Earlier(hash, options, names, i);
            && Tried(crowded, rank) && TakenBelow(hash, earlier, names[i], base, crowded, rank)
            && Cleaned(hash, options, names)[i] == Candidate(hash, names[i], base, rank)
            && Cleaned(hash, options, names)[i] !in earlier
  {
    hide Chosen, Choices, Cleaned, Earlier, CleanBase, Shared, Crowded, Candidate, TakenBelow, Tried, Order;
    OrderSorts(names, |names|);
    assert i in Order(names, |names|);
    var k := Position(Order(names, |names|), i);
    CleanedAt(hash, options, names, k);
    EarlierChosen(hash, options, names, k);
    ChoiceAt(hash, options, multiset(Bases(options, names)), Sorted(names), k);
    SharedIsCrowded(options, names, i);
    var earlier := Earlier(hash, options, names, i);
    rank := ChosenIsFirstFree(hash, earlier, names[i], CleanBase(options, names[i]), Shared(options, names, i));
  }
}
