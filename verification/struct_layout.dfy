/** Field-name lookup for compiled struct plans: a sorted vector, or an open-addressing table. */
module StructLayouts {
  import opened Basics
  import opened NameOrder
  import opened Arith

  datatype KeyEntry = KeyEntry(key: string, fi: nat)

  const UINT32_LIMIT: nat := 0x1_0000_0000
  const SORTED_THRESHOLD: nat := 32
  const MAX_DISPATCH_ENTRIES: nat := (UINT32_LIMIT - 1) / 4 + 1

  // ----------------------------------------------------- the linear reference

  /** The first entry of a key from `k` on, or the length. */
  function FirstKey(entries: seq<KeyEntry>, key: string, k: nat): (p: nat)
    requires k <= |entries|
    ensures k <= p <= |entries|
    ensures p < |entries| ==> entries[p].key == key
    ensures forall j :: k <= j < p ==> entries[j].key != key
    decreases |entries| - k
  {
    if k == |entries| || entries[k].key == key then k else FirstKey(entries, key, k + 1)
  }

  function Scan(entries: seq<KeyEntry>, key: string): Option<nat> {
    var p := FirstKey(entries, key, 0);
    if p < |entries| then Some(entries[p].fi) else None
  }

  predicate DistinctKeys(entries: seq<KeyEntry>) {
    forall j, k :: 0 <= j < k < |entries| ==> entries[j].key != entries[k].key
  }

  lemma {:induction false} ScanHit(entries: seq<KeyEntry>, j: nat)
    requires j < |entries| && DistinctKeys(entries)
    ensures Scan(entries, entries[j].key) == Some(entries[j].fi)
  {
    assert FirstKey(entries, entries[j].key, 0) == j;
  }

  // ----------------------------------------------------------------- capacity

  function Pow2(k: nat): (p: nat)
    ensures p >= 1
  {
    if k == 0 then 1 else 2 * Pow2(k - 1)
  }

  lemma {:induction false} Pow2Add(a: nat, b: nat)
    ensures Pow2(a + b) == Pow2(a) * Pow2(b)
  {
    if a > 0 {
      Pow2Add(a - 1, b);
      assert Pow2(a) * Pow2(b) == 2 * (Pow2(a - 1) * Pow2(b));
    }
  }

  lemma {:induction false} Pow2Monotone(a: nat, b: nat)
    requires a <= b
    ensures Pow2(a) <= Pow2(b)
  {
    if a < b { Pow2Monotone(a, b - 1); }
  }

  lemma {:induction false} TwoTo32()
    ensures Pow2(32) == UINT32_LIMIT && Pow2(31) == 0x8000_0000
  {
    assert Pow2(8) == 256 by { assert Pow2(4) == 16; Pow2Add(4, 4); }
    Pow2Add(8, 8);
    assert Pow2(16) == 65536;
    Pow2Add(16, 16);
    assert Pow2(32) == 2 * Pow2(31);
  }

  /** The exponent of the least power of two that is at least `n`. */
  function CeilLog(n: nat): (e: nat)
    requires n >= 1
    ensures Pow2(e) >= n && (e > 0 ==> Pow2(e - 1) < n)
  {
    if n == 1 then 0 else 1 + CeilLog((n + 1) / 2)
  }

  function Capacity(n: nat): nat
    requires n >= 1
  {
    Pow2(CeilLog(2 * n))
  }

  /** The entry bound keeps the doubled count and the capacity within 32 bits, and a slot stays free. */
  lemma {:induction false} CapacityFits(n: nat)
    requires 1 <= n <= MAX_DISPATCH_ENTRIES
    ensures 2 * n < UINT32_LIMIT && n < Capacity(n) < UINT32_LIMIT
  {
    TwoTo32();
    var e := CeilLog(2 * n);
    if e > 31 {
      Pow2Monotone(31, e - 1);
      assert false;
    }
    Pow2Monotone(e, 31);
  }

  /** Masking the low 32 bits of a hash by a table's mask gives the hash modulo its capacity. */
  lemma {:induction false} LowBits(h: nat, e: nat)
    requires e <= 32
    ensures (h % UINT32_LIMIT) % Pow2(e) == h % Pow2(e)
  {
    TwoTo32();
    Pow2Add(32 - e, e);
    ModOfMod(h, Pow2(32 - e), Pow2(e));
  }

  // ------------------------------------------------------------ probe sequences

  /** The slot a hash starts at: its low 32 bits masked by the capacity less one. */
  function Home(h: nat, cap: nat): (p: nat)
    requires cap > 0
    ensures p < cap
  {
    (h % UINT32_LIMIT) % cap
  }

  function Next(p: nat, cap: nat): (q: nat)
    requires p < cap
    ensures q < cap
  {
    if p + 1 == cap then 0 else p + 1
  }

  /** The slot `d` steps after `home`. */
  function At(home: nat, d: nat, cap: nat): (p: nat)
    requires home < cap && d < cap
    ensures p < cap
  {
    if home + d < cap then home + d else home + d - cap
  }

  lemma {:induction false} NextIsMasked(p: nat, cap: nat)
    requires p < cap
    ensures Next(p, cap) == (p + 1) % cap
  {
    if p + 1 == cap { DivModUnique(p + 1, cap, 1, 0); } else { DivModUnique(p + 1, cap, 0, p + 1); }
  }

  /** The slots' contents: a zero hash marks a free slot. */
  datatype Slots = Slots(hashes: seq<nat>, keys: seq<string>, values: seq<nat>) {
    predicate Shaped() {
      0 < |hashes| == |keys| == |values|
    }

    /** The slots with `e` written at `p`. */
    function With(p: nat, h: nat, e: KeyEntry): Slots
      requires Shaped() && p < |hashes|
    {
      Slots(hashes[p := h], keys[p := e.key], values[p := e.fi])
    }
  }

  /** Entry `e` sits `d` steps from its home, and every slot before it is taken. */
  ghost predicate Seated(t: Slots, e: KeyEntry, h: nat, d: nat)
    requires t.Shaped()
  {
    && h != 0 && d < |t.hashes|
    && var p := At(Home(h, |t.hashes|), d, |t.hashes|);
       && t.hashes[p] == h && t.keys[p] == e.key && t.values[p] == e.fi
       && PathTaken(t, Home(h, |t.hashes|), d)
  }

  ghost predicate PathTaken(t: Slots, home: nat, d: nat)
    requires t.Shaped() && home < |t.hashes| && d <= |t.hashes|
  {
    forall i :: 0 <= i < d ==> t.hashes[At(home, i, |t.hashes|)] != 0
  }

  /** Some entry sits at slot `p`. */
  ghost predicate Owned(t: Slots, entries: seq<KeyEntry>, p: nat)
    requires t.Shaped() && p < |t.hashes|
  {
    exists j :: 0 <= j < |entries| && t.keys[p] == entries[j].key && t.values[p] == entries[j].fi
  }

  /** The table holds exactly `entries`, entry `j` at `steps[j]` from its home. */
  ghost predicate Filled(t: Slots, hash: string -> nat, entries: seq<KeyEntry>, steps: seq<nat>) {
    && t.Shaped() && |steps| == |entries|
    && (forall j :: 0 <= j < |entries| ==> Seated(t, entries[j], hash(entries[j].key), steps[j]))
    && (forall p :: 0 <= p < |t.hashes| && t.hashes[p] != 0 ==> Owned(t, entries, p))
    && |Taken(t.hashes)| == |entries|
  }

  ghost function Taken(hs: seq<nat>): set<nat> {
    set p | 0 <= p < |hs| && hs[p] != 0
  }

  lemma {:induction false} TakenFrom(hs: seq<nat>)
    requires forall p :: 0 <= p < |hs| ==> hs[p] != 0
    ensures |Taken(hs)| == |hs|
  {
    if hs == [] {
      assert Taken(hs) == {};
    } else {
      var n := |hs| - 1;
      TakenFrom(hs[..n]);
      assert Taken(hs) == Taken(hs[..n]) + {n};
    }
  }

  /** Fewer entries than slots leave a free slot, so every probe ends. */
  lemma {:induction false} FreeSlot(t: Slots, hash: string -> nat, entries: seq<KeyEntry>, steps: seq<nat>)
    returns (z: nat)
    requires Filled(t, hash, entries, steps) && |entries| < |t.hashes|
    ensures z < |t.hashes| && t.hashes[z] == 0
  {
    if forall p :: 0 <= p < |t.hashes| ==> t.hashes[p] != 0 { TakenFrom(t.hashes); }
    z :| z < |t.hashes| && t.hashes[z] == 0;
  }

  /** Steps from `p` to `z`. */
  function Gap(p: nat, z: nat, cap: nat): nat
    requires p < cap && z < cap
  {
    if p <= z then z - p else z + cap - p
  }

  lemma {:induction false} EmptyIsFilled(t: Slots, hash: string -> nat)
    requires t.Shaped() && forall p :: 0 <= p < |t.hashes| ==> t.hashes[p] == 0
    ensures Filled(t, hash, [], [])
  {
    assert Taken(t.hashes) == {};
  }

  lemma {:induction false} SeatedStays(t: Slots, e: KeyEntry, h: nat, d: nat, p: nat, g: nat, x: KeyEntry)
    requires t.Shaped() && p < |t.hashes| && t.hashes[p] == 0 && g != 0
    requires Seated(t, e, h, d)
    ensures Seated(t.With(p, g, x), e, h, d)
  {
  }

  lemma {:induction false} OwnedStays(t: Slots, entries: seq<KeyEntry>, p: nat, g: nat, x: KeyEntry, q: nat)
    requires t.Shaped() && p < |t.hashes| && q < |t.hashes|
    requires q != p ==> Owned(t, entries, q)
    ensures Owned(t.With(p, g, x), entries + [x], q)
  {
    var all := entries + [x];
    if q == p {
      assert all[|entries|] == x;
    } else {
      var j :| 0 <= j < |entries| && t.keys[q] == entries[j].key && t.values[q] == entries[j].fi;
      assert all[j] == entries[j];
    }
  }

  /** Writing an entry into the free slot its probe reached keeps the table filled. */
  lemma {:induction false} FillOne(t: Slots, hash: string -> nat, entries: seq<KeyEntry>, steps: seq<nat>, e: KeyEntry,
                                   d: nat)
    requires Filled(t, hash, entries, steps) && hash(e.key) != 0 && d < |t.hashes|
    requires PathTaken(t, Home(hash(e.key), |t.hashes|), d)
    requires t.hashes[At(Home(hash(e.key), |t.hashes|), d, |t.hashes|)] == 0
    ensures var p := At(Home(hash(e.key), |t.hashes|), d, |t.hashes|);
            Filled(t.With(p, hash(e.key), e), hash, entries + [e], steps + [d])
  {
    hide Home, At, Owned;
    var cap, h := |t.hashes|, hash(e.key);
    var p := At(Home(h, cap), d, cap);
    var u, all, offsets := t.With(p, h, e), entries + [e], steps + [d];
    assert Seated(u, e, h, d);
    hide PathTaken;
    forall j | 0 <= j < |all| ensures Seated(u, all[j], hash(all[j].key), offsets[j]) {
      if j < |entries| { SeatedStays(t, entries[j], hash(entries[j].key), steps[j], p, h, e); }
    }
    forall q | 0 <= q < cap && u.hashes[q] != 0 ensures Owned(u, all, q) { OwnedStays(t, entries, p, h, e, q); }
    assert Taken(u.hashes) == Taken(t.hashes) + {p};
  }

  /** A taken slot answers for its key as the linear scan does. */
  lemma {:induction false} Hit(t: Slots, hash: string -> nat, entries: seq<KeyEntry>, steps: seq<nat>, p: nat)
    requires Filled(t, hash, entries, steps) && DistinctKeys(entries) && p < |t.hashes| && t.hashes[p] != 0
    ensures Scan(entries, t.keys[p]) == Some(t.values[p])
  {
    assert Owned(t, entries, p);
    var j :| 0 <= j < |entries| && t.keys[p] == entries[j].key && t.values[p] == entries[j].fi;
    ScanHit(entries, j);
  }

  /** A probe that meets a free slot before its key shows the key is absent. */
  lemma {:induction false} Miss(t: Slots, hash: string -> nat, entries: seq<KeyEntry>, steps: seq<nat>, key: string,
                                d: nat)
    requires Filled(t, hash, entries, steps) && d < |t.hashes|
    requires t.hashes[At(Home(hash(key), |t.hashes|), d, |t.hashes|)] == 0
    requires forall i :: 0 <= i < d ==> !Answers(t, At(Home(hash(key), |t.hashes|), i, |t.hashes|), hash(key), key)
    ensures Scan(entries, key) == None
  {
    hide Home, At;
    var j := FirstKey(entries, key, 0);
  }

  predicate Answers(t: Slots, p: nat, h: nat, key: string)
    requires t.Shaped() && p < |t.hashes|
  {
    t.hashes[p] == h && t.keys[p] == key
  }

  // ---------------------------------------------------------------- the table

  class DispatchTable {
    var mask: nat
    var hashes: array<nat>
    var keys: array<string>
    var values: array<nat>

    predicate Sized()
      reads this
    {
      0 < hashes.Length == keys.Length == values.Length == mask + 1 && hashes != values
    }

    ghost function Contents(): Slots
      reads this, hashes, keys, values
    {
      Slots(hashes[..], keys[..], values[..])
    }

    /** The storage holds exactly these entries, with a slot to spare. */
    ghost predicate Represents(hash: string -> nat, entries: seq<KeyEntry>)
      reads this, hashes, keys, values
    {
      if entries == [] then hashes.Length == 0
      else Sized() && |entries| < hashes.Length && exists steps :: Filled(Contents(), hash, entries, steps)
    }

    /** Builds the table: every insertion finds a free slot. */
    constructor (hash: string -> nat, entries: seq<KeyEntry>)
      requires |entries| <= MAX_DISPATCH_ENTRIES
      requires forall key :: hash(key) != 0
      ensures Represents(hash, entries) && mask + 1 < UINT32_LIMIT
      ensures entries != [] ==> hashes.Length == Capacity(|entries|)
      ensures fresh(hashes) && fresh(keys) && fresh(values)
    {
      var cap := if entries == [] then 0 else Capacity(|entries|);
      mask := if cap == 0 then 0 else cap - 1;
      hashes := new nat[cap](_ => 0);
      keys := new string[cap](_ => "");
      values := new nat[cap](_ => 0);
      new;
      if entries != [] {
        CapacityFits(|entries|);
        FillAll(hash, entries);
      }
    }

    /** Inserts the entries in order into the empty table. */
    method FillAll(hash: string -> nat, entries: seq<KeyEntry>)
      requires Sized() && |entries| < hashes.Length && forall p :: 0 <= p < hashes.Length ==> hashes[p] == 0
      requires forall key :: hash(key) != 0
      modifies hashes, keys, values
      ensures exists steps :: Filled(Contents(), hash, entries, steps)
    {
      hide Filled;
      ghost var steps: seq<nat> := [];
      assert entries[..0] == [];
      EmptyIsFilled(Contents(), hash);
      for k := 0 to |entries|
        invariant Filled(Contents(), hash, entries[..k], steps)
      {
        ghost var d := Insert(hash, entries[k], entries[..k], steps);
        steps := steps + [d];
        assert entries[..k + 1] == entries[..k] + [entries[k]];
      }
      assert entries[..|entries|] == entries;
    }

    /** Probes from the home slot to the first free one and writes the entry there. */
    method Insert(hash: string -> nat, e: KeyEntry, ghost entries: seq<KeyEntry>, ghost steps: seq<nat>)
      returns (ghost d: nat)
      requires Sized() && Filled(Contents(), hash, entries, steps)
      requires hash(e.key) != 0 && |entries| < hashes.Length
      modifies hashes, keys, values
      ensures Filled(Contents(), hash, entries + [e], steps + [d])
    {
      hide Filled, Home;
      var cap, h := mask + 1, hash(e.key);
      ghost var z := FreeSlot(Contents(), hash, entries, steps);
      var p := Home(h, cap);
      d := 0;
      while hashes[p] != 0
        invariant 0 <= p < cap && d + Gap(p, z, cap) < cap && p == At(Home(h, cap), d, cap)
        invariant PathTaken(Contents(), Home(h, cap), d)
        decreases Gap(p, z, cap)
      {
        p := Next(p, cap);
        d := d + 1;
      }
      FillOne(Contents(), hash, entries, steps, e, d);
      ghost var next := Contents().With(p, h, e);
      hashes[p] := h;
      keys[p] := e.key;
      values[p] := e.fi;
      assert Contents() == next;
    }

    /** Looks a key up; a zero prehash means the hash is computed here. */
    method Find(hash: string -> nat, key: string, prehash: nat, ghost entries: seq<KeyEntry>) returns (r: Option<nat>)
      requires Represents(hash, entries) && DistinctKeys(entries)
      requires (prehash == 0 || prehash == hash(key)) && forall k :: hash(k) != 0
      ensures r == Scan(entries, key)
    {
      hide Filled, Home;
      if hashes.Length == 0 { return None; }
      var cap, h := mask + 1, if prehash != 0 then prehash else hash(key);
      ghost var steps :| Filled(Contents(), hash, entries, steps);
      ghost var z := FreeSlot(Contents(), hash, entries, steps);
      ghost var d := 0;
      var p := Home(h, cap);
      while hashes[p] != 0
        invariant 0 <= p < cap && d + Gap(p, z, cap) < cap && p == At(Home(h, cap), d, cap)
        invariant forall i :: 0 <= i < d ==> !Answers(Contents(), At(Home(h, cap), i, cap), h, key)
        decreases Gap(p, z, cap)
      {
        if hashes[p] == h && keys[p] == key {
          Hit(Contents(), hash, entries, steps, p);
          return Some(values[p]);
        }
        p := Next(p, cap);
        d := d + 1;
      }
      Miss(Contents(), hash, entries, steps, key, d);
      return None;
    }
  }

  // --------------------------------------------------------------- the layout

  /** The first position holding a name, by linear scan. */
  function FirstIndex(names: seq<string>, key: string, k: nat := 0): (r: Option<nat>)
    requires k <= |names|
    decreases |names| - k
  {
    if k == |names| then None else if names[k] == key then Some(k) else FirstIndex(names, key, k + 1)
  }

  /** The entries answer every key as the first field of that name would. */
  ghost predicate Indexes(entries: seq<KeyEntry>, names: seq<string>) {
    && DistinctKeys(entries)
    && forall key :: Scan(entries, key) == FirstIndex(names, key)
  }

  lemma {:induction false} ScanAppend(entries: seq<KeyEntry>, e: KeyEntry, key: string, k: nat)
    requires k <= |entries|
    ensures FirstKey(entries + [e], key, k) ==
            if FirstKey(entries, key, k) < |entries| then FirstKey(entries, key, k)
            else if key == e.key then |entries| else |entries| + 1
    decreases |entries| - k
  {
    if k < |entries| { ScanAppend(entries, e, key, k + 1); }
  }

  lemma {:induction false} FirstIndexAppend(names: seq<string>, x: string, key: string, k: nat)
    requires k <= |names|
    ensures FirstIndex(names + [x], key, k) ==
            match FirstIndex(names, key, k) case Some(i) => Some(i)
            case None => if key == x then Some(|names|) else None
    decreases |names| - k
  {
    if k < |names| { FirstIndexAppend(names, x, key, k + 1); }
  }

  /** Registers one more field name unless an earlier field has it. */
  lemma {:induction false} IndexOne(entries: seq<KeyEntry>, names: seq<string>, x: string)
    requires Indexes(entries, names)
    ensures Indexes(if Scan(entries, x).Some? then entries else entries + [KeyEntry(x, |names|)], names + [x])
  {
    var e := KeyEntry(x, |names|);
    forall key
      ensures Scan(entries + [e], key) ==
              if Scan(entries, key).Some? then Scan(entries, key) else if key == x then Some(e.fi) else None
    {
      ScanAppend(entries, e, key, 0);
    }
    forall key
      ensures FirstIndex(names + [x], key) ==
              if FirstIndex(names, key).Some? then FirstIndex(names, key) else if key == x then Some(|names|) else None
    {
      FirstIndexAppend(names, x, key, 0);
    }
  }

  method UniqueEntries(names: seq<string>) returns (entries: seq<KeyEntry>)
    ensures Indexes(entries, names) && |entries| <= |names|
  {
    hide Indexes, Scan;
    entries := [];
    assert names[..0] == [];
    assert Indexes(entries, names[..0]) by { NothingIndexed(); }
    for index := 0 to |names|
      invariant Indexes(entries, names[..index]) && |entries| <= index
    {
      IndexOne(entries, names[..index], names[index]);
      assert names[..index + 1] == names[..index] + [names[index]];
      entries := AddUnique(entries, names[index], index);
    }
    assert names[..|names|] == names;
  }

  lemma {:induction false} NothingIndexed()
    ensures Indexes([], [])
  {
  }

  method AddUnique(target: seq<KeyEntry>, key: string, index: nat) returns (r: seq<KeyEntry>)
    ensures r == if Scan(target, key).Some? then target else target + [KeyEntry(key, index)]
  {
    for j := 0 to |target|
      invariant forall k :: 0 <= k < j ==> target[k].key != key
    {
      if target[j].key == key { return target; }
    }
    return target + [KeyEntry(key, index)];
  }

  predicate AscendingKeys(s: seq<KeyEntry>) {
    forall j, k :: 0 <= j < k < |s| ==> Below(s[j].key, s[k].key)
  }

  function InsertEntry(e: KeyEntry, s: seq<KeyEntry>): seq<KeyEntry> {
    if s == [] || Below(e.key, s[0].key) then [e] + s else [s[0]] + InsertEntry(e, s[1..])
  }

  function SortEntries(s: seq<KeyEntry>): seq<KeyEntry> {
    if s == [] then [] else InsertEntry(s[0], SortEntries(s[1..]))
  }

  lemma {:induction false} InsertEntryHolds(e: KeyEntry, s: seq<KeyEntry>)
    ensures multiset(InsertEntry(e, s)) == multiset(s) + multiset{e}
  {
    hide Below;
    if s != [] && !Below(e.key, s[0].key) {
      InsertEntryHolds(e, s[1..]);
      assert s == [s[0]] + s[1..];
    }
  }

  lemma {:induction false} InsertEntryAscends(e: KeyEntry, s: seq<KeyEntry>)
    requires AscendingKeys(s)
    ensures AscendingKeys(InsertEntry(e, s))
  {
    hide Below;
    if s != [] {
      var first := s[0];
      if Below(e.key, first.key) {
        forall k | 0 < k < |s| ensures Below(e.key, s[k].key) { BelowTransitive(e.key, first.key, s[k].key); }
      } else {
        InsertEntryAscends(e, s[1..]);
        forall x | x in InsertEntry(e, s[1..]) ensures Below(first.key, x.key) {
          InsertEntryHolds(e, s[1..]);
          assert x in multiset(InsertEntry(e, s[1..]));
          BelowTotal(e.key, first.key);
        }
      }
    }
  }

  lemma {:induction false} NoEntries()
    ensures AscendingKeys([])
  {
  }

  lemma {:induction false} SortEntriesKeeps(s: seq<KeyEntry>)
    ensures AscendingKeys(SortEntries(s)) && multiset(SortEntries(s)) == multiset(s)
  {
    hide AscendingKeys, InsertEntry;
    if s == [] {
      NoEntries();
    } else {
      SortEntriesKeeps(s[1..]);
      InsertEntryHolds(s[0], SortEntries(s[1..]));
      InsertEntryAscends(s[0], SortEntries(s[1..]));
      assert s == [s[0]] + s[1..];
    }
  }

  /** Keys stay distinct and answers stay the same under any rearrangement. */
  lemma {:induction false} ScanPermuted(a: seq<KeyEntry>, b: seq<KeyEntry>, key: string)
    requires DistinctKeys(a) && DistinctKeys(b) && multiset(a) == multiset(b)
    ensures Scan(a, key) == Scan(b, key)
  {
    var i := FirstKey(a, key, 0);
    if i < |a| {
      assert a[i] in multiset(b);
      var k :| 0 <= k < |b| && b[k] == a[i];
      ScanHit(b, k);
    } else {
      assert forall k :: 0 <= k < |b| ==> b[k] in multiset(a) && b[k].key != key;
    }
  }

  lemma {:induction false} KeysOnce(s: seq<KeyEntry>, r: seq<KeyEntry>)
    requires DistinctKeys(s) && multiset(r) == multiset(s)
    ensures DistinctKeys(r)
  {
    forall j, k | 0 <= j < k < |r| ensures r[j].key != r[k].key {
      assert r[j] in multiset(s) && r[k] in multiset(s);
      if r[j] == r[k] {
        TwoOccurrences(r, j, k);
        OneOccurrence(s, r[j]);
      }
    }
  }

  lemma {:induction false} TwoOccurrences(r: seq<KeyEntry>, j: nat, k: nat)
    requires j < k < |r| && r[j] == r[k]
    ensures multiset(r)[r[j]] >= 2
  {
    assert r == r[..j] + [r[j]] + r[j + 1..k] + [r[k]] + r[k + 1..];
  }

  lemma {:induction false} OneOccurrence(s: seq<KeyEntry>, e: KeyEntry)
    requires DistinctKeys(s)
    ensures multiset(s)[e] <= 1
  {
    if s != [] {
      OneOccurrence(s[1..], e);
      assert s == [s[0]] + s[1..];
      assert s[0] !in multiset(s[1..]);
    }
  }

  /** The lower-bound search over sorted keys answers as the linear scan does. */
  method SearchSorted(sorted: seq<KeyEntry>, key: string) returns (r: Option<nat>)
    requires AscendingKeys(sorted) && DistinctKeys(sorted)
    ensures r == Scan(sorted, key)
  {
    var low, high := 0, |sorted|;
    while low < high
      invariant 0 <= low <= high <= |sorted|
      invariant forall j :: 0 <= j < low ==> !Below(key, sorted[j].key)
      invariant forall j :: high <= j < |sorted| ==> Below(key, sorted[j].key)
    {
      var mid := (low + high) / 2;
      if Below(key, sorted[mid].key) {
        forall j | mid < j < |sorted| ensures Below(key, sorted[j].key) {
          BelowTransitive(key, sorted[mid].key, sorted[j].key);
        }
        high := mid;
      } else {
        BelowTotal(key, sorted[mid].key);
        forall j | 0 <= j <= mid ensures !Below(key, sorted[j].key) {
          if Below(key, sorted[j].key) && j < mid { BelowTransitive(key, sorted[j].key, sorted[mid].key); }
        }
        low := mid + 1;
      }
    }
    BelowTotal(key, key);
    if low < |sorted| && sorted[low].key == key {
      ScanHit(sorted, low);
      return Some(sorted[low].fi);
    }
    ghost var i := FirstKey(sorted, key, 0);
    if low < |sorted| && i < |sorted| && low < i { BelowAntisymmetric(key, sorted[low].key); }
    return None;
  }

  class StructLayout {
    var names: seq<string>
    var sorted: seq<KeyEntry>
    var table: DispatchTable

    ghost predicate Valid(hash: string -> nat)
      reads this, table, table.hashes, table.keys, table.values
    {
      if table.hashes.Length == 0 then AscendingKeys(sorted) && Indexes(sorted, names)
      else exists entries :: Indexes(entries, names) && entries != [] && table.Represents(hash, entries)
    }

    /** Small and oversized layouts keep a sorted vector, the others a dispatch table. */
    constructor (hash: string -> nat, fields: seq<string>)
      requires forall key :: hash(key) != 0
      ensures Valid(hash) && names == fields
    {
      hide Indexes, AscendingKeys, Filled;
      var entries := UniqueEntries(fields);
      names := fields;
      if |entries| <= SORTED_THRESHOLD || |entries| > MAX_DISPATCH_ENTRIES {
        sorted := SortEntries(entries);
        table := new DispatchTable(hash, []);
        SortedIndexes(entries, fields);
      } else {
        sorted := [];
        table := new DispatchTable(hash, entries);
      }
      new;
      assert table.hashes.Length != 0 ==> Indexes(entries, names) && entries != [] && table.Represents(hash, entries);
    }

    /** Both strategies answer as a scan for the first field of that name. */
    method Find(hash: string -> nat, key: string, prehash: nat) returns (r: Option<nat>)
      requires Valid(hash) && (prehash == 0 || prehash == hash(key)) && forall k :: hash(k) != 0
      ensures r == FirstIndex(names, key)
    {
      if table.hashes.Length != 0 {
        ghost var entries :| Indexes(entries, names) && entries != [] && table.Represents(hash, entries);
        r := table.Find(hash, key, prehash, entries);
      } else {
        r := SearchSorted(sorted, key);
      }
    }
  }

  lemma {:induction false} SortedIndexes(entries: seq<KeyEntry>, names: seq<string>)
    requires Indexes(entries, names)
    ensures Indexes(SortEntries(entries), names) && AscendingKeys(SortEntries(entries))
  {
    var r := SortEntries(entries);
    SortEntriesKeeps(entries);
    KeysOnce(entries, r);
    forall key ensures Scan(r, key) == FirstIndex(names, key) { ScanPermuted(r, entries, key); }
  }
}
