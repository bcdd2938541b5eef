/** Round-robin epochs: rotated orders with coprime strides, and the samples they collect. */
module EpochOrders {
  import opened Basics
  import opened Arith
  import opened Rearrangement

  // ------------------------------------------------------------------ divisors

  function Gcd(a: nat, b: nat): nat
    decreases b
  {
    if b == 0 then a else Gcd(b, a % b)
  }

  lemma {:induction false} CombineStep(a: int, b: int, q: int, r: int, u: int, v: int)
    requires a == q * b + r
    ensures a * v + b * (u - q * v) == b * u + r * v
  {
    var p := q * b;
    Distribute(p, r, v);
    assert p * v == b * (q * v);
    Distribute(u, q * v, b);
  }

  /** The greatest common divisor is a combination of the two numbers. */
  lemma {:induction false} Combination(a: nat, b: nat) returns (x: int, y: int)
    ensures a * x + b * y == Gcd(a, b)
    decreases b
  {
    if b == 0 {
      x, y := 1, 0;
    } else {
      var q, r := a / b, a % b;
      var u, v := Combination(b, r);
      x, y := v, u - q * v;
      CombineStep(a, b, q, r, u, v);
    }
  }

  lemma {:induction false} NextIsCoprime(n: nat)
    requires n >= 2
    ensures Gcd(n + 1, n) == 1 && Gcd(1, n) == 1
  {
    DivModUnique(n + 1, n, 1, 1);
    DivModUnique(1, n, 0, 1);
    DivModUnique(n, 1, n, 0);
    assert Gcd(n, 1) == Gcd(1, n % 1) == Gcd(1, 0) == 1;
    assert Gcd(n + 1, n) == Gcd(n, 1);
    assert Gcd(1, n) == Gcd(n, 1);
  }

  // -------------------------------------------------------------- coprime walks

  /** The position reached from `start` after `k` strides around `n` places. */
  function Walk(start: nat, stride: nat, n: nat, k: nat): (p: nat)
    requires n > 0
    ensures p < n
  {
    MulNonNegative(stride, k);
    (start + stride * k) % n
  }

  lemma {:induction false} SameRemainder(a: nat, b: nat, n: nat) returns (m: int)
    requires n > 0 && a % n == b % n
    ensures b - a == n * m
  {
    m := b / n - a / n;
    assert a == n * (a / n) + a % n && b == n * (b / n) + b % n;
    assert n * (b / n - a / n) == n * (b / n) - n * (a / n);
  }

  lemma {:induction false} NotPositive(n: nat, q: int)
    requires q <= 0
    ensures n * q <= 0
  {
    MulNonNegative(-q, n);
    assert n * q == -((-q) * n);
  }

  /** A positive multiple of `n` is at least `n`. */
  lemma {:induction false} PositiveMultiple(d: int, n: nat, q: int)
    requires 0 < d && d == n * q
    ensures d >= n
  {
    if q <= 0 {
      NotPositive(n, q);
    } else {
      MulMonotone(1, q, n);
    }
  }

  lemma {:induction false} WalkGap(start: nat, stride: nat, n: nat, j: nat, k: nat) returns (m: int)
    requires n > 0 && Walk(start, stride, n, j) == Walk(start, stride, n, k)
    ensures stride * (k - j) == n * m
  {
    MulNonNegative(stride, j);
    MulNonNegative(stride, k);
    m := SameRemainder(start + stride * j, start + stride * k, n);
    assert stride * (k - j) == stride * k - stride * j;
  }

  /** With a stride coprime to `n`, no position repeats within `n` steps. */
  lemma {:induction false} WalkNeverRepeats(start: nat, stride: nat, n: nat, j: nat, k: nat)
    requires n > 0 && Gcd(stride, n) == 1 && j < k < n
    ensures Walk(start, stride, n, j) != Walk(start, stride, n, k)
  {
    hide Walk;
    if Walk(start, stride, n, j) == Walk(start, stride, n, k) {
      var m := WalkGap(start, stride, n, j, k);
      var x, y := Combination(stride, n);
      Factored(stride, n, k - j, x, y, m);
      PositiveMultiple(k - j, n, x * m + y * (k - j));
    }
  }

  lemma {:induction false} Factored(stride: int, n: int, d: int, x: int, y: int, m: int)
    requires stride * x + n * y == 1 && stride * d == n * m
    ensures d == n * (x * m + y * d)
  {
    assert d == d * (stride * x + n * y);
    assert d * (stride * x + n * y) == (stride * d) * x + n * (y * d);
    assert (stride * d) * x == n * (x * m) by { assert (n * m) * x == n * (x * m); }
    assert n * (x * m + y * d) == n * (x * m) + n * (y * d);
  }

  function Walked(start: nat, stride: nat, n: nat): (r: seq<nat>)
    requires n > 0
    ensures |r| == n && forall k :: 0 <= k < n ==> r[k] == Walk(start, stride, n, k) < n
  {
    seq(n, k requires 0 <= k < n => Walk(start, stride, n, k))
  }

  lemma {:induction false} WalkVisitsAll(start: nat, stride: nat, n: nat)
    requires n > 0 && Gcd(stride, n) == 1
    ensures Distinct(Walked(start, stride, n))
    ensures forall t :: 0 <= t < n ==> t in Walked(start, stride, n)
  {
    var walked := Walked(start, stride, n);
    forall j, k | 0 <= j < k < n ensures walked[j] != walked[k] { WalkNeverRepeats(start, stride, n, j, k); }
    forall t | 0 <= t < n ensures t in walked { Onto(walked, t); }
  }

  // --------------------------------------------------------------- epoch orders

  /** The values from 1 below `k` that are coprime to `n`. */
  function StridesBelow(n: nat, k: nat): (r: seq<nat>)
    ensures forall j :: 0 <= j < |r| ==> 0 < r[j] < k && Gcd(r[j], n) == 1
  {
    if k <= 1 then []
    else if Gcd(k - 1, n) == 1 then StridesBelow(n, k - 1) + [k - 1]
    else StridesBelow(n, k - 1)
  }

  lemma {:induction false} StridesExist(n: nat, k: nat)
    requires 2 <= k <= n
    ensures StridesBelow(n, k) != [] && StridesBelow(n, k)[0] == 1
  {
    if k == 2 {
      NextIsCoprime(n);
      assert StridesBelow(n, 1) == [];
    } else {
      StridesExist(n, k - 1);
    }
  }

  /** The first value from `r` on that is coprime to `n`; one past `n` always is. */
  function RotationFrom(n: nat, r: nat): (p: nat)
    requires n >= 2 && r <= n + 1
    ensures r <= p <= n + 1 && Gcd(p, n) == 1
    ensures forall j :: r <= j < p ==> Gcd(j, n) != 1
    decreases n + 1 - r
  {
    NextIsCoprime(n);
    if Gcd(r, n) == 1 then r else RotationFrom(n, r + 1)
  }

  function Start(n: nat, epoch: nat): (p: nat)
    requires n >= 2
    ensures p < n
  {
    Walk(0, RotationFrom(n, n / 2 + 1), n, epoch)
  }

  function Stride(n: nat, epoch: nat): (r: nat)
    requires n >= 2
    ensures Gcd(r, n) == 1
  {
    StridesExist(n, n);
    var strides := StridesBelow(n, n);
    strides[epoch % |strides|]
  }

  /** The order of an epoch. */
  function EpochOrder<T>(items: seq<T>, epoch: nat): (r: seq<T>)
    ensures |r| == |items|
  {
    if |items| < 2 then items
    else Through(items, Walked(Start(|items|, epoch), Stride(|items|, epoch), |items|))
  }

  /** Every epoch runs every item exactly once. */
  lemma {:induction false} EpochPermutes<T>(items: seq<T>, epoch: nat)
    ensures multiset(EpochOrder(items, epoch)) == multiset(items)
  {
    if |items| >= 2 {
      var start, stride := Start(|items|, epoch), Stride(|items|, epoch);
      WalkVisitsAll(start, stride, |items|);
      Rearranged(items, Walked(start, stride, |items|));
    }
  }

  lemma {:induction false} EpochLeads<T>(items: seq<T>, epoch: nat)
    requires |items| >= 2
    ensures EpochOrder(items, epoch)[0] == items[Start(|items|, epoch)]
  {
    var n, start := |items|, Start(|items|, epoch);
    assert Walk(start, Stride(n, epoch), n, 0) == start by { DivModUnique(start, n, 0, start); }
  }

  /** Starts of consecutive epochs are one coprime walk. */
  lemma {:induction false} StartsWalk(n: nat, epoch: nat, k: nat)
    requires n >= 2 && k < n
    ensures Start(n, epoch + k) == Starts(n, epoch)[k]
  {
    var rotation := RotationFrom(n, n / 2 + 1);
    MulNonNegative(rotation, epoch);
    assert rotation * (epoch + k) == rotation * epoch + rotation * k;
  }

  /** The leading positions of `n` consecutive epochs. */
  function Starts(n: nat, epoch: nat): (r: seq<nat>)
    requires n >= 2
    ensures |r| == n
  {
    var rotation := RotationFrom(n, n / 2 + 1);
    MulNonNegative(rotation, epoch);
    Walked(rotation * epoch, rotation, n)
  }

  lemma {:induction false} StartsVisitAll(n: nat, epoch: nat)
    requires n >= 2
    ensures Distinct(Starts(n, epoch)) && forall t :: 0 <= t < n ==> t in Starts(n, epoch)
  {
    var rotation := RotationFrom(n, n / 2 + 1);
    MulNonNegative(rotation, epoch);
    WalkVisitsAll(rotation * epoch, rotation, n);
  }

  /** In any `n` consecutive epochs each item leads, in exactly one of them. */
  lemma {:induction false} EachLeadsOnce<T>(items: seq<T>, epoch: nat, t: nat) returns (lead: nat)
    requires t < |items| && |items| >= 2
    ensures epoch <= lead < epoch + |items| && EpochOrder(items, lead)[0] == items[t]
    ensures Distinct(items) ==>
              forall e :: epoch <= e < epoch + |items| && EpochOrder(items, e)[0] == items[t] ==> e == lead
  {
    hide Start, Starts, EpochOrder;
    var n := |items|;
    StartsVisitAll(n, epoch);
    assert t in Starts(n, epoch);
    var k :| 0 <= k < n && Starts(n, epoch)[k] == t;
    lead := epoch + k;
    StartsWalk(n, epoch, k);
    EpochLeads(items, lead);
    forall e | Distinct(items) && epoch <= e < epoch + n && EpochOrder(items, e)[0] == items[t] ensures e == lead {
      EpochLeads(items, e);
      assert Start(n, e) == t;
      StartsWalk(n, epoch, e - epoch);
    }
  }

  // -------------------------------------------------------------------- methods

  method CoprimeStrides(n: nat) returns (strides: seq<nat>)
    requires n >= 2
    ensures strides == StridesBelow(n, n)
  {
    strides := [];
    for value := 1 to n
      invariant strides == StridesBelow(n, value)
    {
      if Gcd(value, n) == 1 { strides := strides + [value]; }
    }
  }

  /** The search stops at the first coprime value, at the latest one past `n`. */
  method FindRotation(n: nat) returns (rotation: nat)
    requires n >= 2
    ensures rotation == RotationFrom(n, n / 2 + 1)
  {
    rotation := n / 2 + 1;
    NextIsCoprime(n);
    while Gcd(rotation, n) != 1
      invariant n / 2 + 1 <= rotation <= n + 1
      invariant RotationFrom(n, rotation) == RotationFrom(n, n / 2 + 1)
      decreases n + 1 - rotation
    {
      rotation := rotation + 1;
    }
  }

  lemma {:induction false} OrderIs<T>(items: seq<T>, epoch: nat, r: seq<T>)
    requires |items| >= 2 && |r| == |items|
    requires var start, stride := Start(|items|, epoch), Stride(|items|, epoch);
             forall k :: 0 <= k < |r| ==> r[k] == items[Walk(start, stride, |items|, k)]
    ensures r == EpochOrder(items, epoch)
  {
    hide Walk, Start, Stride;
  }

  method ComputeEpochOrder<T>(items: seq<T>, epoch: nat) returns (r: seq<T>)
    ensures r == EpochOrder(items, epoch)
  {
    var n := |items|;
    if n < 2 { return items; }
    var strides := CoprimeStrides(n);
    var rotation := FindRotation(n);
    var start := Walk(0, rotation, n, epoch);
    assert start == Start(n, epoch);
    StridesExist(n, n);
    var stride := strides[epoch % |strides|];
    assert stride == Stride(n, epoch);
    hide Walk, StridesBelow, RotationFrom, Start, Stride;
    r := seq(n, offset requires 0 <= offset < n => items[Walk(start, stride, n, offset)]);
    OrderIs(items, epoch, r);
  }

  // -------------------------------------------------------------------- samples

  function IndexOf<T(==)>(s: seq<T>, x: T): (p: nat)
    requires x in s
    ensures p < |s| && s[p] == x
  {
    if s[0] == x then 0 else 1 + IndexOf(s[1..], x)
  }

  lemma {:induction false} EpochKeys<T>(keys: seq<T>, epoch: nat)
    requires Distinct(keys)
    ensures Distinct(EpochOrder(keys, epoch))
    ensures forall x :: x in EpochOrder(keys, epoch) <==> x in keys
  {
    EpochPermutes(keys, epoch);
    var order := EpochOrder(keys, epoch);
    forall x ensures x in order <==> x in keys {
      assert (x in order <==> x in multiset(order)) && (x in keys <==> x in multiset(keys));
    }
    if |keys| >= 2 {
      var walked := Walked(Start(|keys|, epoch), Stride(|keys|, epoch), |keys|);
      WalkVisitsAll(Start(|keys|, epoch), Stride(|keys|, epoch), |keys|);
      forall j, k | 0 <= j < k < |order| ensures order[j] != order[k] { assert walked[j] != walked[k]; }
    }
  }

  /** The position of a key in an epoch. */
  function Slot<T(==)>(keys: seq<T>, epoch: nat, key: T): (p: nat)
    requires key in keys
    ensures p < |keys| && EpochOrder(keys, epoch)[p] == key
  {
    EpochPermutes(keys, epoch);
    assert key in multiset(EpochOrder(keys, epoch));
    IndexOf(EpochOrder(keys, epoch), key)
  }

  /** The clock is read before and after each timed call: this is the `c`-th call's duration. */
  function Duration(clock: nat -> int, c: nat): int {
    clock(2 * c + 1) - clock(2 * c)
  }

  /** Calls are numbered through the measured epochs, `n` to an epoch. */
  function CallNumber(m: nat, n: nat, p: nat): nat {
    MulNonNegative(m, n);
    m * n + p
  }

  lemma {:induction false} EpochTurns(m: nat, n: nat)
    ensures CallNumber(m, n, n) == CallNumber(m + 1, n, 0)
  {
    Distribute(m, 1, n);
  }

  function Sample<T(==)>(keys: seq<T>, warmups: nat, clock: nat -> int, key: T, m: nat): int
    requires key in keys
  {
    Duration(clock, CallNumber(m, |keys|, Slot(keys, warmups + m, key)))
  }

  /** A key's first `r` samples, one from each measured epoch. */
  function Samples<T(==)>(keys: seq<T>, warmups: nat, clock: nat -> int, key: T, r: nat): (s: seq<int>)
    requires key in keys
    ensures |s| == r
  {
    if r == 0 then [] else Samples(keys, warmups, clock, key, r - 1) + [Sample(keys, warmups, clock, key, r - 1)]
  }

  /** A clock whose successive readings are given. */
  class Clock {
    const reading: nat -> int
    var ticks: nat

    constructor (reading: nat -> int)
      ensures this.reading == reading && ticks == 0
    {
      this.reading, ticks := reading, 0;
    }

    method Now() returns (t: int)
      modifies this
      ensures t == reading(old(ticks)) && ticks == old(ticks) + 1
    {
      t := reading(ticks);
      ticks := ticks + 1;
    }
  }

  /** What is collected once the first `p` calls of measured epoch `m` are timed. */
  ghost predicate Collected<T(!new)>(keys: seq<T>, warmups: nat, reading: nat -> int,
                                     samples: map<T, seq<int>>, m: nat, p: nat) {
    && (forall key :: key in samples <==> key in keys)
    && (forall key :: key in keys ==>
          samples[key] == Samples(keys, warmups, reading, key, if Slot(keys, warmups + m, key) < p then m + 1 else m))
  }

  lemma {:induction false} CollectOne<T(!new)>(keys: seq<T>, warmups: nat, reading: nat -> int,
                                               samples: map<T, seq<int>>, m: nat, p: nat)
    requires Distinct(keys) && p < |keys| && Collected(keys, warmups, reading, samples, m, p)
    ensures var key := EpochOrder(keys, warmups + m)[p];
            && key in samples
            && Slot(keys, warmups + m, key) == p
            && Collected(keys, warmups, reading,
                         samples[key := samples[key] + [Sample(keys, warmups, reading, key, m)]], m, p + 1)
  {
    hide Sample, EpochOrder;
    EpochKeys(keys, warmups + m);
    var key := EpochOrder(keys, warmups + m)[p];
    assert key in EpochOrder(keys, warmups + m);
    assert Slot(keys, warmups + m, key) == p;
    var after := samples[key := samples[key] + [Sample(keys, warmups, reading, key, m)]];
    assert after[key] == Samples(keys, warmups, reading, key, m + 1);
    forall x | x in keys && x != key
      ensures after[x] == Samples(keys, warmups, reading, x, if Slot(keys, warmups + m, x) < p + 1 then m + 1 else m) {
      assert Slot(keys, warmups + m, x) != p;
    }
  }

  /** Runs every key once, timing each call. */
  method MeasureEpoch<T(==,!new)>(keys: seq<T>, warmups: nat, m: nat, clock: Clock, before: map<T, seq<int>>)
    returns (samples: map<T, seq<int>>)
    requires Distinct(keys) && clock.ticks == 2 * CallNumber(m, |keys|, 0)
    requires Collected(keys, warmups, clock.reading, before, m, 0)
    modifies clock
    ensures clock.ticks == 2 * CallNumber(m + 1, |keys|, 0)
    ensures Collected(keys, warmups, clock.reading, samples, m, |keys|)
  {
    hide EpochOrder, Slot, Collected;
    samples := before;
    var order := ComputeEpochOrder(keys, warmups + m);
    for p := 0 to |order|
      invariant clock.ticks == 2 * CallNumber(m, |keys|, p)
      invariant Collected(keys, warmups, clock.reading, samples, m, p)
    {
      var key := order[p];
      CollectOne(keys, warmups, clock.reading, samples, m, p);
      var started := clock.Now();
      var ended := clock.Now();
      samples := samples[key := samples[key] + [ended - started]];
    }
    EpochTurns(m, |keys|);
  }

  /** Every key gets exactly one sample per measured epoch, and none from the warm-ups. */
  method MeasureRoundRobin<T(==,!new)>(keys: seq<T>, warmups: nat, repeats: nat, clock: Clock)
    returns (samples: map<T, seq<int>>)
    requires Distinct(keys) && clock.ticks == 0
    modifies clock
    ensures forall key :: key in samples <==> key in keys
    ensures forall key :: key in keys ==> samples[key] == Samples(keys, warmups, clock.reading, key, repeats)
  {
    hide Sample, Slot;
    samples := map key | key in keys :: [];
    assert CallNumber(0, |keys|, 0) == 0;
    for epoch := 0 to warmups + repeats
      invariant clock.ticks == 2 * CallNumber(if epoch < warmups then 0 else epoch - warmups, |keys|, 0)
      invariant Collected(keys, warmups, clock.reading, samples, if epoch < warmups then 0 else epoch - warmups, 0)
    {
      if epoch >= warmups {
        samples := MeasureEpoch(keys, warmups, epoch - warmups, clock, samples);
      }
    }
  }
}
