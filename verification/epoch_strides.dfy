/** How the order changes between epochs: the leader moves by one rotation, the stride through all of them. */
module EpochStrides {
  import opened Basics
  import opened Arith
  import opened EpochOrders

  // ------------------------------------------------------------------ divisors

  /** The greatest common divisor divides both numbers. */
  lemma {:induction false} GcdDivides(a: nat, b: nat) returns (p: nat, q: nat)
    ensures a == p * Gcd(a, b) && b == q * Gcd(a, b)
    decreases b
  {
    if b == 0 {
      p, q := 1, 0;
    } else {
      var g, k, r := Gcd(a, b), a / b, a % b;
      var u, v := GcdDivides(b, r);
      MulNonNegative(k, u);
      p, q := k * u + v, u;
      assert a == k * b + r && b == u * g && r == v * g;
      Distribute(k * u, v, g);
      assert k * (u * g) == (k * u) * g;
    }
  }

  predicate Coprime(v: nat, n: nat) {
    Gcd(v, n) == 1
  }

  ghost function CoprimesBelow(n: nat, k: nat): set<nat> {
    set v: nat | 0 < v < k && Coprime(v, n)
  }

  /** The list holds exactly the members of the set, in ascending order. */
  ghost predicate Lists(r: seq<nat>, c: set<nat>) {
    && (forall i, j :: 0 <= i < j < |r| ==> r[i] < r[j])
    && (forall v :: v in r <==> v in c) && |r| == |c|
  }

  lemma {:induction false} ListsNext(r: seq<nat>, c: set<nat>, v: nat)
    requires Lists(r, c) && forall w :: w in c ==> w < v
    ensures Lists(r + [v], c + {v})
  {
    assert forall i :: 0 <= i < |r| ==> r[i] in c;
  }

  lemma {:induction false} CoprimesNext(n: nat, k: nat)
    requires k > 1
    ensures Coprime(k - 1, n) ==> CoprimesBelow(n, k) == CoprimesBelow(n, k - 1) + {k - 1}
    ensures !Coprime(k - 1, n) ==> CoprimesBelow(n, k) == CoprimesBelow(n, k - 1)
  {
    hide Gcd;
  }

  lemma {:induction false} NoCoprimes(n: nat, k: nat)
    requires k <= 1
    ensures CoprimesBelow(n, k) == {} && StridesBelow(n, k) == []
  {
  }

  lemma {:induction false} CoprimeBound(n: nat, k: nat)
    ensures forall w :: w in CoprimesBelow(n, k) ==> w < k
  {
  }

  lemma {:induction false} StridesNext(n: nat, k: nat)
    requires k > 1
    ensures Coprime(k - 1, n) ==> StridesBelow(n, k) == StridesBelow(n, k - 1) + [k - 1]
    ensures !Coprime(k - 1, n) ==> StridesBelow(n, k) == StridesBelow(n, k - 1)
  {
    hide Gcd;
  }

  /** The strides are the values below `n` coprime to it, in ascending order. */
  lemma {:induction false} StridesAscend(n: nat, k: nat)
    ensures Lists(StridesBelow(n, k), CoprimesBelow(n, k))
  {
    hide Gcd, Lists, CoprimesBelow, Coprime, StridesBelow;
    if k <= 1 {
      NoCoprimes(n, k);
      NothingListed();
    } else {
      var r0, c0 := StridesBelow(n, k - 1), CoprimesBelow(n, k - 1);
      StridesAscend(n, k - 1);
      CoprimesNext(n, k);
      StridesNext(n, k);
      CoprimeBound(n, k - 1);
      ListsNext(r0, c0, k - 1);
    }
  }

  lemma {:induction false} NothingListed()
    ensures Lists([], {})
  {
  }

  lemma {:induction false} StridesPrefix(n: nat, k: nat, j: nat)
    requires j < |StridesBelow(n, k)|
    ensures StridesBelow(n, StridesBelow(n, k)[j]) == StridesBelow(n, k)[..j]
  {
    hide Gcd;
    var r := StridesBelow(n, k);
    if k > 1 {
      var r0 := StridesBelow(n, k - 1);
      if j < |r0| {
        StridesPrefix(n, k - 1, j);
        assert r[..j] == r0[..j];
      } else {
        assert r == r0 + [k - 1] && r[..j] == r0;
      }
    }
  }

  // ------------------------------------------------------------------ distances

  /** How far item `b` comes after item `a`, going round. */
  function Distance<T(==)>(items: seq<T>, a: T, b: T): nat
    requires a in items && b in items
  {
    (IndexOf(items, b) + |items| - IndexOf(items, a)) % |items|
  }

  lemma {:induction false} IndexIs<T>(items: seq<T>, p: nat)
    requires p < |items| && Distinct(items)
    ensures items[p] in items && IndexOf(items, items[p]) == p
  {
  }

  lemma {:induction false} GoingRound(n: nat, start: nat, stride: nat)
    requires start < n && stride < n
    ensures ((start + stride) % n + n - start) % n == stride
  {
    if start + stride < n {
      DivModUnique(start + stride, n, 0, start + stride);
      DivModUnique(stride + n, n, 1, stride);
    } else {
      DivModUnique(start + stride, n, 1, start + stride - n);
      DivModUnique(stride, n, 0, stride);
    }
  }

  lemma {:induction false} WalkNext(start: nat, stride: nat, n: nat, k: nat)
    requires n > 0
    ensures Walk(start, stride, n, k + 1) == (Walk(start, stride, n, k) + stride % n) % n
  {
    hide Walk;
    var here := WalkAt(start, stride, n, k);
    ModSum(here, stride, n);
  }

  lemma {:induction false} WalkAt(start: nat, stride: nat, n: nat, k: nat) returns (here: nat)
    requires n > 0
    ensures Walk(start, stride, n, k) == here % n && Walk(start, stride, n, k + 1) == (here + stride) % n
  {
    MulNonNegative(stride, k);
    here := start + stride * k;
    assert start + stride * (k + 1) == here + stride;
  }

  lemma {:induction false} StrideBelow(n: nat, epoch: nat)
    requires n > 1
    ensures Stride(n, epoch) < n
  {
    hide Gcd;
    StridesExist(n, n);
  }

  lemma {:induction false} DistanceAhead<T>(items: seq<T>, p: nat, stride: nat)
    requires p < |items| && stride < |items| && Distinct(items)
    ensures var q := (p + stride) % |items|;
            items[p] in items && items[q] in items && Distance(items, items[p], items[q]) == stride
  {
    var q := (p + stride) % |items|;
    IndexIs(items, p);
    IndexIs(items, q);
    hide Distinct;
    GoingRound(|items|, p, stride);
  }

  /** Every item of an epoch comes one stride after the one before it. */
  lemma {:induction false} NextByStride<T>(items: seq<T>, epoch: nat, k: nat)
    requires k + 1 < |items| && Distinct(items)
    ensures var order := EpochOrder(items, epoch);
            && order[k] in items && order[k + 1] in items
            && Distance(items, order[k], order[k + 1]) == Stride(|items|, epoch) < |items|
  {
    hide Walk, Start, Stride, Distance, Distinct;
    var n := |items|;
    var start, stride := Start(n, epoch), Stride(n, epoch);
    StrideBelow(n, epoch);
    WalkNext(start, stride, n, k);
    DivModUnique(stride, n, 0, stride);
    DistanceAhead(items, Walk(start, stride, n, k), stride);
  }

  /** Within an epoch all steps are equal. */
  lemma {:induction false} EvenSteps<T>(items: seq<T>, epoch: nat, k: nat)
    requires k + 1 < |items| && Distinct(items)
    ensures var order := EpochOrder(items, epoch);
            && order[0] in items && order[1] in items && order[k] in items && order[k + 1] in items
            && Distance(items, order[k], order[k + 1]) == Distance(items, order[0], order[1])
  {
    hide Stride, EpochOrder, Distance;
    NextByStride(items, epoch, 0);
    NextByStride(items, epoch, k);
  }

  // ------------------------------------------------------------ from epoch to epoch

  /** The stride of an epoch: as many coprime values are smaller as the epoch leaves over, counted in rounds
      of all of them. */
  lemma {:induction false} StrideRanks<T>(items: seq<T>, epoch: nat)
    requires |items| >= 2 && Distinct(items)
    ensures var n, order := |items|, EpochOrder(items, epoch);
            order[0] in items && order[1] in items &&
            var d := Distance(items, order[0], order[1]);
            && d in CoprimesBelow(n, n) && |CoprimesBelow(n, n)| > 0
            && |CoprimesBelow(n, d)| == epoch % |CoprimesBelow(n, n)|
  {
    hide Gcd, StridesBelow, EpochOrder, Distance;
    var n := |items|;
    var strides := StridesBelow(n, n);
    NextByStride(items, epoch, 0);
    StridesExist(n, n);
    StridesAscend(n, n);
    var j := epoch % |strides|;
    assert Stride(n, epoch) == strides[j];
    StridesPrefix(n, n, j);
    StridesAscend(n, strides[j]);
  }

  /** In as many consecutive epochs as there are coprime values, each of them is the stride exactly once. */
  lemma {:induction false} EachStrideOnce<T>(items: seq<T>, epoch: nat, v: nat) returns (e: nat)
    requires |items| >= 2 && Distinct(items) && v in CoprimesBelow(|items|, |items|)
    ensures epoch <= e < epoch + |CoprimesBelow(|items|, |items|)| && StrideIs(items, e, v)
    ensures forall x :: epoch <= x < epoch + |CoprimesBelow(|items|, |items|)| && StrideIs(items, x, v) ==> x == e
  {
    hide Gcd, StridesBelow, EpochOrder, Distance;
    var n := |items|;
    var strides := StridesBelow(n, n);
    StridesExist(n, n);
    StridesAscend(n, n);
    var j :| 0 <= j < |strides| && strides[j] == v;
    e := ResidueFrom(|strides|, j, epoch);
    StrideAt(items, e);
    forall x | epoch <= x < epoch + |strides| && StrideIs(items, x, v) ensures x == e {
      StrideAt(items, x);
      SameResidue(|strides|, x, e);
    }
  }

  /** The second item of the epoch comes `v` after the first. */
  ghost predicate StrideIs<T>(items: seq<T>, epoch: nat, v: nat)
    requires |items| >= 2
  {
    var order := EpochOrder(items, epoch);
    order[0] in items && order[1] in items && Distance(items, order[0], order[1]) == v
  }

  lemma {:induction false} StrideAt<T>(items: seq<T>, epoch: nat)
    requires |items| >= 2 && Distinct(items)
    ensures var strides := StridesBelow(|items|, |items|);
            strides != [] && forall v :: StrideIs(items, epoch, v) <==> v == strides[epoch % |strides|]
  {
    hide Gcd, StridesBelow, EpochOrder, Distance;
    StridesExist(|items|, |items|);
    NextByStride(items, epoch, 0);
  }

  lemma {:induction false} BeforeIsCoprime(n: nat)
    requires n >= 3
    ensures 1 in CoprimesBelow(n, n) && n - 1 in CoprimesBelow(n, n)
  {
    NextIsCoprime(n);
    DivModUnique(n - 1, n, 0, n - 1);
    DivModUnique(n, n - 1, 1, 1);
    DivModUnique(n - 1, 1, n - 1, 0);
    assert Gcd(n - 1, n) == Gcd(n, n - 1) == Gcd(n - 1, 1) == Gcd(1, 0) == 1;
  }

  /** Two consecutive epochs never use the same stride. */
  lemma {:induction false} StrideChanges<T>(items: seq<T>, epoch: nat, v: nat)
    requires |items| >= 3 && Distinct(items) && StrideIs(items, epoch, v)
    ensures !StrideIs(items, epoch + 1, v)
  {
    hide Gcd, StridesBelow, StrideIs;
    var n := |items|;
    var strides := StridesBelow(n, n);
    StridesExist(n, n);
    StridesAscend(n, n);
    BeforeIsCoprime(n);
    assert 1 in strides && n - 1 in strides;
    StrideAt(items, epoch);
    StrideAt(items, epoch + 1);
    if epoch % |strides| == (epoch + 1) % |strides| { SameResidue(|strides|, epoch, epoch + 1); }
  }

  // ------------------------------------------------------------------- the leaders

  ghost predicate LeastCoprimeFrom(n: nat, low: nat, p: nat) {
    low <= p && Coprime(p, n) && forall v :: low <= v < p ==> !Coprime(v, n)
  }

  /** The first epoch starts with the first item, and every next one the same distance further on: the least
      value above half the length that is coprime to it. */
  lemma {:induction false} LeaderMoves<T>(items: seq<T>, epoch: nat) returns (p: nat)
    requires |items| >= 2 && Distinct(items)
    ensures EpochOrder(items, 0)[0] == items[0] && LeastCoprimeFrom(|items|, |items| / 2 + 1, p)
    ensures var a, b := EpochOrder(items, epoch)[0], EpochOrder(items, epoch + 1)[0];
            a in items && b in items && Distance(items, a, b) == p % |items|
  {
    hide Gcd, EpochOrder;
    var n := |items|;
    p := RotationFrom(n, n / 2 + 1);
    EpochLeads(items, 0);
    EpochLeads(items, epoch);
    EpochLeads(items, epoch + 1);
    StartMoves(n, epoch);
    IndexIs(items, Start(n, epoch));
    IndexIs(items, Start(n, epoch + 1));
    GoingRound(n, Start(n, epoch), p % n);
  }

  lemma {:induction false} StartMoves(n: nat, epoch: nat)
    requires n >= 2
    ensures Start(n, 0) == 0 && Start(n, epoch + 1) == (Start(n, epoch) + RotationFrom(n, n / 2 + 1) % n) % n
  {
    hide RotationFrom;
    var p := RotationFrom(n, n / 2 + 1);
    MulNonNegative(p, epoch);
    DivModUnique(0, n, 0, 0);
    assert p * (epoch + 1) == p * epoch + p;
    ModSum(p * epoch, p, n);
  }
}
