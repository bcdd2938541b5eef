/** Lists read through a list of positions. */
module Rearrangement {
  import opened Basics

  /** The list read through an order. */
  function Through<T>(s: seq<T>, order: seq<nat>): (r: seq<T>)
    requires forall k :: 0 <= k < |order| ==> order[k] < |s|
    ensures |r| == |order| && forall k :: 0 <= k < |order| ==> r[k] == s[order[k]]
  {
    seq(|order|, k requires 0 <= k < |order| => s[order[k]])
  }

  /** The list without position `p`. */
  function Skip<T>(s: seq<T>, p: nat): (r: seq<T>)
    requires p < |s|
    ensures |r| == |s| - 1
    ensures forall k :: 0 <= k < |r| ==> r[k] == s[if k < p then k else k + 1]
  {
    s[..p] + s[p + 1..]
  }

  /** There are at most `n` different positions below `n`. */
  lemma {:induction false} Bounded(order: seq<nat>, n: nat)
    requires Distinct(order) && forall k :: 0 <= k < |order| ==> order[k] < n
    ensures |order| <= n
    decreases n
  {
    assert order != [] ==> 0 <= order[0] < n;
    if n > 0 {
      if n - 1 in order {
        var p :| 0 <= p < |order| && order[p] == n - 1;
        Bounded(Skip(order, p), n - 1);
      } else {
        assert forall k :: 0 <= k < |order| ==> order[k] in order;
        Bounded(order, n - 1);
      }
    }
  }

  /** So `n` of them are all of them. */
  lemma {:induction false} Onto(order: seq<nat>, t: nat)
    requires Distinct(order) && t < |order|
    requires forall k :: 0 <= k < |order| ==> order[k] < |order|
    ensures t in order
  {
    if t !in order {
      assert forall k :: 0 <= k < |order| ==> order[k] in order;
      Bounded(order + [t], |order|);
    }
  }

  lemma {:induction false} SkipCounts<T>(s: seq<T>, p: nat)
    requires p < |s|
    ensures multiset(s) == multiset(Skip(s, p)) + multiset{s[p]}
    ensures multiset(Skip(s, p)) == multiset(s) - multiset{s[p]}
  {
    assert s == s[..p] + [s[p]] + s[p + 1..];
  }

  lemma {:induction false} SkipThrough<T>(s: seq<T>, order: seq<nat>, p: nat)
    requires Distinct(order) && |order| == |s| && forall k :: 0 <= k < |order| ==> order[k] < |s|
    requires p < |order| && order[p] == |s| - 1
    ensures Skip(s, |s| - 1) == s[..|s| - 1] && forall k :: 0 <= k < |order| - 1 ==> Skip(order, p)[k] < |s| - 1
    ensures Skip(Through(s, order), p) == Through(s[..|s| - 1], Skip(order, p))
  {
  }

  /** Reading a list through all its positions, each once, rearranges it. */
  lemma {:induction false} Rearranged<T>(s: seq<T>, order: seq<nat>)
    requires Distinct(order) && |order| == |s| && forall k :: 0 <= k < |order| ==> order[k] < |s|
    ensures multiset(Through(s, order)) == multiset(s)
    decreases |s|
  {
    if s == [] {
      assert Through(s, order) == s;
    } else {
      var n := |s| - 1;
      Onto(order, n);
      var p :| 0 <= p < |order| && order[p] == n;
      SkipThrough(s, order, p);
      Rearranged(s[..n], Skip(order, p));
      SkipCounts(Through(s, order), p);
      SkipCounts(s, n);
    }
  }
}
