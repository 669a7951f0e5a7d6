/** The selection rule of `enumerate`: subset number `i` of a listing holds
    the entries whose index `j` is a set bit of `i`. */
module Subsets {
  import opened Words

  /** `1 << k` for the small `k` that `enumerate` shifts by. */
  function Pow2(k: nat): (p: nat)
    ensures p >= 1
  {
    if k == 0 then 1 else 2 * Pow2(k - 1)
  }

  /** Bit `j` of a non-negative `int`, Java's `(i & (1 << j)) > 0` for
      `j < 31`: the low bit after `j` halvings. */
  predicate IntBitSet(i: nat, j: nat)
  {
    if j == 0 then i % 2 == 1 else IntBitSet(i / 2, j - 1)
  }

  /** The entries `o[j]`, `j < k`, whose bit `j` is set in `i`, in order. */
  function Selection(o: seq<int>, i: nat, k: nat): (l: seq<int>)
    requires k <= |o|
    ensures |l| <= k
  {
    if k == 0 then []
    else Selection(o, i, k - 1) + (if IntBitSet(i, k - 1) then [o[k - 1]] else [])
  }

  /** An entry is selected exactly when its index is a set bit of `i`. */
  lemma {:induction false} SelectionMembers(o: seq<int>, i: nat, k: nat, x: int)
    requires k <= |o|
    ensures x in Selection(o, i, k) <==> exists t :: 0 <= t < k && IntBitSet(i, t) && o[t] == x
  {
    if k > 0 {
      SelectionMembers(o, i, k - 1, x);
    }
  }

  /** With distinct entries, entry `t` is selected exactly when bit `t` is set. */
  lemma SelectionHas(o: seq<int>, i: nat, k: nat, t: nat)
    requires k <= |o| && t < k && Ascending(o)
    ensures o[t] in Selection(o, i, k) <==> IntBitSet(i, t)
  {
    SelectionMembers(o, i, k, o[t]);
  }

  /** Selecting from an ascending listing gives an ascending list. */
  lemma {:induction false} SelectionAscending(o: seq<int>, i: nat, k: nat)
    requires k <= |o| && Ascending(o)
    ensures Ascending(Selection(o, i, k))
  {
    if k > 0 {
      SelectionAscending(o, i, k - 1);
      var l := Selection(o, i, k - 1);
      forall m | 0 <= m < |l|
        ensures l[m] < o[k - 1]
      {
        SelectionMembers(o, i, k - 1, l[m]);
      }
    }
  }

  /** A bit where two different numbers below `2^n` differ. */
  function DifferingBit(i: nat, i2: nat, n: nat): (j: nat)
    requires 1 <= n && i < Pow2(n) && i2 < Pow2(n) && i != i2
    ensures j < n && IntBitSet(i, j) != IntBitSet(i2, j)
  {
    if i % 2 != i2 % 2 then 0 else 1 + DifferingBit(i / 2, i2 / 2, n - 1)
  }

  /** Different subset numbers select different subsets. */
  lemma SelectionsDistinct(o: seq<int>, i: nat, i2: nat)
    requires Ascending(o) && 1 <= |o| && i < Pow2(|o|) && i2 < Pow2(|o|) && i != i2
    ensures Selection(o, i, |o|) != Selection(o, i2, |o|)
  {
    var j := DifferingBit(i, i2, |o|);
    SelectionHas(o, i, |o|, j);
    SelectionHas(o, i2, |o|, j);
  }

  /** The subset number of `S`: bit `t` set exactly when `o[t]` is in `S`. */
  function Code(o: seq<int>, S: set<int>): (c: nat)
    ensures c < Pow2(|o|)
  {
    if o == [] then 0 else (if o[0] in S then 1 else 0) + 2 * Code(o[1..], S)
  }

  lemma {:induction false} CodeBits(o: seq<int>, S: set<int>, t: nat)
    requires t < |o|
    ensures IntBitSet(Code(o, S), t) <==> o[t] in S
  {
    if t > 0 {
      CodeBits(o[1..], S, t - 1);
    }
  }

  /** Every subset of the listed numbers is selected by some number below
      `2^|o|`, namely its code. */
  lemma SelectionComplete(o: seq<int>, S: set<int>)
    requires forall x :: x in S ==> x in o
    ensures Code(o, S) < Pow2(|o|)
    ensures (set x | x in Selection(o, Code(o, S), |o|)) == S
  {
    var c := Code(o, S);
    forall x
      ensures x in Selection(o, c, |o|) <==> x in S
    {
      SelectionMembers(o, c, |o|, x);
      if x in S {
        var t :| 0 <= t < |o| && o[t] == x;
        CodeBits(o, S, t);
      } else {
        forall t | 0 <= t < |o| && o[t] == x
          ensures !IntBitSet(c, t)
        {
          CodeBits(o, S, t);
        }
      }
    }
  }

  /** Subset 0 is empty and subset `2^k - 1` takes every entry. */
  lemma {:induction false} SelectionExtremes(o: seq<int>, k: nat)
    requires k <= |o|
    ensures Selection(o, 0, k) == []
    ensures Selection(o, Pow2(k) - 1, k) == o[..k]
  {
    if k > 0 {
      SelectionExtremes(o, k - 1);
      var full, half := Pow2(k) - 1, Pow2(k - 1) - 1;
      AllOnes(k, k - 1);
      forall t | 0 <= t < k - 1
        ensures IntBitSet(full, t) == IntBitSet(half, t)
      {
        AllOnes(k, t);
        AllOnes(k - 1, t);
      }
      SelectionAgrees(o, full, half, k - 1);
      ZeroBits(k - 1);
    }
  }

  /** Every bit below `k` of `2^k - 1` is set. */
  lemma {:induction false} AllOnes(k: nat, t: nat)
    requires t < k
    ensures IntBitSet(Pow2(k) - 1, t)
  {
    if t > 0 {
      AllOnes(k - 1, t - 1);
    }
  }

  lemma {:induction false} ZeroBits(t: nat)
    ensures !IntBitSet(0, t)
  {
    if t > 0 {
      ZeroBits(t - 1);
    }
  }

  /** Numbers with the same bits below `k` select the same entries. */
  lemma {:induction false} SelectionAgrees(o: seq<int>, i: nat, i2: nat, k: nat)
    requires k <= |o|
    requires forall t :: 0 <= t < k ==> IntBitSet(i, t) == IntBitSet(i2, t)
    ensures Selection(o, i, k) == Selection(o, i2, k)
  {
    if k > 0 {
      SelectionAgrees(o, i, i2, k - 1);
    }
  }

  /** A table holding selection `i` at each index `i < 2^|o|` of an
      ascending listing lists every subset of the listing exactly once,
      each in ascending order. */
  lemma EnumerationFacts(o: seq<int>, subsets: seq<seq<int>>)
    requires Ascending(o) && |subsets| == Pow2(|o|)
    requires forall i :: 0 <= i < |subsets| ==> subsets[i] == Selection(o, i, |o|)
    ensures forall i, i2 :: 0 <= i < i2 < |subsets| ==> subsets[i] != subsets[i2]
    ensures forall i :: 0 <= i < |subsets| ==>
              Ascending(subsets[i]) && forall x :: x in subsets[i] ==> x in o
    ensures forall S: set<int> :: (forall x :: x in S ==> x in o) ==>
              Code(o, S) < |subsets| && (set x | x in subsets[Code(o, S)]) == S
  {
    forall i, i2 | 0 <= i < i2 < |subsets|
      ensures subsets[i] != subsets[i2]
    {
      SelectionsDistinct(o, i, i2);
    }
    forall i | 0 <= i < |subsets|
      ensures Ascending(subsets[i]) && forall x :: x in subsets[i] ==> x in o
    {
      SelectionAscending(o, i, |o|);
      forall x | x in subsets[i]
        ensures x in o
      {
        SelectionMembers(o, i, |o|, x);
      }
    }
    forall S: set<int> | forall x :: x in S ==> x in o
      ensures Code(o, S) < |subsets| && (set x | x in subsets[Code(o, S)]) == S
    {
      SelectionComplete(o, S);
    }
  }
}
