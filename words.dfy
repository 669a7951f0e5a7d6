/**
 * Java's 64-bit `long`, the word an `nSet` keeps its numbers in, with the
 * bitwise operators the class applies to words, the population counts
 * that `set_size` computes, and the numbers a store of words denotes.
 */
module Words {
  // ---------------------------------------------------------------------
  // Words and the operators on them.
  // ---------------------------------------------------------------------

  /** A Java `long` as its 64 bits, least significant first: `w[j]` is
      Java's `((w >>> j) & 1) == 1`. */
  type Long = w: seq<bool> | |w| == 64 witness seq(64, _ => false)

  /** The `long` 0. */
  function Zero(): Long
  {
    seq(64, _ => false)
  }

  /** `a | b` */
  function Or(a: Long, b: Long): Long
  {
    seq(64, i requires 0 <= i < 64 => a[i] || b[i])
  }

  /** `a & b` */
  function And(a: Long, b: Long): Long
  {
    seq(64, i requires 0 <= i < 64 => a[i] && b[i])
  }

  /** `a ^ b` */
  function Xor(a: Long, b: Long): Long
  {
    seq(64, i requires 0 <= i < 64 => a[i] != b[i])
  }

  /** `~a` */
  function Not(a: Long): Long
  {
    seq(64, i requires 0 <= i < 64 => !a[i])
  }

  /** `(long) 1 << j` for `0 <= j < 64`: bit `j` alone. */
  function LongBit(j: nat): Long
    requires j < 64
  {
    seq(64, i => i == j)
  }

  /** `1 << j` evaluated in 32-bit `int`: Java reduces the shift count of
      an `int` shift mod 32, so bit `j % 32` alone of 32 bits. */
  function IntBit(j: nat): (v: seq<bool>)
    ensures |v| == 32
  {
    seq(32, i => i == j % 32)
  }

  /** An `int` used where a `long` is expected: Java sign-extends, so
      bit 31 of the `int` is copied into bits 32..63. */
  function Widen(v: seq<bool>): Long
    requires |v| == 32
  {
    seq(64, i requires 0 <= i < 64 => if i < 32 then v[i] else v[31])
  }

  /** `(1L << s) - 1` for `0 <= s < 64`: the bits below `s`. */
  function LowMask(s: nat): Long
    requires s < 64
  {
    seq(64, i => i < s)
  }

  /** A sign-extended `int` mask `1 << j` holds bit `j % 32` alone when that
      is below 31; at 31 the sign bit is set and copied to bits 31..63. */
  lemma WidenedIntBit(j: nat, k: nat)
    requires k < 64
    ensures Widen(IntBit(j))[k] == if j % 32 == 31 then k >= 31 else k == j % 32
  {}

  // ---------------------------------------------------------------------
  // Population counts: what `set_size` computes.
  // ---------------------------------------------------------------------

  /** Number of set bits among bits `0 .. k-1` of `w`. */
  function BitCount(w: Long, k: nat): (c: nat)
    requires k <= 64
    ensures c <= k
  {
    if k == 0 then 0 else BitCount(w, k - 1) + (if w[k - 1] then 1 else 0)
  }

  /** Number of set bits of `w`. */
  function Popcount(w: Long): nat
  {
    BitCount(w, 64)
  }

  /** Number of set bits over all words of a store. */
  function CountWords(s: seq<Long>): nat
  {
    if s == [] then 0 else CountWords(s[..|s| - 1]) + Popcount(s[|s| - 1])
  }

  /** Setting one bit that was clear adds one to every count that covers it. */
  lemma {:induction false} BitCountGains(a: Long, b: Long, j: nat, k: nat)
    requires j < 64 && k <= 64
    requires !a[j] && b[j]
    requires forall i :: 0 <= i < 64 && i != j ==> a[i] == b[i]
    ensures BitCount(b, k) == BitCount(a, k) + (if j < k then 1 else 0)
  {
    if k > 0 {
      BitCountGains(a, b, j, k - 1);
    }
  }

  /** `w | (1L << j)` counts one more than `w` exactly when bit `j` was clear. */
  lemma PopcountSetBit(w: Long, j: nat)
    requires j < 64
    ensures Popcount(Or(w, LongBit(j))) == Popcount(w) + (if w[j] then 0 else 1)
  {
    var v := Or(w, LongBit(j));
    if w[j] {
      assert v == w;
    } else {
      BitCountGains(w, v, j, 64);
    }
  }

  /** `w ^ (1L << j)` on a set bit `j` counts one less than `w`. */
  lemma PopcountClearBit(w: Long, j: nat)
    requires j < 64 && w[j]
    ensures Popcount(Xor(w, LongBit(j))) + 1 == Popcount(w)
  {
    BitCountGains(Xor(w, LongBit(j)), w, j, 64);
  }

  /** A count never exceeds a count over more bits. */
  lemma {:induction false} BitCountGrows(w: Long, j: nat, k: nat)
    requires j <= k <= 64
    ensures BitCount(w, j) <= BitCount(w, k)
    decreases k - j
  {
    if j < k {
      BitCountGrows(w, j, k - 1);
    }
  }

  lemma {:induction false} BitCountOfZero(k: nat)
    requires k <= 64
    ensures BitCount(Zero(), k) == 0
  {
    if k > 0 {
      BitCountOfZero(k - 1);
    }
  }

  /** Replacing one word changes the store's count by the change of that word's. */
  lemma {:induction false} CountWordsUpdate(s: seq<Long>, i: nat, v: Long)
    requires i < |s|
    ensures CountWords(s[i := v]) + Popcount(s[i]) == CountWords(s) + Popcount(v)
  {
    var t := s[i := v];
    var n := |s| - 1;
    assert t[..n] == if i < n then s[..n][i := v] else s[..n];
    if i < n {
      CountWordsUpdate(s[..n], i, v);
    }
  }

  lemma CountWordsPrefix(s: seq<Long>, i: nat)
    requires i < |s|
    ensures CountWords(s[..i + 1]) == CountWords(s[..i]) + Popcount(s[i])
  {
    assert s[..i + 1][..i] == s[..i];
  }

  /** A prefix of a store counts no more than the whole store. */
  lemma {:induction false} CountWordsGrows(s: seq<Long>, i: nat)
    requires i <= |s|
    ensures CountWords(s[..i]) <= CountWords(s)
    decreases |s| - i
  {
    if i < |s| {
      CountWordsPrefix(s, i);
      CountWordsGrows(s, i + 1);
    } else {
      assert s[..i] == s;
    }
  }

  /** A store of zero words counts zero. */
  lemma {:induction false} CountWordsOfZeros(s: seq<Long>)
    requires forall i :: 0 <= i < |s| ==> s[i] == Zero()
    ensures CountWords(s) == 0
  {
    if s != [] {
      CountWordsOfZeros(s[..|s| - 1]);
      BitCountOfZero(64);
    }
  }

  // ---------------------------------------------------------------------
  // The numbers a store denotes: `x` is a member when bit `x % 64` of
  // word `x / 64` is set (the class comment's `64i + j = x`).
  // ---------------------------------------------------------------------

  ghost function Members(s: seq<Long>): set<int>
  {
    set x | 0 <= x < 64 * |s| && s[x / 64][x % 64]
  }

  /** Position `j` of word `i` is the member `64 * i + j`. */
  lemma MemberAt(s: seq<Long>, i: nat, j: nat)
    requires i < |s| && j < 64
    ensures 64 * i + j in Members(s) <==> s[i][j]
  {
    var x := 64 * i + j;
    assert x / 64 == i && x % 64 == j;
  }

  /** Two stores of the same length with the same members are equal. */
  lemma MembersDetermineStore(a: seq<Long>, b: seq<Long>)
    requires |a| == |b| && Members(a) == Members(b)
    ensures a == b
  {
    forall i | 0 <= i < |a|
      ensures a[i] == b[i]
    {
      forall j | 0 <= j < 64
        ensures a[i][j] == b[i][j]
      {
        MemberAt(a, i, j);
        MemberAt(b, i, j);
      }
    }
  }

  /** Stores that agree on their first `n` words have the same members
      below `64 * n`. */
  lemma MembersOfPrefix(s: seq<Long>, n: nat, x: int)
    requires n <= |s| && 0 <= x < 64 * n
    ensures x in Members(s) <==> x in Members(s[..n])
  {}

  /** A store of zero words denotes the empty set. */
  lemma MembersOfZeros(s: seq<Long>)
    requires forall i :: 0 <= i < |s| ==> s[i] == Zero()
    ensures Members(s) == {}
  {
    forall x | 0 <= x < 64 * |s|
      ensures x !in Members(s)
    {
      assert s[x / 64] == Zero();
    }
  }

  // ---------------------------------------------------------------------
  // The ascending listing of the members: what `toArray` fills in.
  // ---------------------------------------------------------------------

  /** Members `base + i` for the set bits `i < k` of `w`, ascending. */
  function WordListing(w: Long, base: int, k: nat): (l: seq<int>)
    requires k <= 64
    ensures |l| == BitCount(w, k)
    ensures forall i :: 0 <= i < |l| ==> base <= l[i] < base + k
  {
    if k == 0 then []
    else WordListing(w, base, k - 1) + (if w[k - 1] then [base + k - 1] else [])
  }

  /** Members of the whole store, word after word. */
  function Listing(s: seq<Long>): (l: seq<int>)
    ensures |l| == CountWords(s)
    ensures forall i :: 0 <= i < |l| ==> 0 <= l[i] < 64 * |s|
  {
    if s == [] then []
    else Listing(s[..|s| - 1]) + WordListing(s[|s| - 1], 64 * (|s| - 1), 64)
  }

  /** What `toArray` returns when the cached size `n` is at least the
      number of set bits: the listing, then zeros up to length `n`, since
      `new int[n]` starts out zeroed. */
  function PaddedListing(s: seq<Long>, n: int): (l: seq<int>)
    requires CountWords(s) <= n
    ensures |l| == n
  {
    Listing(s) + seq(n - CountWords(s), _ => 0)
  }

  /** The padded listing holds the members, and 0 when there is padding. */
  lemma PaddedListingMembers(s: seq<Long>, n: int, x: int)
    requires CountWords(s) <= n
    ensures x in PaddedListing(s, n) <==> x in Members(s) || (x == 0 && CountWords(s) < n)
  {
    var z := seq(n - CountWords(s), _ => 0);
    assert PaddedListing(s, n) == Listing(s) + z;
    ListingMembers(s, x);
    if x == 0 && CountWords(s) < n {
      assert z[0] == 0;
    }
  }

  predicate Ascending(l: seq<int>)
  {
    forall i, j :: 0 <= i < j < |l| ==> l[i] < l[j]
  }

  lemma {:induction false} WordListingAscending(w: Long, base: int, k: nat)
    requires k <= 64
    ensures Ascending(WordListing(w, base, k))
  {
    if k > 0 {
      WordListingAscending(w, base, k - 1);
    }
  }

  lemma {:induction false} WordListingMembers(w: Long, base: int, k: nat, x: int)
    requires k <= 64
    ensures x in WordListing(w, base, k) <==> base <= x < base + k && w[x - base]
  {
    if k > 0 {
      WordListingMembers(w, base, k - 1, x);
    }
  }

  /** The listing is strictly ascending. */
  lemma {:induction false} ListingAscending(s: seq<Long>)
    ensures Ascending(Listing(s))
  {
    if s != [] {
      var n := |s| - 1;
      ListingAscending(s[..n]);
      WordListingAscending(s[n], 64 * n, 64);
    }
  }

  /** The listing holds exactly the members. */
  lemma {:induction false} ListingMembers(s: seq<Long>, x: int)
    ensures x in Listing(s) <==> x in Members(s)
  {
    if s != [] {
      var n := |s| - 1;
      ListingMembers(s[..n], x);
      WordListingMembers(s[n], 64 * n, 64, x);
      assert Listing(s) == Listing(s[..n]) + WordListing(s[n], 64 * n, 64);
      if 0 <= x < 64 * n {
        MembersOfPrefix(s, n, x);
        assert x !in WordListing(s[n], 64 * n, 64);
      } else if 64 * n <= x < 64 * |s| {
        MemberAt(s, n, x - 64 * n);
        assert x !in Listing(s[..n]);
      } else {
        assert x !in Members(s);
      }
    }
  }

  lemma {:induction false} AscendingCardinality(l: seq<int>)
    requires Ascending(l)
    ensures |set x | x in l| == |l|
  {
    if l != [] {
      var n := |l| - 1;
      AscendingCardinality(l[..n]);
      assert (set x | x in l) == (set x | x in l[..n]) + {l[n]};
      assert l[n] !in l[..n];
    }
  }

  /** The cardinality of the denoted set is the population count. */
  lemma MembersCardinality(s: seq<Long>)
    ensures |Members(s)| == CountWords(s)
  {
    ListingAscending(s);
    AscendingCardinality(Listing(s));
    forall x | true
      ensures x in Members(s) <==> x in Listing(s)
    {
      ListingMembers(s, x);
    }
    assert Members(s) == set x | x in Listing(s);
  }
}
