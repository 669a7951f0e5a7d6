/** Specification functions for the word arrays the operations of `nSet`
    build, with what each means for the numbers the array denotes. Next to
    the source's own word computations stand the ones its comments
    describe, with lemmas saying where the two agree and where they part. */
module Stores {
  import opened Words

  // ---------------------------------------------------------------------
  // Sizing and indexing.
  // ---------------------------------------------------------------------

  /** The constructor's `Max`: its argument, raised to 1 when it is not positive. */
  function ClampMax(n: int): (m: int)
    ensures m >= 1 && m >= n
    ensures n >= 1 ==> m == n
  {
    if n <= 0 then 1 else n
  }

  /** `(n >> 6) + 1`, the constructor's `n_long`; Java's `>>` on `int`
      rounds toward minus infinity, as Dafny's `/` does for a positive
      divisor. */
  function WordsFor(n: int): int
  {
    n / 64 + 1
  }

  /** Java's `x >> 6` for a number in range. */
  function WordIndex(x: int): int
    requires 0 <= x
  {
    x / 64
  }

  /** Java's `x - ((x >> 6) << 6)`: the position of `x` inside its word. */
  function BitOffset(x: int): (j: nat)
    requires 0 <= x
    ensures j < 64 && j == x % 64
    ensures 64 * WordIndex(x) + j == x
  {
    x - WordIndex(x) * 64
  }

  predicate InRange(x: int, max: int)
  {
    0 <= x <= max
  }

  /** The numbers `0 .. max`: the universe of a set with that `Max`. The
      bounds are spelled out for finiteness; `InRange` is the trigger. */
  ghost function Range(max: int): set<int>
  {
    set x | 0 <= x <= max && InRange(x, max)
  }

  /** For a non-negative argument the count of words taken from `n` is the
      count for the clamped `Max`, and every number of `0 .. Max` has its
      word in the store. */
  lemma ClampKeepsWords(n: int, x: int)
    requires n >= 0
    ensures WordsFor(ClampMax(n)) == WordsFor(n)
    ensures 0 <= x <= ClampMax(n) ==> WordIndex(x) < WordsFor(n)
  {}

  /** A negative argument gives `Max` 1 but `n_long` 0 for `-64 <= n < 0`
      (a store with no word for 0 or 1), and a negative array size below. */
  lemma NegativeArgument()
    ensures ClampMax(-1) == 1 && WordsFor(-1) == 0
    ensures WordsFor(-65) < 0
  {}

  /** Sized from the clamped `Max` instead, the store always has a word and
      a word for every number of `0 .. Max`, whatever the argument. */
  lemma ClampedWordsCover(n: int, x: int)
    ensures WordsFor(ClampMax(n)) >= 1
    ensures 0 <= x <= ClampMax(n) ==> WordIndex(x) < WordsFor(ClampMax(n))
  {}

  /** The word count of the larger of two maxima is the larger word count. */
  lemma WordsForOfMax(m: int, n: int)
    ensures WordsFor(if m >= n then m else n) ==
            if WordsFor(m) >= WordsFor(n) then WordsFor(m) else WordsFor(n)
  {}

  /** A store of `n` zero words, as `new long[n]` holds. */
  function Zeros(n: nat): (r: seq<Long>)
    ensures |r| == n
  {
    seq(n, _ => Zero())
  }

  // ---------------------------------------------------------------------
  // Single-element updates: `add` and `delete`.
  // ---------------------------------------------------------------------

  /** The store after `add`: word `x / 64` ORed with `1L << (x % 64)`. */
  function WithBit(s: seq<Long>, x: int): (r: seq<Long>)
    requires 0 <= x < 64 * |s|
    ensures |r| == |s|
  {
    s[WordIndex(x) := Or(s[WordIndex(x)], LongBit(BitOffset(x)))]
  }

  /** Setting the bit of `x` adds exactly `x` to the denoted set. */
  lemma WithBitMembers(s: seq<Long>, x: int)
    requires 0 <= x < 64 * |s|
    ensures Members(WithBit(s, x)) == Members(s) + {x}
  {
    var r := WithBit(s, x);
    forall y | 0 <= y < 64 * |s|
      ensures y in Members(r) <==> y in Members(s) || y == x
    {
      if y / 64 == x / 64 && y % 64 == x % 64 {
        assert y == x;
      }
    }
  }

  /** Setting the bit of `x` adds one to the population count exactly when
      `x` was absent. */
  lemma WithBitCount(s: seq<Long>, x: int)
    requires 0 <= x < 64 * |s|
    ensures CountWords(WithBit(s, x)) == CountWords(s) + (if x in Members(s) then 0 else 1)
  {
    var i, j := WordIndex(x), BitOffset(x);
    CountWordsUpdate(s, i, Or(s[i], LongBit(j)));
    PopcountSetBit(s[i], j);
    MemberAt(s, i, j);
  }

  /** Setting a bit that is already set leaves the store as it was. */
  lemma WithBitPresent(s: seq<Long>, x: int)
    requires 0 <= x < 64 * |s| && x in Members(s)
    ensures WithBit(s, x) == s
  {
    var i, j := WordIndex(x), BitOffset(x);
    MemberAt(s, i, j);
    assert Or(s[i], LongBit(j)) == s[i];
  }

  /** Adding twice is adding once. */
  lemma WithBitIdempotent(s: seq<Long>, x: int)
    requires 0 <= x < 64 * |s|
    ensures WithBit(WithBit(s, x), x) == WithBit(s, x)
  {
    WithBitMembers(s, x);
    WithBitPresent(WithBit(s, x), x);
  }

  /** The store after `delete` as the source computes it: word `x / 64`
      XORed with the `int` mask `1 << (x % 64)` widened to `long`. */
  function Toggled(s: seq<Long>, x: int): (r: seq<Long>)
    requires 0 <= x < 64 * |s|
    ensures |r| == |s|
  {
    s[WordIndex(x) := Xor(s[WordIndex(x)], Widen(IntBit(BitOffset(x))))]
  }

  /** The store a deletion is meant to leave: word `x / 64` XORed with the
      `long` mask `1L << (x % 64)`, which flips the bit of `x` alone. */
  function Cleared(s: seq<Long>, x: int): (r: seq<Long>)
    requires 0 <= x < 64 * |s|
    ensures |r| == |s|
  {
    s[WordIndex(x) := Xor(s[WordIndex(x)], LongBit(BitOffset(x)))]
  }

  /** Flipping the bit of a present `x` removes exactly `x` from the set
      and one from the population count. */
  lemma ClearedMembers(s: seq<Long>, x: int)
    requires 0 <= x < 64 * |s| && x in Members(s)
    ensures Members(Cleared(s, x)) == Members(s) - {x}
    ensures CountWords(Cleared(s, x)) + 1 == CountWords(s)
  {
    var i, j := WordIndex(x), BitOffset(x);
    var r := Cleared(s, x);
    forall y | 0 <= y < 64 * |s|
      ensures y in Members(r) <==> y in Members(s) && y != x
    {
      if y / 64 == x / 64 && y % 64 == x % 64 {
        assert y == x;
      }
    }
    MemberAt(s, i, j);
    CountWordsUpdate(s, i, Xor(s[i], LongBit(j)));
    PopcountClearBit(s[i], j);
  }

  /** The source's toggle is the intended one exactly when `x` sits below
      offset 31 in its word: there the `int` mask equals the `long` one,
      elsewhere it differs at bit 31 or at bit `x % 64 - 32`. */
  lemma ToggledIsCleared(s: seq<Long>, x: int)
    requires 0 <= x < 64 * |s|
    ensures Toggled(s, x) == Cleared(s, x) <==> x % 64 < 31
  {
    var i, j := WordIndex(x), BitOffset(x);
    if j < 31 {
      assert Widen(IntBit(j)) == LongBit(j);
    } else {
      var k := if j == 31 || j == 63 then 32 else j - 32;
      assert Toggled(s, x)[i][k] != Cleared(s, x)[i][k];
    }
  }

  /** Deleting 32 from `{32}` as the source does flips bit 0 instead of
      bit 32: the result still holds 32 and has gained 0. */
  lemma DeleteThirtyTwo()
    ensures 32 in Members([LongBit(32)])
    ensures Members(Toggled([LongBit(32)], 32)) == {0, 32}
  {
    var s := [LongBit(32)];
    var w := Xor(LongBit(32), Widen(IntBit(32)));
    assert Toggled(s, 32) == [w];
    MemberAt(s, 0, 32);
    forall y | 0 <= y < 64
      ensures y in Members([w]) <==> y == 0 || y == 32
    {
      WidenedIntBit(32, y);
      MemberAt([w], 0, y);
    }
  }

  // ---------------------------------------------------------------------
  // Whole-store results: `union`, `intersect`, `complement`, `subtract`.
  // ---------------------------------------------------------------------

  /** The words `union` stores in a result of `len` words: the OR of the
      two operands over the receiver's words, zero above them. */
  function UnionStore(a: seq<Long>, b: seq<Long>, len: nat): (r: seq<Long>)
    requires |a| <= |b| && |a| <= len
    ensures |r| == len
  {
    seq(len, k => UnionWord(a, b, k))
  }

  /** Word `k` of `union`'s result. */
  function UnionWord(a: seq<Long>, b: seq<Long>, k: int): Long
    requires |a| <= |b|
  {
    if 0 <= k < |a| then Or(a[k], b[k]) else Zero()
  }

  /** The union's members: all of the receiver's, and those of `X` that lie
      in the receiver's words; `X`'s members above them are lost. */
  lemma UnionMembers(a: seq<Long>, b: seq<Long>, len: nat)
    requires |a| <= |b| && |a| <= len
    ensures Members(UnionStore(a, b, len)) == Members(a) + Members(b[..|a|])
  {
    var r := UnionStore(a, b, len);
    forall x | 0 <= x < 64 * len
      ensures x in Members(r) <==> x in Members(a) || x in Members(b[..|a|])
    {}
  }

  /** Word `k` of a store read as if zero-extended: 0 past its end. */
  function WordAt(s: seq<Long>, k: int): Long
  {
    if 0 <= k < |s| then s[k] else Zero()
  }

  /** The union a result of `len` words is meant to hold: the OR of both
      operands' words, each zero-extended. */
  function UnionExtended(a: seq<Long>, b: seq<Long>, len: nat): (r: seq<Long>)
    ensures |r| == len
  {
    seq(len, k requires 0 <= k < len => Or(WordAt(a, k), WordAt(b, k)))
  }

  /** The zero-extended union denotes the set union when both operands fit. */
  lemma UnionExtendedMembers(a: seq<Long>, b: seq<Long>, len: nat)
    requires |a| <= len && |b| <= len
    ensures Members(UnionExtended(a, b, len)) == Members(a) + Members(b)
  {
    var r := UnionExtended(a, b, len);
    forall x | 0 <= x < 64 * len
      ensures x in Members(r) <==> x in Members(a) || x in Members(b)
    {}
  }

  /** With operands of the same width the source's union is the intended one. */
  lemma UnionSameWidth(a: seq<Long>, b: seq<Long>, len: nat)
    requires |a| == |b| <= len
    ensures UnionStore(a, b, len) == UnionExtended(a, b, len)
  {
    assert Or(Zero(), Zero()) == Zero();
  }

  /** `{} ∪ {100}` with receiver `Max` 10 and `X.Max` 100: the result has two
      words but the loop never copies `X`'s second one, so 100 is lost. */
  lemma UnionLosesHundred()
    ensures 100 in Members([Zero(), LongBit(36)])
    ensures 100 !in Members(UnionStore([Zero()], [Zero(), LongBit(36)], 2))
  {
    MemberAt([Zero(), LongBit(36)], 1, 36);
    MemberAt(UnionStore([Zero()], [Zero(), LongBit(36)], 2), 1, 36);
  }

  /** The words `intersect` stores: AND over the receiver's words, zero above. */
  function IntersectStore(a: seq<Long>, b: seq<Long>, len: nat): (r: seq<Long>)
    requires |a| <= |b| && |a| <= len
    ensures |r| == len
  {
    seq(len, k => IntersectWord(a, b, k))
  }

  /** Word `k` of `intersect`'s result. */
  function IntersectWord(a: seq<Long>, b: seq<Long>, k: int): Long
    requires |a| <= |b|
  {
    if 0 <= k < |a| then And(a[k], b[k]) else Zero()
  }

  /** The intersection denotes the common members. */
  lemma IntersectMembers(a: seq<Long>, b: seq<Long>, len: nat)
    requires |a| <= |b| && |a| <= len
    ensures Members(IntersectStore(a, b, len)) == Members(a) * Members(b)
  {
    var r := IntersectStore(a, b, len);
    forall x | 0 <= x < 64 * len
      ensures x in Members(r) <==> x in Members(a) && x in Members(b)
    {}
  }

  /** With equal word counts `intersect` gives the same words either way round. */
  lemma IntersectCommutes(a: seq<Long>, b: seq<Long>, len: nat)
    requires |a| == |b| <= len
    ensures IntersectStore(a, b, len) == IntersectStore(b, a, len)
  {
    var l, r := IntersectStore(a, b, len), IntersectStore(b, a, len);
    forall k | 0 <= k < len
      ensures l[k] == r[k]
    {
      if k < |a| {
        assert And(a[k], b[k]) == And(b[k], a[k]);
      }
    }
  }

  /** Java's `int` arithmetic: the value reduced into `[-2^31, 2^31)`. */
  function WrapInt(v: int): int
  {
    (v + 0x8000_0000) % 0x1_0000_0000 - 0x8000_0000
  }

  /** The shift count of `(1L << (64L - (n_long * store.length - Max))) - 1`:
      the product and the difference are taken in `int`, and a `long` shift
      uses the low six bits of its count, the remainder mod 64. */
  function ComplementShift(nLong: int, length: int, max: int): (s: nat)
    ensures s < 64
  {
    (64 - WrapInt(WrapInt(nLong * length) - max)) % 64
  }

  /** The words `complement` stores: every word inverted, then word
      `Max / 64` (the last one) ANDed with the mask of `ComplementShift`,
      with `store.length == n_long`. */
  function ComplementStore(a: seq<Long>, max: int): (r: seq<Long>)
    requires 0 <= max && |a| == WordsFor(max)
    ensures |r| == |a|
  {
    seq(|a|, k requires 0 <= k < |a| =>
      if k == max / 64 then And(Not(a[k]), LowMask(ComplementShift(|a|, |a|, max)))
      else Not(a[k]))
  }

  /** The complement's members: the non-members in the receiver's words,
      except that in the last word only offsets below the shift survive. */
  lemma ComplementMembers(a: seq<Long>, max: int, x: int)
    requires 0 <= max && |a| == WordsFor(max)
    ensures x in Members(ComplementStore(a, max)) <==>
            0 <= x < 64 * |a| && x !in Members(a) &&
            (x / 64 < max / 64 || x % 64 < ComplementShift(|a|, |a|, max))
  {}

  /** Each word of the complement is a bitwise part of the inverted word. */
  lemma ComplementWithinNot(a: seq<Long>, max: int)
    requires 0 <= max && |a| == WordsFor(max)
    ensures forall k, i :: 0 <= k < |a| && 0 <= i < 64 && ComplementStore(a, max)[k][i] ==> Not(a[k])[i]
  {}

  /** The bits `0 .. max % 64`: the part of word `max / 64` that holds
      numbers up to `max`. */
  function KeepMask(max: int): Long
    requires 0 <= max
  {
    seq(64, i => i <= max % 64)
  }

  /** The complement the class comment describes: every word inverted, and
      the last one cut to the positions up to `max`. */
  function ComplementIntended(a: seq<Long>, max: int): (r: seq<Long>)
    requires 0 <= max && |a| == WordsFor(max)
    ensures |r| == |a|
  {
    seq(|a|, k requires 0 <= k < |a| =>
      if k == max / 64 then And(Not(a[k]), KeepMask(max)) else Not(a[k]))
  }

  /** The intended complement denotes exactly the non-members in `0 .. max`. */
  lemma ComplementIntendedMembers(a: seq<Long>, max: int)
    requires 0 <= max && |a| == WordsFor(max)
    ensures Members(ComplementIntended(a, max)) == Range(max) - Members(a)
  {
    var r := ComplementIntended(a, max);
    forall x | x in Members(r)
      ensures 0 <= x <= max
    {
      assert x / 64 < max / 64 || x % 64 <= max % 64;
    }
  }

  /** `n * n + 1` is never a multiple of 4, let alone of 64. */
  lemma SquarePlusOne(n: int)
    ensures (n * n + 1) % 4 != 0
  {
    var q, r := n / 4, n % 4;
    assert n == 4 * q + r;
    assert n * n == 4 * (4 * q * q + 2 * q * r) + r * r;
  }

  lemma ModAddMultiple(v: int, n: int)
    ensures (v + 64 * n) % 64 == v % 64
  {
    var q := v / 64;
    assert v + 64 * n == 64 * (q + n) + v % 64;
  }

  /** Wrapping to `int` moves a value by a multiple of `2^32`, hence of 64:
      it never changes a count taken mod 64. */
  lemma WrapNeverShifts(c: int, v: int)
    ensures (c - WrapInt(v)) % 64 == (c - v) % 64
  {
    var q := (v + 0x8000_0000) / 0x1_0000_0000;
    assert v + 0x8000_0000 == 0x1_0000_0000 * q + (v + 0x8000_0000) % 0x1_0000_0000;
    assert c - WrapInt(v) == (c - v) + 64 * (0x400_0000 * q);
    ModAddMultiple(c - v, 0x400_0000 * q);
  }

  /** The mask's shift computed with `int` wrap-around is the one computed
      without it. */
  lemma ShiftIgnoresWrap(nLong: int, length: int, max: int)
    ensures ComplementShift(nLong, length, max) == (64 - (nLong * length - max)) % 64
  {
    var p := nLong * length;
    WrapNeverShifts(64, WrapInt(p) - max);
    assert 64 - (WrapInt(p) - max) == (64 + max) - WrapInt(p);
    WrapNeverShifts(64 + max, p);
    assert (64 + max) - p == 64 - (p - max);
  }

  /** A remainder `r + 1` of `r - p` mod 64 makes `p + 1` a multiple of 64. */
  lemma ShiftRemainder(p: int, r: int)
    ensures (r - p) % 64 == r + 1 ==> p + 1 == 64 * -((r - p) / 64)
  {
    var q := (r - p) / 64;
    assert r - p == 64 * q + (r - p) % 64;
  }

  lemma MultipleOfFour(k: int)
    ensures (4 * k) % 4 == 0
  {}

  /** With `p` standing for `n_long * n_long`, the unwrapped shift is
      `max % 64 + 1` only when `p + 1` is a multiple of 4. */
  lemma ShiftOfSquare(n: int, p: int, max: int)
    requires 0 <= max && n == WordsFor(max)
    ensures (64 - (p - max)) % 64 == max % 64 + 1 ==> (p + 1) % 4 == 0
  {
    var r := max % 64;
    assert 64 - (p - max) == (r - p) + 64 * n;
    ModAddMultiple(r - p, n);
    ShiftRemainder(p, r);
    MultipleOfFour(16 * -((r - p) / 64));
  }

  /** The source's mask shift is never the one that keeps `0 .. max % 64`:
      that would need `n_long * n_long + 1` to be a multiple of 64. */
  lemma ShiftNeverKeepsRange(max: int)
    requires 0 <= max
    ensures ComplementShift(WordsFor(max), WordsFor(max), max) != max % 64 + 1
  {
    var n := WordsFor(max);
    SquarePlusOne(n);
    ShiftIgnoresWrap(n, n, max);
    ShiftOfSquare(n, n * n, max);
  }

  /** For every `Max` the source's complement of the empty set is not `0 .. Max`:
      when the shift falls short, number `64 * (n_long - 1) + shift` is
      missing; when it overshoots, `Max + 1` is present. */
  lemma ComplementOfEmptyIsWrong(max: int)
    requires 0 <= max
    ensures Members(ComplementStore(Zeros(WordsFor(max)), max)) != Range(max)
  {
    var n := WordsFor(max);
    var a := Zeros(n);
    var s := ComplementShift(n, n, max);
    ShiftNeverKeepsRange(max);
    if s <= max % 64 {
      var x := 64 * (n - 1) + s;
      ComplementMembers(a, max, x);
      assert x in Range(max);
    } else {
      var x := max + 1;
      ComplementMembers(a, max, x);
      MembersOfZeros(a);
      assert x !in Range(max);
    }
  }

  /** The complement of the empty set with `Max` 1000: the shift is 40, so
      the mask keeps bits 0..39 of word 15 and 1000 (bit 40) is missing. */
  lemma ComplementLosesThousand()
    ensures ComplementShift(16, 16, 1000) == 40
    ensures 1000 !in Members(ComplementStore(Zeros(16), 1000))
  {
    ShiftIgnoresWrap(16, 16, 1000);
    ComplementMembers(Zeros(16), 1000, 1000);
  }

  /** With `Max` 64 the shift is 60: the complement of the empty set keeps
      bits 0..59 of word 1, so it holds 100, a number above `Max`. */
  lemma ComplementKeepsPadding()
    ensures ComplementShift(2, 2, 64) == 60
    ensures 100 in Members(ComplementStore(Zeros(2), 64)) && 100 !in Range(64)
  {
    ShiftIgnoresWrap(2, 2, 64);
    ComplementMembers(Zeros(2), 64, 100);
    MemberAt(Zeros(2), 1, 36);
  }

  /** With `Max` 1 the shift is 0 and the mask is 0: the complement of
      any set, the empty one included, is empty instead of `{0, 1}` minus it. */
  lemma ComplementOfOneIsEmpty(a: seq<Long>)
    requires |a| == WordsFor(1)
    ensures ComplementShift(1, 1, 1) == 0
    ensures Members(ComplementStore(a, 1)) == {}
  {
    ShiftIgnoresWrap(1, 1, 1);
    var c := ComplementStore(a, 1);
    assert c[0] == And(Not(a[0]), LowMask(0)) == Zero();
    MembersOfZeros(c);
  }

  /** The words `subtract` stores: the receiver intersected with the
      complement of `X`. */
  function SubtractStore(a: seq<Long>, b: seq<Long>, bmax: int, len: nat): (r: seq<Long>)
    requires 0 <= bmax && |b| == WordsFor(bmax) && |a| <= |b| && |a| <= len
    ensures |r| == len
  {
    IntersectStore(a, ComplementStore(b, bmax), len)
  }

  /** The difference's members: the receiver's members that `X` lacks, cut
      by the complement's mask in `X`'s last word. */
  lemma SubtractMembers(a: seq<Long>, b: seq<Long>, bmax: int, len: nat, x: int)
    requires 0 <= bmax && |b| == WordsFor(bmax) && |a| <= |b| && |a| <= len
    ensures x in Members(SubtractStore(a, b, bmax, len)) <==>
            x in Members(a) && x !in Members(b) &&
            (x / 64 < bmax / 64 || x % 64 < ComplementShift(|b|, |b|, bmax))
  {
    IntersectMembers(a, ComplementStore(b, bmax), len);
    ComplementMembers(b, bmax, x);
  }
}
