/** The class `nSet`: a set of natural numbers drawn from `0 .. Max`, kept
    as a bit array of `long` words with a cached cardinality. */
module NSets {
  import opened Words
  import opened Stores
  import opened Subsets

  class NSet {
    /** `Max`: the largest number the set is meant to hold. */
    const max: int
    /** `n_long`: the number of words in the store. */
    const nLong: int
    /** `store`: number `x` is present when bit `x % 64` of word `x / 64` is set. */
    var store: array<Long>
    /** `size`: the cached number of members. */
    var size: int

    /** The shape every operation relies on: `Max` at least 1 and a store
        of `Max / 64 + 1` words. */
    ghost predicate Valid()
      reads this, store
    {
      1 <= max && nLong == WordsFor(max) && store.Length == nLong
    }

    /** The cached size is the number of set bits. */
    ghost predicate Counted()
      reads this, store
    {
      size == CountWords(store[..])
    }

    /** The numbers whose bits are set. */
    ghost function Elements(): set<int>
      reads this, store
    {
      Members(store[..])
    }

    /** `nSet(n)`: an empty set with `Max` = `n` (1 when `n` is not
        positive) and `n / 64 + 1` zero words. */
    constructor (n: int)
      requires n >= 0
      ensures Valid() && Counted() && fresh(store)
      ensures max == ClampMax(n) && nLong == WordsFor(n)
      ensures store[..] == Zeros(nLong) && size == 0
      ensures Elements() == {}
    {
      max := ClampMax(n);
      nLong := WordsFor(n);
      var words := new Long[WordsFor(n)](_ => Zero());
      for i := 0 to WordsFor(n)
        invariant forall k :: 0 <= k < i ==> words[k] == Zero()
      {
        words[i] := Zero();
      }
      store := words;
      size := 0;
      new;
      ClampKeepsWords(n, 0);
      assert store[..] == Zeros(nLong);
      CountWordsOfZeros(store[..]);
      MembersOfZeros(store[..]);
    }

    /** `add(x)`: sets the bit of `x` when `x` is in `0 .. Max`, counting it
        when it was absent. */
    method Add(x: int)
      requires Valid()
      modifies this, store
      ensures Valid() && store == old(store)
      ensures store[..] == if 0 <= x <= max then WithBit(old(store[..]), x) else old(store[..])
      ensures size == old(size) + if 0 <= x <= max && x !in old(Elements()) then 1 else 0
      ensures Elements() == if 0 <= x <= max then old(Elements()) + {x} else old(Elements())
      ensures old(Counted()) ==> Counted()
    {
      if x < 0 || x > max {
        return;
      }
      var i := x / 64;
      var j := x - i * 64;
      var y := store[i];
      MemberAt(store[..], i, j);
      if y[j] {
        WithBitPresent(store[..], x);
        return;
      }
      ghost var before := store[..];
      store[i] := Or(store[i], LongBit(j));
      size := size + 1;
      assert store[..] == WithBit(before, x);
      WithBitMembers(before, x);
      WithBitCount(before, x);
    }

    /** `find(x)`: whether `x` is in `0 .. Max` and its bit is set. */
    function Find(x: int): (b: bool)
      requires Valid()
      reads this, store
      ensures b <==> 0 <= x <= max && x in Elements()
    {
      if x < 0 || x > max then false
      else
        var i := x / 64;
        var j := x - i * 64;
        MemberAt(store[..], i, j);
        store[i][j]
    }

    /** `clear()`: zeroes every word and the size. */
    method Clear()
      requires Valid()
      modifies this, store
      ensures Valid() && store == old(store)
      ensures store[..] == Zeros(nLong) && size == 0
      ensures Counted() && Elements() == {}
    {
      for i := 0 to nLong
        modifies store
        invariant forall k :: 0 <= k < i ==> store[k] == Zero()
      {
        store[i] := Zero();
      }
      size := 0;
      assert store[..] == Zeros(nLong);
      CountWordsOfZeros(store[..]);
      MembersOfZeros(store[..]);
    }

    /** `size()`: the cached size, the cardinality when it is up to date. */
    function Size(): (r: int)
      reads this, store
      ensures Counted() ==> r == |Elements()|
    {
      MembersCardinality(store[..]);
      size
    }

    /** `set_size()`: recounts the set bits word by word, bit by bit. */
    method SetSize()
      requires Valid()
      modifies `size
      ensures Counted() && size == |Elements()|
    {
      var counter := 0;
      for i := 0 to nLong
        invariant counter == CountWords(store[..i])
      {
        for j := 0 to 64
          invariant counter == CountWords(store[..i]) + BitCount(store[i], j)
        {
          if store[i][j] {
            counter := counter + 1;
          }
        }
        CountWordsPrefix(store[..], i);
      }
      assert store[..nLong] == store[..];
      size := counter;
      MembersCardinality(store[..]);
    }

    /** `isEmpty()`: whether the cached size is 0. */
    function IsEmpty(): (r: bool)
      reads this, store
      ensures Counted() ==> (r <==> Elements() == {})
    {
      MembersCardinality(store[..]);
      size == 0
    }

    /** `delete(x)`: when the bit of `x` is set, XORs its word with the
        `int` mask `1 << (x % 64)` and decrements the size. */
    method Delete(x: int) returns (r: bool)
      requires Valid()
      modifies this, store
      ensures Valid() && store == old(store)
      ensures r <==> 0 <= x <= max && x in old(Elements())
      ensures !r ==> store[..] == old(store[..]) && size == old(size)
      ensures r ==> store[..] == Toggled(old(store[..]), x) && size == old(size) - 1
      ensures r && x % 64 < 31 ==> Elements() == old(Elements()) - {x}
      ensures x % 64 < 31 && old(Counted()) ==> Counted()
    {
      if x < 0 || x > max {
        return false;
      }
      var i := x / 64;
      var j := x - i * 64;
      var y := store[i];
      MemberAt(store[..], i, j);
      if !y[j] {
        return false;
      }
      ghost var before := store[..];
      store[i] := Xor(store[i], Widen(IntBit(j)));
      size := size - 1;
      assert store[..] == Toggled(before, x);
      ToggledIsCleared(before, x);
      ClearedMembers(before, x);
      return true;
    }

    /** `union(X)`: a new set with the larger `Max`, holding the OR of the
        two stores over this set's words. */
    method Union(X: NSet) returns (a: NSet)
      requires Valid() && X.Valid() && nLong <= X.nLong
      ensures fresh(a) && fresh(a.store) && a.Valid() && a.Counted()
      ensures a.max == if max >= X.max then max else X.max
      ensures a.store[..] == UnionStore(store[..], X.store[..], a.nLong)
      ensures a.Elements() == Elements() + Members(X.store[..nLong])
    {
      var maximum := if max >= X.max then max else X.max;
      a := new NSet(maximum);
      WordsForOfMax(max, X.max);
      OrInto(a.store, store[..], X.store[..]);
      a.SetSize();
      UnionMembers(store[..], X.store[..], a.nLong);
    }

    /** The loop of `union()`: word `i` of the fresh, zeroed result becomes
        `this.store[i] | X.store[i]` for each of the receiver's words. */
    static method OrInto(dst: array<Long>, a: seq<Long>, b: seq<Long>)
      requires |a| <= |b| && |a| <= dst.Length
      requires forall k :: 0 <= k < dst.Length ==> dst[k] == Zero()
      modifies dst
      ensures dst[..] == UnionStore(a, b, dst.Length)
    {
      for i := 0 to |a|
        invariant forall k :: 0 <= k < dst.Length ==> dst[k] == UnionWord(a[..i], b, k)
      {
        dst[i] := Or(a[i], b[i]);
      }
      assert a[..|a|] == a;
    }

    /** `intersect(X)`: a new set with the larger `Max`, holding the AND of
        the two stores over this set's words. */
    method Intersect(X: NSet) returns (a: NSet)
      requires Valid() && X.Valid() && nLong <= X.nLong
      ensures fresh(a) && fresh(a.store) && a.Valid() && a.Counted()
      ensures a.max == if max >= X.max then max else X.max
      ensures a.store[..] == IntersectStore(store[..], X.store[..], a.nLong)
      ensures a.Elements() == Elements() * X.Elements()
    {
      var maximum := if max >= X.max then max else X.max;
      a := new NSet(maximum);
      WordsForOfMax(max, X.max);
      AndInto(a.store, store[..], X.store[..]);
      a.SetSize();
      IntersectMembers(store[..], X.store[..], a.nLong);
    }

    /** The loop of `intersect()`: word `i` of the fresh, zeroed result becomes
        `this.store[i] & X.store[i]` for each of the receiver's words. */
    static method AndInto(dst: array<Long>, a: seq<Long>, b: seq<Long>)
      requires |a| <= |b| && |a| <= dst.Length
      requires forall k :: 0 <= k < dst.Length ==> dst[k] == Zero()
      modifies dst
      ensures dst[..] == IntersectStore(a, b, dst.Length)
    {
      for i := 0 to |a|
        invariant forall k :: 0 <= k < dst.Length ==> dst[k] == IntersectWord(a[..i], b, k)
      {
        dst[i] := And(a[i], b[i]);
      }
      assert a[..|a|] == a;
    }

    /** `complement()`: a new set with the same `Max` holding the inverted
        words, the word of `Max` then ANDed with the source's mask. */
    method Complement() returns (origin: NSet)
      requires Valid()
      ensures fresh(origin) && fresh(origin.store) && origin.Valid() && origin.Counted()
      ensures origin.max == max && origin.nLong == nLong
      ensures origin.store[..] == ComplementStore(store[..], max)
    {
      origin := new NSet(max);
      NotInto(origin.store, store[..]);
      var top := origin.max / 64;
      origin.store[top] := And(origin.store[top], LowMask(ComplementShift(nLong, store.Length, max)));
      assert origin.store[..] == ComplementStore(store[..], max);
      origin.SetSize();
    }

    /** The loop of `complement()`: word `i` of the fresh result becomes
        `~store[i]` for each word. */
    static method NotInto(dst: array<Long>, a: seq<Long>)
      requires |a| == dst.Length
      modifies dst
      ensures forall k :: 0 <= k < |a| ==> dst[k] == Not(a[k])
    {
      for i := 0 to |a|
        invariant forall k :: 0 <= k < i ==> dst[k] == Not(a[k])
      {
        dst[i] := Not(a[i]);
      }
    }

    /** `subtract(X)`: a new set with the larger `Max` whose store is that
        of `this.intersect(X.complement())`. */
    method Subtract(X: NSet) returns (origin: NSet)
      requires Valid() && X.Valid() && nLong <= X.nLong
      ensures fresh(origin) && fresh(origin.store) && origin.Valid() && origin.Counted()
      ensures origin.max == if max >= X.max then max else X.max
      ensures origin.store[..] == SubtractStore(store[..], X.store[..], X.max, origin.nLong)
    {
      var maximum := if max >= X.max then max else X.max;
      origin := new NSet(maximum);
      var c := X.Complement();
      var inter := Intersect(c);
      origin.store := inter.store;
      origin.SetSize();
    }

    /** `equal(X)`: the same word count and the same words. */
    method Equal(X: NSet) returns (r: bool)
      requires Valid() && X.Valid()
      ensures r <==> nLong == X.nLong && store[..] == X.store[..]
      ensures r <==> nLong == X.nLong && Elements() == X.Elements()
    {
      if nLong == X.nLong {
        var i := 0;
        while i < nLong
          invariant 0 <= i <= nLong
          invariant store[..i] == X.store[..i]
        {
          if store[i] != X.store[i] {
            if Elements() == X.Elements() {
              MembersDetermineStore(store[..], X.store[..]);
            }
            return false;
          }
          i := i + 1;
        }
        assert store[..] == store[..i] && X.store[..] == X.store[..i];
        return true;
      }
      return false;
    }

    /** `isSubset(X)`: `union(X).equal(this)`, which holds exactly when the
        word counts agree and every member of `X` is a member here. */
    method IsSubset(X: NSet) returns (r: bool)
      requires Valid() && X.Valid() && nLong <= X.nLong
      ensures r <==> nLong == X.nLong && X.Elements() <= Elements()
    {
      var u := Union(X);
      r := u.Equal(this);
      WordsForOfMax(max, X.max);
      assert X.store[..nLong] == X.store[..] <== nLong == X.nLong;
    }

    /** `toArray()`: an array of `size` entries filled with `(i << 6) + j`
        for each set bit `j` of each word `i`, in that order. A `size` left
        above the number of set bits leaves zeros at the end. */
    method ToArray() returns (arr: array<int>)
      requires Valid() && CountWords(store[..]) <= size
      ensures fresh(arr) && arr.Length == size
      ensures arr[..] == PaddedListing(store[..], size)
      ensures forall x :: x in arr[..] <==>
                x in Elements() || (x == 0 && CountWords(store[..]) < size)
      ensures Counted() ==> arr[..] == Listing(store[..]) && Ascending(arr[..])
    {
      ghost var s := store[..];
      arr := new int[size](_ => 0);
      var count := 0;
      CountWordsGrows(s, 0);
      for i := 0 to nLong
        invariant count == CountWords(s[..i]) <= CountWords(s)
        invariant arr[..count] == Listing(s[..i])
        invariant forall k :: count <= k < arr.Length ==> arr[k] == 0
      {
        CountWordsPrefix(s, i);
        CountWordsGrows(s, i + 1);
        count := ListWord(arr, store[i], 64 * i, count);
        assert s[..i + 1][..i] == s[..i];
      }
      assert s[..nLong] == s;
      assert arr[..] == arr[..count] + arr[count..];
      assert arr[count..] == seq(size - count, _ => 0);
      ListingAscending(s);
      forall x
        ensures x in arr[..] <==> x in Elements() || (x == 0 && CountWords(s) < size)
      {
        PaddedListingMembers(s, size, x);
      }
    }

    /** The inner loop of `toArray()`: `base + j` for each set bit `j` of
        `w`, written from position `start` on. */
    static method ListWord(arr: array<int>, w: Long, base: int, start: nat) returns (count: nat)
      requires start + Popcount(w) <= arr.Length
      modifies arr
      ensures count == start + Popcount(w)
      ensures arr[..count] == old(arr[..start]) + WordListing(w, base, 64)
      ensures forall k :: count <= k < arr.Length ==> arr[k] == old(arr[k])
    {
      count := start;
      for j := 0 to 64
        invariant count == start + BitCount(w, j) <= start + Popcount(w)
        invariant arr[..count] == old(arr[..start]) + WordListing(w, base, j)
        invariant forall k :: count <= k < arr.Length ==> arr[k] == old(arr[k])
      {
        if w[j] {
          BitCountGrows(w, j + 1, 64);
          arr[count] := base + j;
          assert arr[..count + 1] == arr[..count] + [base + j];
          count := count + 1;
        }
      }
    }

    /** The selection rule of `enumerate()`: subset `i`, for each `i` below
        `1 << size`, holds `origin[j]` for every set bit `j < size` of `i`,
        where `origin` is `toArray()`. */
    method Enumerate() returns (subsets: seq<seq<int>>)
      requires Valid() && CountWords(store[..]) <= size < 30
      ensures |subsets| == Pow2(size)
      ensures forall i :: 0 <= i < |subsets| ==>
                subsets[i] == Selection(PaddedListing(store[..], size), i, size)
      ensures Counted() ==> forall i, i2 :: 0 <= i < i2 < |subsets| ==> subsets[i] != subsets[i2]
      ensures Counted() ==> forall i :: 0 <= i < |subsets| ==>
                Ascending(subsets[i]) && forall x :: x in subsets[i] ==> x in Elements()
      ensures Counted() ==> forall S: set<int> :: S <= Elements() ==>
                Code(Listing(store[..]), S) < |subsets| &&
                (set x | x in subsets[Code(Listing(store[..]), S)]) == S
    {
      var origin := ToArray();
      subsets := [];
      var i := 0;
      while i < Pow2(size)
        invariant 0 <= i <= Pow2(size)
        invariant |subsets| == i
        invariant forall k :: 0 <= k < i ==> subsets[k] == Selection(origin[..], k, size)
      {
        var chosen := [];
        for j := 0 to size
          invariant chosen == Selection(origin[..], i, j)
        {
          if IntBitSet(i, j) {
            chosen := chosen + [origin[j]];
          }
        }
        subsets := subsets + [chosen];
        i := i + 1;
      }
      if Counted() {
        ghost var o := Listing(store[..]);
        assert PaddedListing(store[..], size) == o;
        ListingAscending(store[..]);
        EnumerationFacts(o, subsets);
        forall x
          ensures x in o <==> x in Elements()
        {
          ListingMembers(store[..], x);
        }
      }
    }
  }
}
