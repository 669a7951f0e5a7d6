# nSet in Dafny

A model of the Java class `nSet`. It holds a set of natural numbers drawn from `0 .. Max`:

- The set is a bit array of `n_long = Max / 64 + 1` words of type `long`.
- Number `x` is present when bit `x % 64` of word `x / 64` is set.
- Next to the array the class keeps a cached cardinality, `size`.

The class offers:

- In-place updates: `add`, `delete`, `clear`, `set_size`.
- Queries: `find`, `size`, `isEmpty`, `equal`, `isSubset`, `toArray`.
- Operations that build a new set: `union`, `intersect`, `complement`, `subtract`.
- The subset-selection rule of `enumerate`.

The project has four modules:

- `Words` (`words.dfy`) covers Java's `long`.
  - A `long` is its 64 bits, least significant first, as a sequence of 64 booleans.
  - Dafny's `bv64` would be the obvious type, but the solver's bit-vector reasoning was unstable from one run to the next, while the boolean sequence verifies quickly and predictably.
  - It has the bitwise operators the class uses.
  - It defines `int` shifts and their sign extension to `long`.
  - Population counts give `set_size`'s result (`CountWords`).
  - `Members` is the set of numbers a word array denotes. It is the abstraction function of the class.
  - `Listing` is the ascending list of those numbers that `toArray` fills in.
- `Stores` (`stores.dfy`) gives one specification function per operation: the word array it computes, written as the source computes it.
  - Each function has lemmas saying what that array means for the denoted set.
  - Beside the functions stand the word arrays the class comments describe, with lemmas stating where the two agree and where they part.
- `Subsets` (`subsets.dfy`) covers the selection rule of `enumerate` and proves it lists every subset exactly once.
- `NSets` (`nset.dfy`) holds the class `NSet`.
  - Its fields are `max`, `nLong`, `store: array<Long>` and `size`.
  - Each Java method becomes a method or function of the same shape.
  - Each method is proved against the `Stores`/`Words` specification functions.
  - `Valid()` is the structural invariant: `Max >= 1`, `n_long == Max / 64 + 1` and `store.length == n_long`.
  - `Counted()` is the cache invariant: `size` equals the number of set bits.
  - `Elements()` is the denoted set.

The model follows the code as written, including the Java semantics that make some operations differ from their comments:

- `delete` uses an `int` mask `1 << j`. Java reduces that shift count mod 32 and sign-extends the result to `long`.
- `complement` computes its mask from a shift count that Java reduces mod 64.
- `union` and `intersect` loop over the receiver's words only.

The affected operations are specified exactly, and the divergences are proved as lemmas. See "## Findings".

## Model

| member | source | states |
|---|---|---|
| NSets.NSet.constructor | SetN/src/nSet.java:21-28 | for `n >= 0`: `Max` is `n` raised to at least 1, `n_long == n / 64 + 1`, every word is 0, `size` is 0, the set is empty and `size` is its count |
| NSets.NSet.Add | SetN/src/nSet.java:31-40 | outside `0 .. Max` nothing changes; otherwise the store becomes `WithBit` (only `x`'s bit set additionally), the set becomes old ∪ {x}, `size` grows by one exactly when `x` was absent, and an up-to-date `size` stays up to date |
| NSets.NSet.Find | SetN/src/nSet.java:44-51 | true exactly when `0 <= x <= Max` and `x` is in the denoted set |
| NSets.NSet.Clear | SetN/src/nSet.java:55-58 | every word becomes 0 and `size` 0, the set is empty and the size invariant holds |
| NSets.NSet.Size | SetN/src/nSet.java:62-64 | when the cache is up to date, the result is the cardinality of the set |
| NSets.NSet.SetSize | SetN/src/nSet.java:68-77 | the nested loops count exactly the set bits: afterwards `size` is the popcount of the store and the cardinality of the set |
| NSets.NSet.IsEmpty | SetN/src/nSet.java:114-117 | when the cache is up to date, true exactly when the set is empty |
| NSets.NSet.Delete | SetN/src/nSet.java:120-134 | returns true exactly when `x` is in range and present; on false nothing changes; on true the store is `Toggled` (XOR with the sign-extended `int` mask) and `size` drops by one; for `x % 64 < 31` the set loses exactly `x` and the size invariant is kept |
| NSets.NSet.Union | SetN/src/nSet.java:98-108 | a fresh set with `Max` the larger of the two, store `UnionStore` (OR over the receiver's words, 0 above), size recounted, holding the receiver's members and those of `X` within the receiver's words |
| NSets.NSet.OrInto | SetN/src/nSet.java:102-104 | the loop of `union` leaves the fresh zeroed array equal to `UnionStore` |
| NSets.NSet.Intersect | SetN/src/nSet.java:138-149 | a fresh set with `Max` the larger of the two, store `IntersectStore`, size recounted, holding exactly the common members |
| NSets.NSet.AndInto | SetN/src/nSet.java:143-145 | the loop of `intersect` leaves the fresh zeroed array equal to `IntersectStore` |
| NSets.NSet.Complement | SetN/src/nSet.java:162-171 | a fresh set with the same `Max` and `n_long` whose store is `ComplementStore` (every word inverted, word `Max / 64` then masked by the source's mask), size recounted |
| NSets.NSet.NotInto | SetN/src/nSet.java:165-167 | every word of the destination is the NOT of the source word |
| NSets.NSet.Subtract | SetN/src/nSet.java:152-159 | a fresh set with the larger `Max` whose store is that of `this.intersect(X.complement())`, size recounted |
| NSets.NSet.Equal | SetN/src/nSet.java:175-188 | true exactly when the word counts agree and all words are equal, which is exactly when the word counts agree and the denoted sets are equal |
| NSets.NSet.IsSubset | SetN/src/nSet.java:191-194 | `union(X).equal(this)` is true exactly when the word counts agree and every member of `X` is a member of this set |
| NSets.NSet.ToArray | SetN/src/nSet.java:197-210 | for any cached `size` at least the number of set bits: the array has `size` entries and is the listing of the store followed by zeros, so it holds exactly the members plus 0 when padded; with the size invariant it is exactly the listing and strictly ascending |
| NSets.NSet.ListWord | SetN/src/nSet.java:202-207 | the inner loop of `toArray` appends `64 i + j` for each set bit `j` of word `i`, ascending, and advances `count` by the word's popcount |
| NSets.NSet.Enumerate | SetN/src/nSet.java:213-227 | for `size < 30` and at least the number of set bits: `2^size` subsets, subset `i` holding `origin[j]` for each set bit `j` of `i`, where `origin` is the zero-padded listing; with the size invariant they are pairwise distinct, each ascending and within the set, and every subset of the set appears (at its code) |
| Stores.ClampKeepsWords | SetN/src/nSet.java:22-24 | for `n >= 0`, the word count from `n` equals that from the clamped `Max`, and every number in `0 .. Max` has its word inside the store |
| Stores.NegativeArgument | SetN/src/nSet.java:22-25 | argument -1 gives `Max` 1 but 0 words; argument -65 gives a negative array size |
| Stores.ClampedWordsCover | SetN/src/nSet.java:22-24 | sizing from the clamped `Max` always gives at least one word and a word for every number in `0 .. Max` |
| Stores.WithBitMembers | SetN/src/nSet.java:34-38 | setting bit `x % 64` of word `x / 64` adds exactly `x` to the denoted set |
| Stores.WithBitCount | SetN/src/nSet.java:37-39 | setting an absent bit raises the popcount by exactly one |
| Stores.WithBitPresent | SetN/src/nSet.java:37 | when `x` is already present the store is unchanged by setting its bit |
| Stores.WithBitIdempotent | SetN/src/nSet.java:31-40 | setting the same bit twice equals setting it once |
| Stores.ClearedMembers | SetN/src/nSet.java:121-122 | XOR with the `long` mask of a present `x` removes exactly `x` and lowers the popcount by one |
| Stores.ToggledIsCleared | SetN/src/nSet.java:130 | the source's `int`-mask toggle equals the `long`-mask clear exactly when `x % 64 < 31` |
| Stores.DeleteThirtyTwo | SetN/src/nSet.java:130 | deleting 32 from {32} as written leaves {0, 32} |
| Words.WidenedIntBit | SetN/src/nSet.java:130 | the sign-extended `1 << j` holds bit `j % 32` alone below 31, and bits 31..63 when `j % 32 == 31` |
| Stores.UnionMembers | SetN/src/nSet.java:102-104 | the union's array denotes the receiver's members plus the members of `X` in the receiver's words |
| Stores.UnionExtendedMembers | SetN/src/nSet.java:98-108 | the OR over both operands' words, each zero-extended to the result's width, denotes the set union |
| Stores.UnionSameWidth | SetN/src/nSet.java:102-104 | with equal word counts the source's union array is the zero-extended union |
| Stores.UnionLosesHundred | SetN/src/nSet.java:99-104 | {} with `Max` 10 united with {100} with `Max` 100 loses 100 |
| Stores.IntersectMembers | SetN/src/nSet.java:143-145 | the intersection's array denotes exactly the common members |
| Stores.IntersectCommutes | SetN/src/nSet.java:143-145 | with equal word counts `intersect` gives the same words either way round |
| Stores.ComplementMembers | SetN/src/nSet.java:165-168 | `x` is in the complement exactly when it lies in the store's words, is absent from the receiver, and is not cut by the mask in word `Max / 64` |
| Stores.ComplementWithinNot | SetN/src/nSet.java:165-168 | every word of the complement is a bitwise part of the inverted word |
| Stores.ComplementIntendedMembers | SetN/src/nSet.java:162-171 | inverting and cutting word `Max / 64` to offsets `0 .. Max % 64` denotes exactly `0 .. Max` minus the set |
| Stores.WrapNeverShifts | SetN/src/nSet.java:168 | wrapping a value to `int` never changes a count taken mod 64, since it moves the value by a multiple of `2^32` |
| Stores.ShiftIgnoresWrap | SetN/src/nSet.java:168 | the mask's shift computed with `int` wrap-around of the product and the difference equals the one computed without it |
| Stores.ShiftNeverKeepsRange | SetN/src/nSet.java:168 | for every `Max`, the mask's shift is never `Max % 64 + 1` |
| Stores.ComplementOfEmptyIsWrong | SetN/src/nSet.java:162-171 | for every `Max` the complement of the empty set is not `0 .. Max` |
| Stores.ComplementLosesThousand | SetN/src/nSet.java:168 | with `Max` 1000 the shift is 40 and 1000 is missing from the complement of the empty set |
| Stores.ComplementKeepsPadding | SetN/src/nSet.java:168 | with `Max` 64 the shift is 60 and the complement of the empty set holds 100, beyond `Max` |
| Stores.ComplementOfOneIsEmpty | SetN/src/nSet.java:168 | with `Max` 1 the shift is 0 and the complement of every set, the empty one included, is empty |
| Stores.SubtractMembers | SetN/src/nSet.java:152-159 | `x` is in the difference exactly when it is in the receiver, absent from `X`, and not cut by `X`'s complement mask |
| Words.MemberAt | SetN/src/nSet.java:34-35 | position `j` of word `i` is the number `64 i + j` |
| Words.MembersDetermineStore | SetN/src/nSet.java:175-188 | arrays of equal length that denote the same set are equal, so word-wise equality is set equality |
| Words.PopcountSetBit | SetN/src/nSet.java:38-39 | OR-ing in an absent bit adds one to the word's popcount, a present one nothing |
| Words.PopcountClearBit | SetN/src/nSet.java:130-131 | XOR-ing away a present bit removes one from the word's popcount |
| Words.CountWordsUpdate | SetN/src/nSet.java:37-39 | replacing one word changes the array's count by the change of that word's count |
| Words.MembersCardinality | SetN/src/nSet.java:68-77 | the cardinality of the denoted set is the popcount over all words |
| Words.PaddedListingMembers | SetN/src/nSet.java:199-209 | the array `toArray` fills holds exactly the members, and 0 when `size` exceeds the number of set bits |
| Words.ListingAscending | SetN/src/nSet.java:201-208 | the word-by-word, bit-by-bit listing is strictly ascending |
| Words.ListingMembers | SetN/src/nSet.java:201-208 | the listing holds exactly the denoted numbers |
| Subsets.SelectionMembers | SetN/src/nSet.java:220-224 | an entry is selected by `i` exactly when its index is a set bit of `i` |
| Subsets.SelectionAscending | SetN/src/nSet.java:220-224 | selecting from an ascending listing gives an ascending list |
| Subsets.SelectionsDistinct | SetN/src/nSet.java:218-224 | different numbers below `2^size` select different subsets of an ascending listing |
| Subsets.SelectionComplete | SetN/src/nSet.java:218-224 | every subset of the listed numbers is selected by its code, a number below `2^size` |
| Subsets.SelectionExtremes | SetN/src/nSet.java:218-224 | number 0 selects the empty subset and `2^size - 1` the whole listing |
| Subsets.EnumerationFacts | SetN/src/nSet.java:213-227 | the table of all selections lists every subset exactly once, each ascending and within the listing |

## Left out

- `print` and the printing in `enumerate` are console output. `Enumerate` returns the subsets it would print, in order.
- `main` is a demonstration driver and is not modelled. Two of its situations appear as lemmas: `Max` 1000 in `Stores.ComplementLosesThousand`, and a union across different `Max` in `Stores.UnionLosesHundred`.
- NSets.NSet.constructor: requires `n >= 0`. The negative case is stated by `Stores.NegativeArgument` rather than modelled as a run. A negative array size there throws.
- NSets.NSet.Union: requires `n_long <= X.n_long`. A smaller `X` makes the Java loop index past `X.store`, which throws. `Intersect`, `Subtract` and `IsSubset` carry the same precondition.
- NSets.NSet.Delete: promises the one-element removal and the size invariant only for `x % 64 < 31`. For other offsets it states the resulting words exactly (`Toggled`), and those words are not the promised ones.
- `Max` is a public mutable field in Java, but it is modelled as a constant. The class itself never reassigns it after construction.
- Java `int` wrap-around is written out in `complement`'s shift count, for both the product `n_long * store.length` and the difference with `Max`. `Stores.ShiftIgnoresWrap` proves it cannot change the mask, because a `long` shift reduces its count mod 64 and `2^32` is a multiple of 64. The other `int` expressions (`x >> 6`, `(i << 6) + j`, `size++`) are modelled unbounded. They cannot overflow while `Max` and the number of set bits stay below `2^31 - 64`.
- NSets.NSet.ToArray: requires the cached `size` to be at least the number of set bits. A `delete` at word offset 31 or above can leave `size` below that count. Example: `add(32); delete(32)` leaves `size` 0 with two bits set. Repeating the delete drives `size` negative. On such states Java's `toArray` throws `ArrayIndexOutOfBoundsException`, or `NegativeArraySizeException` when `size < 0`. Exceptions are not modelled. The other stale states are modelled: when `size` exceeds the count, the result carries trailing zeros.
- NSets.NSet.Enumerate: requires the same bound as `ToArray`, since it calls `toArray` first and Java fails the same way. With a larger stale `size` it selects from the zero-padded array, as stated. Its distinctness and completeness hold only with the size invariant, and are promised only then.
- `enumerate` for `size >= 30` is left out, as the source's own comment excludes it. `1 << size` would then overflow.
- Allocation failure and exceptions are not modelled.

## Findings

| source | as written | input that shows it | evidently intended | confidence | as-written member | corrected member |
|---|---|---|---|---|---|---|
| SetN/src/nSet.java:130 | XOR with the `int` mask `1 << j`, which shifts by `j % 32` and sign-extends | `delete(32)` on {32} leaves {0, 32} with `size` 0 | XOR with `1L << j`, removing exactly `x` | high (not executed) | Stores.DeleteThirtyTwo | Stores.ClearedMembers |
| SetN/src/nSet.java:102 | the loop runs over the receiver's words only | {} with `Max` 10, united with {100} with `Max` 100, gives {} | OR over all words of the result, each operand zero-extended | high (not executed) | Stores.UnionLosesHundred | Stores.UnionExtendedMembers |
| SetN/src/nSet.java:168 | the mask `(1L << (64 - (n_long * n_long - Max))) - 1`, with the shift taken mod 64 | `Max` 1000: the complement of {} lacks 1000 | keep offsets `0 .. Max % 64` of word `Max / 64` | high (not executed) | Stores.ComplementOfEmptyIsWrong | Stores.ComplementIntendedMembers |
| SetN/src/nSet.java:24 | `n_long` is computed from the argument, not the clamped `Max` | `new nSet(-1)`: `Max` 1 with 0 words | size the store from the clamped `Max` | high (not executed) | Stores.NegativeArgument | Stores.ClampedWordsCover |

The class methods follow the code as written. The corrected definitions stand beside them in `Stores`, with the intended property proved.
