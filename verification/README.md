# bitset, modelled in Dafny

A model of the fixed-capacity `BitSet` of the Rust crate `bitset`. A bit set
stores its bits in a vector of `usize` blocks. Block 0 holds positions 0 to 63,
with the least significant bit first. The logical `size` is fixed when the set
is created.

The model covers:

- the private block arithmetic: `blocks_number`, `block_size`, `assert_position`,
  `get_bit_position` and `make_bitmask`;
- the constructor `new`;
- `get` and `set`;
- the aggregates `all`, `any` and `count`;
- the `From<uN>` conversions (the byte-chunking macro and the separate `u8`
  impl);
- `ToString`;
- the `TryFrom<BitSet>` macro for every unsigned type.

The model fixes `usize` at 64 bits. Blocks are natural numbers below 2^64. The
Rust operators used on blocks are written out as arithmetic over an explicit
bit width in module `Words`: `|`, `&`, `!`, `<<`, `count_ones` and `{:0w$b}`.
Their bitwise meaning is stated digit by digit through `TestBit`.

`set(&mut self, ..)` mutates in place. Here it is a pure function that returns
the updated set. A panic becomes a precondition that the caller must meet:
`new(0)`, and `get` or `set` past the size. `CheckPosition` models the range
check of `assert_position`, including the data carried by its panic message.

Modules:

- `Words`: powers of two, binary digits and the 64-bit block operations.
- `BitSets`: the set itself, block arithmetic, `new`, `get`, `set`, `all`,
  `any` and `count`, plus a corrected `all`.
- `Conversions`: `from`, `to_string` and `try_from` as written, plus a
  corrected `try_from`.
- `Scenarios`: the concrete cases of the crate's unit tests, and the inputs on
  which the code departs from what its tests promise.

The model also tracks two facts that the source keeps implicit. `WellFormed`
says that the number of blocks matches the size. `Valid` adds that the padding
bits above the size are clear. `new`, `set` and `from` all keep `Valid`.

## Model

| member | source | states |
|---|---|---|
| BitSets.BlocksNumber | src/bitset.rs:45-53 | the block count is the least n with size <= 64·n |
| BitSets.GetBitPosition | src/bitset.rs:72-77 | block number and offset recombine to the position; the offset is below 64 |
| BitSets.MakeBitmask | src/bitset.rs:80-82 | the mask has exactly one set bit, at the given offset |
| BitSets.CheckPosition | src/bitset.rs:61-69 | a position passes exactly when it is below the size; otherwise the failure carries the position and the range [0, size-1] |
| BitSets.New | src/bitset.rs:104-114 | a new set is well formed with the requested size and clear padding, every block is zero and every position reads false |
| BitSets.Get | src/bitset.rs:124-131 | masking the block with the bitmask gives exactly the stored bit at that position |
| BitSets.MaskedBit | src/bitset.rs:130 | `block & (1 << offset)` is nonzero exactly when bit `offset` of the block is set |
| BitSets.UpdateBlock | src/bitset.rs:144-150 | OR with the mask (to set) or AND with its complement (to clear) makes every bit the mask selects equal to the value and keeps every other bit of the block |
| BitSets.Set | src/bitset.rs:138-151 | after `set(p, v)`, `get(p)` is v, every other position reads as before, blocks other than p's are unchanged, and clear padding stays clear |
| BitSets.SetIdempotent | src/bitset.rs:138-151 | setting the same bit to the same value twice has the same effect as setting it once |
| BitSets.AllBlocks | src/bitset.rs:157-164 | `all()` holds exactly when every block equals `usize::MAX` |
| BitSets.All | src/bitset.rs:156-164 | on a valid set, `all()` holds exactly when the size is a multiple of 64 and every position reads as set |
| BitSets.AllMeansEveryBitSet | src/bitset.rs:156-164 | when every block is `usize::MAX`, every position reads as set |
| BitSets.AllWhenAligned | src/bitset.rs:156-164 | on a valid set whose size is a multiple of 64 and whose every position reads as set, every block is `usize::MAX` |
| BitSets.AllFalseWhenUnaligned | src/bitset.rs:157-164 | when the size is not a multiple of 64, the block scan of `all()` fails on every valid set, even a full one |
| BitSets.ClearingBreaksAll | src/bitset.rs:157-164 | after clearing any position, `all()` is false |
| BitSets.AllBitsSetIffEveryBitSet | src/bitset.rs:156 | corrected `all()`, with the padding masked off: it holds exactly when every position is set |
| BitSets.AnyBlocks | src/bitset.rs:167-174 | `any()` holds exactly when some block is nonzero |
| BitSets.Any | src/bitset.rs:166-174 | on a valid set, `any()` holds exactly when some position reads as set |
| BitSets.AnyIffSomeBitSet | src/bitset.rs:166-174 | on a valid set, the block scan finds a nonzero block exactly when some position reads as set |
| BitSets.CountBlocks | src/bitset.rs:177-183 | the summed `count_ones` is at most 64 per block, and it is zero exactly when every block is zero |
| BitSets.Count | src/bitset.rs:176-183 | on a valid set, `count()` is the number of positions that read as set, so it is at most the size |
| BitSets.CountIsPopulation | src/bitset.rs:176-183 | on a valid set, the sum of `count_ones` over the blocks equals the number of positions that read as set and is at most the size |
| BitSets.CountAfterSet | src/bitset.rs:138-151 | `set` changes `count()` by exactly the change of the one bit |
| BitSets.CountFullIffEveryBitSet | src/bitset.rs:176-183 | on a valid set, `count()` equals the size exactly when every position is set |
| Words.OrBits | src/bitset.rs:146 | OR of a and b on an n-bit integer is an n-bit value; its digits are stated by `OrBitsSpec` |
| Words.AndBits | src/bitset.rs:130 | `a & b` on an n-bit integer is an n-bit value; its digits are stated by `AndBitsSpec` |
| Words.NotBits | src/bitset.rs:149 | `!a` on an n-bit integer is an n-bit value; its digits are stated by `NotBitsSpec` |
| Words.Shl | src/bitset.rs:80-82 | `a << s` on an n-bit integer is an n-bit value, and equals a·2^s when that does not overflow |
| Words.CountOnes | src/bitset.rs:180 | `count_ones` of a block is at most 64, and it is zero exactly for the zero block |
| Words.OrBitsSpec | src/bitset.rs:145-146 | bit k of a OR b is set exactly when k is below the width and bit k of a or of b is set |
| Words.AndBitsSpec | src/bitset.rs:130 | bit k of `a & b` is set exactly when k is below the width and bit k of both a and b is set |
| Words.NotBitsSpec | src/bitset.rs:148-149 | bit k of `!a` is set exactly when k is below the width and bit k of a is clear |
| Words.ShiftOr | src/bitset.rs:212-213 | x shifted left by m and OR-ed with low is x·2^m + low when low fits in m bits and nothing overflows |
| Words.ToBinary | src/bitset.rs:252 | `{:0w$b}` gives exactly w digits, and digit j is bit w-1-j of the value |
| Conversions.ToBeBytes | src/bitset.rs:201 | `to_be_bytes` of an n-byte integer gives n bytes; `ToBeBytesRoundTrip` states that they spell the value |
| Conversions.Chunks | src/bitset.rs:210 | `chunks(8)` cuts the bytes into pieces that concatenate back to them; each piece has between 1 and 8 bytes, and every piece but the last has exactly 8 |
| Conversions.PackChunk | src/bitset.rs:211-215 | the packing loop turns a chunk of at most 8 bytes into its big-endian value |
| Conversions.PackChunks | src/bitset.rs:210-217 | one block per chunk, in chunk order, each the packed chunk |
| Conversions.Reverse | src/bitset.rs:219 | `blocks.reverse()` keeps the length and puts element n-1-i at index i |
| Conversions.ToBeBytesRoundTrip | src/bitset.rs:201 | `to_be_bytes` of a value that fits in n bytes reads back to the value |
| Conversions.FromUint | src/bitset.rs:186-239 | `from(value)` has size 8·bytes, the right number of blocks, and blocks that stand for exactly the value, block 0 least significant |
| Conversions.FromUintBits | src/bitset.rs:186-239 | `from(value)` is valid, and position i reads as bit i of the value |
| Conversions.RenderBlocks | src/bitset.rs:251-253 | the blocks, last first, each as 64 binary digits: raw bit p sits at index 64·blocks-1-p |
| Conversions.ToString | src/bitset.rs:247-256 | `to_string()` has `size` characters, all '0' or '1', and the character at size-1-i shows position i |
| Conversions.ToStringOfBits | src/bitset.rs:247-256 | a set whose positions are the digits of a value renders as that value in binary, padded to the size |
| Conversions.FromUintToString | src/bitset.rs:478-500 | `from(value).to_string()` is the value formatted with `{:0w$b}` at the type's width |
| Conversions.ShiftIn | src/bitset.rs:287-291 | the accumulation loop (shift `output` left by 64, OR in the block) stays within the target width, and with room for every block it yields the blocks as a number, first block most significant |
| Conversions.TryFrom | src/bitset.rs:263-296 | as written: a result is always block 0 and fits the type; types up to 64 bits succeed exactly when block 0 fits; u128 fails exactly when some block other than block 0 is nonzero |
| Conversions.TryFromWideSound | src/bitset.rs:281-292 | as written for u128: whenever the conversion succeeds, its value is the number the bit set stands for |
| Conversions.TryFromAfterFrom | src/bitset.rs:388-450 | as written, `T::try_from(BitSet::from(v))` is `Ok(v)` if v fits T and `Err` otherwise, for every v below 2^64 |
| Conversions.TryFromCheckedIsExact | src/bitset.rs:263-296 | corrected `try_from`: `Ok` of the number the set stands for when it fits the type, `Err` otherwise |
| Conversions.TryFromCheckedAfterFrom | src/bitset.rs:388-450 | corrected `try_from`: the round trip through `from` holds for every value of every source and target type |
| Scenarios.BlockCounts | src/bitset.rs:311-322 | the block counts for sizes 1, 10, 64, 65, 128 and 129 |
| Scenarios.SingleBitStrings | src/bitset.rs:369-375 | `new(1)` renders as "0", and as "1" once bit 0 is set |
| Scenarios.ThreeBitsString | src/bitset.rs:377-384 | `new(66)` with bits 0, 5 and 64 set renders as the 66-digit string of the test |
| Scenarios.U8Strings | src/bitset.rs:503-520 | `from(0u8)`, `from(u8::MAX)` and `from(170u8)` render as "00000000", "11111111" and "10101010" |
| Scenarios.SimpleOperations | src/bitset.rs:548-579 | the get/set sequence on `new(4)` reads as the test expects |
| Scenarios.SparseAggregates | src/bitset.rs:582-619 | `new(300)` has `all`, `any` and `count` equal to false, false and 0; after setting bit 10 they are false, true and 1 |
| Scenarios.FullAggregates | src/bitset.rs:582-619 | `from(u128::MAX)` has `all`, `any` and `count` equal to true, true and 128 |
| Scenarios.FullAggregatesAfterClear | src/bitset.rs:582-619 | `from(u128::MAX)` with bit 10 cleared has `all`, `any` and `count` equal to false, true and 127 |
| Scenarios.FullByteNotAll | src/bitset.rs:157-164 | `from(u8::MAX)` has every position set, yet `all()` as written is false while the corrected `all()` holds |
| Scenarios.NarrowTryFromIgnoresHighBlocks | src/bitset.rs:269-274 | as written, `u64::try_from` and `u8::try_from` of `from(2^64 as u128)` return `Ok(0)`; the corrected conversion returns `Err` |
| Scenarios.WideTryFromRejectsFittingValue | src/bitset.rs:281-292 | as written, `u128::try_from` of `from(2^64 as u128)` returns `Err`; the corrected conversion returns `Ok(2^64)` |

## Left out

- `src/lib.rs` and `src/traits.rs` declare struct stubs (`SmallBitSet`, `SmallMachineBitSet`, a generic `BitSet` and `ResizeableBitSet`) and the set-algebra and resizing traits `TBitSet` and `Resizeable`, which nothing implements. The `BitSet` of `src/bitset.rs` does not use them, so they are not part of this model.
- The benchmarks are not modelled. They only time the code.
- The test harness, including quickcheck, is not modelled. The concrete cases of the unit tests appear as lemmas in `Scenarios`.
- The `println!` in `from` is not modelled. It is output only.
- Vector capacity hints (`Vec::with_capacity`, `String::with_capacity`) are not modelled. They do not affect any result. This includes `blocks_number(required_size)` in `from`, which passes a byte count where a bit count is meant. It is used only as a capacity hint.
- The text of panic and error messages is not modelled. `CheckPosition` keeps the numbers that the panic message prints. `TryFrom` returns a bare `Err`.
- The width of `usize` is fixed at 64 bits. `block_size()` is the constant `WIDTH`. The 32-bit target is not modelled.
- `size` and block indices are unbounded naturals. A `usize` overflow of the size itself is not modelled.
- BitSets.CountBlocks: the running total in `count()` is a `u32`. The model sums without bound, so it does not show the wrap-around past 2^32 - 1 set bits.
- Words.ToBinary: it models `{:0w$b}` only for values below 2^w, which is every use in the crate.
- Conversions.TryFromChecked: it is a corrected definition and models no source line on its own. Its contract is stated through `TryFromCheckedIsExact`.

## Findings

| source | as written | input that shows it | evidently intended | confidence | as-written member | corrected member |
|---|---|---|---|---|---|---|
| src/bitset.rs:157-164 | `all()` compares every block, including the last, with `usize::MAX`, so the clear padding bits of a size that is not a multiple of 64 make it false | `BitSet::from(u8::MAX).all()` is false although all 8 positions are set | true exactly when every position is set | not executed | Scenarios.FullByteNotAll | BitSets.AllBitsSetIffEveryBitSet |
| src/bitset.rs:269-274 | for targets up to 64 bits, `try_from` converts block 0 and never looks at the higher blocks | `u64::try_from(BitSet::from(1u128 << 64))` is `Ok(0)`; the conversion tests expect `Err` | `Err` when any higher block is nonzero | not executed | Scenarios.NarrowTryFromIgnoresHighBlocks | Conversions.TryFromCheckedIsExact |
| src/bitset.rs:281-292 | for u128, both loops use `blocks_needed - 1`: every block from index 1 up must be zero, and only block 0 is shifted in | `u128::try_from(BitSet::from(1u128 << 64))` is `Err`; the conversion tests expect `Ok(1 << 64)` | require blocks from index 2 up to be zero, and shift in blocks 1 and 0 | not executed | Scenarios.WideTryFromRejectsFittingValue | Conversions.TryFromCheckedAfterFrom |
