/** The fixed-capacity bit set: a sequence of 64-bit blocks, block 0 least
    significant, and a logical size fixed at construction. This module holds
    the block arithmetic, the constructor, single-bit access and the three
    aggregate queries. Mutation in place (`set(&mut self, ..)`) is modelled as
    a pure function returning the updated value. */
module BitSets {
  import opened Words

  datatype BitSet = BitSet(blocks: seq<Word>, size: nat)

  /** Where a logical position lives: which block, and which bit inside it. */
  datatype BitPosition = BitPosition(blockNumber: nat, blockPosition: nat)

  /** Outcome of the range check on a position. An out-of-range position is
      a panic whose message names the position and the inclusive range
      [first, last] of valid positions. */
  datatype PositionCheck = InRange | OutOfRange(position: nat, first: nat, last: nat)

  /** Number of blocks holding `size` bits: the ceiling of size / 64. */
  function BlocksNumber(size: nat): (n: nat)
    ensures size <= WIDTH * n
    ensures WIDTH * n < size + WIDTH
  {
    var div := size / WIDTH;
    var rem := size % WIDTH;
    if rem == 0 then div else div + 1
  }

  /** The block count matches the logical size, and the size is positive. */
  predicate WellFormed(b: BitSet)
  {
    b.size >= 1 && |b.blocks| == BlocksNumber(b.size)
  }

  /** Bit p of the block storage, padding bits included. */
  predicate RawBit(blocks: seq<Word>, p: nat)
    requires p < WIDTH * |blocks|
  {
    TestBit(blocks[p / WIDTH], p % WIDTH)
  }

  /** Every padding bit, at a position at or above the size, is zero. */
  predicate PaddingClear(b: BitSet)
  {
    forall p: nat :: b.size <= p < WIDTH * |b.blocks| ==> !RawBit(b.blocks, p)
  }

  predicate Valid(b: BitSet)
  {
    WellFormed(b) && PaddingClear(b)
  }

  function GetBitPosition(position: nat): (r: BitPosition)
    ensures r.blockPosition < WIDTH
    ensures WIDTH * r.blockNumber + r.blockPosition == position
  {
    BitPosition(position / WIDTH, position % WIDTH)
  }

  /** `1 << offset` in a block: the word whose only set bit is `offset`. */
  function MakeBitmask(offset: nat): (mask: Word)
    requires offset < WIDTH
    ensures forall k: nat :: TestBit(mask, k) <==> k == offset
  {
    Pow2Of64();
    Pow2Monotone(offset + 1, WIDTH);
    SingleBitOfPow2(offset);
    Shl(1, offset, WIDTH)
  }

  /** The range check done before every access. */
  function CheckPosition(b: BitSet, position: nat): (r: PositionCheck)
    requires WellFormed(b)
    ensures r.InRange? <==> position < b.size
    ensures r.OutOfRange? ==> r.position == position && r.first == 0 && r.last + 1 == b.size
  {
    if position >= b.size then OutOfRange(position, 0, b.size - 1) else InRange
  }

  /** `new(size)`; a size of zero panics. */
  function New(size: nat): (r: BitSet)
    requires size >= 1
    ensures Valid(r) && r.size == size
    ensures forall i :: 0 <= i < |r.blocks| ==> r.blocks[i] == 0
    ensures forall p :: 0 <= p < size ==> !Get(r, p)
  {
    ZeroHasNoBits();
    BitSet(seq(BlocksNumber(size), _ => 0), size)
  }

  /** `get(position)`: the `&` of the block with the bit mask is nonzero
      exactly when the addressed bit is set. */
  function Get(b: BitSet, position: nat): (r: bool)
    requires WellFormed(b) && position < b.size
    ensures r == RawBit(b.blocks, position)
  {
    var pos := GetBitPosition(position);
    var bitmask := MakeBitmask(pos.blockPosition);
    var masked := AndBits(b.blocks[pos.blockNumber], bitmask, WIDTH);
    MaskedBit(b.blocks[pos.blockNumber], pos.blockPosition);
    masked != 0
  }

  lemma MaskedBit(block: Word, offset: nat)
    requires offset < WIDTH
    ensures AndBits(block, MakeBitmask(offset), WIDTH) != 0 <==> TestBit(block, offset)
  {
    var masked := AndBits(block, MakeBitmask(offset), WIDTH);
    AndBitsSpec(block, MakeBitmask(offset), WIDTH, offset);
    if masked != 0 {
      var k := NonzeroHasBit(masked, WIDTH);
      AndBitsSpec(block, MakeBitmask(offset), WIDTH, k);
    } else {
      NoBitsOfZero(offset);
    }
  }

  /** The block update done by `set`: OR in the mask to set the bit, AND
      with the complement of the mask to clear it. Every bit the mask
      selects becomes `value`; every other bit is kept. */
  function UpdateBlock(block: Word, bitmask: Word, value: bool): (r: Word)
    ensures forall k: nat :: TestBit(r, k) <==> if TestBit(bitmask, k) then value else TestBit(block, k)
  {
    Pow2Of64();
    UpdateBlockBits(block, bitmask, value);
    if value then OrBits(block, bitmask, WIDTH)
    else AndBits(block, NotBits(bitmask, WIDTH), WIDTH)
  }

  lemma UpdateBlockBits(block: Word, bitmask: Word, value: bool)
    ensures forall k: nat :: TestBit(if value then OrBits(block, bitmask, WIDTH)
                                     else AndBits(block, NotBits(bitmask, WIDTH), WIDTH), k)
                             <==> if TestBit(bitmask, k) then value else TestBit(block, k)
  {
    Pow2Of64();
    forall k: nat
      ensures TestBit(if value then OrBits(block, bitmask, WIDTH)
                      else AndBits(block, NotBits(bitmask, WIDTH), WIDTH), k)
              <==> if TestBit(bitmask, k) then value else TestBit(block, k)
    {
      if k >= WIDTH {
        NoBitsAbove(block, WIDTH, k);
        NoBitsAbove(bitmask, WIDTH, k);
      }
      OrBitsSpec(block, bitmask, WIDTH, k);
      AndBitsSpec(block, NotBits(bitmask, WIDTH), WIDTH, k);
      NotBitsSpec(bitmask, WIDTH, k);
    }
  }

  /** Replacing the addressed block by its update changes the raw bit at
      `position` to `value` and no other raw bit. */
  lemma UpdatedBlocksBits(blocks: seq<Word>, position: nat, value: bool)
    requires position < WIDTH * |blocks|
    ensures var blocks' := blocks[position / WIDTH := UpdateBlock(blocks[position / WIDTH], MakeBitmask(position % WIDTH), value)];
            forall q: nat :: q < WIDTH * |blocks| ==>
              (RawBit(blocks', q) <==> if q == position then value else RawBit(blocks, q))
  {
    var n := position / WIDTH;
    var blocks' := blocks[n := UpdateBlock(blocks[n], MakeBitmask(position % WIDTH), value)];
    forall q: nat | q < WIDTH * |blocks|
      ensures RawBit(blocks', q) <==> if q == position then value else RawBit(blocks, q)
    {
      if q / WIDTH == n {
        assert q == position <==> q % WIDTH == position % WIDTH;
      }
    }
  }

  /** `set(position, value)`, returning the updated bit set. */
  function Set(b: BitSet, position: nat, value: bool): (r: BitSet)
    requires WellFormed(b) && position < b.size
    ensures WellFormed(r) && r.size == b.size && |r.blocks| == |b.blocks|
    ensures Get(r, position) == value
    ensures forall q :: 0 <= q < b.size && q != position ==> Get(r, q) == Get(b, q)
    ensures forall q: nat :: q < WIDTH * |b.blocks| ==>
              (RawBit(r.blocks, q) <==> if q == position then value else RawBit(b.blocks, q))
    ensures forall i :: 0 <= i < |b.blocks| && i != position / WIDTH ==> r.blocks[i] == b.blocks[i]
    ensures PaddingClear(b) ==> PaddingClear(r)
  {
    var pos := GetBitPosition(position);
    var bitmask := MakeBitmask(pos.blockPosition);
    var block := b.blocks[pos.blockNumber];
    UpdatedBlocksBits(b.blocks, position, value);
    BitSet(b.blocks[pos.blockNumber := UpdateBlock(block, bitmask, value)], b.size)
  }

  /** Setting a bit to the value it was just set to changes nothing. */
  lemma SetIdempotent(b: BitSet, position: nat, value: bool)
    requires WellFormed(b) && position < b.size
    ensures Set(Set(b, position, value), position, value) == Set(b, position, value)
  {
    var once := Set(b, position, value);
    var twice := Set(once, position, value);
    RawBitsDetermineBlocks(twice.blocks, once.blocks);
  }

  /** Block sequences of the same length with the same raw bits are equal. */
  lemma RawBitsDetermineBlocks(a: seq<Word>, b: seq<Word>)
    requires |a| == |b|
    requires forall q: nat :: q < WIDTH * |a| ==> (RawBit(a, q) <==> RawBit(b, q))
    ensures a == b
  {
    forall i | 0 <= i < |a|
      ensures a[i] == b[i]
    {
      forall k: nat | k < WIDTH
        ensures TestBit(a[i], k) <==> TestBit(b[i], k)
      {
        var q := WIDTH * i + k;
        assert q / WIDTH == i && q % WIDTH == k;
        assert RawBit(a, q) <==> RawBit(b, q);
      }
      Pow2Of64();
      BitsDetermineValue(a[i], b[i], WIDTH);
    }
  }

  /** `all()`: every block equals `usize::MAX`, checked block by block. */
  function AllBlocks(blocks: seq<Word>): (r: bool)
    ensures r <==> forall i :: 0 <= i < |blocks| ==> blocks[i] == WORD_MAX
  {
    if |blocks| == 0 then true
    else if blocks[0] != WORD_MAX then false
    else AllBlocks(blocks[1..])
  }

  /** `any()`: some block is nonzero. */
  function AnyBlocks(blocks: seq<Word>): (r: bool)
    ensures r <==> exists i :: 0 <= i < |blocks| && blocks[i] != 0
  {
    if |blocks| == 0 then false
    else if blocks[0] != 0 then true
    else AnyBlocks(blocks[1..])
  }

  /** `count()`: the sum of `count_ones` over the blocks. The value after
      the first k blocks is the loop's running total after k iterations. */
  function CountBlocks(blocks: seq<Word>): (r: nat)
    ensures r <= WIDTH * |blocks|
    ensures r == 0 <==> forall i :: 0 <= i < |blocks| ==> blocks[i] == 0
  {
    if |blocks| == 0 then 0
    else CountBlocks(blocks[..|blocks| - 1]) + CountOnes(blocks[|blocks| - 1])
  }

  /** `all()` as written. On a valid set it holds exactly when the size is
      a multiple of 64 and every position reads as set: a clear padding bit
      keeps the last block below `usize::MAX`. */
  function All(b: BitSet): (r: bool)
    ensures Valid(b) ==> (r <==> b.size % WIDTH == 0 && forall p :: 0 <= p < b.size ==> Get(b, p))
  {
    AllBlocksByPosition(b);
    AllBlocks(b.blocks)
  }

  /** `any()`. On a valid set it holds exactly when some position reads as
      set. */
  function Any(b: BitSet): (r: bool)
    ensures Valid(b) ==> (r <==> exists p :: 0 <= p < b.size && Get(b, p))
  {
    AnyIffSomeBitSet(b);
    AnyBlocks(b.blocks)
  }

  /** `count()`. On a valid set it is the number of positions that read as
      set, so it never exceeds the size. */
  function Count(b: BitSet): (r: nat)
    ensures Valid(b) ==> r == Population(b) && r <= b.size
  {
    CountIsPopulation(b);
    CountBlocks(b.blocks)
  }

  /** How many raw bits are set below position n. */
  function SetBitsBelow(blocks: seq<Word>, n: nat): (r: nat)
    requires n <= WIDTH * |blocks|
    ensures r <= n
  {
    if n == 0 then 0 else SetBitsBelow(blocks, n - 1) + (if RawBit(blocks, n - 1) then 1 else 0)
  }

  /** The number of positions of `b` that read as set. */
  function Population(b: BitSet): nat
    requires WellFormed(b)
  {
    SetBitsBelow(b.blocks, b.size)
  }

  lemma {:induction false} SetBitsBelowPrefix(blocks: seq<Word>, k: nat, n: nat)
    requires k <= |blocks| && n <= WIDTH * k
    ensures SetBitsBelow(blocks[..k], n) == SetBitsBelow(blocks, n)
  {
    if n > 0 {
      SetBitsBelowPrefix(blocks, k, n - 1);
      assert (n - 1) / WIDTH < k;
    }
  }

  lemma {:induction false} SetBitsInBlock(blocks: seq<Word>, k: nat, j: nat)
    requires k < |blocks| && j <= WIDTH
    ensures SetBitsBelow(blocks, WIDTH * k + j) == SetBitsBelow(blocks, WIDTH * k) + BitsSetBelow(blocks[k], j)
  {
    if j > 0 {
      SetBitsInBlock(blocks, k, j - 1);
      var p := WIDTH * k + j - 1;
      assert p / WIDTH == k && p % WIDTH == j - 1;
    }
  }

  /** Summing `count_ones` over the blocks counts every raw bit. */
  lemma {:induction false} CountBlocksIsRawPopulation(blocks: seq<Word>)
    ensures CountBlocks(blocks) == SetBitsBelow(blocks, WIDTH * |blocks|)
  {
    var n := |blocks|;
    if n > 0 {
      var front := blocks[..n - 1];
      CountBlocksIsRawPopulation(front);
      SetBitsBelowPrefix(blocks, n - 1, WIDTH * (n - 1));
      SetBitsInBlock(blocks, n - 1, WIDTH);
    }
  }

  /** Positions past the size add nothing when the padding is clear. */
  lemma {:induction false} PaddingAddsNothing(b: BitSet, n: nat)
    requires Valid(b) && b.size <= n <= WIDTH * |b.blocks|
    ensures SetBitsBelow(b.blocks, n) == Population(b)
  {
    if n > b.size {
      PaddingAddsNothing(b, n - 1);
    }
  }

  /** `count()` is the number of positions that read as set, so it never
      exceeds the size. */
  lemma CountIsPopulation(b: BitSet)
    ensures Valid(b) ==> CountBlocks(b.blocks) == Population(b) <= b.size
  {
    if Valid(b) {
      CountBlocksIsRawPopulation(b.blocks);
      PaddingAddsNothing(b, WIDTH * |b.blocks|);
    }
  }

  lemma {:induction false} SetBitsBelowAfterSet(b: BitSet, position: nat, value: bool, n: nat)
    requires WellFormed(b) && position < b.size && n <= WIDTH * |b.blocks|
    ensures SetBitsBelow(Set(b, position, value).blocks, n) + (if position < n && RawBit(b.blocks, position) then 1 else 0)
            == SetBitsBelow(b.blocks, n) + (if position < n && value then 1 else 0)
  {
    var r := Set(b, position, value);
    SetBitsBelowOneChange(b.blocks, r.blocks, position, value, n);
  }

  /** Counting below n over blocks that differ from the original only in
      the raw bit at `position`, which now reads `value`. */
  lemma {:induction false} SetBitsBelowOneChange(blocks: seq<Word>, blocks': seq<Word>, position: nat, value: bool, n: nat)
    requires |blocks'| == |blocks| && n <= WIDTH * |blocks|
    requires forall q: nat :: q < WIDTH * |blocks| ==>
               (RawBit(blocks', q) <==> if q == position then value else RawBit(blocks, q))
    ensures SetBitsBelow(blocks', n) + (if position < n && RawBit(blocks, position) then 1 else 0)
            == SetBitsBelow(blocks, n) + (if position < n && value then 1 else 0)
  {
    if n > 0 {
      SetBitsBelowOneChange(blocks, blocks', position, value, n - 1);
      assert RawBit(blocks', n - 1) <==> if n - 1 == position then value else RawBit(blocks, n - 1);
    }
  }

  /** `set` changes the count by exactly the change of the one bit: clearing
      a set bit drops it by one, setting a clear bit raises it by one. */
  lemma CountAfterSet(b: BitSet, position: nat, value: bool)
    requires Valid(b) && position < b.size
    ensures Count(Set(b, position, value)) + (if Get(b, position) then 1 else 0)
            == Count(b) + (if value then 1 else 0)
  {
    SetBitsBelowAfterSet(b, position, value, b.size);
  }

  lemma {:induction false} SetBitsBelowFull(blocks: seq<Word>, n: nat)
    requires n <= WIDTH * |blocks|
    ensures (forall p :: 0 <= p < n ==> RawBit(blocks, p)) ==> SetBitsBelow(blocks, n) == n
    ensures SetBitsBelow(blocks, n) == n ==> forall p :: 0 <= p < n ==> RawBit(blocks, p)
  {
    if n > 0 {
      SetBitsBelowFull(blocks, n - 1);
    }
  }

  /** `count()` equals the size exactly when every position reads as set. */
  lemma CountFullIffEveryBitSet(b: BitSet)
    requires Valid(b)
    ensures (forall p :: 0 <= p < b.size ==> Get(b, p)) ==> Count(b) == b.size
    ensures Count(b) == b.size ==> forall p :: 0 <= p < b.size ==> Get(b, p)
  {
    SetBitsBelowFull(b.blocks, b.size);
    if forall p :: 0 <= p < b.size ==> Get(b, p) {
      forall p | 0 <= p < b.size
        ensures RawBit(b.blocks, p)
      {
        assert Get(b, p);
      }
    }
  }

  /** Under the padding invariant, the scan of `any()` finds a nonzero block
      exactly when some position reads as set. */
  lemma AnyIffSomeBitSet(b: BitSet)
    ensures Valid(b) ==> (AnyBlocks(b.blocks) <==> exists p :: 0 <= p < b.size && Get(b, p))
  {
    if Valid(b) {
      if AnyBlocks(b.blocks) {
        var i :| 0 <= i < |b.blocks| && b.blocks[i] != 0;
        Pow2Of64();
        var k := NonzeroHasBit(b.blocks[i], WIDTH);
        var p := WIDTH * i + k;
        assert p / WIDTH == i && p % WIDTH == k;
        assert RawBit(b.blocks, p);
        assert 0 <= p < b.size && Get(b, p);
      } else {
        forall p | 0 <= p < b.size
          ensures !Get(b, p)
        {
          NoBitsOfZero(p % WIDTH);
        }
      }
    }
  }

  lemma WordMaxBits()
    ensures forall k: nat :: TestBit(WORD_MAX, k) <==> k < WIDTH
  {
    Pow2Of64();
    forall k: nat
      ensures TestBit(WORD_MAX, k) <==> k < WIDTH
    {
      BitsOfLowMask(WIDTH, k);
    }
  }

  /** On a valid set the scan of `all()` succeeds exactly when the size is
      a multiple of 64 and every position reads as set. */
  lemma AllBlocksByPosition(b: BitSet)
    ensures Valid(b) ==>
              (AllBlocks(b.blocks) <==> b.size % WIDTH == 0 && forall p :: 0 <= p < b.size ==> Get(b, p))
  {
    if Valid(b) {
      if AllBlocks(b.blocks) {
        AllMeansEveryBitSet(b);
        if b.size % WIDTH != 0 {
          AllFalseWhenUnaligned(b);
        }
      }
      if b.size % WIDTH == 0 && forall p :: 0 <= p < b.size ==> Get(b, p) {
        AllWhenAligned(b);
      }
    }
  }

  /** When every block is `usize::MAX`, every position reads as set. */
  lemma AllMeansEveryBitSet(b: BitSet)
    requires WellFormed(b) && AllBlocks(b.blocks)
    ensures forall p :: 0 <= p < b.size ==> Get(b, p)
  {
    WordMaxBits();
  }

  /** When the size is not a multiple of 64, the scan of `all()` fails
      whatever the bits are: the last block has a clear padding bit, so it
      is never `usize::MAX`. */
  lemma AllFalseWhenUnaligned(b: BitSet)
    requires Valid(b) && b.size % WIDTH != 0
    ensures !AllBlocks(b.blocks)
  {
    var last := |b.blocks| - 1;
    var p := WIDTH * last + (WIDTH - 1);
    assert p / WIDTH == last && p % WIDTH == WIDTH - 1;
    assert !RawBit(b.blocks, p);
    WordMaxBits();
    assert b.blocks[last] != WORD_MAX;
  }

  /** When the size is a multiple of 64 and every position reads as set,
      every block is `usize::MAX`. */
  lemma AllWhenAligned(b: BitSet)
    requires Valid(b) && b.size % WIDTH == 0
    requires forall p :: 0 <= p < b.size ==> Get(b, p)
    ensures AllBlocks(b.blocks)
  {
    var last := |b.blocks| - 1;
    EveryBitSetMeansAllBitsSet(b);
    assert b.size - WIDTH * last == WIDTH;
    Pow2Of64();
    forall i | 0 <= i < |b.blocks|
      ensures b.blocks[i] == WORD_MAX
    {
      if i < last {
        assert b.blocks[..last][i] == b.blocks[i];
      }
    }
  }

  /** Clearing any bit makes `all()` false. */
  lemma ClearingBreaksAll(b: BitSet, position: nat)
    requires WellFormed(b) && position < b.size
    ensures !All(Set(b, position, false))
  {
    var r := Set(b, position, false);
    var n := position / WIDTH;
    assert !RawBit(r.blocks, position);
    WordMaxBits();
    assert r.blocks[n] != WORD_MAX;
  }

  /** `all()` with the padding bits of the last block masked off: the full
      blocks equal `usize::MAX` and the last block has exactly its used bits
      set. */
  function AllBitsSet(b: BitSet): bool
    requires WellFormed(b)
  {
    var last := |b.blocks| - 1;
    AllBlocks(b.blocks[..last]) && b.blocks[last] == Pow2(b.size - WIDTH * last) - 1
  }

  /** The masked `all()` holds exactly when every position reads as set. */
  lemma AllBitsSetIffEveryBitSet(b: BitSet)
    requires Valid(b)
    ensures AllBitsSet(b) <==> forall p :: 0 <= p < b.size ==> Get(b, p)
  {
    if AllBitsSet(b) {
      AllBitsSetMeansEveryBitSet(b);
    }
    if forall p :: 0 <= p < b.size ==> Get(b, p) {
      EveryBitSetMeansAllBitsSet(b);
    }
  }

  lemma AllBitsSetMeansEveryBitSet(b: BitSet)
    requires WellFormed(b) && AllBitsSet(b)
    ensures forall p :: 0 <= p < b.size ==> Get(b, p)
  {
    var last := |b.blocks| - 1;
    var used := b.size - WIDTH * last;
    WordMaxBits();
    forall p | 0 <= p < b.size
      ensures Get(b, p)
    {
      if p / WIDTH < last {
        assert b.blocks[..last][p / WIDTH] == b.blocks[p / WIDTH];
      } else {
        BitsOfLowMask(used, p % WIDTH);
      }
    }
  }

  lemma EveryBitSetMeansAllBitsSet(b: BitSet)
    requires Valid(b) && forall p :: 0 <= p < b.size ==> Get(b, p)
    ensures AllBitsSet(b)
  {
    var last := |b.blocks| - 1;
    forall i | 0 <= i < last
      ensures b.blocks[i] == WORD_MAX
    {
      FullBlock(b, i);
    }
    FullLastBlock(b);
    assert AllBlocks(b.blocks[..last]);
  }

  /** A block below the last one, all of whose positions are set, is
      `usize::MAX`. */
  lemma FullBlock(b: BitSet, i: nat)
    requires WellFormed(b) && i < |b.blocks| - 1
    requires forall p :: 0 <= p < b.size ==> Get(b, p)
    ensures b.blocks[i] == WORD_MAX
  {
    WordMaxBits();
    forall k: nat | k < WIDTH
      ensures TestBit(b.blocks[i], k) <==> TestBit(WORD_MAX, k)
    {
      var p := WIDTH * i + k;
      assert p / WIDTH == i && p % WIDTH == k;
      assert Get(b, p);
    }
    Pow2Of64();
    BitsDetermineValue(b.blocks[i], WORD_MAX, WIDTH);
  }

  /** The last block, with its used positions set and its padding clear,
      has exactly its used bits set. */
  lemma FullLastBlock(b: BitSet)
    requires Valid(b) && forall p :: 0 <= p < b.size ==> Get(b, p)
    ensures var last := |b.blocks| - 1;
            b.blocks[last] == Pow2(b.size - WIDTH * last) - 1
  {
    var last := |b.blocks| - 1;
    var used := b.size - WIDTH * last;
    forall k: nat | k < WIDTH
      ensures TestBit(b.blocks[last], k) <==> TestBit(Pow2(used) - 1, k)
    {
      var p := WIDTH * last + k;
      assert p / WIDTH == last && p % WIDTH == k;
      BitsOfLowMask(used, k);
      if p < b.size {
        assert Get(b, p);
      } else {
        assert !RawBit(b.blocks, p);
      }
    }
    Pow2Of64();
    Pow2Monotone(used, WIDTH);
    BitsDetermineValue(b.blocks[last], Pow2(used) - 1, WIDTH);
  }
}
