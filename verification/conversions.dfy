/** Conversions between the bit set and unsigned integers (`From<uN>` and
    `TryFrom<BitSet>`), and the binary rendering of `to_string`. */
module Conversions {
  import opened Words
  import opened BitSets

  /** The unsigned integer types with conversion impls; `usize` is 64 bits
      wide on the modelled target. */
  datatype UintType = U8 | U16 | U32 | U64 | U128 | Usize
  {
    /** `size_of::<T>()`, in bytes. */
    function Bytes(): nat
    {
      match this
      case U8 => 1
      case U16 => 2
      case U32 => 4
      case U64 => 8
      case U128 => 16
      case Usize => 8
    }

    function Bits(): nat
    {
      8 * Bytes()
    }

    /** `T::MAX`. */
    function Max(): nat
    {
      Pow2(Bits()) - 1
    }
  }

  /** `T::MAX` for every type. */
  lemma MaxValues()
    ensures U8.Max() == 0xFF && U16.Max() == 0xFFFF && U32.Max() == 0xFFFF_FFFF
    ensures U64.Max() == WORD_MAX && Usize.Max() == WORD_MAX
    ensures U128.Max() == 0xFFFF_FFFF_FFFF_FFFF_FFFF_FFFF_FFFF_FFFF
  {
    assert U8.Bits() == 8 && U16.Bits() == 16 && U32.Bits() == 32;
    assert U64.Bits() == 64 && Usize.Bits() == 64 && U128.Bits() == 128;
    Pow2Constants();
  }

  /** The result of `try_from`; the error text is not modelled. */
  datatype ConversionResult = Ok(value: nat) | Err

  /** The number the blocks stand for: block 0 is the least significant
      base-2^64 digit. */
  function BlocksValue(blocks: seq<Word>): nat
  {
    if |blocks| == 0 then 0 else blocks[0] + WORD_MODULUS * BlocksValue(blocks[1..])
  }

  function Reverse<T>(s: seq<T>): (r: seq<T>)
    ensures |r| == |s|
    ensures forall i :: 0 <= i < |s| ==> r[i] == s[|s| - 1 - i]
  {
    seq(|s|, i requires 0 <= i < |s| => s[|s| - 1 - i])
  }

  /** `value.to_be_bytes()` for an n-byte integer. */
  function ToBeBytes(value: nat, n: nat): (r: seq<Byte>)
    ensures |r| == n
  {
    if n == 0 then [] else ToBeBytes(value / 256, n - 1) + [value % 256]
  }

  /** The number a big-endian byte string stands for. */
  function BigEndianValue(bytes: seq<Byte>): nat
  {
    if |bytes| == 0 then 0 else 256 * BigEndianValue(bytes[..|bytes| - 1]) + bytes[|bytes| - 1]
  }

  lemma {:induction false} BigEndianBound(bytes: seq<Byte>)
    ensures BigEndianValue(bytes) < Pow2(8 * |bytes|)
  {
    if |bytes| > 0 {
      BigEndianBound(bytes[..|bytes| - 1]);
      Pow2Add(8 * (|bytes| - 1), 8);
      Pow2Of64();
    }
  }

  /** `to_be_bytes` loses nothing for a value that fits in n bytes. */
  lemma {:induction false} ToBeBytesRoundTrip(value: nat, n: nat)
    requires value < Pow2(8 * n)
    ensures BigEndianValue(ToBeBytes(value, n)) == value
  {
    if n > 0 {
      Pow2Add(8 * (n - 1), 8);
      Pow2Of64();
      ToBeBytesRoundTrip(value / 256, n - 1);
      var bytes := ToBeBytes(value, n);
      assert bytes[..n - 1] == ToBeBytes(value / 256, n - 1);
    }
  }

  lemma {:induction false} BigEndianAppend(a: seq<Byte>, b: seq<Byte>)
    ensures BigEndianValue(a + b) == BigEndianValue(a) * Pow2(8 * |b|) + BigEndianValue(b)
  {
    if |b| > 0 {
      var b' := b[..|b| - 1];
      var last := b[|b| - 1];
      assert (a + b)[..|a + b| - 1] == a + b';
      assert (a + b)[|a + b| - 1] == last;
      BigEndianAppend(a, b');
      Pow2Add(8 * |b'|, 8);
      assert Pow2(8) == 256;
      var x := BigEndianValue(a);
      var p := Pow2(8 * |b'|);
      var v := BigEndianValue(b');
      assert BigEndianValue(a + b) == 256 * (x * p + v) + last;
      AppendDigit(x, p, v, last);
      assert BigEndianValue(b) == 256 * v + last;
    } else {
      assert a + b == a;
    }
  }

  lemma AppendDigit(x: nat, p: nat, v: nat, last: nat)
    ensures 256 * (x * p + v) + last == x * (p * 256) + (256 * v + last)
  {
    assert 256 * (x * p) == x * (p * 256);
  }

  /** `bytes.chunks(size)`: consecutive pieces of `size` bytes, the last
      one possibly shorter. */
  function Chunks(bytes: seq<Byte>, size: nat): (r: seq<seq<Byte>>)
    requires size > 0
    ensures Flatten(r) == bytes
    ensures forall i :: 0 <= i < |r| ==> 0 < |r[i]| <= size
    ensures forall i :: 0 <= i < |r| - 1 ==> |r[i]| == size
    decreases |bytes|
  {
    if |bytes| == 0 then []
    else if |bytes| <= size then [bytes]
    else
      var rest := Chunks(bytes[size..], size);
      assert Flatten([bytes[..size]] + rest) == bytes[..size] + Flatten(rest);
      [bytes[..size]] + rest
  }

  function Flatten<T>(pieces: seq<seq<T>>): seq<T>
  {
    if |pieces| == 0 then [] else pieces[0] + Flatten(pieces[1..])
  }

  /** The inner loop of `from`: each byte of a chunk is shifted in from the
      right (`block << 8 | byte`). A chunk of at most eight bytes yields
      the number it spells big-endian. */
  function PackChunk(chunk: seq<Byte>): (block: Word)
    ensures |chunk| <= 8 ==> block == BigEndianValue(chunk)
  {
    Pow2Of64();
    if |chunk| == 0 then 0
    else
      var front := chunk[..|chunk| - 1];
      var prefix := PackChunk(front);
      var byte := chunk[|chunk| - 1];
      PackByte(front, byte);
      assert front + [byte] == chunk;
      OrBits(Shl(prefix, 8, WIDTH), byte, WIDTH)
  }

  /** One step of the packing loop, `block << 8 | byte`: while the chunk
      has room, it appends the byte to the big-endian value. */
  lemma PackByte(front: seq<Byte>, byte: Byte)
    ensures |front| < 8 ==>
              OrBits(Shl(BigEndianValue(front), 8, WIDTH), byte, WIDTH) == BigEndianValue(front + [byte])
  {
    if |front| < 8 {
      var prefix := BigEndianValue(front);
      BigEndianBound(front);
      ByteShiftFits(prefix, |front|);
      Pow2Of8();
      ShiftOr(prefix, byte, 8, WIDTH);
      assert (front + [byte])[..|front|] == front;
    }
  }

  lemma ByteShiftFits(x: nat, k: nat)
    requires k < 8 && x < Pow2(8 * k)
    ensures x * Pow2(8) < Pow2(WIDTH)
  {
    ShiftFits(x, 8 * k, 8, WIDTH);
  }

  /** A value below 2^m shifted left by s stays below 2^n when m + s <= n. */
  lemma ShiftFits(x: nat, m: nat, s: nat, n: nat)
    requires x < Pow2(m) && m + s <= n
    ensures x * Pow2(s) < Pow2(n)
  {
    Pow2Add(m, s);
    Pow2Monotone(m + s, n);
    MulStrict(x, Pow2(m), Pow2(s));
  }

  lemma MulStrict(x: nat, y: nat, c: nat)
    requires x < y && c > 0
    ensures x * c < y * c
  {
  }

  function PackChunks(chunks: seq<seq<Byte>>): (blocks: seq<Word>)
    ensures |blocks| == |chunks|
    ensures forall i :: 0 <= i < |chunks| ==> blocks[i] == PackChunk(chunks[i])
  {
    seq(|chunks|, i requires 0 <= i < |chunks| => PackChunk(chunks[i]))
  }

  /** `BitSet::from(value)`. `u8` has its own impl that stores the value as
      the only block; the other types go through the byte-chunking macro:
      big-endian bytes, cut into block-sized chunks, packed, and the block
      order reversed so that block 0 is the least significant. */
  function FromUint(t: UintType, value: nat): (r: BitSet)
    requires value <= t.Max()
    ensures WellFormed(r) && r.size == t.Bits()
    ensures BlocksValue(r.blocks) == value
  {
    Pow2Of64();
    if t == U8 then
      BitSet([value], 8)
    else
      var bytes := ToBeBytes(value, t.Bytes());
      ToBeBytesRoundTrip(value, t.Bytes());
      var chunks := Chunks(bytes, 8);
      var blocks := Reverse(PackChunks(chunks));
      FromUintBlocks(t, bytes);
      BitSet(blocks, t.Bits())
  }

  /** The block values the chunking produces, by byte width. */
  lemma FromUintBlocks(t: UintType, bytes: seq<Byte>)
    requires t != U8 && |bytes| == t.Bytes()
    ensures var blocks := Reverse(PackChunks(Chunks(bytes, 8)));
            |blocks| == BlocksNumber(t.Bits()) && BlocksValue(blocks) == BigEndianValue(bytes)
  {
    if t == U128 {
      WideBlocks(bytes);
    } else {
      NarrowBlocks(bytes);
    }
  }

  /** Up to eight bytes make one chunk and one block. */
  lemma NarrowBlocks(bytes: seq<Byte>)
    requires 0 < |bytes| <= 8
    ensures var blocks := Reverse(PackChunks(Chunks(bytes, 8)));
            blocks == [BigEndianValue(bytes)] && BlocksValue(blocks) == BigEndianValue(bytes)
  {
    var chunks := Chunks(bytes, 8);
    assert chunks == [bytes];
    var blocks := Reverse(PackChunks(chunks));
    assert blocks == [PackChunk(bytes)];
    assert blocks[1..] == [];
  }

  /** Sixteen bytes make two chunks; after the reversal the low half is
      block 0. */
  lemma WideBlocks(bytes: seq<Byte>)
    requires |bytes| == 16
    ensures var blocks := Reverse(PackChunks(Chunks(bytes, 8)));
            |blocks| == 2 && BlocksValue(blocks) == BigEndianValue(bytes)
  {
    var hiBytes := bytes[..8];
    var loBytes := bytes[8..];
    var chunks := Chunks(bytes, 8);
    assert chunks == [hiBytes] + Chunks(loBytes, 8);
    assert Chunks(loBytes, 8) == [loBytes];
    var hi := PackChunk(hiBytes);
    var lo := PackChunk(loBytes);
    var blocks := Reverse(PackChunks(chunks));
    assert blocks == [lo, hi];
    TwoBlocksValue(blocks);
    assert bytes == hiBytes + loBytes;
    BigEndianAppend(hiBytes, loBytes);
    Pow2Of64();
    assert |loBytes| == 8 && Pow2(8 * |loBytes|) == WORD_MODULUS;
    assert BigEndianValue(bytes) == hi * WORD_MODULUS + lo;
  }

  /** Two blocks stand for block 0 plus 2^64 times block 1. */
  lemma TwoBlocksValue(blocks: seq<Word>)
    requires |blocks| == 2
    ensures BlocksValue(blocks) == blocks[0] + WORD_MODULUS * blocks[1]
  {
    var high := blocks[1..];
    assert |high[1..]| == 0 && high[0] == blocks[1];
    assert BlocksValue(high) == blocks[1];
  }

  /** Bit p of the blocks is bit p of the number they stand for. */
  lemma {:induction false} RawBitIsValueBit(blocks: seq<Word>, p: nat)
    requires p < WIDTH * |blocks|
    ensures RawBit(blocks, p) <==> TestBit(BlocksValue(blocks), p)
  {
    Pow2Of64();
    BitsOfSplit(blocks[0], BlocksValue(blocks[1..]), WIDTH, p);
    if p >= WIDTH {
      RawBitIsValueBit(blocks[1..], p - WIDTH);
      assert (p - WIDTH) / WIDTH == p / WIDTH - 1 && (p - WIDTH) % WIDTH == p % WIDTH;
    }
  }

  /** `from(value)` keeps the padding clear, and reading position i gives
      bit i of the value. */
  lemma FromUintBits(t: UintType, value: nat)
    requires value <= t.Max()
    ensures Valid(FromUint(t, value))
    ensures forall i :: 0 <= i < t.Bits() ==> (Get(FromUint(t, value), i) <==> TestBit(value, i))
  {
    var r := FromUint(t, value);
    forall p: nat | p < WIDTH * |r.blocks|
      ensures RawBit(r.blocks, p) <==> TestBit(value, p)
    {
      RawBitIsValueBit(r.blocks, p);
    }
    forall p: nat | r.size <= p
      ensures !TestBit(value, p)
    {
      NoBitsAbove(value, t.Bits(), p);
    }
  }

  /** The blocks rendered by `to_string` before trimming: every block as 64
      binary digits, the most significant block first. */
  function RenderBlocks(blocks: seq<Word>): (s: seq<char>)
    ensures |s| == WIDTH * |blocks|
    ensures forall p: nat :: p < WIDTH * |blocks| ==> s[WIDTH * |blocks| - 1 - p] == BitChar(RawBit(blocks, p))
  {
    if |blocks| == 0 then []
    else
      var rest := RenderBlocks(blocks[1..]);
      var low := ToBinary(blocks[0], WIDTH);
      assert forall p: nat :: WIDTH <= p < WIDTH * |blocks| ==> RawBit(blocks, p) == RawBit(blocks[1..], p - WIDTH);
      rest + low
  }

  /** `to_string()`: the rendering trimmed to its last `size` characters,
      which drops the padding bits of the highest block. */
  function ToString(b: BitSet): (r: seq<char>)
    requires WellFormed(b)
    ensures |r| == b.size
    ensures forall j :: 0 <= j < |r| ==> r[j] == '0' || r[j] == '1'
    ensures forall i :: 0 <= i < b.size ==> r[b.size - 1 - i] == BitChar(Get(b, i))
  {
    var rendered := RenderBlocks(b.blocks);
    var r := rendered[|rendered| - b.size..];
    assert forall j :: 0 <= j < |r| ==> r[j] == BitChar(RawBit(b.blocks, b.size - 1 - j));
    r
  }

  /** `to_string()` of `from(value)` is the value written as binary with
      as many digits as the type has bits. */
  lemma FromUintToString(t: UintType, value: nat)
    requires value <= t.Max()
    ensures ToString(FromUint(t, value)) == ToBinary(value, t.Bits())
  {
    FromUintBits(t, value);
    ToStringOfBits(FromUint(t, value), value);
  }

  /** A bit set whose positions read as the digits of `value` renders as
      `value` in binary, padded to the size. */
  lemma ToStringOfBits(b: BitSet, value: nat)
    requires WellFormed(b)
    requires forall i :: 0 <= i < b.size ==> (Get(b, i) <==> TestBit(value, i))
    ensures ToString(b) == ToBinary(value, b.size)
  {
    var r := ToString(b);
    var n := b.size;
    var digits := ToBinary(value, n);
    forall j | 0 <= j < n
      ensures r[j] == digits[j]
    {
      var i := n - 1 - j;
      assert r[n - 1 - i] == BitChar(Get(b, i));
    }
  }

  /** The accumulation loop of `try_from`: `output = output << 64 | block`
      over the given blocks in order, in an n-bit integer. The first block
      ends up most significant. */
  function ShiftIn(blocks: seq<Word>, n: nat): (r: nat)
    ensures r < Pow2(n)
    ensures WIDTH * |blocks| <= n ==> r == BlocksValue(Reverse(blocks))
  {
    if |blocks| == 0 then 0
    else
      var front := blocks[..|blocks| - 1];
      var output := ShiftIn(front, n);
      ShiftInStep(blocks, output, n);
      OrBits(Shl(output, WIDTH, n), blocks[|blocks| - 1], n)
  }

  /** One step of the accumulation loop: while the target has room for
      every block so far, shifting in the next block puts it below the
      blocks already read. */
  lemma ShiftInStep(blocks: seq<Word>, output: nat, n: nat)
    requires |blocks| > 0
    ensures WIDTH * |blocks| <= n && output == BlocksValue(Reverse(blocks[..|blocks| - 1])) ==>
              OrBits(Shl(output, WIDTH, n), blocks[|blocks| - 1], n) == BlocksValue(Reverse(blocks))
  {
    var front := blocks[..|blocks| - 1];
    if WIDTH * |blocks| <= n && output == BlocksValue(Reverse(front)) {
      Pow2Of64();
      assert Reverse(blocks)[1..] == Reverse(front);
      BlocksValueBound(Reverse(front));
      Pow2Add(WIDTH * |front|, WIDTH);
      Pow2Monotone(WIDTH * |blocks|, n);
      ShiftOr(output, blocks[|blocks| - 1], WIDTH, n);
    }
  }

  lemma {:induction false} BlocksValueBound(blocks: seq<Word>)
    ensures BlocksValue(blocks) < Pow2(WIDTH * |blocks|)
  {
    if |blocks| > 0 {
      BlocksValueBound(blocks[1..]);
      Pow2Add(WIDTH, WIDTH * (|blocks| - 1));
      Pow2Of64();
    }
  }

  /** `T::try_from(bitset)`, as written. A target of at most 64 bits
      narrows block 0 alone. A wider target (u128) needs two blocks, yet
      the loops use `blocks_needed - 1`: every block from index 1 on must be
      zero, and only block 0 is shifted in. */
  function TryFrom(b: BitSet, t: UintType): (r: ConversionResult)
    requires WellFormed(b)
    ensures r.Ok? ==> r.value <= t.Max() && r.value == b.blocks[0]
    ensures t != U128 ==> (r.Ok? <==> b.blocks[0] <= t.Max())
    ensures t == U128 ==> (r.Err? <==> AnyBlocks(b.blocks[1..]))
  {
    var bytesPerBlock := 8;
    var outputBytes := t.Bytes();
    var blocksNeeded := if outputBytes / bytesPerBlock > 1 then outputBytes / bytesPerBlock else 1;
    assert blocksNeeded == 1 <==> t != U128;
    if blocksNeeded == 1 then
      if b.blocks[0] <= t.Max() then Ok(b.blocks[0]) else Err
    else if AnyBlocks(b.blocks[blocksNeeded - 1..]) then
      Err
    else
      SingleBlockShiftIn(b.blocks[..blocksNeeded - 1]);
      Ok(ShiftIn(b.blocks[..blocksNeeded - 1], t.Bits()))
  }

  /** Shifting one block into a u128 yields the block. */
  lemma SingleBlockShiftIn(blocks: seq<Word>)
    requires |blocks| == 1
    ensures ShiftIn(blocks, U128.Bits()) == blocks[0] <= U128.Max()
  {
    assert Reverse(blocks) == blocks;
    assert blocks[1..] == [];
    assert BlocksValue(blocks) == blocks[0];
    Pow2Of64();
  }

  /** The as-written u128 path never returns a wrong value: whenever it
      succeeds, the result is the number the bit set stands for. Its defect
      is only the `Err` for values that need block 1. */
  lemma TryFromWideSound(b: BitSet)
    requires WellFormed(b)
    ensures TryFrom(b, U128).Ok? ==> TryFrom(b, U128).value == BlocksValue(b.blocks)
  {
    if TryFrom(b, U128).Ok? {
      BlocksValueZero(b.blocks[1..]);
    }
  }

  /** A value below 2^64 lands entirely in block 0. */
  lemma FromUintLowBlock(s: UintType, v: nat)
    requires v <= s.Max() && v < WORD_MODULUS
    ensures FromUint(s, v).blocks[0] == v
    ensures !AnyBlocks(FromUint(s, v).blocks[1..])
  {
    LowBlockOnly(FromUint(s, v).blocks);
  }

  /** Blocks that stand for a number below 2^64 hold it all in block 0. */
  lemma LowBlockOnly(blocks: seq<Word>)
    requires |blocks| >= 1 && BlocksValue(blocks) < WORD_MODULUS
    ensures blocks[0] == BlocksValue(blocks)
    ensures !AnyBlocks(blocks[1..])
  {
    BlocksValueZero(blocks[1..]);
  }

  /** Round trip through the as-written conversions: for every value below
      2^64, `T::try_from(BitSet::from(v))` is `Ok(v)` when v fits T and
      `Err` otherwise. */
  lemma TryFromAfterFrom(s: UintType, t: UintType, v: nat)
    requires v <= s.Max() && v < WORD_MODULUS
    ensures TryFrom(FromUint(s, v), t) == if v <= t.Max() then Ok(v) else Err
  {
    FromUintLowBlock(s, v);
    if t == U128 {
      Pow2Of64();
    }
  }

  /** How many low blocks a target type can take: all it needs, or all
      there are. */
  function KeptBlocks(b: BitSet, t: UintType): (k: nat)
    ensures k <= |b.blocks|
    ensures k < |b.blocks| ==> t.Bits() <= WIDTH * k
  {
    var needed := BlocksNumber(t.Bits());
    if needed < |b.blocks| then needed else |b.blocks|
  }

  /** `T::try_from` as evidently intended: every block beyond those the
      target type can fill must be zero, the rest are shifted in most
      significant first, and the result must fit the target. */
  function TryFromChecked(b: BitSet, t: UintType): (r: ConversionResult)
    requires WellFormed(b)
  {
    var kept := KeptBlocks(b, t);
    if AnyBlocks(b.blocks[kept..]) then Err
    else
      var value := ShiftIn(Reverse(b.blocks[..kept]), WIDTH * kept);
      if value <= t.Max() then Ok(value) else Err
  }

  lemma {:induction false} BlocksValueSplit(blocks: seq<Word>, k: nat)
    requires k <= |blocks|
    ensures BlocksValue(blocks) == BlocksValue(blocks[..k]) + Pow2(WIDTH * k) * BlocksValue(blocks[k..])
  {
    if k == 0 {
      assert blocks[k..] == blocks;
    } else {
      var rest := blocks[1..];
      BlocksValueSplit(rest, k - 1);
      assert blocks[..k][1..] == rest[..k - 1];
      assert rest[k - 1..] == blocks[k..];
      Pow2Add(WIDTH, WIDTH * (k - 1));
      Pow2Of64();
      var lo := BlocksValue(rest[..k - 1]);
      var x := BlocksValue(blocks[k..]);
      var p := Pow2(WIDTH * (k - 1));
      assert BlocksValue(rest) == lo + p * x;
      assert BlocksValue(blocks[..k]) == blocks[0] + WORD_MODULUS * lo;
      assert Pow2(WIDTH * k) == WORD_MODULUS * p;
      DigitSplit(blocks[0], WORD_MODULUS, lo, p, x);
    }
  }

  lemma DigitSplit(d: nat, m: nat, lo: nat, p: nat, x: nat)
    ensures d + m * (lo + p * x) == (d + m * lo) + (m * p) * x
  {
    assert m * (lo + p * x) == m * lo + m * (p * x);
    assert m * (p * x) == (m * p) * x;
  }

  lemma {:induction false} BlocksValueZero(blocks: seq<Word>)
    ensures !AnyBlocks(blocks) ==> BlocksValue(blocks) == 0
    ensures AnyBlocks(blocks) ==> BlocksValue(blocks) > 0
  {
    if |blocks| > 0 {
      BlocksValueZero(blocks[1..]);
    }
  }

  lemma MulAtLeast(a: nat, x: nat)
    requires x >= 1
    ensures a * x >= a
  {
  }

  /** A nonzero block at index k or above makes the value at least
      2^(64k). */
  lemma HighBlocksOverflow(blocks: seq<Word>, k: nat)
    requires k <= |blocks| && AnyBlocks(blocks[k..])
    ensures BlocksValue(blocks) >= Pow2(WIDTH * k)
  {
    BlocksValueSplit(blocks, k);
    BlocksValueZero(blocks[k..]);
    MulAtLeast(Pow2(WIDTH * k), BlocksValue(blocks[k..]));
  }

  /** Zero blocks at index k and above contribute nothing. */
  lemma HighBlocksZero(blocks: seq<Word>, k: nat)
    requires k <= |blocks| && !AnyBlocks(blocks[k..])
    ensures BlocksValue(blocks) == BlocksValue(blocks[..k])
  {
    BlocksValueSplit(blocks, k);
    BlocksValueZero(blocks[k..]);
    var p := Pow2(WIDTH * k);
    assert p * BlocksValue(blocks[k..]) == p * 0;
  }

  /** The corrected conversion returns exactly the number the bit set
      stands for, whenever it fits the target type. */
  lemma TryFromCheckedIsExact(b: BitSet, t: UintType)
    requires WellFormed(b)
    ensures TryFromChecked(b, t) == if BlocksValue(b.blocks) <= t.Max() then Ok(BlocksValue(b.blocks)) else Err
  {
    var kept := KeptBlocks(b, t);
    if AnyBlocks(b.blocks[kept..]) {
      CheckedOverflow(b, t);
    } else {
      CheckedFits(b, t);
    }
  }

  lemma CheckedOverflow(b: BitSet, t: UintType)
    requires WellFormed(b) && AnyBlocks(b.blocks[KeptBlocks(b, t)..])
    ensures BlocksValue(b.blocks) > t.Max()
  {
    var kept := KeptBlocks(b, t);
    HighBlocksOverflow(b.blocks, kept);
    Pow2Monotone(t.Bits(), WIDTH * kept);
  }

  lemma CheckedFits(b: BitSet, t: UintType)
    requires WellFormed(b) && !AnyBlocks(b.blocks[KeptBlocks(b, t)..])
    ensures ShiftIn(Reverse(b.blocks[..KeptBlocks(b, t)]), WIDTH * KeptBlocks(b, t)) == BlocksValue(b.blocks)
  {
    var kept := KeptBlocks(b, t);
    var low := b.blocks[..kept];
    HighBlocksZero(b.blocks, kept);
    assert Reverse(Reverse(low)) == low;
  }

  /** With the corrected conversion the round trip holds for every value of
      every source type. */
  lemma TryFromCheckedAfterFrom(s: UintType, t: UintType, v: nat)
    requires v <= s.Max()
    ensures TryFromChecked(FromUint(s, v), t) == if v <= t.Max() then Ok(v) else Err
  {
    TryFromCheckedIsExact(FromUint(s, v), t);
  }
}
