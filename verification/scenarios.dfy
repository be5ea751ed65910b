/** The concrete scenarios of the unit tests, and the inputs on which the
    conversions and `all()` do not do what their tests and documentation
    promise. */
module Scenarios {
  import opened Words
  import opened BitSets
  import opened Conversions

  /** `from(0u8)`, `from(u8::MAX)` and `from(170u8)` render as eight
      binary digits. */
  lemma U8Strings()
    ensures ToString(FromUint(U8, 0)) == "00000000"
    ensures ToString(FromUint(U8, 255)) == "11111111"
    ensures ToString(FromUint(U8, 170)) == "10101010"
  {
    Pow2Of64();
    FromUintToString(U8, 0);
    FromUintToString(U8, 255);
    FromUintToString(U8, 170);
  }

  /** `new(1)` renders as "0", and as "1" once its bit is set. */
  lemma SingleBitStrings()
    ensures ToString(New(1)) == "0"
    ensures ToString(Set(New(1), 0, true)) == "1"
  {
    var r := ToString(New(1));
    assert r[0] == BitChar(Get(New(1), 0));
    var r' := ToString(Set(New(1), 0, true));
    assert r'[0] == BitChar(Get(Set(New(1), 0, true), 0));
  }

  /** The bits of `new(66)` after setting bits 0, 5 and 64. */
  lemma ThreeBitsGet()
    ensures var d := Set(Set(Set(New(66), 0, true), 5, true), 64, true);
            Valid(d) && d.size == 66 &&
            forall i :: 0 <= i < 66 ==> (Get(d, i) <==> i == 0 || i == 5 || i == 64)
  {
    var d0 := New(66);
    var d1 := Set(d0, 0, true);
    var d2 := Set(d1, 5, true);
    var d3 := Set(d2, 64, true);
    forall i | 0 <= i < 66
      ensures Get(d3, i) <==> i == 0 || i == 5 || i == 64
    {
      assert !Get(d0, i);
    }
  }

  /** The digits of the rendering of `new(66)` with bits 0, 5 and 64 set,
      most significant first. */
  lemma ThreeBitsDigits()
    ensures var d := Set(Set(Set(New(66), 0, true), 5, true), 64, true);
            var r := ToString(d);
            |r| == 66 && forall j :: 0 <= j < 66 ==> r[j] == (if j == 1 || j == 60 || j == 65 then '1' else '0')
  {
    var d := Set(Set(Set(New(66), 0, true), 5, true), 64, true);
    ThreeBitsGet();
    var r := ToString(d);
    forall j | 0 <= j < 66
      ensures r[j] == (if j == 1 || j == 60 || j == 65 then '1' else '0')
    {
      var i := 65 - j;
      assert r[d.size - 1 - i] == BitChar(Get(d, i));
    }
  }

  /** Eight characters that are all '0' spell "00000000". */
  lemma EightZeros(s: string)
    requires |s| == 8
    requires forall j :: 0 <= j < 8 ==> s[j] == '0'
    ensures s == "00000000"
  {
  }

  /** `new(66)` with bits 0, 5 and 64 set renders as the 66-digit string of
      the unit test (written here in eight-digit groups), the padding of the
      second block trimmed. */
  lemma ThreeBitsString()
    ensures var d := Set(Set(Set(New(66), 0, true), 5, true), 64, true);
            ToString(d) == "01" + "00000000" + "00000000" + "00000000" + "00000000"
                                + "00000000" + "00000000" + "00000000" + "00100001"
  {
    var d := Set(Set(Set(New(66), 0, true), 5, true), 64, true);
    ThreeBitsDigits();
    ThreeBitsSpelling(ToString(d));
  }

  /** A 66-digit string with '1' exactly at indices 1, 60 and 65, in
      eight-digit groups. */
  lemma ThreeBitsSpelling(r: string)
    requires |r| == 66
    requires forall j :: 0 <= j < 66 ==> r[j] == (if j == 1 || j == 60 || j == 65 then '1' else '0')
    ensures r == "01" + "00000000" + "00000000" + "00000000" + "00000000"
                      + "00000000" + "00000000" + "00000000" + "00100001"
  {
    assert r == r[..2] + r[2..10] + r[10..18] + r[18..26] + r[26..34] + r[34..42]
              + r[42..50] + r[50..58] + r[58..66];
    EightZeros(r[2..10]);
    EightZeros(r[10..18]);
    EightZeros(r[18..26]);
    EightZeros(r[26..34]);
    EightZeros(r[34..42]);
    EightZeros(r[42..50]);
    EightZeros(r[50..58]);
    assert r[..2] == "01";
    assert r[58..66] == "00100001";
  }

  /** The block counts of `blocks_number` in its unit test, and of `new`. */
  lemma BlockCounts()
    ensures BlocksNumber(1) == 1 && BlocksNumber(10) == 1
    ensures BlocksNumber(64) == 1 && BlocksNumber(65) == 2
    ensures BlocksNumber(128) == 2 && BlocksNumber(129) == 3
    ensures |New(1).blocks| == 1 && |New(64).blocks| == 1 && |New(65).blocks| == 2
  {
  }

  /** The getter and setter sequence of the unit test on `new(4)`. */
  lemma SimpleOperations()
    ensures var b0 := New(4);
            !Get(b0, 0) && !Get(b0, 1) && !Get(b0, 2) && !Get(b0, 3)
    ensures var b1 := Set(New(4), 0, true);
            Get(b1, 0) && !Get(b1, 1) && !Get(b1, 2) && !Get(b1, 3)
    ensures var b2 := Set(Set(New(4), 0, true), 3, true);
            Get(b2, 0) && !Get(b2, 1) && !Get(b2, 2) && Get(b2, 3)
    ensures var b3 := Set(Set(Set(Set(New(4), 0, true), 3, true), 1, false), 3, false);
            Get(b3, 0) && !Get(b3, 1) && !Get(b3, 2) && !Get(b3, 3)
  {
  }

  /** `new(300)`: nothing set, so `all()` and `any()` are false and
      `count()` is 0; after setting bit 10, `any()` holds, `count()` is 1 and
      `all()` stays false. */
  lemma SparseAggregates()
    ensures var b := New(300);
            !All(b) && !Any(b) && Count(b) == 0
    ensures var c := Set(New(300), 10, true);
            !All(c) && Any(c) && Count(c) == 1
  {
    var b := New(300);
    var c := Set(b, 10, true);
    AllFalseWhenUnaligned(b);
    AllFalseWhenUnaligned(c);
    AnyIffSomeBitSet(b);
    AnyIffSomeBitSet(c);
    assert Get(c, 10);
    CountAfterSet(b, 10, true);
  }

  /** `from(u128::MAX)` has both blocks equal to `usize::MAX`. */
  lemma MaxU128Blocks()
    ensures var b := FromUint(U128, U128.Max());
            Valid(b) && b.size == 128 && All(b)
            && forall i :: 0 <= i < b.size ==> Get(b, i)
  {
    var b := FromUint(U128, U128.Max());
    MaxEveryBitSet(U128);
    AllBitsSetIffEveryBitSet(b);
    Pow2Of64();
    assert |b.blocks| == 2 && b.size - WIDTH * 1 == 64;
    assert b.blocks[..1][0] == b.blocks[0];
  }

  /** `from(u128::MAX)`: every bit set, so `all()` and `any()` hold and
      `count()` is 128. */
  lemma FullAggregates()
    ensures var b := FromUint(U128, U128.Max());
            All(b) && Any(b) && Count(b) == 128
  {
    var b := FromUint(U128, U128.Max());
    MaxU128Blocks();
    CountFullIffEveryBitSet(b);
    AnyIffSomeBitSet(b);
    assert Get(b, 0);
  }

  /** `from(u128::MAX)` after clearing bit 10: `all()` is false, `any()`
      still holds and `count()` is 127. */
  lemma FullAggregatesAfterClear()
    ensures var c := Set(FromUint(U128, U128.Max()), 10, false);
            !All(c) && Any(c) && Count(c) == 127
  {
    var b := FromUint(U128, U128.Max());
    MaxU128Blocks();
    CountFullIffEveryBitSet(b);
    var c := Set(b, 10, false);
    ClearingBreaksAll(b, 10);
    CountAfterSet(b, 10, false);
    assert Get(c, 0);
    AnyIffSomeBitSet(c);
  }

  /** `from(2^64 as u128)` stores block 0 as 0 and block 1 as 1. */
  lemma WordModulusBlocks()
    ensures WORD_MODULUS <= U128.Max()
    ensures FromUint(U128, WORD_MODULUS).blocks == [0, 1]
  {
    Pow2Of128();
    var b := FromUint(U128, WORD_MODULUS);
    assert |b.blocks| == 2;
    ModulusDigits(b.blocks);
  }

  lemma ModulusDigits(blocks: seq<Word>)
    requires |blocks| == 2 && BlocksValue(blocks) == WORD_MODULUS
    ensures blocks == [0, 1]
  {
    TwoBlocksValue(blocks);
    assert blocks[1] == 1;
    assert blocks[0] == 0;
  }

  /** `u128::try_from` as written rejects 2^64, which fits: it demands that
      block 1 be zero. The checked conversion returns the value. */
  lemma WideTryFromRejectsFittingValue()
    ensures WORD_MODULUS <= U128.Max() &&
            TryFrom(FromUint(U128, WORD_MODULUS), U128) == Err
    ensures WORD_MODULUS <= U128.Max() &&
            TryFromChecked(FromUint(U128, WORD_MODULUS), U128) == Ok(WORD_MODULUS)
  {
    WordModulusBlocks();
    var b := FromUint(U128, WORD_MODULUS);
    assert b.blocks[1..][0] == 1;
    TryFromCheckedAfterFrom(U128, U128, WORD_MODULUS);
  }

  /** `u64::try_from` and `u8::try_from` as written accept 2^64, which fits
      neither, and return 0: they read block 0 only. The checked conversion
      rejects it. */
  lemma NarrowTryFromIgnoresHighBlocks()
    ensures WORD_MODULUS <= U128.Max() &&
            TryFrom(FromUint(U128, WORD_MODULUS), U64) == Ok(0)
    ensures WORD_MODULUS <= U128.Max() &&
            TryFrom(FromUint(U128, WORD_MODULUS), U8) == Ok(0)
    ensures WORD_MODULUS <= U128.Max() &&
            TryFromChecked(FromUint(U128, WORD_MODULUS), U64) == Err
  {
    WordModulusBlocks();
    MaxValues();
    TryFromCheckedAfterFrom(U128, U64, WORD_MODULUS);
  }

  lemma LowMaskAllBits(m: nat, n: nat)
    requires m == Pow2(n) - 1
    ensures forall k: nat :: k < n ==> TestBit(m, k)
  {
    forall k: nat | k < n
      ensures TestBit(m, k)
    {
      BitsOfLowMask(n, k);
    }
  }

  /** `from(T::MAX)` has every one of its positions set. */
  lemma MaxEveryBitSet(t: UintType)
    ensures var b := FromUint(t, t.Max());
            Valid(b) && forall i :: 0 <= i < b.size ==> Get(b, i)
  {
    LowMaskAllBits(t.Max(), t.Bits());
    FromUintBits(t, t.Max());
  }

  /** `from(u8::MAX)` has all eight of its positions set, yet `all()` as
      written is false, because the padding of its block is clear; the
      masked `all()` holds. */
  lemma FullByteNotAll()
    ensures var b := FromUint(U8, U8.Max());
            (forall i :: 0 <= i < b.size ==> Get(b, i)) && !All(b) && AllBitsSet(b)
  {
    var b := FromUint(U8, U8.Max());
    MaxEveryBitSet(U8);
    AllFalseWhenUnaligned(b);
    AllBitsSetIffEveryBitSet(b);
  }
}
