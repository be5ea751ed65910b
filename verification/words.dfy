/** Machine words as the bit set uses them.

    A block is a 64-bit `usize`. Here it is a natural number below 2^64, and
    each primitive the bit set relies on (`<<`, `|`, `&`, `!`, `count_ones`
    and zero-padded binary formatting) is written out bit by bit over an
    explicit width. The meaning of each primitive is stated through `TestBit`,
    which reads one binary digit. */
module Words {

  /** Width of one block in bits. The bit set takes `size_of::<usize>() * 8`;
      the model fixes a 64-bit target. */
  const WIDTH: nat := 64

  const WORD_MODULUS: nat := 0x1_0000_0000_0000_0000

  /** `usize::MAX` on a 64-bit target. */
  const WORD_MAX: nat := 0xFFFF_FFFF_FFFF_FFFF

  type Word = w: nat | w < WORD_MODULUS

  type Byte = b: nat | b < 256

  function Pow2(n: nat): (r: nat)
    ensures r >= 1
  {
    if n == 0 then 1 else 2 * Pow2(n - 1)
  }

  lemma {:induction false} Pow2Add(a: nat, b: nat)
    ensures Pow2(a + b) == Pow2(a) * Pow2(b)
  {
    if b > 0 {
      Pow2Add(a, b - 1);
      assert Pow2(a + b) == 2 * Pow2(a + b - 1);
    }
  }

  lemma {:induction false} Pow2Monotone(a: nat, b: nat)
    requires a <= b
    ensures Pow2(a) <= Pow2(b)
  {
    if a < b {
      Pow2Monotone(a, b - 1);
    }
  }

  lemma Pow2Of8()
    ensures Pow2(8) == 256
  {
  }

  lemma Pow2Of16()
    ensures Pow2(16) == 0x1_0000
  {
    Pow2Of8();
    Pow2Add(8, 8);
  }

  lemma Pow2Of32()
    ensures Pow2(32) == 0x1_0000_0000
  {
    Pow2Of16();
    Pow2Add(16, 16);
  }

  lemma Pow2Of64()
    ensures Pow2(64) == WORD_MODULUS
  {
    Pow2Of32();
    Pow2Add(32, 32);
  }

  lemma Pow2Of128()
    ensures Pow2(128) == 0x1_0000_0000_0000_0000_0000_0000_0000_0000
  {
    Pow2Of64();
    Pow2Add(64, 64);
  }

  /** The powers of two that name the machine constants. */
  lemma Pow2Constants()
    ensures Pow2(8) == 256
    ensures Pow2(16) == 0x1_0000
    ensures Pow2(32) == 0x1_0000_0000
    ensures Pow2(64) == WORD_MODULUS
    ensures Pow2(128) == 0x1_0000_0000_0000_0000_0000_0000_0000_0000
  {
    Pow2Of8();
    Pow2Of16();
    Pow2Of32();
    Pow2Of64();
    Pow2Of128();
  }

  /** Binary digit `k` of `w`; digit 0 is the least significant. */
  predicate TestBit(w: nat, k: nat)
  {
    if k == 0 then w % 2 == 1 else TestBit(w / 2, k - 1)
  }

  lemma {:induction false} NoBitsOfZero(k: nat)
    ensures !TestBit(0, k)
  {
    if k > 0 {
      NoBitsOfZero(k - 1);
    }
  }

  lemma ZeroHasNoBits()
    ensures forall k: nat :: !TestBit(0, k)
  {
    forall k: nat
      ensures !TestBit(0, k)
    {
      NoBitsOfZero(k);
    }
  }

  /** A value below 2^n has no digit at or above position n. */
  lemma {:induction false} NoBitsAbove(w: nat, n: nat, k: nat)
    requires w < Pow2(n)
    requires n <= k
    ensures !TestBit(w, k)
  {
    if n == 0 {
      NoBitsOfZero(k);
    } else {
      NoBitsAbove(w / 2, n - 1, k - 1);
    }
  }

  /** 2^n has exactly one digit set, at position n. */
  lemma {:induction false} BitsOfPow2(n: nat, k: nat)
    ensures TestBit(Pow2(n), k) <==> k == n
  {
    if k > 0 {
      if n == 0 {
        NoBitsOfZero(k - 1);
      } else {
        BitsOfPow2(n - 1, k - 1);
      }
    }
  }

  lemma SingleBitOfPow2(n: nat)
    ensures forall k: nat :: TestBit(Pow2(n), k) <==> k == n
  {
    forall k: nat
      ensures TestBit(Pow2(n), k) <==> k == n
    {
      BitsOfPow2(n, k);
    }
  }

  /** 2^n - 1 has exactly the digits below n set. */
  lemma {:induction false} BitsOfLowMask(n: nat, k: nat)
    ensures TestBit(Pow2(n) - 1, k) <==> k < n
  {
    if n == 0 {
      NoBitsOfZero(k);
    } else if k > 0 {
      assert (Pow2(n) - 1) / 2 == Pow2(n - 1) - 1;
      BitsOfLowMask(n - 1, k - 1);
    }
  }

  /** Two values below 2^n with the same n low digits are equal. */
  lemma {:induction false} BitsDetermineValue(a: nat, b: nat, n: nat)
    requires a < Pow2(n) && b < Pow2(n)
    requires forall k: nat :: k < n ==> (TestBit(a, k) <==> TestBit(b, k))
    ensures a == b
  {
    if n > 0 {
      assert TestBit(a, 0) <==> TestBit(b, 0);
      forall k: nat | k < n - 1
        ensures TestBit(a / 2, k) <==> TestBit(b / 2, k)
      {
        assert TestBit(a, k + 1) <==> TestBit(b, k + 1);
      }
      BitsDetermineValue(a / 2, b / 2, n - 1);
    }
  }

  /** A nonzero value below 2^n has some digit set below n. */
  lemma NonzeroHasBit(w: nat, n: nat) returns (k: nat)
    requires w < Pow2(n) && w != 0
    ensures k < n && TestBit(w, k)
  {
    if forall j: nat :: j < n ==> !TestBit(w, j) {
      forall j: nat | j < n
        ensures TestBit(w, j) <==> TestBit(0, j)
      {
        NoBitsOfZero(j);
      }
      BitsDetermineValue(w, 0, n);
    }
    k :| k < n && TestBit(w, k);
  }

  /** A value below 2^n is zero exactly when none of its n low digits is set. */
  lemma ZeroIffNoBits(w: nat, n: nat)
    requires w < Pow2(n)
    ensures w == 0 ==> forall k: nat :: k < n ==> !TestBit(w, k)
    ensures (forall k: nat :: k < n ==> !TestBit(w, k)) ==> w == 0
  {
    if w != 0 {
      var k := NonzeroHasBit(w, n);
      assert k < n && TestBit(w, k);
    } else {
      forall k: nat | k < n
        ensures !TestBit(w, k)
      {
        NoBitsOfZero(k);
      }
    }
  }

  /** Digit i of lo + 2^m * hi, for lo below 2^m: the low m digits come from
      lo and the rest from hi. */
  lemma {:induction false} BitsOfSplit(lo: nat, hi: nat, m: nat, i: nat)
    requires lo < Pow2(m)
    ensures TestBit(lo + Pow2(m) * hi, i) <==> if i < m then TestBit(lo, i) else TestBit(hi, i - m)
  {
    if m > 0 {
      var p := Pow2(m - 1);
      var x := p * hi;
      assert Pow2(m) == 2 * p;
      assert (2 * p) * hi == 2 * x;
      if i > 0 {
        assert (lo + 2 * x) / 2 == lo / 2 + x;
        BitsOfSplit(lo / 2, hi, m - 1, i - 1);
      }
    }
  }

  /** `a | b` on an n-bit unsigned integer. */
  function OrBits(a: nat, b: nat, n: nat): (r: nat)
    ensures r < Pow2(n)
  {
    if n == 0 then 0
    else 2 * OrBits(a / 2, b / 2, n - 1) + (if a % 2 == 1 || b % 2 == 1 then 1 else 0)
  }

  /** `a & b` on an n-bit unsigned integer. */
  function AndBits(a: nat, b: nat, n: nat): (r: nat)
    ensures r < Pow2(n)
  {
    if n == 0 then 0
    else 2 * AndBits(a / 2, b / 2, n - 1) + (if a % 2 == 1 && b % 2 == 1 then 1 else 0)
  }

  /** `!a` on an n-bit unsigned integer. */
  function NotBits(a: nat, n: nat): (r: nat)
    ensures r < Pow2(n)
  {
    if n == 0 then 0
    else 2 * NotBits(a / 2, n - 1) + (if a % 2 == 1 then 0 else 1)
  }

  /** `a << s` on an n-bit unsigned integer (s < n): digits shifted past the
      top are discarded. */
  function Shl(a: nat, s: nat, n: nat): (r: nat)
    ensures r < Pow2(n)
    ensures a * Pow2(s) < Pow2(n) ==> r == a * Pow2(s)
  {
    var shifted := a * Pow2(s);
    ModBounds(shifted, Pow2(n));
    shifted % Pow2(n)
  }

  lemma ModBounds(x: nat, m: nat)
    requires m > 0
    ensures x % m < m
    ensures x < m ==> x % m == x
  {
  }

  lemma {:induction false} OrBitsSpec(a: nat, b: nat, n: nat, k: nat)
    ensures TestBit(OrBits(a, b, n), k) <==> k < n && (TestBit(a, k) || TestBit(b, k))
  {
    if n == 0 {
      NoBitsOfZero(k);
    } else if k > 0 {
      OrBitsSpec(a / 2, b / 2, n - 1, k - 1);
    }
  }

  lemma {:induction false} AndBitsSpec(a: nat, b: nat, n: nat, k: nat)
    ensures TestBit(AndBits(a, b, n), k) <==> k < n && TestBit(a, k) && TestBit(b, k)
  {
    if n == 0 {
      NoBitsOfZero(k);
    } else if k > 0 {
      AndBitsSpec(a / 2, b / 2, n - 1, k - 1);
    }
  }

  lemma {:induction false} NotBitsSpec(a: nat, n: nat, k: nat)
    ensures TestBit(NotBits(a, n), k) <==> k < n && !TestBit(a, k)
  {
    if n == 0 {
      NoBitsOfZero(k);
    } else if k > 0 {
      NotBitsSpec(a / 2, n - 1, k - 1);
    }
  }

  /** OR of two values with no digit in common is their sum. */
  lemma {:induction false} OrOfDisjoint(a: nat, b: nat, n: nat)
    requires a < Pow2(n) && b < Pow2(n)
    requires forall k: nat :: !(TestBit(a, k) && TestBit(b, k))
    ensures OrBits(a, b, n) == a + b
  {
    if n > 0 {
      assert !(TestBit(a, 0) && TestBit(b, 0));
      forall k: nat
        ensures !(TestBit(a / 2, k) && TestBit(b / 2, k))
      {
        assert !(TestBit(a, k + 1) && TestBit(b, k + 1));
      }
      OrOfDisjoint(a / 2, b / 2, n - 1);
    }
  }

  /** Shifting x left by m and OR-ing in a value below 2^m is the same as
      x * 2^m + low, as long as nothing is shifted out of the n-bit word. */
  lemma ShiftOr(x: nat, low: nat, m: nat, n: nat)
    requires m <= n && low < Pow2(m) && x * Pow2(m) < Pow2(n)
    ensures OrBits(Shl(x, m, n), low, n) == x * Pow2(m) + low
  {
    Pow2Monotone(m, n);
    forall k: nat
      ensures !(TestBit(x * Pow2(m), k) && TestBit(low, k))
    {
      BitsOfSplit(0, x, m, k);
      assert 0 + Pow2(m) * x == x * Pow2(m);
      if k < m {
        NoBitsOfZero(k);
      } else {
        NoBitsAbove(low, m, k);
      }
    }
    OrOfDisjoint(x * Pow2(m), low, n);
  }

  lemma {:induction false} AllBitsSetBelow(w: nat, n: nat)
    requires forall k: nat :: k < n ==> TestBit(w, k)
    ensures BitsSetBelow(w, n) == n
  {
    if n > 0 {
      AllBitsSetBelow(w, n - 1);
    }
  }

  /** Number of digits set below position n. */
  function BitsSetBelow(w: nat, n: nat): (r: nat)
    ensures r <= n
  {
    if n == 0 then 0 else BitsSetBelow(w, n - 1) + (if TestBit(w, n - 1) then 1 else 0)
  }

  lemma {:induction false} NoBitsSetBelow(w: nat, n: nat)
    ensures BitsSetBelow(w, n) == 0 ==> forall k: nat :: k < n ==> !TestBit(w, k)
    ensures (forall k: nat :: k < n ==> !TestBit(w, k)) ==> BitsSetBelow(w, n) == 0
  {
    if n > 0 {
      NoBitsSetBelow(w, n - 1);
      if BitsSetBelow(w, n) != 0 {
        if TestBit(w, n - 1) {
          assert n - 1 < n;
        } else {
          var k: nat :| k < n - 1 && TestBit(w, k);
        }
      }
    }
  }

  /** `count_ones` on a block: it is zero exactly for the zero block. */
  function CountOnes(w: Word): (r: nat)
    ensures r <= WIDTH
    ensures r == 0 <==> w == 0
  {
    NoBitsSetBelow(w, WIDTH);
    Pow2Of64();
    ZeroIffNoBits(w, WIDTH);
    BitsSetBelow(w, WIDTH)
  }

  function BitChar(bit: bool): char
  {
    if bit then '1' else '0'
  }

  /** `format!("{:0n$b}", w)` for w below 2^n: exactly n binary digits, most
      significant first. */
  function ToBinary(w: nat, n: nat): (r: seq<char>)
    ensures |r| == n
    ensures forall j: nat :: 0 <= j < n ==> r[j] == BitChar(TestBit(w, n - 1 - j))
  {
    if n == 0 then [] else ToBinary(w / 2, n - 1) + [BitChar(w % 2 == 1)]
  }
}
