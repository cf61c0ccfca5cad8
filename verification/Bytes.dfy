/** Bytes, the bitwise AND of C on unsigned integers, and overwriting part of a byte sequence. */
module Bytes {
  type byte = b: int | 0 <= b < 256

  const WORD: nat := 0x1_0000_0000  // 2^32: size_t and uint32_t wrap here

  type word = w: int | 0 <= w < WORD

  /** The conversion to an unsigned 32-bit number. */
  function Wrap(x: nat): (r: word)
    ensures x < WORD ==> r == x
  {
    x % 0x1_0000_0000
  }

  function Min(a: nat, b: nat): nat {
    if a < b then a else b
  }

  function Max(a: nat, b: nat): nat {
    if a < b then b else a
  }

  function Pow2(n: nat): (r: nat)
    ensures r >= 1
  {
    if n == 0 then 1 else 2 * Pow2(n - 1)
  }

  /** Bitwise AND, bit by bit from the least significant end. */
  function BitAnd(x: nat, y: nat): (r: nat)
    ensures r <= x && r <= y
  {
    if x == 0 || y == 0 then 0
    else 2 * BitAnd(x / 2, y / 2) + (if x % 2 == 1 && y % 2 == 1 then 1 else 0)
  }

  lemma {:induction false} BitAndCommutes(x: nat, y: nat)
    ensures BitAnd(x, y) == BitAnd(y, x)
  {
    if x != 0 && y != 0 {
      BitAndCommutes(x / 2, y / 2);
    }
  }

  lemma BitAndUnfold(x: nat, y: nat)
    ensures BitAnd(x, y) == 2 * BitAnd(x / 2, y / 2) + (if x % 2 == 1 && y % 2 == 1 then 1 else 0)
  {
  }

  lemma Halves(m: nat, b: nat)
    requires b < 2
    ensures (2 * m + b) / 2 == m && (2 * m + b) % 2 == b
  {
  }

  lemma OddMask(x: nat, m: nat)
    ensures BitAnd(x, 2 * m + 1) == 2 * BitAnd(x / 2, m) + x % 2
  {
    Halves(m, 1);
    BitAndUnfold(x, 2 * m + 1);
  }

  lemma EvenMask(x: nat, m: nat)
    ensures BitAnd(x, 2 * m) == 2 * BitAnd(x / 2, m)
  {
    Halves(m, 0);
    BitAndUnfold(x, 2 * m);
  }

  /** n ones, followed by `zeros` zeros. */
  function Mask(n: nat, zeros: nat): nat {
    if zeros > 0 then 2 * Mask(n, zeros - 1)
    else if n > 0 then 2 * Mask(n - 1, 0) + 1
    else 0
  }

  lemma {:induction false} MaskValue(n: nat, zeros: nat)
    ensures Mask(n, zeros) == Pow2(n + zeros) - Pow2(zeros)
    decreases n + zeros
  {
    if zeros > 0 {
      MaskValue(n, zeros - 1);
    } else if n > 0 {
      MaskValue(n - 1, 0);
    }
  }

  /** Keeping the low n bits of a number is reducing it modulo 2^n. */
  lemma {:induction false} BitAndLowMask(x: nat, n: nat)
    ensures BitAnd(x, Mask(n, 0)) == x % Pow2(n)
  {
    if n > 0 {
      BitAndLowMask(x / 2, n - 1);
      OddMask(x, Mask(n - 1, 0));
      ModDouble(x, Pow2(n - 1));
    }
  }

  lemma {:induction false} ModDouble(x: nat, m: nat)
    requires m > 0
    ensures x % (2 * m) == 2 * ((x / 2) % m) + x % 2
    decreases x
  {
    var h := x / 2;
    if h < m {
      assert x < 2 * m;
      Small(h, m);
      Small(x, 2 * m);
    } else {
      ModDouble(x - 2 * m, m);
      assert (x - 2 * m) / 2 == h - m && (x - 2 * m) % 2 == x % 2;
      Shift(h, m);
      Shift(x, 2 * m);
    }
  }

  lemma Small(x: nat, d: nat)
    requires x < d
    ensures x % d == x
  {
  }

  lemma Shift(x: nat, d: nat)
    requires 0 < d <= x
    ensures (x - d) % d == x % d
  {
    var q, r := (x - d) / d, (x - d) % d;
    assert x == d * q + r + d == d * (q + 1) + r;
    QuotientUnique(d, q + 1, r, x / d, x % d);
  }

  /** Two ways to divide x by d with remainder are the same way. */
  lemma {:induction false} QuotientUnique(d: nat, q: nat, r: nat, q': nat, r': nat)
    requires r < d && r' < d && d * q + r == d * q' + r'
    ensures r == r'
  {
    if q > 0 && q' > 0 {
      assert d * q == d * (q - 1) + d && d * q' == d * (q' - 1) + d;
      QuotientUnique(d, q - 1, r, q' - 1, r');
    } else if q > 0 {
      assert d * q == d * (q - 1) + d;
    } else if q' > 0 {
      assert d * q' == d * (q' - 1) + d;
    }
  }

  /** Masking off the low bits of a number that fits the mask rounds it down to a multiple of 2^zeros. */
  lemma {:induction false} BitAndHighMask(x: nat, n: nat, zeros: nat)
    requires x < Pow2(n + zeros)
    ensures BitAnd(x, Mask(n, zeros)) == x - x % Pow2(zeros)
    decreases zeros
  {
    if zeros == 0 {
      BitAndLowMask(x, n);
      Small(x, Pow2(n));
    } else {
      BitAndHighMask(x / 2, n, zeros - 1);
      EvenMask(x, Mask(n, zeros - 1));
      ModDouble(x, Pow2(zeros - 1));
    }
  }

  /** What a NOR cell holding `a` holds after `b` is programmed into it. */
  function And8(a: byte, b: byte): byte {
    BitAnd(a, b)
  }

  function Bit(x: nat, k: nat): bool {
    if k == 0 then x % 2 == 1 else Bit(x / 2, k - 1)
  }

  /** Each bit of the result is set exactly when it is set in both. */
  lemma {:induction false} BitAndBits(x: nat, y: nat, k: nat)
    ensures Bit(BitAnd(x, y), k) <==> Bit(x, k) && Bit(y, k)
    decreases k
  {
    BitAndUnfold(x, y);
    Halves(BitAnd(x / 2, y / 2), if x % 2 == 1 && y % 2 == 1 then 1 else 0);
    if k > 0 {
      BitAndBits(x / 2, y / 2, k - 1);
    }
  }

  lemma {:induction false} SameBits(x: nat, y: nat, n: nat)
    requires x < Pow2(n) && y < Pow2(n) && forall k: nat :: k < n ==> Bit(x, k) == Bit(y, k)
    ensures x == y
    decreases n
  {
    if n > 0 {
      assert Bit(x, 0) == Bit(y, 0);
      forall k: nat | k < n - 1 ensures Bit(x / 2, k) == Bit(y / 2, k) {
        assert Bit(x, k + 1) == Bit(y, k + 1);
      }
      SameBits(x / 2, y / 2, n - 1);
    }
  }

  ghost predicate HasBitsOf(a: byte, b: byte) {
    forall k: nat | k < 8 :: Bit(b, k) ==> Bit(a, k)
  }

  /** A cell takes on the byte programmed exactly when it has every bit of it. */
  lemma And8Exactly(a: byte, b: byte)
    ensures And8(a, b) == b <==> HasBitsOf(a, b)
  {
    assert Pow2(8) == 256 by {
      assert Pow2(4) == 16;
    }
    forall k: nat ensures Bit(BitAnd(a, b), k) <==> Bit(a, k) && Bit(b, k) {
      BitAndBits(a, b, k);
    }
    if HasBitsOf(a, b) {
      SameBits(And8(a, b), b, 8);
    }
  }

  lemma LowByte(x: nat)
    ensures BitAnd(x, 0xFF) == x % 256
  {
    assert Pow2(8) == 256 by {
      assert Pow2(4) == 16;
    }
    assert Mask(8, 0) == 255 by {
      assert Mask(4, 0) == 15;
    }
    BitAndLowMask(x, 8);
  }

  lemma And8Erased(b: byte)
    ensures And8(0xFF, b) == b
  {
    LowByte(b);
    BitAndCommutes(b, 0xFF);
    assert b % 256 == b;
  }

  /** `base` with `data` written over it from `pos` on; it grows when the data reach past its end. */
  function Overlay<T>(base: seq<T>, pos: nat, data: seq<T>): (r: seq<T>)
    requires pos <= |base|
    ensures |r| == Max(|base|, pos + |data|)
  {
    seq(Max(|base|, pos + |data|), i requires 0 <= i < Max(|base|, pos + |data|) =>
      if pos <= i < pos + |data| then data[i - pos] else base[i])
  }

  /** Two writes in a row are one write of both pieces. */
  lemma OverlayAppend<T>(base: seq<T>, pos: nat, x: seq<T>, y: seq<T>)
    requires pos <= |base|
    ensures pos + |x| <= |Overlay(base, pos, x)|
    ensures Overlay(Overlay(base, pos, x), pos + |x|, y) == Overlay(base, pos, x + y)
  {
  }
}
