/**
 Binary digits of naturals, and the 64-bit machine words (`uintptr_t`) built from them.

 A word is a natural below 2^64.  Every operator is given by arithmetic on the number
 (halving, doubling, complement to 2^64 - 1) and its contract says what it does to each
 binary digit, so that clients reason about digits only.
 */
module Words {

  const BITS: nat := 64
  const MODULUS: nat := 0x1_0000_0000_0000_0000

  type Word = n: nat | n < 0x1_0000_0000_0000_0000

  function Pow2(n: nat): (p: nat)
    ensures p > 0
  {
    if n == 0 then 1 else 2 * Pow2(n - 1)
  }

  /** Binary digit `i` of `n`. */
  predicate Bit(n: nat, i: nat) {
    if i == 0 then n % 2 == 1 else Bit(n / 2, i - 1)
  }

  lemma {:induction false} ZeroHasNoBits()
    ensures forall i: nat :: !Bit(0, i)
  {
    forall i: nat ensures !Bit(0, i) { ZeroBit(i); }
  }

  lemma {:induction false} ZeroBit(i: nat)
    ensures !Bit(0, i)
  {
    if i == 0 {
    } else {
      ZeroBit(i - 1);
    }
  }

  /** A number below 2^n has no digit at or above n. */
  lemma {:induction false} BitsBelow(w: nat, n: nat, i: nat)
    requires w < Pow2(n) && n <= i
    ensures !Bit(w, i)
  {
    if n == 0 { ZeroBit(i); } else { BitsBelow(w / 2, n - 1, i - 1); }
  }

  lemma {:induction false} WordBits(w: Word)
    ensures forall i: nat :: i >= BITS ==> !Bit(w, i)
  {
    Pow2Of64();
    forall i: nat | i >= BITS ensures !Bit(w, i) { BitsBelow(w, BITS, i); }
  }

  lemma Pow2Of64()
    ensures Pow2(64) == MODULUS
  {
    assert Pow2(4) == 2 * (2 * Pow2(2)) && Pow2(2) == 4;
    Pow2Sum(4, 4);
    Pow2Sum(8, 8);
    Pow2Sum(16, 16);
    Pow2Sum(32, 32);
  }

  lemma {:induction false} Pow2Sum(a: nat, b: nat)
    ensures Pow2(a + b) == Pow2(a) * Pow2(b)
  {
    if a == 0 {
    } else {
      Pow2Sum(a - 1, b);
      assert Pow2(a + b) == 2 * Pow2(a - 1 + b) == 2 * (Pow2(a - 1) * Pow2(b));
    }
  }

  lemma {:induction false} Pow2Monotonic(a: nat, b: nat)
    requires a <= b
    ensures Pow2(a) <= Pow2(b)
  {
    if a < b { Pow2Monotonic(a, b - 1); }
  }

  /** A number with no digit at or above n is below 2^n. */
  lemma {:induction false} BelowFromBits(w: nat, n: nat)
    requires forall i: nat :: i >= n ==> !Bit(w, i)
    ensures w < Pow2(n)
    decreases w + n
  {
    if n == 0 {
      if w > 0 {
        forall i: nat ensures !Bit(w / 2, i) { assert !Bit(w, i + 1); }
        assert !Bit(w, 0);
        BelowFromBits(w / 2, 0);
      }
    } else {
      forall i: nat | i >= n - 1 ensures !Bit(w / 2, i) { assert !Bit(w, i + 1); }
      BelowFromBits(w / 2, n - 1);
    }
  }

  /** Numbers with the same digits are equal. */
  lemma {:induction false} Extensional(a: nat, b: nat)
    requires forall i: nat :: Bit(a, i) == Bit(b, i)
    ensures a == b
    decreases a + b
  {
    if a != 0 || b != 0 {
      forall i: nat ensures Bit(a / 2, i) == Bit(b / 2, i) { assert Bit(a, i + 1) == Bit(b, i + 1); }
      assert Bit(a, 0) == Bit(b, 0);
      Extensional(a / 2, b / 2);
    }
  }

  // ---------------------------------------------------------------- bitwise operators

  function Digit(b: bool): nat { if b then 1 else 0 }

  function And(a: nat, b: nat): (r: nat)
    ensures r <= a && r <= b
    ensures forall i: nat :: Bit(r, i) == (Bit(a, i) && Bit(b, i))
  {
    if a == 0 then
      ZeroHasNoBits();
      0
    else
      2 * And(a / 2, b / 2) + Digit(a % 2 == 1 && b % 2 == 1)
  }

  function BitOr(a: nat, b: nat): (r: nat)
    ensures r >= a && r >= b
    ensures forall i: nat :: Bit(r, i) == (Bit(a, i) || Bit(b, i))
    decreases a + b
  {
    if a == 0 && b == 0 then
      ZeroHasNoBits();
      0
    else
      2 * BitOr(a / 2, b / 2) + Digit(a % 2 == 1 || b % 2 == 1)
  }

  function BitXor(a: nat, b: nat): (r: nat)
    ensures forall i: nat :: Bit(r, i) == (Bit(a, i) != Bit(b, i))
    decreases a + b
  {
    if a == 0 && b == 0 then
      ZeroHasNoBits();
      0
    else
      2 * BitXor(a / 2, b / 2) + Digit(a % 2 != b % 2)
  }

  lemma IsWord(w: nat)
    requires forall i: nat :: i >= BITS ==> !Bit(w, i)
    ensures w < MODULUS
  {
    Pow2Of64();
    BelowFromBits(w, BITS);
  }

  function Or(a: Word, b: Word): (r: Word)
    ensures forall i: nat :: Bit(r, i) == (Bit(a, i) || Bit(b, i))
  {
    WordBits(a);
    WordBits(b);
    IsWord(BitOr(a, b));
    BitOr(a, b)
  }

  function Xor(a: Word, b: Word): (r: Word)
    ensures forall i: nat :: Bit(r, i) == (Bit(a, i) != Bit(b, i))
  {
    WordBits(a);
    WordBits(b);
    IsWord(BitXor(a, b));
    BitXor(a, b)
  }

  /** `~w`. */
  function Not(w: Word): (r: Word)
    ensures forall i: nat :: Bit(r, i) == (i < BITS && !Bit(w, i))
  {
    Pow2Of64();
    ComplementBits(w, BITS);
    Complement(w, BITS)
  }

  /** The digits of `w` below n, flipped. */
  function Complement(w: nat, n: nat): nat
    requires w < Pow2(n)
  {
    Pow2(n) - 1 - w
  }

  lemma ComplementBits(w: nat, n: nat)
    requires w < Pow2(n)
    ensures forall i: nat :: Bit(Complement(w, n), i) == (i < n && !Bit(w, i))
  {
    forall i: nat ensures Bit(Complement(w, n), i) == (i < n && !Bit(w, i)) { ComplementBit(w, n, i); }
  }

  lemma {:induction false} ComplementBit(w: nat, n: nat, i: nat)
    requires w < Pow2(n)
    ensures Bit(Complement(w, n), i) == (i < n && !Bit(w, i))
  {
    if n == 0 {
      ZeroBit(i);
    } else if i > 0 {
      assert Complement(w, n) / 2 == Complement(w / 2, n - 1);
      ComplementBit(w / 2, n - 1, i - 1);
    }
  }

  /** `w >> k`. */
  function Shr(w: Word, k: nat): (r: Word)
    ensures r <= w
    ensures forall i: nat :: Bit(r, i) == Bit(w, i + k)
  {
    if k == 0 then w else Shr(w / 2, k - 1)
  }

  /** `w << k`: digits pushed past position 63 are lost. */
  function Shl(w: Word, k: nat): (r: Word)
    ensures forall i: nat :: Bit(r, i) == (k <= i < BITS && Bit(w, i - k))
    decreases k
  {
    WordBits(w);
    if k == 0 then w else
      DoubleBits(w);
      Shl(Double(w), k - 1)
  }

  /** `2 * w` modulo 2^64. */
  function Double(w: Word): Word {
    if w < MODULUS / 2 then 2 * w else 2 * w - MODULUS
  }

  lemma DoubleBits(w: Word)
    ensures forall i: nat :: Bit(Double(w), i) == (1 <= i < BITS && Bit(w, i - 1))
  {
    Pow2Of64();
    WordBits(w);
    forall i: nat ensures Bit(Double(w), i) == (1 <= i < BITS && Bit(w, i - 1)) {
      if i > 0 {
        if w >= MODULUS / 2 {
          DropTopBit(w, 63, i - 1);
        } else if i >= BITS {
          BitsBelow(w, 63, i - 1);
        }
      }
    }
  }

  /** Subtracting the top power of two clears the top digit and nothing else. */
  lemma {:induction false} DropTopBit(w: nat, n: nat, i: nat)
    requires Pow2(n) <= w < 2 * Pow2(n)
    ensures Bit(w - Pow2(n), i) == (i < n && Bit(w, i))
  {
    if n == 0 {
      ZeroBit(i);
    } else if i > 0 {
      assert (w - Pow2(n)) / 2 == w / 2 - Pow2(n - 1);
      DropTopBit(w / 2, n - 1, i - 1);
    }
  }

  /** Reduction modulo 2^n keeps exactly the n low digits. */
  lemma {:induction false} ModBit(w: nat, n: nat, i: nat)
    ensures Bit(w % Pow2(n), i) == (i < n && Bit(w, i))
  {
    if n == 0 {
      ZeroBit(i);
    } else {
      var m := (w / 2) % Pow2(n - 1);
      ModHalf(w, Pow2(n - 1));
      assert w % Pow2(n) == 2 * m + w % 2;
      if i > 0 { ModBit(w / 2, n - 1, i - 1); }
    }
  }

  lemma ModHalf(w: nat, p: nat)
    requires p > 0
    ensures w % (2 * p) == 2 * ((w / 2) % p) + w % 2
  {
    var q, m := (w / 2) / p, (w / 2) % p;
    assert q * (2 * p) == 2 * (q * p);
    RemainderUnique(w, 2 * p, q, 2 * m + w % 2);
  }

  lemma RemainderUnique(w: nat, d: nat, q: nat, r: nat)
    requires r < d && w == q * d + r
    ensures w % d == r
  {
    var q', r' := w / d, w % d;
    assert q' * d + r' == q * d + r;
    if q > q' { AtLeastOneMore(q, q', d); }
    if q < q' { AtLeastOneMore(q', q, d); }
  }

  lemma AtLeastOneMore(q: nat, q': nat, d: nat)
    requires q > q'
    ensures q * d >= q' * d + d
  {
    assert q * d == (q - q' - 1) * d + (q' * d + d);
  }

  // ---------------------------------------------------------------- word constants

  /** `~(uintptr_t)0`. */
  const ONES: Word := 0xFFFF_FFFF_FFFF_FFFF

  lemma OnesBits()
    ensures forall i: nat :: Bit(ONES, i) == (i < BITS)
  {
    ZeroHasNoBits();
    Pow2Of64();
    assert ONES == Not(0);
  }

  lemma OneBits()
    ensures forall i: nat :: Bit(1, i) == (i == 0)
  {
    ZeroHasNoBits();
    forall i: nat ensures Bit(1, i) == (i == 0) { if i > 0 { assert Bit(1, i) == Bit(0, i - 1); } }
  }

  /** 2^k - 1: exactly the digits below k. */
  function LowMask(k: nat): (r: nat)
    ensures forall i: nat :: Bit(r, i) == (i < k)
  {
    ZeroHasNoBits();
    ComplementBits(0, k);
    Complement(0, k)
  }

  lemma {:induction false} Pow2Bit(k: nat, i: nat)
    ensures Bit(Pow2(k), i) == (i == k)
  {
    if k == 0 {
      OneBits();
    } else if i > 0 {
      Pow2Bit(k - 1, i - 1);
    }
  }

  lemma ShlOne(k: nat)
    requires k < BITS
    ensures Shl(1, k) == Pow2(k)
  {
    OneBits();
    forall i: nat ensures Bit(Shl(1, k), i) == Bit(Pow2(k), i) { Pow2Bit(k, i); }
    Extensional(Shl(1, k), Pow2(k));
  }

  /** `((uintptr_t)1 << k) - 1`. */
  function Below(k: nat): (r: Word)
    requires k < BITS
    ensures forall i: nat :: Bit(r, i) == (i < k)
  {
    ShlOne(k);
    assert Shl(1, k) - 1 == LowMask(k);
    Shl(1, k) - 1
  }

  /** `~(~(uintptr_t)1 << (n - 1))`: the n low digits, for 1 <= n <= 64. */
  function FirstBits(n: nat): (r: Word)
    requires 1 <= n <= BITS
    ensures forall i: nat :: Bit(r, i) == (i < n)
  {
    OneBits();
    Not(Shl(Not(1), n - 1))
  }

  /** `~(uintptr_t)0 << k`: the digits from k up. */
  function From(k: nat): (r: Word)
    requires k < BITS
    ensures forall i: nat :: Bit(r, i) == (k <= i < BITS)
  {
    OnesBits();
    Shl(ONES, k)
  }

  // ---------------------------------------------------------------- digit searches

  /** Count of trailing zeros (`__builtin_ctzl`). */
  function Ctz(w: Word): (r: nat)
    requires w != 0
    ensures r < BITS && Bit(w, r)
    ensures forall j: nat :: j < r ==> !Bit(w, j)
  {
    WordBits(w);
    if w % 2 == 1 then 0 else
      var c := Ctz(w / 2);
      assert Bit(w, c + 1);
      1 + c
  }

  /** Count of leading zeros (`__builtin_clzl`). */
  function Clz(w: Word): (r: nat)
    requires w != 0
    ensures r < BITS && Bit(w, BITS - 1 - r)
    ensures forall j: nat :: BITS - 1 - r < j ==> !Bit(w, j)
    decreases MODULUS - w
  {
    WordBits(w);
    if w >= MODULUS / 2 then
      TopBitSet(w);
      0
    else
      DoubleBits(w);
      TopBitClear(w);
      var c := Clz(Double(w));
      assert forall j: nat :: BITS - 2 - c < j < BITS ==> !Bit(w, j) by {
        forall j: nat | BITS - 2 - c < j < BITS - 1 ensures !Bit(w, j) { assert !Bit(Double(w), j + 1); }
      }
      1 + c
  }

  lemma TopBitClear(w: Word)
    requires w < MODULUS / 2
    ensures !Bit(w, 63)
  {
    Pow2Of64();
    BitsBelow(w, 63, 63);
  }

  /** Where the top digit of `w` at or below position 63 - k is, read off `w << k`. */
  lemma TopBelow(w: Word, k: nat)
    requires k < BITS && Shl(w, k) != 0
    ensures var r := BITS - 1 - k - Clz(Shl(w, k));
            0 <= r && Bit(w, r) && forall j: nat :: r < j <= BITS - 1 - k ==> !Bit(w, j)
  {
    var v := Shl(w, k);
    var c := Clz(v);
    assert Bit(v, BITS - 1 - c);
    forall j: nat | BITS - 1 - k - c < j <= BITS - 1 - k ensures !Bit(w, j) {
      assert !Bit(v, j + k);
    }
  }

  lemma NoneBelow(w: Word, k: nat)
    requires k < BITS && Shl(w, k) == 0
    ensures forall j: nat :: j <= BITS - 1 - k ==> !Bit(w, j)
  {
    ZeroHasNoBits();
    forall j: nat | j <= BITS - 1 - k ensures !Bit(w, j) {
      assert !Bit(Shl(w, k), j + k);
    }
  }

  lemma TopBitSet(w: Word)
    requires w >= MODULUS / 2
    ensures Bit(w, 63)
  {
    WordBits(w);
    Pow2Of64();
    if !Bit(w, 63) { BelowFromBits(w, 63); }
  }
}
