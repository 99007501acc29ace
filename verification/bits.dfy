/** Bitwise operations on non-negative integers.  The source works on u8 to
    u64 words with `&`, `|`, `<<`, `>>` and `!`; here those are defined bit by
    bit from the least significant end, and every bitwise identity the rest
    of the model needs is proved pointwise through `Bit`. */
module Bits {
  import opened Base

  function Pow2(k: nat): (r: nat)
    ensures r >= 1
  {
    if k == 0 then 1 else 2 * Pow2(k - 1)
  }

  /** Bit `i` of `v`, i.e. `(v >> i) & 1 == 1`. */
  predicate Bit(v: nat, i: nat)
  {
    if i == 0 then v % 2 == 1 else Bit(v / 2, i - 1)
  }

  /** `a & b`. */
  function And(a: nat, b: nat): nat
    decreases a
  {
    if a == 0 || b == 0 then 0
    else 2 * And(a / 2, b / 2) + (if a % 2 == 1 && b % 2 == 1 then 1 else 0)
  }

  /** `a | b`. */
  function Or(a: nat, b: nat): nat
    decreases a + b
  {
    if a == 0 then b
    else if b == 0 then a
    else 2 * Or(a / 2, b / 2) + (if a % 2 == 1 || b % 2 == 1 then 1 else 0)
  }

  /** `!x` on a `width`-bit word. */
  function Not(x: nat, width: nat): nat
    requires x < Pow2(width)
  {
    Pow2(width) - 1 - x
  }

  /** `x << k` on a `width`-bit word: the bits shifted out are lost. */
  function Shl(x: nat, k: nat, width: nat): nat
  {
    (x * Pow2(k)) % Pow2(width)
  }

  /** `x >> k` on an unsigned word: `k` halvings. */
  function Shr(x: nat, k: nat): nat
  {
    if k == 0 then x else Shr(x / 2, k - 1)
  }

  /** Shifting right by `k` divides by `2^k`. */
  lemma {:induction false} ShrIsDiv(x: nat, k: nat)
    ensures Shr(x, k) == x / Pow2(k)
  {
    if k == 0 {
      DivOne(x);
    } else {
      ShrIsDiv(x / 2, k - 1);
      DivPow2Succ(x, k);
    }
  }

  lemma Pow2Add(j: nat, k: nat)
    ensures Pow2(j + k) == Pow2(j) * Pow2(k)
    decreases j
  {
    if j > 0 {
      Pow2Add(j - 1, k);
    }
  }

  lemma Pow2Mono(j: nat, k: nat)
    requires j <= k
    ensures Pow2(j) <= Pow2(k)
    decreases k
  {
    if j < k {
      Pow2Mono(j, k - 1);
    }
  }

  lemma HalfOf(q: nat, c: nat)
    requires c < 2
    ensures (2 * q + c) / 2 == q && (2 * q + c) % 2 == c
  {
    DivModOf(q, 2, c);
  }

  lemma BitOfZero(i: nat)
    ensures !Bit(0, i)
  {
  }

  /** A value below 2^w has no bit at or above position w. */
  lemma BitAbove(v: nat, w: nat, i: nat)
    requires v < Pow2(w) && w <= i
    ensures !Bit(v, i)
    decreases w
  {
    if w == 0 {
      BitOfZero(i);
    } else {
      BitAbove(v / 2, w - 1, i - 1);
    }
  }

  lemma AndBit(a: nat, b: nat, i: nat)
    ensures Bit(And(a, b), i) == (Bit(a, i) && Bit(b, i))
    decreases i
  {
    if a == 0 || b == 0 {
      BitOfZero(i);
    } else {
      var c := if a % 2 == 1 && b % 2 == 1 then 1 else 0;
      HalfOf(And(a / 2, b / 2), c);
      if i > 0 {
        AndBit(a / 2, b / 2, i - 1);
      }
    }
  }

  lemma OrBit(a: nat, b: nat, i: nat)
    ensures Bit(Or(a, b), i) == (Bit(a, i) || Bit(b, i))
    decreases i
  {
    if a == 0 {
      BitOfZero(i);
    } else if b == 0 {
      BitOfZero(i);
    } else {
      var c := if a % 2 == 1 || b % 2 == 1 then 1 else 0;
      HalfOf(Or(a / 2, b / 2), c);
      if i > 0 {
        OrBit(a / 2, b / 2, i - 1);
      }
    }
  }

  lemma AndAtMost(a: nat, b: nat)
    ensures And(a, b) <= a
    decreases a
  {
    if a != 0 && b != 0 {
      AndAtMost(a / 2, b / 2);
    }
  }

  lemma OrBelow(a: nat, b: nat, w: nat)
    requires a < Pow2(w) && b < Pow2(w)
    ensures Or(a, b) < Pow2(w)
    decreases w
  {
    if a != 0 && b != 0 {
      OrBelow(a / 2, b / 2, w - 1);
    }
  }

  /** Two words of `w` bits that agree on every bit are equal. */
  lemma {:induction false} BitsEqual(a: nat, b: nat, w: nat)
    requires a < Pow2(w) && b < Pow2(w)
    requires forall i :: 0 <= i < w ==> Bit(a, i) == Bit(b, i)
    ensures a == b
    decreases w
  {
    if w > 0 {
      assert Bit(a, 0) == Bit(b, 0);
      forall i | 0 <= i < w - 1
        ensures Bit(a / 2, i) == Bit(b / 2, i)
      {
        assert Bit(a, i + 1) == Bit(b, i + 1);
      }
      BitsEqual(a / 2, b / 2, w - 1);
    }
  }

  /** Bit `i` of `n * 2^k` is bit `i - k` of `n`, and clear below `k`. */
  lemma BitOfMulPow2(n: nat, k: nat, i: nat)
    ensures Bit(n * Pow2(k), i) == (k <= i && Bit(n, i - k))
    decreases k
  {
    if k > 0 {
      var m := n * Pow2(k - 1);
      MulTwice(n, Pow2(k - 1));
      HalfOf(m, 0);
      if i > 0 {
        BitOfMulPow2(n, k - 1, i - 1);
      }
    }
  }

  lemma MulTwice(n: nat, p: nat)
    ensures n * (2 * p) == 2 * (n * p)
  {
  }

  /** Bit `i` of `v >> k` is bit `i + k` of `v`. */
  lemma {:induction false} BitOfDivPow2(v: nat, k: nat, i: nat)
    ensures Bit(Shr(v, k), i) == Bit(v, i + k)
    decreases k
  {
    if k > 0 {
      BitOfDivPow2(v / 2, k - 1, i);
      BitOfHalf(v, i + k);
    }
  }

  lemma BitOfHalf(v: nat, j: nat)
    requires j > 0
    ensures Bit(v, j) == Bit(v / 2, j - 1)
  {
  }

  lemma DivPow2Succ(x: nat, k: nat)
    requires k > 0
    ensures Pow2(k) == 2 * Pow2(k - 1)
    ensures x / Pow2(k) == (x / 2) / Pow2(k - 1)
  {
    DivDiv(x, 2, Pow2(k - 1));
  }

  /** Bit `i` of `v % 2^n` is bit `i` of `v` below `n`, and clear above. */
  lemma BitOfModPow2(v: nat, n: nat, i: nat)
    ensures Bit(v % Pow2(n), i) == (i < n && Bit(v, i))
    decreases n
  {
    if n == 0 {
      BitOfZero(i);
    } else {
      DivDiv(v, 2, Pow2(n - 1));
      var t := (v / 2) % Pow2(n - 1);
      HalfOf(t, v % 2);
      if i > 0 {
        BitOfModPow2(v / 2, n - 1, i - 1);
      }
    }
  }

  lemma BitOfPow2(k: nat, i: nat)
    ensures Bit(Pow2(k), i) == (i == k)
    decreases k
  {
    if k == 0 {
      if i > 0 {
        BitOfZero(i - 1);
      }
    } else {
      HalfOf(Pow2(k - 1), 0);
      if i > 0 {
        BitOfPow2(k - 1, i - 1);
      }
    }
  }

  /** The low mask `2^n - 1` has exactly the bits below `n`. */
  lemma LowMask(n: nat, i: nat)
    ensures Bit(Pow2(n) - 1, i) == (i < n)
    decreases n
  {
    if n == 0 {
      BitOfZero(i);
    } else {
      var m := Pow2(n - 1) - 1;
      HalfOf(m, 1);
      if i > 0 {
        LowMask(n - 1, i - 1);
      }
    }
  }

  /** The mask `2^n - 2^k` has exactly the bits `k <= i < n`. */
  lemma BitOfMask(k: nat, n: nat, i: nat)
    requires k <= n
    ensures Pow2(k) <= Pow2(n)
    ensures Bit(Pow2(n) - Pow2(k), i) == (k <= i < n)
  {
    Pow2Mono(k, n);
    var p, r := Pow2(k), Pow2(n - k);
    Pow2Add(n - k, k);
    MulPred(r, p);
    BitOfMulPow2(r - 1, k, i);
    if k <= i {
      LowMask(n - k, i - k);
    }
  }

  lemma MulPred(r: nat, p: nat)
    requires r >= 1
    ensures (r - 1) * p == r * p - p
  {
  }

  /** `v & (2^n - 1) == v % 2^n`. */
  lemma AndLowMask(v: nat, n: nat, w: nat)
    requires v < Pow2(w) && n <= w
    ensures And(v, Pow2(n) - 1) == v % Pow2(n)
  {
    Pow2Mono(n, w);
    AndAtMost(v, Pow2(n) - 1);
    forall i | 0 <= i < w
      ensures Bit(And(v, Pow2(n) - 1), i) == Bit(v % Pow2(n), i)
    {
      AndBit(v, Pow2(n) - 1, i);
      LowMask(n, i);
      BitOfModPow2(v, n, i);
    }
    BitsEqual(And(v, Pow2(n) - 1), v % Pow2(n), w);
  }

  /** Or-ing words with no common bit adds them. */
  lemma OrDisjoint(a: nat, b: nat)
    requires And(a, b) == 0
    ensures Or(a, b) == a + b
    decreases a + b
  {
    if a != 0 && b != 0 {
      var c := if a % 2 == 1 && b % 2 == 1 then 1 else 0;
      HalfOf(And(a / 2, b / 2), c);
      OrDisjoint(a / 2, b / 2);
    }
  }

  /** The powers of two the encoders use, as literals. */
  lemma Pow2Table()
    ensures Pow2(0) == 0x1 && Pow2(1) == 0x2 && Pow2(2) == 0x4 && Pow2(3) == 0x8
    ensures Pow2(4) == 0x10 && Pow2(5) == 0x20 && Pow2(6) == 0x40 && Pow2(7) == 0x80
    ensures Pow2(8) == 0x100 && Pow2(9) == 0x200 && Pow2(12) == 0x1000
    ensures Pow2(16) == 0x1_0000 && Pow2(32) == 0x1_0000_0000
    ensures Pow2(40) == 0x100_0000_0000 && Pow2(48) == 0x1_0000_0000_0000
    ensures Pow2(52) == 0x10_0000_0000_0000 && Pow2(63) == 0x8000_0000_0000_0000
    ensures Pow2(64) == TWO_64
  {
    assert Pow2(4) == 0x10;
    assert Pow2(8) == 0x100;
    assert Pow2(9) == 0x200;
    assert Pow2(12) == 0x1000 by { Pow2Add(8, 4); }
    Pow2Add(8, 8);
    Pow2Add(16, 16);
    Pow2Add(32, 8);
    Pow2Add(32, 16);
    Pow2Add(48, 4);
    Pow2Add(32, 32);
    assert Pow2(64) == 2 * Pow2(63);
  }

  lemma AndComm(a: nat, b: nat)
    ensures And(a, b) == And(b, a)
    decreases a
  {
    if a != 0 && b != 0 {
      AndComm(a / 2, b / 2);
    }
  }

  lemma OrComm(a: nat, b: nat)
    ensures Or(a, b) == Or(b, a)
    decreases a + b
  {
    if a != 0 && b != 0 {
      OrComm(a / 2, b / 2);
    }
  }

  /** Testing one bit with a mask: `v & 2^k == 2^k` exactly when bit `k` is
      set, and `v & 2^k == 0` otherwise. */
  lemma AndPow2(v: nat, k: nat)
    ensures And(v, Pow2(k)) == (if Bit(v, k) then Pow2(k) else 0)
  {
    var r := if Bit(v, k) then Pow2(k) else 0;
    AndComm(v, Pow2(k));
    AndAtMost(Pow2(k), v);
    assert Pow2(k + 1) == 2 * Pow2(k);
    forall i | 0 <= i < k + 1
      ensures Bit(And(v, Pow2(k)), i) == Bit(r, i)
    {
      AndBit(v, Pow2(k), i);
      BitOfPow2(k, i);
      BitOfZero(i);
    }
    BitsEqual(And(v, Pow2(k)), r, k + 1);
  }

  /** Words of `w` bits without a common bit have a zero `&`. */
  lemma DisjointAnd(a: nat, b: nat, w: nat)
    requires a < Pow2(w)
    requires forall i :: 0 <= i < w ==> !(Bit(a, i) && Bit(b, i))
    ensures And(a, b) == 0
  {
    AndAtMost(a, b);
    forall i | 0 <= i < w
      ensures Bit(And(a, b), i) == Bit(0, i)
    {
      AndBit(a, b, i);
      BitOfZero(i);
    }
    BitsEqual(And(a, b), 0, w);
  }

  /** A zero `&` means no common bit. */
  lemma AndZeroDisjoint(a: nat, b: nat, i: nat)
    requires And(a, b) == 0
    ensures !(Bit(a, i) && Bit(b, i))
  {
    AndBit(a, b, i);
    BitOfZero(i);
  }

  /** A word of `w` bits with no bit at or above `k` is below `2^k`. */
  lemma BitsBelow(v: nat, k: nat, w: nat)
    requires v < Pow2(w) && k <= w
    requires forall i :: k <= i < w ==> !Bit(v, i)
    ensures v < Pow2(k)
  {
    forall i | 0 <= i < w
      ensures Bit(v, i) == Bit(v % Pow2(k), i)
    {
      BitOfModPow2(v, k, i);
    }
    Pow2Mono(k, w);
    BitsEqual(v, v % Pow2(k), w);
  }

  /** A multiple of `2^k` and a number below `2^k` share no bit, so their
      `|` is their sum. */
  lemma OrAligned(m: nat, lo: nat, k: nat)
    requires m % Pow2(k) == 0 && lo < Pow2(k)
    ensures Or(m, lo) == m + lo
  {
    var t := m / Pow2(k);
    assert m == t * Pow2(k) + 0;
    forall i | 0 <= i < k
      ensures !(Bit(lo, i) && Bit(m, i))
    {
      BitOfConcat(t, 0, k, i);
      BitOfZero(i);
    }
    DisjointAnd(lo, m, k);
    AndComm(lo, m);
    OrDisjoint(m, lo);
  }

  /** The bits of `hi * 2^k + lo` for `lo < 2^k`: `lo` below position `k`,
      `hi` from there on.  This is how every packed field is read back. */
  lemma BitOfConcat(hi: nat, lo: nat, k: nat, i: nat)
    requires lo < Pow2(k)
    ensures Bit(hi * Pow2(k) + lo, i) == if i < k then Bit(lo, i) else Bit(hi, i - k)
    decreases k
  {
    if k > 0 {
      var m := hi * Pow2(k - 1) + lo / 2;
      MulTwice(hi, Pow2(k - 1));
      assert hi * Pow2(k) + lo == 2 * m + lo % 2;
      HalfOf(m, lo % 2);
      if i > 0 {
        BitOfConcat(hi, lo / 2, k - 1, i - 1);
      }
    }
  }

  /** `!x` on `w` bits flips exactly the bits below `w`. */
  lemma NotBit(x: nat, w: nat, i: nat)
    requires x < Pow2(w)
    ensures Bit(Not(x, w), i) == (i < w && !Bit(x, i))
    decreases w
  {
    if w == 0 {
      BitOfZero(i);
    } else {
      var h := Pow2(w - 1) - 1 - x / 2;
      assert Not(x, w) == 2 * h + (1 - x % 2);
      HalfOf(h, 1 - x % 2);
      if i > 0 {
        NotBit(x / 2, w - 1, i - 1);
      }
    }
  }

  /** `x & (2^w - 2^k)` clears the bits of `x` below `k`: it rounds `x`
      down to a multiple of `2^k`. */
  lemma AndHighMask(x: nat, k: nat, w: nat)
    requires k <= w && x < Pow2(w)
    ensures Pow2(k) <= Pow2(w)
    ensures And(x, Pow2(w) - Pow2(k)) == (x / Pow2(k)) * Pow2(k)
  {
    AndHighMaskOf(x, k, w, Pow2(k), Pow2(w));
  }

  /** `AndHighMask` with `pk` and `pw` standing for `2^k` and `2^w`. */
  lemma {:induction false} AndHighMaskOf(x: nat, k: nat, w: nat, pk: nat, pw: nat)
    requires k <= w && pk == Pow2(k) && pw == Pow2(w) && x < pw
    ensures pk <= pw
    ensures And(x, pw - pk) == (x / pk) * pk
    decreases k
  {
    Pow2Mono(k, w);
    if k == 0 {
      assert pk == 1;
      AndFullMask(x, w, pw);
    } else {
      Pow2Mono(k - 1, w - 1);
      var p, hp := Pow2(k - 1), Pow2(w - 1);
      HalfBelow(x, hp);
      AndHighMaskOf(x / 2, k - 1, w - 1, p, hp);
      DivPow2Succ(x, k);
      ShrIsDiv(x, k);
      MaskStep(x, hp - p, p, Shr(x, k), pw - pk, pk);
    }
  }

  /** The base of `AndHighMaskOf`: masking with `2^w - 1` keeps a
      `w`-bit word. */
  lemma AndFullMask(x: nat, w: nat, pw: nat)
    requires pw == Pow2(w) && x < pw
    ensures And(x, pw - 1) == (x / 1) * 1
  {
    AndLowMask(x, w, w);
    SmallMod(x, pw);
    DivOne(x);
  }

  /** One halving step of `AndHighMask`. */
  lemma MaskStep(x: nat, h: nat, p: nat, q: nat, b: nat, m: nat)
    requires p >= 1 && b == 2 * h && m == 2 * p && x < 2 * p + 2 * h
    requires x / m == (x / 2) / p
    requires And(x / 2, h) == ((x / 2) / p) * p && q == x / m
    ensures And(x, b) == q * m
  {
    if x == 0 {
    } else if h == 0 {
      SmallDiv(x, m);
    } else {
      HalfOf(h, 0);
      AndEven(x, 2 * h);
      MulTwice(q, p);
    }
  }

  lemma AndEven(a: nat, b: nat)
    requires a != 0 && b != 0 && b % 2 == 0
    ensures And(a, b) == 2 * And(a / 2, b / 2)
  {
  }

  lemma WordWidth()
    ensures Pow2(64) == TWO_64 && Pow2(63) < TWO_64
  {
    Pow2Table();
  }

  /** Masking with `!(2^k - 1)` rounds down to a multiple of `2^k`. */
  lemma AlignDownMask(x: nat, k: nat)
    requires x < TWO_64 && k < 64
    ensures Pow2(k) - 1 < Pow2(64)
    ensures And(x, Not(Pow2(k) - 1, 64)) == (x / Pow2(k)) * Pow2(k)
  {
    WordWidth();
    AndHighMask(x, k, 64);
    assert Not(Pow2(k) - 1, 64) == Pow2(64) - Pow2(k);
  }

  /** One unfolding of `And`, which also holds when an operand is 0. */
  lemma AndUnfold(a: nat, b: nat)
    ensures And(a, b) == 2 * And(a / 2, b / 2) + (if a % 2 == 1 && b % 2 == 1 then 1 else 0)
  {
  }

  /** A mask and its complement split a word: `x & m` and `x & !m` add up
      to `x`. */
  lemma {:induction false} AndSplit(x: nat, m: nat, w: nat)
    requires x < Pow2(w) && m < Pow2(w)
    ensures And(x, m) + And(x, Not(m, w)) == x
    decreases w
  {
    if w == 0 {
      assert x == 0;
    } else {
      var n := Not(m, w);
      assert n / 2 == Not(m / 2, w - 1) && n % 2 == 1 - m % 2;
      AndUnfold(x, m);
      AndUnfold(x, n);
      AndSplit(x / 2, m / 2, w - 1);
    }
  }
}
