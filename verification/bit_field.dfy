/** Bit ranges of a word, as the `bit_field` crate's `get_bits` and
    `set_bits` read and write them: the range `lo..hi` holds bits `lo` up to
    but not including `hi`.  Both are defined one bit at a time from the
    least significant end, like the operations of `Bits`. */
module BitFields {
  import opened Base
  import opened Bits

  const DOES_NOT_FIT := "value does not fit into bit range"

  /** `x` has no set bit at position `n` or above. */
  predicate Fits(x: nat, n: nat)
  {
    if n == 0 then x == 0 else Fits(x / 2, n - 1)
  }

  /** Fitting in `n` bits is being below `2^n`. */
  lemma {:induction false} FitsBelow(x: nat, n: nat)
    ensures Fits(x, n) <==> x < Pow2(n)
  {
    if n > 0 {
      FitsBelow(x / 2, n - 1);
    }
  }

  /** `v.get_bits(lo..hi)`: the bits of the range, moved down to bit 0. */
  function GetBits(v: nat, lo: nat, hi: nat): nat
    requires lo <= hi
    decreases hi
  {
    if lo > 0 then GetBits(v / 2, lo - 1, hi - 1)
    else if hi == 0 then 0
    else 2 * GetBits(v / 2, 0, hi - 1) + v % 2
  }

  /** Bit `j` of a range read is bit `lo + j` of the word, inside the range. */
  lemma {:induction false} GetBitsBit(v: nat, lo: nat, hi: nat, j: nat)
    requires lo <= hi
    ensures Bit(GetBits(v, lo, hi), j) == (j < hi - lo && Bit(v, lo + j))
    decreases hi
  {
    if lo > 0 {
      GetBitsBit(v / 2, lo - 1, hi - 1, j);
      BitOfHalf(v, lo + j);
    } else if hi == 0 {
      BitOfZero(j);
    } else {
      var g := GetBits(v / 2, 0, hi - 1);
      HalfOf(g, v % 2);
      if j > 0 {
        GetBitsBit(v / 2, 0, hi - 1, j - 1);
        BitOfHalf(v, j);
      }
    }
  }

  /** A range read fits in the width `w` of the range.  (The width is a
      parameter of its own so that callers with literal positions meet it
      as a number rather than a difference.) */
  lemma {:induction false} GetBitsFits(v: nat, lo: nat, hi: nat, w: nat)
    requires lo <= hi && w == hi - lo
    ensures Fits(GetBits(v, lo, hi), w)
    ensures GetBits(v, lo, hi) < Pow2(w)
    decreases hi
  {
    if lo > 0 {
      GetBitsFits(v / 2, lo - 1, hi - 1, w);
    } else if hi > 0 {
      GetBitsFits(v / 2, 0, hi - 1, w - 1);
      HalfOf(GetBits(v / 2, 0, hi - 1), v % 2);
    }
    FitsBelow(GetBits(v, lo, hi), w);
  }

  /** `v.set_bits(lo..hi, x)`: the bits of the range replaced by the low
      bits of `x`.  The crate first asserts that `x` fits in the range;
      callers state that separately. */
  function SetBits(v: nat, lo: nat, hi: nat, x: nat): nat
    requires lo <= hi
    decreases hi
  {
    if hi == 0 then v
    else if lo == 0 then 2 * SetBits(v / 2, 0, hi - 1, x / 2) + x % 2
    else 2 * SetBits(v / 2, lo - 1, hi - 1, x) + v % 2
  }

  /** Writing a range replaces exactly the bits of the range with those of
      `x` and keeps every other bit. */
  lemma {:induction false} SetBitsBit(v: nat, lo: nat, hi: nat, x: nat, i: nat)
    requires lo <= hi
    ensures Bit(SetBits(v, lo, hi, x), i) == if lo <= i < hi then Bit(x, i - lo) else Bit(v, i)
    decreases hi
  {
    if hi > 0 {
      if lo == 0 {
        var s := SetBits(v / 2, 0, hi - 1, x / 2);
        HalfOf(s, x % 2);
        if i > 0 {
          SetBitsBit(v / 2, 0, hi - 1, x / 2, i - 1);
          BitOfHalf(x, i);
          BitOfHalf(v, i);
        }
      } else {
        var s := SetBits(v / 2, lo - 1, hi - 1, x);
        HalfOf(s, v % 2);
        if i > 0 {
          SetBitsBit(v / 2, lo - 1, hi - 1, x, i - 1);
          BitOfHalf(v, i);
        }
      }
    }
  }

  /** `v.set_bit(k, b)`: bit `k` made `b`. */
  function SetBit(v: nat, k: nat, b: bool): nat
  {
    SetBits(v, k, k + 1, if b then 1 else 0)
  }

  /** Setting a bit changes that bit and no other. */
  lemma SetBitBit(v: nat, k: nat, b: bool, i: nat)
    ensures Bit(SetBit(v, k, b), i) == if i == k then b else Bit(v, i)
  {
    SetBitsBit(v, k, k + 1, if b then 1 else 0, i);
  }

  /** Setting a bit of a `w`-bit word below `w` keeps it a `w`-bit word. */
  lemma SetBitBelow(v: nat, k: nat, b: bool, w: nat)
    requires v < Pow2(w) && k < w
    ensures SetBit(v, k, b) < Pow2(w)
  {
    SetBitsBelow(v, k, k + 1, if b then 1 else 0, w);
  }

  /** Writing a range that lies inside a `w`-bit word keeps the word within
      `w` bits. */
  lemma {:induction false} SetBitsBelow(v: nat, lo: nat, hi: nat, x: nat, w: nat)
    requires lo <= hi <= w && v < Pow2(w)
    ensures SetBits(v, lo, hi, x) < Pow2(w)
    decreases hi
  {
    if hi > 0 {
      if lo == 0 {
        SetBitsBelow(v / 2, 0, hi - 1, x / 2, w - 1);
      } else {
        SetBitsBelow(v / 2, lo - 1, hi - 1, x, w - 1);
      }
    }
  }

  /** Reading back the range just written gives the value written, when it
      fits. */
  lemma GetSetSame(v: nat, lo: nat, hi: nat, x: nat, w: nat)
    requires lo <= hi && w == hi - lo && Fits(x, w)
    ensures GetBits(SetBits(v, lo, hi, x), lo, hi) == x
  {
    var r := GetBits(SetBits(v, lo, hi, x), lo, hi);
    forall j | 0 <= j < hi - lo
      ensures Bit(r, j) == Bit(x, j)
    {
      GetBitsBit(SetBits(v, lo, hi, x), lo, hi, j);
      SetBitsBit(v, lo, hi, x, lo + j);
    }
    GetBitsFits(SetBits(v, lo, hi, x), lo, hi, w);
    FitsBelow(x, w);
    BitsEqual(r, x, hi - lo);
  }

  /** Writing one range leaves a range disjoint from it as it was. */
  lemma GetSetOther(v: nat, lo: nat, hi: nat, x: nat, lo2: nat, hi2: nat)
    requires lo <= hi && lo2 <= hi2
    requires hi2 <= lo || hi <= lo2
    ensures GetBits(SetBits(v, lo, hi, x), lo2, hi2) == GetBits(v, lo2, hi2)
  {
    var r, s := GetBits(SetBits(v, lo, hi, x), lo2, hi2), GetBits(v, lo2, hi2);
    forall j | 0 <= j < hi2 - lo2
      ensures Bit(r, j) == Bit(s, j)
    {
      GetBitsBit(SetBits(v, lo, hi, x), lo2, hi2, j);
      GetBitsBit(v, lo2, hi2, j);
      SetBitsBit(v, lo, hi, x, lo2 + j);
    }
    GetBitsFits(SetBits(v, lo, hi, x), lo2, hi2, hi2 - lo2);
    GetBitsFits(v, lo2, hi2, hi2 - lo2);
    BitsEqual(r, s, hi2 - lo2);
  }

  /** Writing the low `k` bits replaces the remainder modulo `2^k`. */
  lemma {:induction false} SetLowBits(v: nat, x: nat, k: nat)
    requires x < Pow2(k)
    ensures SetBits(v, 0, k, x) == (v / Pow2(k)) * Pow2(k) + x
  {
    if k > 0 {
      var p := Pow2(k - 1);
      SetLowBits(v / 2, x / 2, k - 1);
      LowStep(v, x, p, SetBits(v / 2, 0, k - 1, x / 2));
    }
  }

  /** The same as a quotient and a remainder: writing the low `k` bits
      sets the remainder modulo `2^k` and keeps the quotient. */
  lemma SetLowBitsDivMod(v: nat, x: nat, k: nat)
    requires x < Pow2(k)
    ensures SetBits(v, 0, k, x) % Pow2(k) == x
    ensures SetBits(v, 0, k, x) / Pow2(k) == v / Pow2(k)
  {
    SetLowBits(v, x, k);
    QuotRem(v, x, Pow2(k), SetBits(v, 0, k, x));
  }

  lemma QuotRem(v: nat, x: nat, p: nat, s: nat)
    requires x < p && s == (v / p) * p + x
    ensures s % p == x && s / p == v / p
  {
    DivModOf(v / p, p, x);
  }

  /** One step of `SetLowBits`: the low bit of `x` under twice the write of
      the halves. */
  lemma LowStep(v: nat, x: nat, p: nat, s: nat)
    requires p > 0 && s == (v / 2 / p) * p + x / 2
    ensures 2 * s + x % 2 == (v / (2 * p)) * (2 * p) + x
  {
    DoubleSum(x / 2, v / 2 / p, p);
    DivDiv(v, 2, p);
  }

  /** The low `n` bits are the remainder modulo `2^n`. */
  lemma {:induction false} GetBitsLow(v: nat, n: nat)
    ensures GetBits(v, 0, n) == v % Pow2(n)
  {
    if n > 0 {
      GetBitsLow(v / 2, n - 1);
      DivDiv(v, 2, Pow2(n - 1));
    }
  }

  /** A range read is a right shift by `lo` followed by a remainder modulo
      `2^(hi - lo)`: `(v >> lo) & (2^(hi - lo) - 1)`. */
  lemma {:induction false} GetBitsShr(v: nat, lo: nat, hi: nat)
    requires lo <= hi
    ensures GetBits(v, lo, hi) == Shr(v, lo) % Pow2(hi - lo)
    decreases lo
  {
    if lo > 0 {
      GetBitsShr(v / 2, lo - 1, hi - 1);
    } else {
      GetBitsLow(v, hi);
    }
  }

  /** The same with the shift written as a division by `2^lo`. */
  lemma GetBitsDiv(v: nat, lo: nat, hi: nat)
    requires lo <= hi
    ensures GetBits(v, lo, hi) == (v / Pow2(lo)) % Pow2(hi - lo)
  {
    GetBitsShr(v, lo, hi);
    ShrIsDiv(v, lo);
  }

  /** A word that fits in `w` bits is its `0..w` range. */
  lemma GetBitsWhole(v: nat, w: nat)
    requires Fits(v, w)
    ensures GetBits(v, 0, w) == v
  {
    FitsBelow(v, w);
    GetBitsLow(v, w);
    SmallMod(v, Pow2(w));
  }

  /** Two adjacent ranges read together are the range they span. */
  lemma {:induction false} GetBitsJoin(v: nat, lo: nat, mid: nat, hi: nat, m: nat)
    requires lo <= mid <= hi && m == mid - lo
    ensures GetBits(v, lo, mid) + GetBits(v, mid, hi) * Pow2(m) == GetBits(v, lo, hi)
    decreases hi
  {
    if lo > 0 {
      GetBitsJoin(v / 2, lo - 1, mid - 1, hi - 1, m);
    } else if mid > 0 {
      var a, b := GetBits(v / 2, 0, mid - 1), GetBits(v / 2, mid - 1, hi - 1);
      GetBitsJoin(v / 2, 0, mid - 1, hi - 1, m - 1);
      DoubleSum(a, b, Pow2(m - 1));
    }
  }

  lemma DoubleSum(a: nat, b: nat, p: nat)
    ensures 2 * (a + b * p) == 2 * a + b * (2 * p)
  {
  }
}
