/** Shared vocabulary: optional values, results carrying the reason a source
    `assert!`/`panic!` would abort, fixed-width integer ranges, and a few
    division facts the encoders rely on. */
module Base {

  datatype Option<+T> = None | Some(value: T)

  /** `Ok` is a normal return; `Err` is the point where the source aborts
      (a failed `assert!`, `expect`, `unwrap` or a debug-build overflow). */
  datatype Result<+T, +E> = Ok(value: T) | Err(error: E)

  /** The messages of Rust's debug-build arithmetic overflow checks. */
  const ADD_OVERFLOW := "attempt to add with overflow"
  const SUB_OVERFLOW := "attempt to subtract with overflow"
  const MUL_OVERFLOW := "attempt to multiply with overflow"

  const TWO_8: nat := 0x100
  const TWO_16: nat := 0x1_0000
  const TWO_32: nat := 0x1_0000_0000
  const TWO_64: nat := 0x1_0000_0000_0000_0000

  type u8 = x: nat | x < TWO_8
  type u16 = x: nat | x < TWO_16
  type u32 = x: nat | x < TWO_32
  type u64 = x: nat | x < TWO_64

  /** Unsigned byte, as read from boot-loader memory. */
  type byte = x: nat | x < 256

  /** (q * m + r) / m == q and (q * m + r) % m == r for a remainder in range. */
  lemma DivModOf(q: nat, m: nat, r: nat)
    requires 0 <= r < m
    ensures (q * m + r) / m == q
    ensures (q * m + r) % m == r
  {
    var x := q * m + r;
    var d, e := x / m, x % m;
    assert x == d * m + e;
    assert (q - d) * m == e - r;
    if q - d >= 1 {
      MulAtLeast(q - d, m);
    } else if q - d <= -1 {
      MulAtLeast(d - q, m);
    }
  }

  lemma MulAtLeast(k: int, m: nat)
    requires k >= 1
    ensures k * m >= m
  {
  }

  /** Little-endian value of a byte string. */
  function LittleEndian(bs: seq<byte>): nat
  {
    if |bs| == 0 then 0 else bs[0] + 256 * LittleEndian(bs[1..])
  }

  /** Dividing by `a` and then by `b` is dividing by `a * b`; the remainders
      combine the same way. */
  lemma DivDiv(n: nat, a: nat, b: nat)
    requires a > 0 && b > 0
    ensures n / (a * b) == (n / a) / b
    ensures n % (a * b) == a * ((n / a) % b) + n % a
  {
    var q, r := n / a, n % a;
    var q2, r2 := q / b, q % b;
    Regroup(n, a, b, q, r, q2, r2);
    RemainderBelow(a, b, r2, r);
    DivModOf(q2, a * b, a * r2 + r);
  }

  lemma Regroup(n: nat, a: nat, b: nat, q: nat, r: nat, q2: nat, r2: nat)
    requires n == a * q + r && q == b * q2 + r2
    ensures n == q2 * (a * b) + (a * r2 + r)
  {
    calc {
      n;
      a * (b * q2 + r2) + r;
      { assert a * (b * q2 + r2) == a * (b * q2) + a * r2; }
      a * (b * q2) + a * r2 + r;
      { assert a * (b * q2) == q2 * (a * b); }
      q2 * (a * b) + (a * r2 + r);
    }
  }

  lemma RemainderBelow(a: nat, b: nat, r2: nat, r: nat)
    requires r2 < b && r < a
    ensures a * r2 + r < a * b
  {
    MulMono(r2, b - 1, a);
    assert a * (b - 1) == a * b - a;
  }

  lemma MulMono(x: nat, y: nat, a: nat)
    requires x <= y
    ensures a * x <= a * y
  {
  }

  /** Adding a multiple of `m` shifts the quotient and keeps the remainder. */
  lemma DivAddMul(q: nat, m: nat, c: nat)
    requires m > 0
    ensures (q * m + c) / m == q + c / m
    ensures (q * m + c) % m == c % m
  {
    assert q * m + c == (q + c / m) * m + c % m;
    DivModOf(q + c / m, m, c % m);
  }

  lemma DivOne(x: nat)
    ensures x / 1 * 1 == x
  {
  }

  lemma HalfBelow(x: nat, h: nat)
    requires x < 2 * h
    ensures x / 2 < h
  {
  }

  lemma SmallMod(x: nat, a: nat)
    requires x < a
    ensures x % a == x
  {
  }

  lemma SmallDiv(x: nat, a: nat)
    requires a > 0 && x < a
    ensures x / a == 0
  {
  }
}
