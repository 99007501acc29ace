/** Canonical virtual addresses: `VirtAddr` of v1/src/virt_addr.rs and of
    v1/src/xxx/addr.rs. x86-64 uses 48-bit virtual addresses, and bits 48
    to 63 of a canonical address are copies of bit 47. */
module VirtAddrs {
  import opened Base
  import opened Bits
  import Pages

  const TWO_47: nat := 0x8000_0000_0000
  const TWO_48: nat := 0x1_0000_0000_0000
  const TWO_63: nat := 0x8000_0000_0000_0000

  /** The sixteen copies of bit 47 in bits 48 to 63, as a number. */
  const UPPER_ONES: nat := 0xffff

  datatype VirtAddr = VirtAddr(value: u64)

  /** `((addr << 16) as i64 >> 16) as u64`: the shift drops bits 48 to 63,
      the cast to `i64` reads bit 63 (formerly bit 47) as the sign, the
      arithmetic shift copies the sign back down, and the cast to `u64`
      wraps a negative value to 64 bits. `>>` on `i64` rounds towards minus
      infinity, as Dafny's `/` does for a positive divisor. */
  function SignExtend(addr: u64): (r: u64)
    ensures r % TWO_48 == addr % TWO_48
    ensures r / TWO_48 == if Bit(addr, 47) then UPPER_ONES else 0
  {
    var shifted := (addr * TWO_16) % TWO_64;
    var signed: int := if shifted >= TWO_63 then shifted - TWO_64 else shifted;
    SignExtendSpec(addr, shifted, signed);
    (signed / TWO_16) % TWO_64
  }

  lemma SignExtendSpec(addr: u64, shifted: nat, signed: int)
    requires shifted == (addr * TWO_16) % TWO_64
    requires signed == if shifted >= TWO_63 then shifted - TWO_64 else shifted
    ensures var r := (signed / TWO_16) % TWO_64;
            r % TWO_48 == addr % TWO_48 &&
            r / TWO_48 == if Bit(addr, 47) then UPPER_ONES else 0
  {
    var l := addr % TWO_48;
    var h := addr / TWO_48;
    assert addr * TWO_16 == h * TWO_64 + l * TWO_16;
    DivModOf(h, TWO_64, l * TWO_16);
    assert shifted == l * TWO_16;
    Bit47(addr);
    var r := (signed / TWO_16) % TWO_64;
    if l >= TWO_47 {
      assert signed == (l - TWO_48) * TWO_16;
      assert signed / TWO_16 == l - TWO_48;
      assert r == l + UPPER_ONES * TWO_48;
      DivModOf(UPPER_ONES, TWO_48, l);
    } else {
      assert signed / TWO_16 == l;
      assert r == l;
    }
  }

  /** Bit 47 is set exactly when the low 48 bits reach `2^47`. */
  lemma Bit47(addr: nat)
    ensures Bit(addr, 47) <==> addr % TWO_48 >= TWO_47
  {
    Pow2Table();
    assert Pow2(47) == TWO_47 by { assert Pow2(48) == 2 * Pow2(47); }
    BitOfDivPow2(addr, 47, 0);
    ShrIsDiv(addr, 47);
    var q := addr / TWO_47;
    DivDiv(addr, TWO_47, 2);
    assert addr == q * TWO_47 + addr % TWO_47;
    assert q == 2 * (q / 2) + q % 2;
    assert addr == (q / 2) * TWO_48 + ((q % 2) * TWO_47 + addr % TWO_47);
    DivModOf(q / 2, TWO_48, (q % 2) * TWO_47 + addr % TWO_47);
  }

  /** The canonical-form test the page code uses, in terms of bit 47: the
      top sixteen bits are all clear or all set, as bit 47 is. */
  lemma CanonicalByBits(addr: u64)
    ensures Pages.Canonical(addr) <==>
            addr / TWO_48 == if Bit(addr, 47) then UPPER_ONES else 0
  {
    Bit47(addr);
    DivModOf(addr / TWO_48, TWO_48, addr % TWO_48);
  }

  /** xxx `VirtAddr::new_truncate`: sign-extend bit 47 into bits 48 to 63,
      whatever those held before. */
  function NewTruncate(addr: u64): (r: VirtAddr)
    ensures r.value % TWO_48 == addr % TWO_48
    ensures r.value / TWO_48 == if Bit(addr, 47) then UPPER_ONES else 0
    ensures Pages.Canonical(r.value)
  {
    var v := SignExtend(addr);
    Bit47(addr);
    Bit47(v);
    CanonicalByBits(v);
    VirtAddr(v)
  }

  /** Truncating twice is truncating once. */
  lemma NewTruncateIdempotent(addr: u64)
    ensures NewTruncate(NewTruncate(addr).value) == NewTruncate(addr)
  {
    var v := NewTruncate(addr).value;
    var w := NewTruncate(v).value;
    Bit47(addr);
    Bit47(v);
    DivModOf(v / TWO_48, TWO_48, v % TWO_48);
    DivModOf(w / TWO_48, TWO_48, w % TWO_48);
  }

  /** An address is left alone by `new_truncate` exactly when it is
      canonical. */
  lemma NewTruncateFixesCanonical(addr: u64)
    ensures NewTruncate(addr).value == addr <==> Pages.Canonical(addr)
  {
    CanonicalByBits(addr);
    var v := NewTruncate(addr).value;
    DivModOf(v / TWO_48, TWO_48, v % TWO_48);
    DivModOf(addr / TWO_48, TWO_48, addr % TWO_48);
  }

  /** xxx `VirtAddr::try_new`. */
  function TryNew(addr: u64): (r: Option<VirtAddr>)
    ensures r.Some? <==> Pages.Canonical(addr)
    ensures r.Some? ==> r.value.value == addr
  {
    NewTruncateFixesCanonical(addr);
    var v := NewTruncate(addr);
    if v.value == addr then Some(v) else None
  }

  /** `try_new` accepts exactly the fixed points of `new_truncate`. */
  lemma TryNewIffTruncateFixes(addr: u64)
    ensures TryNew(addr).Some? <==> NewTruncate(addr).value == addr
  {
    NewTruncateFixesCanonical(addr);
  }

  const NOT_SIGN_EXTENDED := "virtual address must be sign extended in bits 48 to 64"

  /** xxx `VirtAddr::new`: panics on a non-canonical address. */
  function New(addr: u64): (r: Result<VirtAddr, string>)
    ensures r.Ok? <==> Pages.Canonical(addr)
    ensures r.Ok? ==> r.value.value == addr
    ensures r.Err? ==> r.error == NOT_SIGN_EXTENDED
  {
    match TryNew(addr)
    case Some(v) => Ok(v)
    case None => Err(NOT_SIGN_EXTENDED)
  }

  /** v1/src/virt_addr.rs `VirtAddr::new`, which inlines the truncation. */
  function NewV1(addr: u64): (r: Result<VirtAddr, string>)
    ensures r.Ok? <==> Pages.Canonical(addr)
    ensures r.Ok? ==> r.value.value == addr
  {
    NewTruncateFixesCanonical(addr);
    var truncated := SignExtend(addr);
    if truncated == addr then Ok(VirtAddr(truncated)) else Err(NOT_SIGN_EXTENDED)
  }

  /** The two `new`s are the same function. */
  lemma NewAgree(addr: u64)
    ensures NewV1(addr) == New(addr)
  {
    NewTruncateFixesCanonical(addr);
  }

  /** Every address of the lower half is accepted. */
  lemma LowerHalfAccepted(addr: u64)
    requires addr < TWO_47
    ensures New(addr) == Ok(VirtAddr(addr)) && NewV1(addr) == Ok(VirtAddr(addr))
  {
  }

  /** `VirtAddr::zero`. */
  function Zero(): (r: VirtAddr)
    ensures New(r.value) == Ok(r)
    ensures r.value == 0
  {
    VirtAddr(0)
  }
}
