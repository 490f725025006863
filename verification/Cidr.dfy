/** The prefix arithmetic of the hotspot subnet. */
module Cidr {
  import opened Addresses
  import opened Bytes

  const U32_MAX: U32 := 0xFFFF_FFFF

  // ---------------------------------------------------------------------------
  // Bit operations, one binary digit at a time
  // ---------------------------------------------------------------------------

  function Pow2(n: nat): (p: nat)
    ensures p > 0
  {
    if n == 0 then 1 else 2 * Pow2(n - 1)
  }

  function BitAnd(x: nat, y: nat): nat {
    if x == 0 || y == 0 then 0 else (if x % 2 == 1 && y % 2 == 1 then 1 else 0) + 2 * BitAnd(x / 2, y / 2)
  }

  function BitOr(x: nat, y: nat): nat {
    if x == 0 then y else if y == 0 then x
    else (if x % 2 == 0 && y % 2 == 0 then 0 else 1) + 2 * BitOr(x / 2, y / 2)
  }

  function Not(x: U32): U32 {
    U32_MAX - x
  }

  /** `u32::MAX << count`: bits shifted past position 31 are lost. */
  function ShiftLeftMax(count: nat): U32 {
    U32_MAX * Pow2(count) % 0x1_0000_0000
  }

  // ---------------------------------------------------------------------------
  // Subnets
  // ---------------------------------------------------------------------------

  datatype Cidr = Cidr(address: Ipv4, prefixLen: Byte)

  function Clamp(prefixLen: Byte): nat {
    if prefixLen < 32 then prefixLen else 32
  }

  function Mask(prefixLen: Byte): U32 {
    var p := Clamp(prefixLen);
    if p == 0 then 0 else ShiftLeftMax(32 - p)
  }

  predicate Contains(subnet: Cidr, ip: Ipv4) {
    BitAnd(ToU32(subnet.address), Mask(subnet.prefixLen)) == BitAnd(ToU32(ip), Mask(subnet.prefixLen))
  }

  function NetworkAddress(ip: Ipv4, prefixLen: Byte): Ipv4 {
    BitAndBound(ToU32(ip), Mask(prefixLen));
    FromU32(BitAnd(ToU32(ip), Mask(prefixLen)))
  }

  /** The two ends of the address interval the capture filter is built from. */
  function CidrBounds(subnet: Cidr): (Ipv4, Ipv4) {
    var mask := Mask(subnet.prefixLen);
    MaskClearsLowBits(ToU32(subnet.address), subnet.prefixLen, Pow2(32 - Clamp(subnet.prefixLen)));
    var low := BitAnd(ToU32(subnet.address), mask);
    (FromU32(low), FromU32(BitOr(low, Not(mask))))
  }

  // ---------------------------------------------------------------------------
  // What the masks compute
  // ---------------------------------------------------------------------------

  lemma {:induction false} BitAndBound(x: nat, y: nat)
    ensures BitAnd(x, y) <= x
  {
    if x != 0 && y != 0 {
      BitAndBound(x / 2, y / 2);
    }
  }

  lemma ModDouble(x: nat, m: nat)
    requires m > 0
    ensures x % (2 * m) == 2 * ((x / 2) % m) + x % 2
  {
    var q, r := (x / 2) / m, (x / 2) % m;
    assert x / 2 == q * m + r;
    assert x == q * (2 * m) + (2 * r + x % 2);
    DivModUnique(x, 2 * m, q, 2 * r + x % 2);
  }

  lemma MulMonotone(x: int, y: int, m: nat)
    requires x <= y
    ensures x * m <= y * m
  {
  }

  lemma DivModUnique(x: nat, m: nat, q: nat, r: nat)
    requires r < m
    requires x == q * m + r
    ensures x / m == q && x % m == r
  {
    var q', r' := x / m, x % m;
    assert x == q' * m + r';
    if q' != q {
      var lo, hi := if q' < q then q' else q, if q' < q then q else q';
      MulMonotone(lo + 1, hi, m);
    }
  }

  /** `low` is `x` rounded down to a multiple of `m`; it and the `m - 1` numbers above it stay below `c * m`. */
  lemma RoundDown(x: nat, m: nat, c: nat)
    requires m > 0 && x < c * m
    ensures var low := x - x % m;
            && low >= 0
            && low % m == 0
            && low + m <= c * m
  {
    var q := x / m;
    assert x == q * m + x % m;
    DivModUnique(q * m, m, q, 0);
    if c <= q {
      MulMonotone(c, q, m);
    } else {
      MulMonotone(q + 1, c, m);
      assert (q + 1) * m == q * m + m;
    }
  }

  /** The numbers rounding down to the same multiple of `m` as `x` are an interval. */
  lemma RoundDownInterval(x: nat, y: nat, m: nat)
    requires m > 0
    ensures var low := x - x % m;
            y - y % m == low <==> low <= y < low + m
  {
    var q := x / m;
    assert x == q * m + x % m;
    if q * m <= y < q * m + m {
      DivModUnique(y, m, q, y - q * m);
    }
  }

  lemma {:induction false} Pow2Monotone(k: nat, w: nat)
    requires k <= w
    ensures Pow2(k) <= Pow2(w)
  {
    if k < w {
      Pow2Monotone(k, w - 1);
    }
  }

  /** The lowest digit of a conjunction, split off. */
  lemma AndDigit(x: nat, y: nat, bit: nat)
    requires bit <= 1
    ensures BitAnd(x, 2 * y + bit) == (if bit == 1 then x % 2 else 0) + 2 * BitAnd(x / 2, y)
  {
    var z := 2 * y + bit;
    assert z / 2 == y && z % 2 == bit;
  }

  /** `x` with its lowest `k` digits set to zero. */
  function DropDigits(x: nat, k: nat): nat {
    if k == 0 then x else 2 * DropDigits(x / 2, k - 1)
  }

  lemma {:induction false} DropDigitsRoundsDown(x: nat, k: nat)
    ensures DropDigits(x, k) == x - x % Pow2(k)
  {
    if k > 0 {
      DropDigitsRoundsDown(x / 2, k - 1);
      ModDouble(x, Pow2(k - 1));
    }
  }

  /** Masking with the ones from bit `k` up to bit `w` clears the lowest `k` digits. */
  lemma {:induction false} AndHighOnes(x: nat, k: nat, w: nat)
    requires k <= w && x < Pow2(w)
    ensures Pow2(k) <= Pow2(w)
    ensures BitAnd(x, Pow2(w) - Pow2(k)) == DropDigits(x, k)
  {
    hide BitAnd;
    Pow2Monotone(k, w);
    if w == 0 {
      BitAndBound(x, 0);
    } else if k == 0 {
      AndHighOnes(x / 2, 0, w - 1);
      assert Pow2(w) - 1 == 2 * (Pow2(w - 1) - 1) + 1;
      AndDigit(x, Pow2(w - 1) - 1, 1);
    } else {
      AndHighOnes(x / 2, k - 1, w - 1);
      assert Pow2(w) - Pow2(k) == 2 * (Pow2(w - 1) - Pow2(k - 1));
      AndDigit(x, Pow2(w - 1) - Pow2(k - 1), 0);
    }
  }

  /** Setting the low `k` bits of a multiple of `2^k` adds them. */
  lemma {:induction false} OrLowOnes(x: nat, k: nat)
    requires x % Pow2(k) == 0
    ensures BitOr(x, Pow2(k) - 1) == x + Pow2(k) - 1
  {
    if k > 0 {
      ModDouble(x, Pow2(k - 1));
      OrLowOnes(x / 2, k - 1);
    }
  }

  lemma Pow2Of32()
    ensures Pow2(32) == 0x1_0000_0000
  {
    assert Pow2(8) == 0x100;
    assert Pow2(16) == 0x1_0000;
    assert Pow2(24) == 0x100_0000;
  }

  /** The prefix mask is the ones from bit `32 - p` up. */
  lemma MaskIsHighOnes(prefixLen: Byte)
    ensures Mask(prefixLen) == 0x1_0000_0000 - Pow2(32 - Clamp(prefixLen))
  {
    var k := 32 - Clamp(prefixLen);
    Pow2Of32();
    if k < 32 {
      Pow2Monotone(k, 32);
      var m := Pow2(k);
      assert U32_MAX * m == (m - 1) * 0x1_0000_0000 + (0x1_0000_0000 - m);
      DivModUnique(U32_MAX * m, 0x1_0000_0000, m - 1, 0x1_0000_0000 - m);
    }
  }

  /** The network part of an address, and the interval it opens, stay inside 32 bits. */
  lemma MaskClearsLowBits(x: U32, prefixLen: Byte, m: nat)
    requires m == Pow2(32 - Clamp(prefixLen))
    ensures var low := x - x % m;
            && low >= 0
            && BitAnd(x, Mask(prefixLen)) == low
            && BitOr(low, Not(Mask(prefixLen))) == low + (m - 1) <= U32_MAX
            && low % m == 0
  {
    hide Mask, BitAnd, BitOr, Pow2, DropDigits;
    var k := 32 - Clamp(prefixLen);
    Pow2Of32();
    MaskIsHighOnes(prefixLen);
    AndHighOnes(x, k, 32);
    DropDigitsRoundsDown(x, k);
    Pow2Split(k, 32);
    RoundDown(x, m, Pow2(32 - k));
    OrLowOnes(x - x % m, k);
  }

  lemma {:induction false} Pow2Split(k: nat, w: nat)
    requires k <= w
    ensures Pow2(w) == Pow2(w - k) * Pow2(k)
  {
    if k > 0 {
      Pow2Split(k - 1, w - 1);
    }
  }

  // ---------------------------------------------------------------------------
  // Main results
  // ---------------------------------------------------------------------------

  /** The number of addresses in a subnet of that prefix; beyond 32 a prefix means a single address. */
  function Size(prefixLen: nat): (n: nat)
    ensures n > 0
  {
    if prefixLen <= 32 then Pow2(32 - prefixLen) else 1
  }

  /** The two addresses agree in their first `prefixLen` bits: they are in the same aligned block. */
  predicate SameBlock(x: Ipv4, y: Ipv4, prefixLen: nat) {
    ToU32(x) / Size(prefixLen) == ToU32(y) / Size(prefixLen)
  }

  lemma SizeIs(prefixLen: Byte)
    ensures Size(prefixLen) == Pow2(32 - Clamp(prefixLen))
  {
  }

  /** A number rounded down to a multiple, by its quotient. */
  lemma RoundDownByQuotient(x: nat, y: nat, m: nat)
    requires m > 0
    ensures x - x % m == y - y % m <==> x / m == y / m
  {
    assert x == x / m * m + x % m && y == y / m * m + y % m;
    if x - x % m == y - y % m {
      assert x / m * m == y / m * m;
      DivModUnique(x / m * m, m, x / m, 0);
      DivModUnique(y / m * m, m, y / m, 0);
    }
  }

  /** The mask test compares as many leading bits as the prefix says: a /24 compares 24, a /32 and anything
      longer compares whole addresses. */
  lemma ContainsIff(subnet: Cidr, ip: Ipv4)
    ensures Contains(subnet, ip) <==> SameBlock(subnet.address, ip, subnet.prefixLen)
    ensures subnet.prefixLen >= 32 ==> (Contains(subnet, ip) <==> ip == subnet.address)
  {
    var m, x, y := Size(subnet.prefixLen), ToU32(subnet.address), ToU32(ip);
    SizeIs(subnet.prefixLen);
    MaskClearsLowBits(x, subnet.prefixLen, m);
    MaskClearsLowBits(y, subnet.prefixLen, m);
    RoundDownByQuotient(x, y, m);
    if subnet.prefixLen >= 32 && x == y {
      ToU32Injective(subnet.address, ip);
    }
  }

  /** `network_address` rounds down to a multiple of the subnet's size. */
  lemma NetworkAddressRoundsDown(ip: Ipv4, prefixLen: Byte)
    ensures var n := ToU32(NetworkAddress(ip, prefixLen));
            n % Size(prefixLen) == 0 && n <= ToU32(ip) < n + Size(prefixLen)
  {
    SizeIs(prefixLen);
    MaskClearsLowBits(ToU32(ip), prefixLen, Size(prefixLen));
  }

  /** The capture interval is the subnet's whole block. */
  lemma CidrBoundsAreBlock(subnet: Cidr)
    ensures var (low, high) := CidrBounds(subnet);
            && ToU32(low) % Size(subnet.prefixLen) == 0
            && ToU32(high) == ToU32(low) + (Size(subnet.prefixLen) - 1)
            && ToU32(low) <= ToU32(subnet.address) <= ToU32(high)
  {
    SizeIs(subnet.prefixLen);
    MaskClearsLowBits(ToU32(subnet.address), subnet.prefixLen, Size(subnet.prefixLen));
  }

  /** The classifier's mask test and the capture filter's interval accept exactly the same addresses. */
  lemma MaskAgreesWithInterval(subnet: Cidr, ip: Ipv4)
    ensures var (low, high) := CidrBounds(subnet);
            Contains(subnet, ip) <==> ToU32(low) <= ToU32(ip) <= ToU32(high)
  {
    var m := Pow2(32 - Clamp(subnet.prefixLen));
    MaskClearsLowBits(ToU32(subnet.address), subnet.prefixLen, m);
    MaskClearsLowBits(ToU32(ip), subnet.prefixLen, m);
    RoundDownInterval(ToU32(subnet.address), ToU32(ip), m);
  }

  lemma NetworkAddressIsAligned(ip: Ipv4, prefixLen: Byte)
    ensures BitAnd(ToU32(NetworkAddress(ip, prefixLen)), Mask(prefixLen)) == ToU32(NetworkAddress(ip, prefixLen))
  {
    hide Mask, BitAnd, BitOr, Pow2, ToU32;
    var m := Pow2(32 - Clamp(prefixLen));
    MaskClearsLowBits(ToU32(ip), prefixLen, m);
    MaskClearsLowBits(ToU32(NetworkAddress(ip, prefixLen)), prefixLen, m);
  }

  /** A subnet built from a gateway address contains exactly the addresses that share the gateway's
      network address; the gateway is one of them, and the subnet's own address opens its interval. */
  lemma NetworkAddressSubnet(gateway: Ipv4, prefixLen: Byte, ip: Ipv4)
    ensures var subnet := Cidr(NetworkAddress(gateway, prefixLen), prefixLen);
            && Contains(subnet, gateway)
            && (Contains(subnet, ip) <==> NetworkAddress(ip, prefixLen) == NetworkAddress(gateway, prefixLen))
            && CidrBounds(subnet).0 == subnet.address
  {
    var network := NetworkAddress(gateway, prefixLen);
    NetworkAddressIsAligned(gateway, prefixLen);
    assert ToU32(network) == BitAnd(ToU32(gateway), Mask(prefixLen));
    assert ToU32(NetworkAddress(ip, prefixLen)) == BitAnd(ToU32(ip), Mask(prefixLen));
    ToU32Injective(CidrBounds(Cidr(network, prefixLen)).0, network);
  }
}
