/** IPv4 network values as netaddr's `IPNetwork` gives them to the IPAM models:
    an address with a prefix length, equality of such values, containment, and
    the masking that turns a host address into the block that contains it. */
module Addressing {

  /** Number of bits in an IPv4 address. */
  const WIDTH: nat := 32

  /** Number of IPv4 addresses, 2^32. */
  const ADDRESS_SPACE: nat := 0x1_0000_0000

  function Pow2(n: nat): (r: nat)
    ensures r >= 1
  {
    if n == 0 then 1 else 2 * Pow2(n - 1)
  }

  /** An address (as an unsigned integer) and a prefix length. Two values are
      equal exactly when both fields are equal, as for `IPNetwork`. */
  datatype Net = Net(addr: nat, len: nat)

  /** A well-formed IPv4 network: a 32-bit address and a length of at most 32. */
  type Cidr = n: Net | n.addr < ADDRESS_SPACE && n.len <= WIDTH witness Net(0, 0)

  /** Number of addresses in a block of prefix length `len`. */
  function BlockSize(len: nat): (r: nat)
    requires len <= WIDTH
    ensures r >= 1
  {
    Pow2(WIDTH - len)
  }

  /** The network that contains `n` at its own length: the host bits are
      cleared and the length is kept, so 192.0.2.1/24 gives 192.0.2.0/24.
      The result starts a block (its address is a multiple of the block
      size) and that block holds `n`'s address. */
  function NetworkOf(n: Cidr): (r: Cidr)
    ensures r.len == n.len
    ensures r.addr % BlockSize(n.len) == 0
    ensures r.addr <= n.addr < r.addr + BlockSize(n.len)
  {
    Net(AlignDown(n.addr, BlockSize(n.len)), n.len)
  }

  /** `x` rounded down to a multiple of `b`: the start of the block of size
      `b` that holds `x`. */
  function AlignDown(x: nat, b: nat): (m: nat)
    requires b > 0
    ensures m % b == 0
    ensures m <= x < m + b
  {
    RoundDown(x, b);
    x - x % b
  }

  /** `n` names a block by its base address: no host bits are set. */
  predicate IsBaseAddress(n: Cidr) {
    n.addr % BlockSize(n.len) == 0
  }

  /** `outer` contains `inner`: it is no longer than `inner`, it starts a
      block, and that block holds `inner`'s address. This agrees with the
      netmask test: `inner`'s address with the low `32 - outer.len` bits
      cleared is `outer`'s address. */
  predicate Contains(outer: Cidr, inner: Cidr)
    ensures Contains(outer, inner) <==>
      outer.len <= inner.len && ClearHostBits(inner.addr, WIDTH - outer.len) == outer.addr
  {
    BlockRangeIffMasked(outer, inner.addr);
    outer.len <= inner.len && IsBaseAddress(outer) &&
    outer.addr <= inner.addr < outer.addr + BlockSize(outer.len)
  }

  /** Bit-level reference for the mask: shift the `k` low bits out and zeros
      back in, one bit at a time. */
  function ClearHostBits(a: nat, k: nat): nat {
    if k == 0 then a else 2 * ClearHostBits(a / 2, k - 1)
  }

  lemma MulAtLeast(c: nat, b: nat)
    requires c >= 1
    ensures c * b >= b
  {
  }

  /** If `x` lies in the `k`-th block of size `b`, then `x / b` is `k`. */
  lemma DivUnique(x: nat, b: nat, k: nat)
    requires b > 0
    requires k * b <= x < k * b + b
    ensures x / b == k
    ensures x % b == x - k * b
  {
    var q, r := x / b, x % b;
    assert x == q * b + r;
    if q < k {
      MulAtLeast(k - q, b);
      assert false;
    } else if q > k {
      MulAtLeast(q - k, b);
      assert false;
    }
  }

  /** Rounding down to a multiple of `b` lands on the start of the block that
      holds `x`. */
  lemma RoundDown(x: nat, b: nat)
    requires b > 0
    ensures (x - x % b) % b == 0
    ensures x - x % b <= x < x - x % b + b
  {
    var q := x / b;
    assert x - x % b == q * b;
    DivUnique(q * b, b, q);
  }

  /** Block addresses are unique: any multiple of the block size whose block
      holds `n`'s address is the address of `NetworkOf(n)`. */
  lemma NetworkOfUnique(n: Cidr, m: nat)
    requires m % BlockSize(n.len) == 0
    requires m <= n.addr < m + BlockSize(n.len)
    ensures m == NetworkOf(n).addr
  {
    var b := BlockSize(n.len);
    var k := m / b;
    assert m == k * b;
    DivUnique(n.addr, b, k);
  }

  /** Masking is idempotent: a network is its own network. */
  lemma NetworkOfIdempotent(n: Cidr)
    ensures NetworkOf(NetworkOf(n)) == NetworkOf(n)
  {
  }

  /** The derived network contains the address it was derived from, and it is
      the only network of that length that does. */
  lemma NetworkOfIsContainingBlock(n: Cidr, p: Cidr)
    ensures Contains(NetworkOf(n), n)
    ensures Contains(p, n) && p.len == n.len <==> p == NetworkOf(n)
  {
    if Contains(p, n) && p.len == n.len {
      NetworkOfUnique(n, p.addr);
    }
  }

  /** A network names a block by its base address exactly when masking
      leaves it unchanged. */
  lemma IsBaseAddressIff(n: Cidr)
    ensures IsBaseAddress(n) <==> NetworkOf(n) == n
  {
    if IsBaseAddress(n) {
      NetworkOfUnique(n, n.addr);
    }
  }

  /** Two host addresses of one length share their network exactly when the
      second lies in the block of the first. */
  lemma SameNetworkIff(a: Cidr, b: Cidr)
    ensures NetworkOf(a) == NetworkOf(b) <==>
      a.len == b.len && NetworkOf(a).addr <= b.addr < NetworkOf(a).addr + BlockSize(a.len)
  {
    if a.len == b.len && NetworkOf(a).addr <= b.addr < NetworkOf(a).addr + BlockSize(a.len) {
      NetworkOfUnique(b, NetworkOf(a).addr);
    }
  }

  /** Splitting off the low bit, then the next `p`-sized block: `a` is
      `q` blocks of size `2p` plus twice the remainder of `a / 2` plus the
      low bit. */
  lemma HalveSplit(a: nat, p: nat)
    requires p > 0
    ensures a == ((a / 2) / p) * (2 * p) + (2 * ((a / 2) % p) + a % 2)
    ensures 2 * ((a / 2) % p) + a % 2 < 2 * p
  {
    var h, q := a / 2, (a / 2) / p;
    assert a == 2 * h + a % 2;
    assert h == q * p + h % p;
    assert 2 * h == q * (2 * p) + 2 * (h % p);
  }

  /** `ClearHostBits(a, k)` is `a` rounded down to a multiple of 2^k. */
  lemma {:induction false} ClearHostBitsIsRoundDown(a: nat, k: nat)
    ensures ClearHostBits(a, k) == a - a % Pow2(k)
  {
    if k > 0 {
      var p := Pow2(k - 1);
      var q, r := (a / 2) / p, (a / 2) % p;
      ClearHostBitsIsRoundDown(a / 2, k - 1);
      HalveSplit(a, p);
      DivUnique(a, 2 * p, q);
      assert Pow2(k) == 2 * p;
    }
  }

  /** The network computed arithmetically is the bit-level mask of the host
      address: the low `32 - len` bits are cleared. */
  lemma NetworkOfClearsHostBits(n: Cidr)
    ensures NetworkOf(n).addr == ClearHostBits(n.addr, WIDTH - n.len)
  {
    ClearHostBitsIsRoundDown(n.addr, WIDTH - n.len);
  }

  /** A base address whose block holds `x` is exactly `x` with the host bits
      of `outer`'s length cleared. */
  lemma BlockRangeIffMasked(outer: Cidr, x: nat)
    requires x < ADDRESS_SPACE
    ensures (IsBaseAddress(outer) && outer.addr <= x < outer.addr + BlockSize(outer.len)) <==>
      ClearHostBits(x, WIDTH - outer.len) == outer.addr
  {
    var m: Cidr := Net(x, outer.len);
    NetworkOfClearsHostBits(m);
    if IsBaseAddress(outer) && outer.addr <= x < outer.addr + BlockSize(outer.len) {
      NetworkOfUnique(m, outer.addr);
    }
  }
}
