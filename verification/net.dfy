/** IPv4 addresses, netmasks and prefix sets, reduced to the 4-byte values the DHCP handlers
    see once an address has been unmapped from its 16-byte form. */
module Net {

  /** One octet. Go's `byte` arithmetic wraps modulo 256, which is exactly `bv8` arithmetic. */
  type Byte = bv8

  /** A `net.IP` / `netip.Addr` holding an IPv4 address, or a 4-byte `net.IPMask`. */
  type IPv4 = s: seq<Byte> | |s| == 4 witness [0, 0, 0, 0]

  /** `net.IPv4zero`, the unspecified address 0.0.0.0. */
  const Unspecified: IPv4 := [0, 0, 0, 0]

  type PrefixLen = n: int | 0 <= n <= 32

  /** Bit `j` of a byte, counting from the most significant bit (j = 0). */
  predicate ByteBit(x: Byte, j: nat)
    requires j < 8
  {
    x & (0x80 >> j) != 0
  }

  /** Bit `i` of an address in network order: bit 0 is the top bit of the first octet. */
  predicate AddrBit(a: IPv4, i: nat)
    requires i < 32
  {
    ByteBit(a[i / 8], i % 8)
  }

  /** `net.IP.Mask`: the address with every bit outside the mask cleared. */
  function MaskAddr(ip: IPv4, m: IPv4): (r: IPv4)
    ensures forall i :: 0 <= i < 32 ==> (AddrBit(r, i) <==> AddrBit(ip, i) && AddrBit(m, i))
  {
    var r: IPv4 := seq(4, k requires 0 <= k < 4 => ip[k] & m[k]);
    forall i | 0 <= i < 32
      ensures AddrBit(r, i) <==> AddrBit(ip, i) && AddrBit(m, i)
    {
      BitAndBit(ip[i / 8], m[i / 8], i % 8);
    }
    r
  }

  lemma BitAndBit(a: Byte, b: Byte, j: nat)
    requires j < 8
    ensures ByteBit(a & b, j) <==> ByteBit(a, j) && ByteBit(b, j)
  {
  }

  /** One octet of `net.CIDRMask`: `^byte(0xff >> n)`, the top `n` bits set. */
  function MaskOctet(n: nat): Byte
    requires n <= 8
  {
    !(0xff >> n)
  }

  lemma MaskOctetBit(n: nat, j: nat)
    requires n <= 8 && j < 8
    ensures ByteBit(MaskOctet(n), j) <==> j < n
  {
  }

  /** `net.CIDRMask(bits, 32)`: whole 0xff octets while at least 8 ones remain, then one
      partial octet, then zero octets. */
  function CIDRMask(bits: PrefixLen): (m: IPv4)
    ensures forall i :: 0 <= i < 32 ==> (AddrBit(m, i) <==> i < bits)
  {
    var m: IPv4 := seq(4, k requires 0 <= k < 4 => OctetOnes(bits, k));
    forall i | 0 <= i < 32
      ensures AddrBit(m, i) <==> i < bits
    {
      var k := i / 8;
      var n := if bits - 8 * k >= 8 then 8 else if bits - 8 * k <= 0 then 0 else bits - 8 * k;
      assert m[k] == MaskOctet(n);
      MaskOctetBit(n, i % 8);
    }
    m
  }

  /** The octet `k` of a `bits`-long mask. */
  function OctetOnes(bits: PrefixLen, k: nat): Byte
    requires k < 4
  {
    if bits - 8 * k >= 8 then MaskOctet(8)
    else if bits - 8 * k <= 0 then MaskOctet(0)
    else MaskOctet(bits - 8 * k)
  }

  /** A `netip.Prefix` of the IPv4 family. */
  datatype Prefix = Prefix(addr: IPv4, bits: PrefixLen)

  /** `netip.Prefix.Contains`: the address agrees with the prefix on its first `bits` bits. */
  predicate PrefixContains(p: Prefix, ip: IPv4)
    ensures ip == p.addr ==> PrefixContains(p, ip)
  {
    MaskAddr(ip, CIDRMask(p.bits)) == MaskAddr(p.addr, CIDRMask(p.bits))
  }

  /** A `netipx.IPSet` given by its prefix list, in the order `Prefixes()` returns it. */
  datatype IPSet = IPSet(prefixes: seq<Prefix>)

  /** `netipx.IPSet.Contains`: some prefix of the set holds the address. A set that holds an
      address has a first prefix, which is what makes `Prefixes()[0]` safe in the handler. */
  predicate Contains(set_: IPSet, ip: IPv4)
    ensures Contains(set_, ip) ==> |set_.prefixes| > 0
    ensures forall i :: 0 <= i < |set_.prefixes| && set_.prefixes[i].addr == ip ==> Contains(set_, ip)
  {
    exists i :: 0 <= i < |set_.prefixes| && PrefixContains(set_.prefixes[i], ip)
  }

  /** `Prefixes()[0].Bits()`: defined only for a set with a prefix, which every set that
      contains an address has. */
  function FirstBits(set_: IPSet): PrefixLen
    requires |set_.prefixes| > 0
  {
    set_.prefixes[0].bits
  }

  /** Agreement of two addresses on every bit the mask selects. */
  lemma PrefixContainsBits(p: Prefix, ip: IPv4)
    ensures PrefixContains(p, ip) <==> forall i :: 0 <= i < p.bits ==> (AddrBit(ip, i) <==> AddrBit(p.addr, i))
  {
    var m := CIDRMask(p.bits);
    var x := MaskAddr(ip, m);
    var y := MaskAddr(p.addr, m);
    if forall i :: 0 <= i < p.bits ==> (AddrBit(ip, i) <==> AddrBit(p.addr, i)) {
      assert forall i :: 0 <= i < 32 ==> (AddrBit(x, i) <==> AddrBit(y, i));
      BitsDetermineAddr(x, y);
    }
  }

  /** Two addresses with the same 32 bits are the same address. */
  lemma BitsDetermineAddr(x: IPv4, y: IPv4)
    requires forall i :: 0 <= i < 32 ==> (AddrBit(x, i) <==> AddrBit(y, i))
    ensures x == y
  {
    forall k | 0 <= k < 4
      ensures x[k] == y[k]
    {
      assert forall j :: 0 <= j < 8 ==> (ByteBit(x[k], j) <==> ByteBit(y[k], j)) by {
        forall j | 0 <= j < 8
          ensures ByteBit(x[k], j) <==> ByteBit(y[k], j)
        {
          assert AddrBit(x, 8 * k + j) <==> AddrBit(y, 8 * k + j);
          assert (8 * k + j) / 8 == k && (8 * k + j) % 8 == j;
        }
      }
      BitsDetermineByte(x[k], y[k]);
    }
  }

  lemma BitsDetermineByte(a: Byte, b: Byte)
    requires forall j :: 0 <= j < 8 ==> (ByteBit(a, j) <==> ByteBit(b, j))
    ensures a == b
  {
    assert ByteBit(a, 0) <==> ByteBit(b, 0);
    assert ByteBit(a, 1) <==> ByteBit(b, 1);
    assert ByteBit(a, 2) <==> ByteBit(b, 2);
    assert ByteBit(a, 3) <==> ByteBit(b, 3);
    assert ByteBit(a, 4) <==> ByteBit(b, 4);
    assert ByteBit(a, 5) <==> ByteBit(b, 5);
    assert ByteBit(a, 6) <==> ByteBit(b, 6);
    assert ByteBit(a, 7) <==> ByteBit(b, 7);
  }
}
