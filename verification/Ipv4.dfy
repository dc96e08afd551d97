/** IPv4 addresses as 32-bit unsigned numbers: pkg/ipam/ip.go and the arithmetic of pkg/ipam/util.go. */
module Ipv4 {
  import opened Bits

  const SIZE := 0x1_0000_0000

  type IP = n: int | 0 <= n < 0x1_0000_0000

  type Byte = b: int | 0 <= b < 256

  /** Addition wraps modulo 2^32. */
  function Add(ip: IP, n: IP): IP {
    (ip + n) % SIZE
  }

  function Sub(ip: IP, n: IP): IP {
    (ip - n) % SIZE
  }

  /** Big-endian value of four bytes; 0 for any other length. */
  function BytesToUint32(bs: seq<Byte>): IP {
    if |bs| != 4 then 0
    else bs[0] as int * 0x1000000 + bs[1] as int * 0x10000 + bs[2] as int * 0x100 + bs[3]
  }

  function Uint32ToBytes(n: IP): seq<Byte> {
    [n / 0x1000000, n / 0x10000 % 256, n / 0x100 % 256, n % 256]
  }

  lemma BytesRoundTrip(n: IP)
    ensures BytesToUint32(Uint32ToBytes(n)) == n
  {
  }

  lemma Uint32RoundTrip(bs: seq<Byte>)
    requires |bs| == 4
    ensures Uint32ToBytes(BytesToUint32(bs)) == bs
  {
    var m := BytesToUint32(bs);
    assert m / 0x100 == bs[0] as int * 0x10000 + bs[1] as int * 0x100 + bs[2];
    assert m / 0x10000 == bs[0] as int * 0x100 + bs[1];
    assert m / 0x1000000 == bs[0];
  }

  /** Compared from the first byte on. */
  predicate Earlier(a: seq<Byte>, b: seq<Byte>)
    requires |a| == |b|
    decreases |a|
  {
    a != [] && (a[0] < b[0] || (a[0] == b[0] && Earlier(a[1..], b[1..])))
  }

  /** The first byte weighs most: numbers are ordered as their bytes are. */
  lemma BytesOrder(a: seq<Byte>, b: seq<Byte>)
    requires |a| == |b| == 4
    ensures BytesToUint32(a) < BytesToUint32(b) <==> Earlier(a, b)
  {
    assert a[1..][1..] == a[2..] && b[1..][1..] == b[2..];
    assert a[2..][1..] == a[3..] && b[2..][1..] == b[3..];
    assert Earlier(a[3..], b[3..]) <==> a[3] < b[3];
    assert Earlier(a[2..], b[2..]) <==> a[2] < b[2] || (a[2] == b[2] && a[3] < b[3]);
  }

  /** Addition counts on from 0 behind the highest address, and subtraction undoes it. */
  lemma AddExact(x: IP, n: IP)
    ensures Add(x, n) == if x as int + n as int < SIZE then x + n else x + n - SIZE
    ensures Sub(Add(x, n), n) == x
  {
  }

  lemma Word32()
    ensures Pow2(32) == SIZE
  {
    assert Pow2(8) == 0x100;
    assert Pow2(16) == 0x10000;
    assert Pow2(24) == 0x1000000;
  }

  /** The 32-bit word with `ones` leading ones: all ones shifted left, truncated to 32 bits. */
  function NetMask(ones: nat): IP
    requires ones <= 32
  {
    Word32();
    Pow2Mono(32 - ones, 32);
    Pow2(32) - Pow2(32 - ones)
  }

  /** The lowest address of the prefix block of `ip`. */
  function BlockBase(ip: IP, ones: nat): (base: IP)
    requires ones <= 32
    ensures base <= ip < base + Pow2(32 - ones) <= SIZE
  {
    Word32();
    FloorInWord(ip, 32 - ones, 32);
    Floor(ip, 32 - ones)
  }

  /** Network and broadcast address of the block, with the bit operations of the source. */
  function Network(ip: IP, ones: nat): (n: IP)
    requires ones <= 32
    ensures n == BlockBase(ip, ones)
  {
    Word32();
    AndPrefix(32, 32 - ones, ip);
    And(ip, NetMask(ones))
  }

  function Broadcast(ip: IP, ones: nat): (n: IP)
    requires ones <= 32
    ensures n == BlockBase(ip, ones) + Pow2(32 - ones) - 1
  {
    OrSuffix(32 - ones, BlockBase(ip, ones));
    FloorFloor(ip, 32 - ones);
    Or(Network(ip, ones), Pow2(32 - ones) - 1)
  }

  /** First host of a block: the network address plus one, in wrapping arithmetic. */
  function GetFirstIP(ip: IP, ones: nat): IP
    requires ones <= 32
  {
    Add(Network(ip, ones), 1)
  }

  /** Last host of a block: the broadcast address minus one, in wrapping arithmetic. */
  function GetLastIP(ip: IP, ones: nat): IP
    requires ones <= 32
  {
    Sub(Broadcast(ip, ones), 1)
  }

  /** Wrapping arithmetic at the two ends of a block of `p` addresses. */
  lemma HostEnds(base: IP, last: IP, p: nat)
    requires last == base + p - 1 && 2 <= p
    ensures Add(base, 1) == base + 1 && Sub(last, 1) == base + p - 2
  {
  }

  /** For prefixes up to /30 the pool is the block without its first and last address, and nothing wraps. */
  lemma HostPool(ip: IP, ones: nat)
    requires ones <= 30
    ensures GetFirstIP(ip, ones) == BlockBase(ip, ones) + 1
    ensures GetLastIP(ip, ones) == BlockBase(ip, ones) + Pow2(32 - ones) - 2
    ensures GetFirstIP(ip, ones) < GetLastIP(ip, ones) < SIZE - 1
  {
    assert Pow2(2) == 4;
    Pow2Mono(2, 32 - ones);
    HostEnds(Network(ip, ones), Broadcast(ip, ones), Pow2(32 - ones));
  }

  /** A /31 gives an empty pool that starts one above its end; a /32 one turned inside out, wrapping at 0. */
  lemma HostPoolTooSmall(ip: IP)
    ensures GetFirstIP(ip, 31) == GetLastIP(ip, 31) + 1
    ensures GetFirstIP(ip, 32) == Add(ip, 1) && GetLastIP(ip, 32) == Sub(ip, 1)
  {
    assert Pow2(1) == 2 && Pow2(0) == 1;
    HostEnds(Network(ip, 31), Broadcast(ip, 31), 2);
  }
}
