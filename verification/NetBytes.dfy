/** Addresses as big-endian bytes, and lastIP of pkg/ipametcd/backend/allocator/range.go on them. */
module NetBytes {
  import opened Bits
  import opened Addrs

  type Byte = b: int | 0 <= b < 256

  function BitCount(v6: bool): nat {
    if v6 then 128 else 32
  }

  lemma Pow2Byte(w: nat)
    ensures Pow2(w + 8) == 256 * Pow2(w)
  {
    assert Pow2(w + 2) == 4 * Pow2(w);
    assert Pow2(w + 4) == 16 * Pow2(w);
    assert Pow2(w + 6) == 64 * Pow2(w);
  }

  lemma WidthIsPow2(v6: bool)
    ensures Width(v6) == Pow2(BitCount(v6))
  {
    var i := if v6 then 16 else 4;
    PowerIs(i);
    BytePowers(i);
  }

  lemma {:induction false} PowerIs(i: nat)
    ensures Pow2(8 * i) == BytePower(i)
  {
    if i > 0 {
      PowerIs(i - 1);
      Pow2Byte(8 * (i - 1));
      hide Pow2;
    }
  }

  function BytePower(i: nat): nat {
    if i == 0 then 1 else 256 * BytePower(i - 1)
  }

  lemma BytePowers(i: nat)
    ensures i == 4 ==> BytePower(i) == Width(false)
    ensures i == 16 ==> BytePower(i) == Width(true)
  {
    assert BytePower(4) == 0x1_0000_0000;
    assert BytePower(8) == 0x1_0000_0000_0000_0000;
    assert BytePower(12) == 0x1_0000_0000_0000_0000_0000_0000;
  }

  /** The number a byte string stands for, most significant byte first. */
  function Value(bs: seq<Byte>): nat
    decreases |bs|
  {
    if bs == [] then 0 else 256 * Value(bs[..|bs| - 1]) + bs[|bs| - 1]
  }

  function ToBytes(n: nat, k: nat): (bs: seq<Byte>)
    ensures |bs| == k
    decreases k
  {
    if k == 0 then [] else ToBytes(n / 256, k - 1) + [n % 256]
  }

  lemma {:induction false} ValueToBytes(n: nat, k: nat)
    requires n < Pow2(8 * k)
    ensures Value(ToBytes(n, k)) == n
    decreases k
  {
    if k > 0 {
      Pow2Byte(8 * (k - 1));
      ValueToBytes(n / 256, k - 1);
      assert ToBytes(n, k)[..k - 1] == ToBytes(n / 256, k - 1);
    }
  }

  // ------------------------------------------------------------------
  // Or, byte by byte

  /** The low `k` bits of `a` behind `x`. */
  function Behind(x: nat, a: nat, k: nat): nat {
    if k == 0 then x else 2 * Behind(x, a / 2, k - 1) + a % 2
  }

  lemma OrDouble(u: nat, p: nat, v: nat, q: nat)
    requires p < 2 && q < 2
    ensures Or(2 * u + p, 2 * v + q) == 2 * Or(u, v) + if p == 1 || q == 1 then 1 else 0
  {
    assert (2 * u + p) / 2 == u && (2 * u + p) % 2 == p;
    assert (2 * v + q) / 2 == v && (2 * v + q) % 2 == q;
  }

  lemma {:induction false} OrBehind(x: nat, a: nat, y: nat, b: nat, k: nat)
    ensures Or(Behind(x, a, k), Behind(y, b, k)) == Behind(Or(x, y), Or(a, b), k)
  {
    if k > 0 {
      OrBehind(x, a / 2, y, b / 2, k - 1);
      OrDouble(Behind(x, a / 2, k - 1), a % 2, Behind(y, b / 2, k - 1), b % 2);
      OrDouble(a / 2, a % 2, b / 2, b % 2);
      assert Or(a, b) / 2 == Or(a / 2, b / 2);
    }
  }

  lemma BehindByte(x: nat, a: nat)
    requires a < 256
    ensures Behind(x, a, 8) == 256 * x + a
  {
    assert Pow2(8) == 256;
    BehindSum(x, a, 8);
    assert Behind(x, 0, 1) == 2 * x;
    assert Behind(x, 0, 2) == 4 * x;
    assert Behind(x, 0, 3) == 8 * x;
    assert Behind(x, 0, 4) == 16 * x;
    assert Behind(x, 0, 5) == 32 * x;
    assert Behind(x, 0, 6) == 64 * x;
    assert Behind(x, 0, 7) == 128 * x;
  }

  lemma {:induction false} BehindSum(x: nat, a: nat, k: nat)
    requires a < Pow2(k)
    ensures Behind(x, a, k) == Behind(x, 0, k) + a
  {
    if k > 0 { BehindSum(x, a / 2, k - 1); }
  }

  lemma {:induction false} OrSmall(a: nat, b: nat, k: nat)
    requires a < Pow2(k) && b < Pow2(k)
    ensures Or(a, b) < Pow2(k)
  {
    if a != 0 && b != 0 {
      OrSmall(a / 2, b / 2, k - 1);
    }
  }

  function OrByte(a: Byte, b: Byte): Byte {
    assert Pow2(8) == 256;
    OrSmall(a, b, 8);
    Or(a, b)
  }

  lemma OrValue(x: nat, a: Byte, y: nat, b: Byte)
    ensures Or(256 * x + a, 256 * y + b) == 256 * Or(x, y) + OrByte(a, b)
  {
    OrBehind(x, a, y, b, 8);
    BehindByte(x, a);
    BehindByte(y, b);
    BehindByte(Or(x, y), OrByte(a, b));
  }

  function OrBytes(a: seq<Byte>, b: seq<Byte>): (c: seq<Byte>)
    requires |a| == |b|
    ensures |c| == |a|
    decreases |a|
  {
    if a == [] then []
    else OrBytes(a[..|a| - 1], b[..|b| - 1]) + [OrByte(a[|a| - 1], b[|b| - 1])]
  }

  lemma {:induction false} OrBytesValue(a: seq<Byte>, b: seq<Byte>)
    requires |a| == |b|
    ensures Value(OrBytes(a, b)) == Or(Value(a), Value(b))
    decreases |a|
  {
    if a != [] {
      var n := |a| - 1;
      OrBytesValue(a[..n], b[..n]);
      OrValue(Value(a[..n]), a[n], Value(b[..n]), b[n]);
      assert OrBytes(a, b)[..n] == OrBytes(a[..n], b[..n]);
    }
  }

  // ------------------------------------------------------------------
  // lastIP

  /** The mask of `ones` leading ones in `k` bytes. */
  function MaskBytes(ones: nat, k: nat): (m: seq<Byte>)
    requires ones <= 8 * k
    ensures |m| == k
  {
    Pow2Mono(8 * k - ones, 8 * k);
    ToBytes(Pow2(8 * k) - Pow2(8 * k - ones), k)
  }

  function Flip(b: Byte): Byte {
    255 - b as int
  }

  /** byte arithmetic wraps. */
  function Decrement(b: Byte): Byte {
    (b as int - 1) % 256
  }

  /** Complementing every byte of a number gives the bytes of its complement. */
  lemma {:induction false} ComplementBytes(m: nat, k: nat, i: nat)
    requires m < Pow2(8 * k) && i < k
    ensures ToBytes(Pow2(8 * k) - 1 - m, k)[i] == Flip(ToBytes(m, k)[i])
    decreases k
  {
    Pow2Byte(8 * (k - 1));
    var p := Pow2(8 * (k - 1));
    hide Pow2;
    ComplementOne(p, m);
    if i < k - 1 {
      ComplementBytes(m / 256, k - 1, i);
    }
  }

  lemma ComplementOne(p: nat, m: nat)
    requires m < 256 * p
    ensures (256 * p - 1 - m) % 256 == 255 - m % 256
    ensures (256 * p - 1 - m) / 256 == p - 1 - m / 256
  {
  }

  /**
   * The last address of a subnet, the broadcast address left out for IPv4: each byte of the address
   * or-ed with the complement of the mask byte, and then byte 3 decremented for IPv4.
   */
  method LastIPBytes(ip: seq<Byte>, mask: seq<Byte>) returns (end: seq<Byte>)
    requires |ip| == |mask| && (|ip| == 4 || |ip| == 16)
    ensures |end| == |ip|
    ensures var all := OrBytes(ip, seq(|mask|, i requires 0 <= i < |mask| => Flip(mask[i])));
            end == if |ip| == 4 then all[3 := Decrement(all[3])] else all
  {
    end := [];
    ghost var flipped := seq(|mask|, i requires 0 <= i < |mask| => Flip(mask[i]));
    for i := 0 to |ip|
      invariant end == OrBytes(ip[..i], flipped[..i])
    {
      end := end + [OrByte(ip[i], Flip(mask[i]))];
      assert ip[..i + 1][..i] == ip[..i] && flipped[..i + 1][..i] == flipped[..i];
    }
    assert ip[..|ip|] == ip && flipped[..|ip|] == flipped;
    if |ip| == 4 {
      end := end[3 := Decrement(end[3])];
    }
  }

  function BlockLast(n: nat, h: nat): nat {
    Floor(n, h) + Pow2(h) - 1
  }

  /** The bytes before the decrement: the last number of the prefix block. */
  lemma OrMaskValue(n: nat, ones: nat, k: nat)
    requires n < Pow2(8 * k) && ones <= 8 * k
    ensures var m := MaskBytes(ones, k);
            Value(OrBytes(ToBytes(n, k), seq(k, i requires 0 <= i < k => Flip(m[i])))) == BlockLast(n, 8 * k - ones)
  {
    hide Pow2, Floor, Or, Value, OrBytes, ToBytes, Flip;
    var h := 8 * k - ones;
    Pow2Mono(h, 8 * k);
    var m := MaskBytes(ones, k);
    var flipped := seq(k, i requires 0 <= i < k => Flip(m[i]));
    forall i | 0 <= i < k ensures flipped[i] == ToBytes(Pow2(h) - 1, k)[i] {
      ComplementBytes(Pow2(8 * k) - Pow2(h), k, i);
    }
    assert flipped == ToBytes(Pow2(h) - 1, k);
    ValueToBytes(n, k);
    ValueToBytes(Pow2(h) - 1, k);
    OrBytesValue(ToBytes(n, k), flipped);
    OrSuffix(h, n);
  }

  /** The decrement never borrows for a block of at least four addresses: the last byte is odd. */
  lemma DecrementValue(all: seq<Byte>, n: nat, h: nat)
    requires |all| == 4 && Value(all) == BlockLast(n, h) && 2 <= h
    ensures all[3] > 0 && Value(all[3 := Decrement(all[3])]) == BlockLast(n, h) - 1
  {
    LastOdd(n, h);
    assert all[..3] + [all[3]] == all;
    var end := all[3 := Decrement(all[3])];
    assert end[..3] == all[..3];
  }

  lemma LastOdd(n: nat, h: nat)
    requires 1 <= h
    ensures BlockLast(n, h) % 2 == 1
  {
  }
}
