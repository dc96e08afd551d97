/**
 * Range of pkg/ipametcd/backend/allocator/range.go: filling in and checking one configured range,
 * containment, overlap.
 */
module Ranges {
  import opened Bits
  import opened Addrs
  import opened NetBytes
  import opened RangeWalk

  /** A net.IP as configuration delivers it: absent, of a wrong length, or an address in either form. */
  datatype NetIP = Nil | Malformed | IP(a: Addr)

  /** A mask with leading ones only, or some other byte pattern, whose Size is (0, 0). */
  datatype RawMask = Prefix(ones: nat, v6: bool) | Scattered(v6: bool)

  type Mask = m: RawMask | m.Prefix? ==> m.ones <= BitCount(m.v6) witness Prefix(0, false)

  datatype Conf = Conf(subnet: NetIP, mask: Mask, start: NetIP, end: NetIP, gw: NetIP)

  /** The number ip.Cmp compares; anything that is no address counts as zero. */
  function Num(x: NetIP): nat {
    if x.IP? then x.a.n else 0
  }

  function HostBits(m: Mask): nat {
    if m.Prefix? then BitCount(m.v6) - m.ones else 0
  }

  /** Same family and inside the prefix block: net.IPNet.Contains. */
  predicate InNet(c: Conf, a: Addr) {
    && c.subnet.IP? && c.mask.Prefix? && c.mask.v6 == c.subnet.a.v6 == a.v6
    && Floor(a.n, HostBits(c.mask)) == Floor(c.subnet.a.n, HostBits(c.mask))
  }

  /** Range.Contains; bounds that are still missing are ignored. */
  predicate Contains(c: Conf, x: NetIP) {
    && x.IP? && InNet(c, x.a)
    && (c.start == Nil || Num(c.start) <= Num(x))
    && (c.end == Nil || Num(x) <= Num(c.end))
  }

  /** Range.Overlaps. */
  predicate Overlaps(c: Conf, d: Conf) {
    && c.start.IP? == d.start.IP? && (c.start.IP? ==> c.start.a.v6 == d.start.a.v6)
    && (Contains(c, d.start) || Contains(c, d.end) || Contains(d, c.start) || Contains(d, c.end))
  }

  /** The subnet part of Canonicalize: an address, a mask leaving two host bits, the same family, no host bits set. */
  predicate SubnetOk(c: Conf) {
    && c.subnet.IP? && c.mask.Prefix? && c.mask.ones + 2 <= BitCount(c.mask.v6)
    && c.mask.v6 == c.subnet.a.v6
    && Floor(c.subnet.a.n, HostBits(c.mask)) == c.subnet.a.n
  }

  lemma SubnetRoom(c: Conf)
    requires SubnetOk(c)
    ensures 4 <= Pow2(HostBits(c.mask))
    ensures c.subnet.a.n + Pow2(HostBits(c.mask)) <= Width(c.subnet.a.v6)
  {
    var v6, h := c.subnet.a.v6, HostBits(c.mask);
    WidthIsPow2(v6);
    FloorInWord(c.subnet.a.n, h, BitCount(v6));
    assert Pow2(2) == 4;
    Pow2Mono(2, h);
  }

  function FirstHost(c: Conf): Addr
    requires SubnetOk(c)
  {
    SubnetRoom(c);
    RawAddr(c.subnet.a.v6, c.subnet.a.n + 1)
  }

  /** The last address of the subnet, without the broadcast address for IPv4. */
  function LastHost(c: Conf): Addr
    requires SubnetOk(c)
  {
    SubnetRoom(c);
    RawAddr(c.subnet.a.v6, c.subnet.a.n + Pow2(HostBits(c.mask)) - if c.subnet.a.v6 then 1 else 2)
  }

  /** Canonicalize: the range it leaves behind, also on failure, and whether it accepted. */
  function Canon(c: Conf): (Conf, bool) {
    if !SubnetOk(c) then (c, false)
    else if c.gw == Malformed then (c, false)
    else
      var c1 := if c.gw == Nil then c.(gw := IP(FirstHost(c))) else c;
      if c1.start != Nil && !Contains(c1, c1.start) then (c1, false)
      else
        var c2 := if c1.start == Nil then c1.(start := IP(FirstHost(c))) else c1;
        if c2.end != Nil && !Contains(c2, c2.end) then (c2, false)
        else if c2.end == Nil then (c2.(end := IP(LastHost(c))), true) else (c2, true)
  }

  /** The one accepted input that comes out inside out: IPv4, start on the broadcast address, no end. */
  predicate BroadcastStart(c: Conf) {
    && c.subnet.IP? && !c.subnet.a.v6 && c.end == Nil && c.start.IP?
    && c.start.a.n == c.subnet.a.n + Pow2(HostBits(c.mask)) - 1
  }

  /** Filled in, one family, both ends inside the prefix block. */
  predicate Filled(c: Conf) {
    && SubnetOk(c) && c.start.IP? && c.end.IP? && c.gw.IP?
    && InNet(c, c.start.a) && InNet(c, c.end.a)
  }

  /** The prefix block holds exactly the addresses that masking sends to the network address. */
  lemma InNetExact(c: Conf, a: Addr)
    requires SubnetOk(c)
    ensures InNet(c, a) <==>
              a.v6 == c.subnet.a.v6 && c.subnet.a.n <= a.n < c.subnet.a.n + Pow2(HostBits(c.mask))
  {
    FloorBlock(a.n, c.subnet.a.n, HostBits(c.mask));
  }

  /** The number of the last address of the block, or of the one before it for IPv4. */
  function LastNumber(c: Conf): int
    requires c.subnet.IP?
  {
    c.subnet.a.n + Pow2(HostBits(c.mask)) - if c.subnet.a.v6 then 1 else 2
  }

  /** An address of the block of the subnet. */
  ghost predicate InBlock(c: Conf, x: NetIP)
    requires c.subnet.IP?
  {
    x.IP? && x.a.v6 == c.subnet.a.v6 && c.subnet.a.n <= x.a.n < c.subnet.a.n + Pow2(HostBits(c.mask))
  }

  /** Where the range will start. */
  function Lowest(c: Conf): int
    requires c.subnet.IP?
  {
    if c.start == Nil then c.subnet.a.n + 1 else Num(c.start)
  }

  /** A subnet on a multiple of its block size, with a mask of its family that leaves two bits. */
  ghost predicate SubnetFits(c: Conf)
    ensures SubnetFits(c) ==> c.subnet.IP?
  {
    && c.subnet.IP? && c.mask.Prefix? && c.mask.v6 == c.subnet.a.v6 && 2 <= HostBits(c.mask)
    && exists q: nat :: c.subnet.a.n == q * Pow2(HostBits(c.mask))
  }

  /** A readable gateway, wherever it lies, and bounds inside the block and in order. */
  ghost predicate BoundsFit(c: Conf)
    requires c.subnet.IP?
  {
    && c.gw != Malformed
    && (c.start != Nil ==> InBlock(c, c.start))
    && (c.end != Nil ==> InBlock(c, c.end) && Lowest(c) <= c.end.a.n)
  }

  lemma SubnetExact(c: Conf)
    ensures SubnetOk(c) <==> SubnetFits(c)
  {
    if c.subnet.IP? {
      var h := HostBits(c.mask);
      var q := FloorMultiple(c.subnet.a.n, h);
      forall r: nat | c.subnet.a.n == r * Pow2(h) ensures Floor(c.subnet.a.n, h) == c.subnet.a.n {
        MultipleFloor(r, h);
      }
    }
    hide Floor, Pow2;
  }

  lemma BoundsExact(c: Conf)
    requires SubnetOk(c)
    ensures Canon(c).1 <==> BoundsFit(c)
  {
    SubnetRoom(c);
    if c.start.IP? { InNetExact(c, c.start.a); }
    if c.end.IP? { InNetExact(c, c.end.a); }
    hide Pow2, Floor;
    var c1 := if c.gw == Nil then c.(gw := IP(FirstHost(c))) else c;
    var c2 := if c1.start == Nil then c1.(start := IP(FirstHost(c))) else c1;
    forall a: Addr ensures InNet(c1, a) <==> InNet(c, a) ensures InNet(c2, a) <==> InNet(c, a) {}
    assert Num(c2.start) == Lowest(c) || c.start == Malformed;
    hide InNet;
  }

  /** Canonicalize accepts exactly those. */
  lemma AcceptExact(c: Conf)
    ensures Canon(c).1 <==> SubnetFits(c) && BoundsFit(c)
  {
    SubnetExact(c);
    if SubnetOk(c) { BoundsExact(c); }
    hide SubnetOk, SubnetFits, BoundsFit, Contains;
  }

  /**
   * What Canonicalize accepts comes out filled in, and its start is not above its end exactly
   * unless the input was the broadcast case.
   */
  lemma CanonExact(c: Conf)
    requires Canon(c).1
    ensures var d := Canon(c).0;
            && Filled(d) && d.subnet == c.subnet && d.mask == c.mask
            && (d.start.a.n <= d.end.a.n <==> !BroadcastStart(c))
            && (c.start != Nil ==> d.start == c.start) && (c.end != Nil ==> d.end == c.end)
            && (c.gw != Nil ==> d.gw == c.gw)
            && (c.gw == Nil ==> d.gw.a.v6 == c.subnet.a.v6 && d.gw.a.n == c.subnet.a.n + 1)
            && (c.start == Nil ==> d.start.a.n == c.subnet.a.n + 1)
            && (c.end == Nil ==> d.end.a.n == LastNumber(c))
  {
    hide Pow2, Floor;
    var d := Canon(c).0;
    SubnetRoom(c);
    InNetExact(c, FirstHost(c));
    InNetExact(c, LastHost(c));
    if c.start.IP? { InNetExact(c, c.start.a); }
    if c.end.IP? { InNetExact(c, c.end.a); }
    assert forall a: Addr :: InNet(d, a) <==> InNet(c, a);
    hide InNet, SubnetOk;
  }

  /** Either nothing was done to a field, or it was missing and got its default. */
  predicate KeptOr(before: NetIP, after: NetIP, v6: bool, n: int) {
    after == before || (before == Nil && after.IP? && after.a.v6 == v6 && after.a.n == n)
  }

  /**
   * Accepted or refused, the subnet stays as it is, what was given is kept, and the defaults are
   * filled in up to the test that refuses: gateway, then start, then end.
   */
  lemma CanonKeeps(c: Conf)
    ensures var d := Canon(c).0;
            && d.subnet == c.subnet && d.mask == c.mask
            && if !SubnetFits(c) || c.gw == Malformed then d == c else
                 var v6, base := c.subnet.a.v6, c.subnet.a.n;
                 && d.gw != Nil && KeptOr(c.gw, d.gw, v6, base + 1)
                 && KeptOr(c.start, d.start, v6, base + 1) && d.start != Nil
                 && KeptOr(c.end, d.end, v6, LastNumber(c)) && (d.end == Nil ==> !Canon(c).1)
  {
    SubnetExact(c);
    hide Pow2, Floor, Contains, SubnetFits;
    if SubnetOk(c) { SubnetRoom(c); }
  }

  /** On a filled range, containment is lying between the two ends. */
  lemma ContainsExact(c: Conf, a: Addr)
    requires Filled(c)
    ensures Contains(c, IP(a)) <==> a.v6 == c.start.a.v6 && c.start.a.n <= a.n <= c.end.a.n
  {
    InNetExact(c, a);
    InNetExact(c, c.start.a);
    InNetExact(c, c.end.a);
    hide Floor, Pow2, InNet;
  }

  /** Canonicalizing twice changes nothing, and is accepted exactly outside the broadcast case. */
  lemma CanonIdempotent(c: Conf)
    requires Canon(c).1
    ensures Canon(Canon(c).0).1 <==> !BroadcastStart(c)
    ensures Canon(Canon(c).0).0 == Canon(c).0
  {
    hide Pow2, Floor;
    var d := Canon(c).0;
    CanonExact(c);
    ContainsExact(d, d.start.a);
    ContainsExact(d, d.end.a);
    assert SubnetOk(d);
    hide InNet, SubnetOk, BroadcastStart, Contains;
  }

  /** On canonical ranges the four-endpoint test finds exactly the pairs that share an address. */
  lemma OverlapsExact(c: Conf, d: Conf)
    requires Filled(c) && Filled(d) && c.start.a.n <= c.end.a.n && d.start.a.n <= d.end.a.n
    ensures Overlaps(c, d) <==> exists a: Addr :: Contains(c, IP(a)) && Contains(d, IP(a))
    ensures Overlaps(c, d) <==> Overlaps(d, c)
  {
    forall a: Addr
      ensures Contains(c, IP(a)) <==> a.v6 == c.start.a.v6 && c.start.a.n <= a.n <= c.end.a.n
      ensures Contains(d, IP(a)) <==> a.v6 == d.start.a.v6 && d.start.a.n <= a.n <= d.end.a.n
    {
      ContainsExact(c, a);
      ContainsExact(d, a);
    }
    assert c.start == IP(c.start.a) && c.end == IP(c.end.a) && d.start == IP(d.start.a) && d.end == IP(d.end.a);
    if Overlaps(c, d) {
      assert Contains(d, d.start) && Contains(d, d.end) && Contains(c, c.start) && Contains(c, c.end);
    }
    if a: Addr :| Contains(c, IP(a)) && Contains(d, IP(a)) {
      assert Contains(d, IP(c.start.a)) || Contains(c, IP(d.start.a));
    }
    hide Contains, Filled;
  }

  /** The range the walk uses. */
  function ToRange(c: Conf): Range
    requires Filled(c)
  {
    Range(c.start.a.v6, c.start.a.n, c.end.a.n, c.gw.a, c.mask.ones)
  }

  /** The range that serves a configured one: its bounds, gateway and prefix length, or their defaults. */
  ghost predicate Serves(r: Range, c: Conf) {
    && c.subnet.IP? && c.mask.Prefix?
    && r.v6 == c.subnet.a.v6 && r.ones == c.mask.ones
    && r.lo == Lowest(c) && r.hi == (if c.end == Nil then LastNumber(c) else Num(c.end))
    && if c.gw == Nil then r.gw.v6 == c.subnet.a.v6 && r.gw.n == c.subnet.a.n + 1 else c.gw == IP(r.gw)
  }

  lemma ToRangeServes(c: Conf)
    requires Canon(c).1
    ensures Filled(Canon(c).0) && Serves(ToRange(Canon(c).0), c)
  {
    CanonExact(c);
    hide Canon, Pow2, InNet, Floor;
  }

  /** Between the bounds, given or default. */
  predicate Between(c: Conf, a: Addr) {
    c.subnet.IP? && a.v6 == c.subnet.a.v6 && Lowest(c) <= a.n <= if c.end == Nil then LastNumber(c) else Num(c.end)
  }

  /** After Canonicalize that is what a range contains. */
  lemma BetweenExact(c: Conf, a: Addr)
    requires Canon(c).1
    ensures Contains(Canon(c).0, IP(a)) <==> Between(c, a)
  {
    CanonExact(c);
    ContainsExact(Canon(c).0, a);
    hide Canon, Pow2, InNet, Floor, Contains;
  }

  lemma ToRangeContains(c: Conf, a: Addr)
    requires Filled(c)
    ensures InRange(ToRange(c), a) <==> Contains(c, IP(a))
  {
    ContainsExact(c, a);
  }

  /**
   * A range turned inside out holds nothing. A cursor that enters it, in whatever set, starts on its
   * broadcast address, never meets its end, and visits nothing else of its subnet.
   */
  lemma BroadcastEscapes(c: Conf, rs: seq<Range>, i: nat, k: nat)
    requires Canon(c).1 && BroadcastStart(c) && Filled(Canon(c).0) && i < |rs| && rs[i] == ToRange(Canon(c).0)
    ensures var d := Canon(c).0;
            && (forall a: Addr :: !Contains(d, IP(a)))
            && Wander(rs, Pos(i, rs[i].lo), k) == Pos(i, Num(c.start) + k)
            && (Num(c.start) + k < Width(false) ==> (InNet(d, RawAddr(false, Num(c.start) + k)) <==> k == 0))
  {
    hide Pow2, Floor;
    var d, n := Canon(c).0, Num(c.start) + k;
    CanonExact(c);
    forall a: Addr ensures !Contains(d, IP(a)) { ContainsExact(d, a); }
    WanderOn(rs, Pos(i, rs[i].lo), k);
    if n < Width(false) { InNetExact(d, RawAddr(false, n)); }
    hide InNet, Contains, Wander;
  }

  // ------------------------------------------------------------------
  // The method, field by field

  /** The default end, computed byte by byte. */
  method LastIP(c: Conf) returns (a: Addr)
    requires SubnetOk(c)
    ensures a == LastHost(c)
  {
    var v6, n := c.subnet.a.v6, c.subnet.a.n;
    var k := if v6 then 16 else 4;
    SubnetRoom(c);
    WidthIsPow2(v6);
    hide Pow2, Floor, OrBytes, ToBytes, Value, Width;
    var ip, mask := ToBytes(n, k), MaskBytes(c.mask.ones, k);
    var end := LastIPBytes(ip, mask);
    OrMaskValue(n, c.mask.ones, k);
    if !v6 {
      DecrementValue(OrBytes(ip, seq(k, i requires 0 <= i < k => Flip(mask[i]))), n, HostBits(c.mask));
    }
    a := RawAddr(v6, Value(end));
  }

  /** Range.Canonicalize on element `i` of a range set, in place. */
  method CanonicalizeAt(s: array<Conf>, i: nat) returns (ok: bool)
    requires i < s.Length
    modifies s
    ensures (s[i], ok) == Canon(old(s[i]))
    ensures forall j :: 0 <= j < s.Length && j != i ==> s[j] == old(s[j])
  {
    hide Floor, Pow2, Contains, BitCount;
    if !s[i].subnet.IP? {
      return false;
    }
    var ones, masklen := if s[i].mask.Prefix? then s[i].mask.ones else 0,
        if s[i].mask.Prefix? then BitCount(s[i].mask.v6) else 0;
    if ones > masklen - 2 {
      return false;
    }
    if s[i].subnet.a.v6 != s[i].mask.v6 {
      return false;
    }
    if s[i].subnet.a.n != Floor(s[i].subnet.a.n, HostBits(s[i].mask)) {
      return false;
    }
    assert SubnetOk(s[i]);
    ghost var c := s[i];
    if s[i].gw == Nil {
      s[i] := s[i].(gw := IP(FirstHost(s[i])));
    } else if s[i].gw == Malformed {
      return false;
    }
    if s[i].start != Nil {
      if !Contains(s[i], s[i].start) {
        return false;
      }
    } else {
      s[i] := s[i].(start := IP(FirstHost(s[i])));
    }
    if s[i].end != Nil {
      if !Contains(s[i], s[i].end) {
        return false;
      }
    } else {
      var last := LastIP(s[i]);
      s[i] := s[i].(end := IP(last));
    }
    ok := true;
  }
}
