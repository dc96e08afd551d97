/**
 * Lists of inclusive address ranges as values: what the list code of pkg/ipam/util.go and
 * pkg/ipam/ip.go computes, and what it means for the set of addresses a list denotes.
 */
module RangeLists {
  import opened Ipv4

  datatype Rg = Rg(lo: IP, hi: IP)

  predicate In(r: Rg, x: int) {
    r.lo <= x <= r.hi
  }

  /** `x` is one of the addresses the list denotes. */
  predicate Has(l: seq<Rg>, x: int) {
    exists i :: 0 <= i < |l| && In(l[i], x)
  }

  ghost predicate SameSet(a: seq<Rg>, b: seq<Rg>) {
    forall x: int :: Has(a, x) <==> Has(b, x)
  }

  /** Sorted with a gap between neighbours; a range may be empty, but only as [s, s-1]. */
  ghost predicate Separated(l: seq<Rg>) {
    && (forall i :: 0 <= i < |l| ==> l[i].lo <= l[i].hi + 1)
    && (forall i, j :: 0 <= i < j < |l| ==> l[i].hi + 2 <= l[j].lo)
  }

  predicate Empty(r: Rg) {
    r.hi < r.lo
  }

  /** The canonical form: separated and no range empty. */
  ghost predicate Coalesced(l: seq<Rg>) {
    && Separated(l)
    && (forall i :: 0 <= i < |l| ==> !Empty(l[i]))
  }

  /** Some empty range starts at `x`. */
  predicate EmptyAt(l: seq<Rg>, x: int) {
    exists i :: 0 <= i < |l| && Empty(l[i]) && l[i].lo == x
  }

  lemma HasAppend(a: seq<Rg>, b: seq<Rg>, x: int)
    ensures Has(a + b, x) <==> Has(a, x) || Has(b, x)
  {
    if Has(a, x) {
      var i :| 0 <= i < |a| && In(a[i], x);
      assert (a + b)[i] == a[i];
    }
    if Has(b, x) {
      var i :| 0 <= i < |b| && In(b[i], x);
      assert (a + b)[|a| + i] == b[i];
    }
  }

  // ------------------------------------------------------------------
  // Canonical form

  /** A coalesced list is determined by its set of addresses. */
  lemma {:induction false} CanonicalUnique(a: seq<Rg>, b: seq<Rg>)
    requires Coalesced(a) && Coalesced(b) && SameSet(a, b)
    ensures a == b
  {
    if a == [] || b == [] {
      if a != [] { assert In(a[0], a[0].lo); assert Has(a, a[0].lo); }
      if b != [] { assert In(b[0], b[0].lo); assert Has(b, b[0].lo); }
    } else {
      FirstNotAfter(a, b);
      FirstNotAfter(b, a);
      assert a == a[..1] + a[1..] && b == b[..1] + b[1..];
      forall x: int ensures Has(a[1..], x) <==> Has(b[1..], x) {
        TailHas(a, x);
        TailHas(b, x);
        assert Has(a, x) <==> Has(b, x);
      }
      CanonicalUnique(a[1..], b[1..]);
    }
  }

  lemma TailHas(a: seq<Rg>, x: int)
    requires Separated(a) && a != []
    ensures Has(a[1..], x) <==> Has(a, x) && a[0].hi < x
  {
    if Has(a[1..], x) {
      var i :| 0 <= i < |a[1..]| && In(a[1..][i], x);
      assert In(a[i + 1], x);
    }
    if Has(a, x) && a[0].hi < x {
      var i :| 0 <= i < |a| && In(a[i], x);
      assert a[1..][i - 1] == a[i];
    }
  }

  lemma GapAbove(b: seq<Rg>)
    requires Separated(b) && b != []
    ensures !Has(b, b[0].hi + 1)
  {
    assert forall j :: 0 < j < |b| ==> b[0].hi + 2 <= b[j].lo;
  }

  lemma FirstNotAfter(a: seq<Rg>, b: seq<Rg>)
    requires Coalesced(a) && Coalesced(b) && a != [] && b != []
    requires SameSet(a, b)
    ensures a[0].lo >= b[0].lo
    ensures a[0].lo == b[0].lo ==> a[0].hi <= b[0].hi
  {
    assert In(a[0], a[0].lo);
    assert Has(a, a[0].lo);
    var i :| 0 <= i < |b| && In(b[i], a[0].lo);
    GapAbove(b);
    assert !Has(a, b[0].hi + 1);
    assert !In(a[0], b[0].hi + 1);
  }

  // ------------------------------------------------------------------
  // Taking one address out: SplitIPRangeList

  /** The range test of the splitting loop: the start is compared before containment. */
  predicate Hit(r: Rg, ip: IP) {
    r.lo == ip || In(r, ip)
  }

  function Pieces(r: Rg, ip: IP): seq<Rg>
    requires Hit(r, ip)
  {
    if r.lo == r.hi && r.lo == ip then []
    else if r.lo == ip then [Rg(Add(ip, 1), r.hi)]
    else [Rg(r.lo, Sub(ip, 1)), Rg(Add(ip, 1), r.hi)]
  }

  function FirstHit(l: seq<Rg>, ip: IP): (k: nat)
    ensures k <= |l|
    ensures k < |l| ==> Hit(l[k], ip)
    ensures forall i :: 0 <= i < k ==> !Hit(l[i], ip)
  {
    if l == [] || Hit(l[0], ip) then 0 else 1 + FirstHit(l[1..], ip)
  }

  function SplitList(l: seq<Rg>, ip: IP): (bool, seq<Rg>) {
    var k := FirstHit(l, ip);
    if k == |l| then (false, l) else (true, l[..k] + Pieces(l[k], ip) + l[k + 1..])
  }

  /** The split succeeds for a listed address, and also for the start of an empty range. */
  lemma SplitSucceeds(l: seq<Rg>, ip: IP)
    ensures SplitList(l, ip).0 <==> Has(l, ip) || EmptyAt(l, ip)
    ensures !SplitList(l, ip).0 ==> SplitList(l, ip).1 == l
  {
    var k := FirstHit(l, ip);
    if k < |l| {
      if !In(l[k], ip) { assert Empty(l[k]) && l[k].lo == ip; }
    } else {
      assert forall i :: 0 <= i < |l| ==> !Hit(l[i], ip);
    }
  }

  /** `ip` is the last address of a range holding at least two. */
  predicate TailOfLonger(l: seq<Rg>, ip: IP) {
    exists i :: 0 <= i < |l| && l[i].lo < l[i].hi == ip
  }

  lemma PiecesHave(r: Rg, ip: IP, x: int)
    requires In(r, ip) && ip < SIZE - 1
    ensures Has(Pieces(r, ip), x) <==> In(r, x) && x != ip
  {
    var p := Pieces(r, ip);
    if In(r, x) && x != ip {
      if r.lo == ip { assert In(p[0], x); }
      else if x < ip { assert In(p[0], x); }
      else { assert In(p[1], x); }
    }
  }

  lemma PiecesEmpty(r: Rg, ip: IP, x: int)
    requires In(r, ip) && ip < SIZE - 1
    ensures EmptyAt(Pieces(r, ip), x) <==> x == ip + 1 && r.lo < r.hi == ip
    ensures !EmptyAt([r], x)
  {
    var p := Pieces(r, ip);
    if r.lo < r.hi == ip { assert Empty(p[1]) && p[1].lo == ip + 1; }
  }

  lemma EmptyAppend(a: seq<Rg>, b: seq<Rg>, x: int)
    ensures EmptyAt(a + b, x) <==> EmptyAt(a, x) || EmptyAt(b, x)
  {
    if EmptyAt(a, x) {
      var i :| 0 <= i < |a| && Empty(a[i]) && a[i].lo == x;
      assert (a + b)[i] == a[i];
    }
    if EmptyAt(b, x) {
      var i :| 0 <= i < |b| && Empty(b[i]) && b[i].lo == x;
      assert (a + b)[|a| + i] == b[i];
    }
  }

  /** Every range of `a` ends at least two below the start of every range of `b`. */
  ghost predicate Before(a: seq<Rg>, b: seq<Rg>) {
    forall i, j :: 0 <= i < |a| && 0 <= j < |b| ==> a[i].hi + 2 <= b[j].lo
  }

  lemma SeparatedAppend(a: seq<Rg>, b: seq<Rg>)
    ensures Separated(a + b) <==> Separated(a) && Separated(b) && Before(a, b)
  {
    var l := a + b;
    assert forall i :: 0 <= i < |a| ==> l[i] == a[i];
    assert forall i :: 0 <= i < |b| ==> l[|a| + i] == b[i];
    if Separated(l) {
      forall i, j | 0 <= i < j < |b| ensures b[i].hi + 2 <= b[j].lo {
        assert l[|a| + i].hi + 2 <= l[|a| + j].lo;
      }
      forall i, j | 0 <= i < |a| && 0 <= j < |b| ensures a[i].hi + 2 <= b[j].lo {
        assert l[i].hi + 2 <= l[|a| + j].lo;
      }
      forall i | 0 <= i < |b| ensures b[i].lo <= b[i].hi + 1 {
        assert l[|a| + i].lo <= l[|a| + i].hi + 1;
      }
    }
    if Separated(a) && Separated(b) && Before(a, b) {
      forall i, j | 0 <= i < j < |l| ensures l[i].hi + 2 <= l[j].lo {
        if |a| <= i { assert b[i - |a|].hi + 2 <= b[j - |a|].lo; }
        else if |a| <= j { assert a[i].hi + 2 <= b[j - |a|].lo; }
      }
    }
  }

  /** A separated list around its range number `k`. */
  lemma SeparatedAround(l: seq<Rg>, k: int)
    requires Separated(l) && 0 <= k < |l|
    ensures Separated(l[..k]) && Separated(l[k + 1..])
    ensures Before(l[..k], l[k + 1..]) && Before(l[..k], [l[k]]) && Before([l[k]], l[k + 1..])
  {
    assert l == l[..k] + l[k..];
    SeparatedAppend(l[..k], l[k..]);
    assert l[k..] == [l[k]] + l[k + 1..];
    SeparatedAppend([l[k]], l[k + 1..]);
    assert l[k..][0] == l[k];
  }

  /** Pieces that stay inside the range they replace keep the list separated. */
  lemma SeparatedReplace(l: seq<Rg>, k: int, p: seq<Rg>)
    requires Separated(l) && 0 <= k < |l| && Separated(p)
    requires forall i :: 0 <= i < |p| ==> l[k].lo <= p[i].lo && p[i].hi <= l[k].hi
    ensures Separated(l[..k] + p + l[k + 1..])
  {
    var a, r, b := l[..k], l[k], l[k + 1..];
    SeparatedAround(l, k);
    assert Before(a, p) by {
      assert forall i :: 0 <= i < |a| ==> a[i].hi + 2 <= [r][0].lo;
    }
    assert Before(p, b) by {
      assert forall j :: 0 <= j < |b| ==> [r][0].hi + 2 <= b[j].lo;
    }
    SeparatedAppend(a, p);
    SeparatedAppend(a + p, b);
  }

  /** What replacing range number `k` does to the addresses and to the empty ranges of a list. */
  lemma ReplaceHas(l: seq<Rg>, k: int, p: seq<Rg>, x: int)
    requires 0 <= k < |l|
    ensures Has(l, x) <==> Has(l[..k], x) || In(l[k], x) || Has(l[k + 1..], x)
    ensures Has(l[..k] + p + l[k + 1..], x) <==> Has(l[..k], x) || Has(p, x) || Has(l[k + 1..], x)
  {
    assert l == l[..k] + [l[k]] + l[k + 1..];
    HasAppend(l[..k] + [l[k]], l[k + 1..], x);
    HasAppend(l[..k], [l[k]], x);
    HasAppend(l[..k] + p, l[k + 1..], x);
    HasAppend(l[..k], p, x);
    assert Has([l[k]], x) <==> In([l[k]][0], x);
  }

  lemma ReplaceEmpty(l: seq<Rg>, k: int, p: seq<Rg>, x: int)
    requires 0 <= k < |l|
    ensures EmptyAt(l, x) <==> EmptyAt(l[..k], x) || EmptyAt([l[k]], x) || EmptyAt(l[k + 1..], x)
    ensures EmptyAt(l[..k] + p + l[k + 1..], x) <==> EmptyAt(l[..k], x) || EmptyAt(p, x) || EmptyAt(l[k + 1..], x)
  {
    assert l == l[..k] + [l[k]] + l[k + 1..];
    EmptyAppend(l[..k] + [l[k]], l[k + 1..], x);
    EmptyAppend(l[..k], [l[k]], x);
    EmptyAppend(l[..k] + p, l[k + 1..], x);
    EmptyAppend(l[..k], p, x);
  }

  lemma NoOther(l: seq<Rg>, k: int, x: int)
    requires Separated(l) && 0 <= k < |l| && In(l[k], x)
    ensures !Has(l[..k], x) && !Has(l[k + 1..], x)
  {
    forall i | 0 <= i < |l| && i != k ensures !In(l[i], x) {
      assert i < k ==> l[i].hi + 2 <= l[k].lo;
      assert k < i ==> l[k].hi + 2 <= l[i].lo;
    }
  }

  /**
   * Splitting a separated list takes out exactly `ip`, except at the top address and
   * except when an empty range starts at `ip`. An empty range appears exactly when
   * `ip` is the last address of a longer range, and it starts just above `ip`.
   */
  lemma SplitDenotes(l: seq<Rg>, ip: IP)
    requires Separated(l) && ip < SIZE - 1 && !EmptyAt(l, ip)
    ensures var l' := SplitList(l, ip).1;
            && Separated(l')
            && (forall x: int :: Has(l', x) <==> Has(l, x) && x != ip)
            && (forall x: int :: EmptyAt(l', x) <==> EmptyAt(l, x) || (x == ip + 1 && TailOfLonger(l, ip)))
  {
    var k := FirstHit(l, ip);
    var l' := SplitList(l, ip).1;
    if k == |l| {
      assert !TailOfLonger(l, ip);
      SplitSucceeds(l, ip);
    } else {
      var p := Pieces(l[k], ip);
      assert In(l[k], ip) by { assert !(Empty(l[k]) && l[k].lo == ip); }
      PiecesSeparated(l[k], ip);
      SeparatedReplace(l, k, p);
      NoOther(l, k, ip);
      TailIsHit(l, k, ip);
      forall x: int ensures Has(l', x) <==> Has(l, x) && x != ip {
        ReplaceHas(l, k, p, x);
        PiecesHave(l[k], ip, x);
      }
      forall x: int
        ensures EmptyAt(l', x) <==> EmptyAt(l, x) || (x == ip + 1 && TailOfLonger(l, ip))
      {
        ReplaceEmpty(l, k, p, x);
        PiecesEmpty(l[k], ip, x);
      }
    }
  }

  lemma PiecesSeparated(r: Rg, ip: IP)
    requires In(r, ip) && ip < SIZE - 1
    ensures Separated(Pieces(r, ip))
    ensures forall i :: 0 <= i < |Pieces(r, ip)| ==> r.lo <= Pieces(r, ip)[i].lo && Pieces(r, ip)[i].hi <= r.hi
  {
  }

  lemma TailIsHit(l: seq<Rg>, k: int, ip: IP)
    requires Separated(l) && 0 <= k < |l| && In(l[k], ip)
    ensures TailOfLonger(l, ip) <==> l[k].lo < l[k].hi == ip
  {
    forall i | 0 <= i < |l| && i != k ensures !In(l[i], ip) {
      assert i < k ==> l[i].hi + 2 <= l[k].lo;
      assert k < i ==> l[k].hi + 2 <= l[i].lo;
    }
    if TailOfLonger(l, ip) {
      var i :| 0 <= i < |l| && l[i].lo < l[i].hi == ip;
      assert In(l[i], ip);
    }
  }

  lemma EmptyAlone(l: seq<Rg>, e: int, i: int)
    requires Separated(l) && 0 <= e < |l| && 0 <= i < |l| && i != e && Empty(l[e])
    ensures !Hit(l[i], l[e].lo)
  {
    assert i < e ==> l[i].hi + 2 <= l[e].lo && l[i].lo <= l[i].hi + 1;
    assert e < i ==> l[e].hi + 2 <= l[i].lo;
  }

  /** An empty range standing at `ip` is moved up, not taken from: the result is inside out. */
  lemma SplitAtEmpty(l: seq<Rg>, ip: IP)
    requires Separated(l) && ip < SIZE - 1 && EmptyAt(l, ip)
    ensures SplitList(l, ip).0 && !Has(l, ip)
    ensures !Separated(SplitList(l, ip).1)
  {
    var e :| 0 <= e < |l| && Empty(l[e]) && l[e].lo == ip;
    forall i | 0 <= i < |l| && i != e ensures !Hit(l[i], ip) { EmptyAlone(l, e, i); }
    assert Hit(l[e], ip);
    assert FirstHit(l, ip) == e;
    assert SplitList(l, ip).1[e] == Rg(ip + 1, ip - 1);
  }

  /** At the very top of the address space the upper piece wraps round to everything. */
  lemma SplitWraps(r: Rg)
    requires r.lo < r.hi == SIZE - 1
    ensures SplitList([r], r.hi) == (true, [Rg(r.lo, SIZE - 2), Rg(0, SIZE - 1)])
  {
    var l := [r];
    assert Hit(l[0], r.hi);
    assert FirstHit(l, r.hi) == 0;
    assert l[..0] + Pieces(r, r.hi) + l[1..] == Pieces(r, r.hi);
  }

  // ------------------------------------------------------------------
  // Putting one address back: MergeIPRangeList

  /** The first loop: ranges starting below `ip`, then `ip`, then the rest; a range starting at `ip` is dropped. */
  function Insert(l: seq<Rg>, ip: IP): seq<Rg> {
    if l == [] then [Rg(ip, ip)]
    else if l[0].lo > ip then [Rg(ip, ip)] + l
    else InsertStep(l[0], ip) + Insert(l[1..], ip)
  }

  /** One turn of the first loop while `ip` has not been placed. */
  function InsertStep(r: Rg, ip: IP): seq<Rg> {
    if r.lo < ip then [r] else if r.lo > ip then [Rg(ip, ip), r] else []
  }

  /** One turn of the second loop: a range that starts one above the end of the last kept range extends it. */
  function FuseStep(acc: seq<Rg>, r: Rg): seq<Rg> {
    if acc != [] && Add(acc[|acc| - 1].hi, 1) == r.lo then
      acc[..|acc| - 1] + [Rg(acc[|acc| - 1].lo, r.hi)]
    else acc + [r]
  }

  /** The second loop. */
  function Fuse(acc: seq<Rg>, l: seq<Rg>): seq<Rg>
    decreases |l|
  {
    if l == [] then acc else Fuse(FuseStep(acc, l[0]), l[1..])
  }

  function MergeList(l: seq<Rg>, ip: IP): seq<Rg> {
    Fuse([], Insert(l, ip))
  }

  /** How many ranges, from the front, start below `ip`. */
  function Below(l: seq<Rg>, ip: IP): (k: nat)
    ensures k <= |l|
    ensures forall i :: 0 <= i < k ==> l[i].lo < ip
    ensures k < |l| ==> ip <= l[k].lo
  {
    if l == [] || ip <= l[0].lo then 0 else 1 + Below(l[1..], ip)
  }

  /** How the merge cuts a list: what stays on the left, the one range holding `ip`, what stays on the right. */
  datatype Cut = Cut(left: seq<Rg>, mid: Rg, right: seq<Rg>) {
    function Join(): seq<Rg> { left + [mid] + right }
  }

  function CutParts(a: seq<Rg>, ip: IP, b: seq<Rg>): Cut {
    var fuseLeft := a != [] && a[|a| - 1].hi + 1 == ip;
    var fuseRight := b != [] && b[0].lo == ip + 1;
    Cut(if fuseLeft then a[..|a| - 1] else a,
        Rg(if fuseLeft then a[|a| - 1].lo else ip, if fuseRight then b[0].hi else ip),
        if fuseRight then b[1..] else b)
  }

  function CutAt(l: seq<Rg>, ip: IP): Cut {
    var k := Below(l, ip);
    CutParts(l[..k], ip, Above(l, ip))
  }

  /** `a` lies wholly below `ip` and `b` wholly above it. */
  ghost predicate Around(a: seq<Rg>, ip: IP, b: seq<Rg>) {
    && Separated(a) && Separated(b)
    && (forall i :: 0 <= i < |a| ==> a[i].hi < ip)
    && (forall j :: 0 <= j < |b| ==> ip < b[j].lo)
  }

  lemma {:induction false} InsertAll(a: seq<Rg>, ip: IP, b: seq<Rg>)
    requires forall i :: 0 <= i < |a| ==> a[i].lo < ip
    ensures Insert(a + b, ip) == a + Insert(b, ip)
  {
    if a == [] {
      assert a + b == b;
    } else {
      assert (a + b)[0] == a[0] && (a + b)[1..] == a[1..] + b;
      InsertAll(a[1..], ip, b);
    }
  }

  /** What the merge keeps above `ip`: a range starting at `ip` goes. */
  function Above(l: seq<Rg>, ip: IP): seq<Rg> {
    var t := l[Below(l, ip)..];
    if t != [] && t[0].lo == ip then t[1..] else t
  }

  lemma InsertAbove(t: seq<Rg>, ip: IP)
    requires Separated(t) && !Has(t, ip) && (t != [] ==> ip <= t[0].lo)
    ensures var b := if t != [] && t[0].lo == ip then t[1..] else t;
            Insert(t, ip) == [Rg(ip, ip)] + b && Separated(b) && forall j :: 0 <= j < |b| ==> ip < b[j].lo
  {
    if t != [] {
      assert !In(t[0], ip);
      SeparatedAround(t, 0);
      forall j | 0 < j < |t| ensures ip < t[j].lo {
        assert t[0].hi + 2 <= t[j].lo && t[0].lo <= t[0].hi + 1;
      }
    }
  }

  /** The parts of a separated list below and above an address it does not hold. */
  lemma PartsAround(l: seq<Rg>, ip: IP)
    requires Separated(l) && !Has(l, ip)
    ensures Around(l[..Below(l, ip)], ip, Above(l, ip))
    ensures Insert(l, ip) == l[..Below(l, ip)] + ([Rg(ip, ip)] + Above(l, ip))
  {
    var k := Below(l, ip);
    assert l == l[..k] + l[k..];
    PartsOf(l[..k], ip, l[k..]);
  }

  lemma PartsOf(a: seq<Rg>, ip: IP, t: seq<Rg>)
    requires Separated(a + t) && !Has(a + t, ip)
    requires forall i :: 0 <= i < |a| ==> a[i].lo < ip
    requires t != [] ==> ip <= t[0].lo
    ensures var b := if t != [] && t[0].lo == ip then t[1..] else t;
            Around(a, ip, b) && Insert(a + t, ip) == a + ([Rg(ip, ip)] + b)
  {
    SeparatedAppend(a, t);
    HasAppend(a, t, ip);
    InsertAll(a, ip, t);
    InsertAbove(t, ip);
    forall i | 0 <= i < |a| ensures a[i].hi < ip { assert !In(a[i], ip); }
  }

  lemma {:induction false} FuseSeparated(acc: seq<Rg>, a: seq<Rg>, b: seq<Rg>)
    requires Separated(acc + a)
    ensures Fuse(acc, a + b) == Fuse(acc + a, b)
    decreases |a|
  {
    if a == [] {
      assert a + b == b && acc + a == acc;
    } else {
      assert (a + b)[0] == a[0] && (a + b)[1..] == a[1..] + b;
      assert acc + a == acc + [a[0]] + a[1..];
      if acc != [] {
        assert (acc + a)[|acc| - 1].hi + 2 <= (acc + a)[|acc|].lo;
      }
      assert FuseStep(acc, a[0]) == acc + [a[0]];
      FuseSeparated(acc + [a[0]], a[1..], b);
    }
  }

  lemma CutSeparated(a: seq<Rg>, ip: IP, b: seq<Rg>)
    requires Around(a, ip, b)
    ensures var c := CutParts(a, ip, b); Separated(c.left + [c.mid]) && Separated(c.Join())
  {
    CutLeftApart(a, ip);
    CutRightApart(b, ip);
    hide Separated;
    var c := CutParts(a, ip, b);
    JoinThree(c.left, c.mid, c.right);
  }

  lemma JoinThree(l: seq<Rg>, m: Rg, r: seq<Rg>)
    requires Separated(l) && Separated(r) && m.lo <= m.hi + 1
    requires forall i :: 0 <= i < |l| ==> l[i].hi + 2 <= m.lo
    requires forall j :: 0 <= j < |r| ==> m.hi + 2 <= r[j].lo
    ensures Separated(l + [m]) && Separated(l + [m] + r)
  {
    assert Separated([m]);
    SeparatedAppend(l, [m]);
    assert Before(l + [m], r) by {
      forall i, j | 0 <= i < |l + [m]| && 0 <= j < |r| ensures (l + [m])[i].hi + 2 <= r[j].lo {
        assert i < |l| ==> l[i].hi + 2 <= m.lo;
      }
    }
    SeparatedAppend(l + [m], r);
  }

  lemma CutLeftApart(a: seq<Rg>, ip: IP)
    requires Separated(a) && forall i :: 0 <= i < |a| ==> a[i].hi < ip
    ensures var c := CutParts(a, ip, []);
            Separated(c.left) && c.mid.lo <= ip && forall i :: 0 <= i < |c.left| ==> c.left[i].hi + 2 <= c.mid.lo
  {
    if a != [] {
      forall i | 0 <= i < |a| - 1 ensures a[i].hi + 2 <= a[|a| - 1].lo {}
    }
  }

  lemma CutRightApart(b: seq<Rg>, ip: IP)
    requires Separated(b) && forall j :: 0 <= j < |b| ==> ip < b[j].lo
    ensures var c := CutParts([], ip, b);
            Separated(c.right) && ip <= c.mid.hi && forall j :: 0 <= j < |c.right| ==> c.mid.hi + 2 <= c.right[j].lo
  {
    if b != [] {
      SeparatedAround(b, 0);
      forall j | 0 < j < |b| ensures b[0].hi + 2 <= b[j].lo && b[0].lo <= b[0].hi + 1 {}
    }
  }

  /** The added address joins the list, or the range that ends just below it. */
  lemma FuseAddress(a: seq<Rg>, ip: IP, b: seq<Rg>)
    requires Around(a, ip, b)
    ensures var c := CutParts(a, ip, b);
            Fuse(a, [Rg(ip, ip)] + b) == Fuse(c.left + [Rg(c.mid.lo, ip)], b)
  {
    var l := [Rg(ip, ip)] + b;
    assert l[0] == Rg(ip, ip) && l[1..] == b;
  }

  /** The range that starts just above the added address is absorbed. */
  lemma FuseAbove(left: seq<Rg>, lo: IP, ip: IP, b: seq<Rg>)
    requires b != [] ==> ip < b[0].lo
    ensures Fuse(left + [Rg(lo, ip)], b) ==
            if b != [] && b[0].lo == ip + 1 then Fuse(left + [Rg(lo, b[0].hi)], b[1..])
            else Fuse(left + [Rg(lo, ip)], b)
  {
    var head := left + [Rg(lo, ip)];
    assert head[|head| - 1] == Rg(lo, ip) && head[..|head| - 1] == left;
  }

  lemma FuseParts(a: seq<Rg>, ip: IP, b: seq<Rg>)
    requires Around(a, ip, b)
    ensures Fuse(a, [Rg(ip, ip)] + b) == CutParts(a, ip, b).Join()
  {
    var c := CutParts(a, ip, b);
    FuseAddress(a, ip, b);
    FuseAbove(c.left, c.mid.lo, ip, b);
    assert Fuse(a, [Rg(ip, ip)] + b) == Fuse(c.left + [c.mid], c.right);
    CutSeparated(a, ip, b);
    assert c.right + [] == c.right;
    FuseSeparated(c.left + [c.mid], c.right, []);
  }

  /** On a separated list without `ip` the two loops amount to one cut. */
  lemma MergeIsCut(l: seq<Rg>, ip: IP)
    requires Separated(l) && !Has(l, ip)
    ensures MergeList(l, ip) == CutAt(l, ip).Join()
  {
    var k := Below(l, ip);
    var b := Above(l, ip);
    PartsAround(l, ip);
    assert [] + l[..k] == l[..k];
    FuseSeparated([], l[..k], [Rg(ip, ip)] + b);
    FuseParts(l[..k], ip, b);
  }

  lemma MergeSeparated(l: seq<Rg>, ip: IP)
    requires Separated(l) && !Has(l, ip)
    ensures Separated(MergeList(l, ip))
  {
    MergeIsCut(l, ip);
    PartsAround(l, ip);
    CutSeparated(l[..Below(l, ip)], ip, Above(l, ip));
  }

  lemma PartsHave(a: seq<Rg>, ip: IP, t: seq<Rg>, x: int)
    requires Separated(a + t) && !Has(a + t, ip)
    requires forall i :: 0 <= i < |a| ==> a[i].lo < ip
    requires t != [] ==> ip <= t[0].lo
    ensures var b := if t != [] && t[0].lo == ip then t[1..] else t;
            && (Has(a + t, x) <==> Has(a, x) || Has(b, x))
            && (x != ip ==> (EmptyAt(a + t, x) <==> EmptyAt(a, x) || EmptyAt(b, x)))
  {
    HasAppend(a, t, x);
    HasAppend(a, t, ip);
    EmptyAppend(a, t, x);
    if t != [] && t[0].lo == ip {
      assert !In(t[0], ip);
      assert t == [t[0]] + t[1..];
      HasAppend([t[0]], t[1..], x);
      EmptyAppend([t[0]], t[1..], x);
    }
  }

  /** Left of the cut. */
  lemma CutLeft(a: seq<Rg>, ip: IP, x: int)
    requires Separated(a) && forall i :: 0 <= i < |a| ==> a[i].hi < ip
    ensures var c := CutParts(a, ip, []);
            && (Has(a, x) <==> Has(c.left, x) || (c.mid.lo <= x < ip))
            && (EmptyAt(a, x) && x != ip <==> EmptyAt(c.left, x) && x != ip)
            && (EmptyAt(a, x) ==> x <= ip)
  {
    if a != [] && a[|a| - 1].hi + 1 == ip {
      var z := a[|a| - 1];
      assert a == a[..|a| - 1] + [z];
      HasAppend(a[..|a| - 1], [z], x);
      EmptyAppend(a[..|a| - 1], [z], x);
      assert Has([z], x) <==> In([z][0], x);
      assert EmptyAt([z], x) <==> Empty([z][0]) && z.lo == x;
    }
  }

  /** Right of the cut. */
  lemma CutRight(b: seq<Rg>, ip: IP, x: int)
    requires Separated(b) && forall j :: 0 <= j < |b| ==> ip < b[j].lo
    ensures var c := CutParts([], ip, b);
            && (Has(b, x) <==> Has(c.right, x) || (ip < x <= c.mid.hi))
            && (EmptyAt(b, x) && x != ip + 1 <==> EmptyAt(c.right, x))
            && (EmptyAt(b, x) ==> x > ip)
  {
    if b != [] {
      assert b == [b[0]] + b[1..];
      SeparatedAround(b, 0);
      HasAppend([b[0]], b[1..], x);
      EmptyAppend([b[0]], b[1..], x);
      assert Has([b[0]], x) <==> In([b[0]][0], x);
      assert EmptyAt([b[0]], x) <==> Empty([b[0]][0]) && b[0].lo == x;
      assert forall j :: 0 < j < |b| ==> b[0].hi + 2 <= b[j].lo && b[0].lo <= b[0].hi + 1;
    }
  }

  /**
   * Merging an absent address into a separated list adds exactly that address, keeps the
   * list separated, and removes exactly the empty ranges that start at `ip` or just above it.
   */
  lemma MergeDenotes(l: seq<Rg>, ip: IP)
    requires Separated(l) && !Has(l, ip)
    ensures var l' := MergeList(l, ip);
            && Separated(l')
            && (forall x: int :: Has(l', x) <==> Has(l, x) || x == ip)
            && (forall x: int :: EmptyAt(l', x) <==> EmptyAt(l, x) && x != ip && x != ip + 1)
  {
    MergeSeparated(l, ip);
    MergeIsCut(l, ip);
    forall x: int { CutAtHas(l, ip, x); }
  }

  lemma CutAtHas(l: seq<Rg>, ip: IP, x: int)
    requires Separated(l) && !Has(l, ip)
    ensures Has(CutAt(l, ip).Join(), x) <==> Has(l, x) || x == ip
    ensures EmptyAt(CutAt(l, ip).Join(), x) <==> EmptyAt(l, x) && x != ip && x != ip + 1
  {
    var k := Below(l, ip);
    assert l == l[..k] + l[k..];
    CutOf(l[..k], ip, l[k..], x);
  }

  lemma CutOf(a: seq<Rg>, ip: IP, t: seq<Rg>, x: int)
    requires Separated(a + t) && !Has(a + t, ip)
    requires forall i :: 0 <= i < |a| ==> a[i].lo < ip
    requires t != [] ==> ip <= t[0].lo
    ensures var b := if t != [] && t[0].lo == ip then t[1..] else t;
            var l' := CutParts(a, ip, b).Join();
            && (Has(l', x) <==> Has(a + t, x) || x == ip)
            && (EmptyAt(l', x) <==> EmptyAt(a + t, x) && x != ip && x != ip + 1)
  {
    PartsOf(a, ip, t);
    PartsHave(a, ip, t, x);
    CutHas(a, ip, if t != [] && t[0].lo == ip then t[1..] else t, x);
  }

  lemma CutHas(a: seq<Rg>, ip: IP, b: seq<Rg>, x: int)
    requires Around(a, ip, b)
    ensures var l' := CutParts(a, ip, b).Join();
            && (Has(l', x) <==> Has(a, x) || Has(b, x) || x == ip)
            && (EmptyAt(l', x) <==> (EmptyAt(a, x) || EmptyAt(b, x)) && x != ip && x != ip + 1)
  {
    var c := CutParts(a, ip, b);
    CutLeft(a, ip, x);
    CutRight(b, ip, x);
    HasAppend(c.left + [c.mid], c.right, x);
    HasAppend(c.left, [c.mid], x);
    EmptyAppend(c.left + [c.mid], c.right, x);
    EmptyAppend(c.left, [c.mid], x);
    assert Has([c.mid], x) <==> In([c.mid][0], x);
    assert EmptyAt([c.mid], x) <==> Empty([c.mid][0]) && c.mid.lo == x;
  }

  lemma CoalescedIff(l: seq<Rg>)
    ensures Coalesced(l) <==> Separated(l) && forall x: int :: !EmptyAt(l, x)
  {
    if Separated(l) && forall x: int :: !EmptyAt(l, x) {
      forall i | 0 <= i < |l| ensures !Empty(l[i]) { assert !EmptyAt(l, l[i].lo); }
    }
  }

  /** Merging keeps the canonical form. */
  lemma MergeCoalesced(l: seq<Rg>, ip: IP)
    requires Coalesced(l) && !Has(l, ip)
    ensures Coalesced(MergeList(l, ip))
    ensures forall x: int :: Has(MergeList(l, ip), x) <==> Has(l, x) || x == ip
  {
    CoalescedIff(l);
    MergeDenotes(l, ip);
    CoalescedIff(MergeList(l, ip));
  }

  /** Taking an address out of a coalesced list and merging it back gives the same list. */
  lemma SplitThenMerge(l: seq<Rg>, ip: IP)
    requires Coalesced(l) && Has(l, ip) && ip < SIZE - 1
    ensures SplitList(l, ip).0
    ensures MergeList(SplitList(l, ip).1, ip) == l
  {
    CoalescedIff(l);
    SplitSucceeds(l, ip);
    SplitDenotes(l, ip);
    var l' := SplitList(l, ip).1;
    MergeDenotes(l', ip);
    CoalescedIff(MergeList(l', ip));
    CanonicalUnique(MergeList(l', ip), l);
  }

  // ------------------------------------------------------------------
  // Merging many addresses

  function MergeAll(l: seq<Rg>, ips: seq<IP>): seq<Rg>
    decreases |ips|
  {
    if ips == [] then l else MergeList(MergeAll(l, ips[..|ips| - 1]), ips[|ips| - 1])
  }

  ghost predicate NoDuplicates<T>(s: seq<T>) {
    forall i, j :: 0 <= i < j < |s| ==> s[i] != s[j]
  }

  lemma {:induction false} MergeAllDenotes(l: seq<Rg>, ips: seq<IP>)
    requires Coalesced(l) && NoDuplicates(ips) && forall ip :: ip in ips ==> !Has(l, ip)
    ensures Coalesced(MergeAll(l, ips))
    ensures forall x: int :: Has(MergeAll(l, ips), x) <==> Has(l, x) || x in ips
    decreases |ips|
  {
    if ips != [] {
      var init, last := ips[..|ips| - 1], ips[|ips| - 1];
      assert ips == init + [last];
      MergeAllDenotes(l, init);
      MergeCoalesced(MergeAll(l, init), last);
    }
  }

  /** The order in which addresses come back does not matter. */
  lemma MergeAllOrder(l: seq<Rg>, p: seq<IP>, q: seq<IP>)
    requires Coalesced(l) && NoDuplicates(p) && NoDuplicates(q)
    requires forall ip :: ip in p <==> ip in q
    requires forall ip :: ip in p ==> !Has(l, ip)
    ensures MergeAll(l, p) == MergeAll(l, q)
  {
    MergeAllDenotes(l, p);
    MergeAllDenotes(l, q);
    forall x: int ensures Has(MergeAll(l, p), x) <==> Has(MergeAll(l, q), x) {
      if x in p { var i :| 0 <= i < |p| && p[i] == x; assert p[i] in q; }
      if x in q { var i :| 0 <= i < |q| && q[i] == x; assert q[i] in p; }
    }
    CanonicalUnique(MergeAll(l, p), MergeAll(l, q));
  }

  // ------------------------------------------------------------------
  // Runs of consecutive addresses: GetIPRangeList

  ghost predicate Ascending(s: seq<IP>) {
    forall i, j :: 0 <= i < j < |s| ==> s[i] <= s[j]
  }

  /** One turn of the loop: an address one above the end of the last run extends it. */
  function AppendRun(r: seq<Rg>, x: IP): seq<Rg> {
    if r != [] && Add(r[|r| - 1].hi, 1) == x then r[..|r| - 1] + [Rg(r[|r| - 1].lo, x)]
    else r + [Rg(x, x)]
  }

  /** The ranges built from a list of addresses, one address at a time from the left. */
  function Runs(s: seq<IP>): (r: seq<Rg>)
    ensures s == [] <==> r == []
    ensures s != [] ==> r[|r| - 1].hi == s[|s| - 1]
    decreases |s|
  {
    if s == [] then [] else AppendRun(Runs(s[..|s| - 1]), s[|s| - 1])
  }

  lemma AppendRunHas(r: seq<Rg>, x: IP, y: int)
    requires forall i :: 0 <= i < |r| ==> !Empty(r[i])
    requires r != [] ==> r[|r| - 1].hi <= x
    ensures Has(AppendRun(r, x), y) <==> Has(r, y) || y == x
    ensures forall i :: 0 <= i < |AppendRun(r, x)| ==> !Empty(AppendRun(r, x)[i])
  {
    if r != [] && Add(r[|r| - 1].hi, 1) == x {
      var z := r[|r| - 1];
      assert r == r[..|r| - 1] + [z];
      HasAppend(r[..|r| - 1], [z], y);
      HasAppend(r[..|r| - 1], [Rg(z.lo, x)], y);
      assert Has([z], y) <==> In([z][0], y);
      assert Has([Rg(z.lo, x)], y) <==> In([Rg(z.lo, x)][0], y);
    } else {
      HasAppend(r, [Rg(x, x)], y);
      assert Has([Rg(x, x)], y) <==> In([Rg(x, x)][0], y);
    }
  }

  lemma {:induction false} RunsHave(s: seq<IP>, y: int)
    requires Ascending(s)
    ensures Has(Runs(s), y) <==> y in s
    ensures forall i :: 0 <= i < |Runs(s)| ==> !Empty(Runs(s)[i])
    decreases |s|
  {
    if s != [] {
      var init, last := s[..|s| - 1], s[|s| - 1];
      assert s == init + [last];
      RunsHave(init, y);
      assert |s| > 1 ==> s[|s| - 2] <= s[|s| - 1];
      AppendRunHas(Runs(init), last, y);
    }
  }

  /** The runs of a sorted list, duplicates or not, denote exactly its addresses, and start in order. */
  lemma RunsDenote(s: seq<IP>)
    requires Ascending(s)
    ensures forall y: int :: Has(Runs(s), y) <==> y in s
    ensures forall i :: 0 <= i < |Runs(s)| ==> !Empty(Runs(s)[i])
  {
    RunsHave(s, 0);
    forall y: int { RunsHave(s, y); }
  }

  /** Without duplicates the runs are maximal: the list is in canonical form. */
  lemma {:induction false} RunsCoalesced(s: seq<IP>)
    requires Ascending(s) && NoDuplicates(s)
    ensures Coalesced(Runs(s))
    decreases |s|
  {
    if s != [] {
      var init, last := s[..|s| - 1], s[|s| - 1];
      RunsCoalesced(init);
      if init != [] {
        assert s[|s| - 2] <= s[|s| - 1] && s[|s| - 2] != s[|s| - 1];
        ExtendCoalesced(Runs(init), last);
      }
    }
  }

  lemma ExtendCoalesced(r: seq<Rg>, x: IP)
    requires Coalesced(r) && r != [] && r[|r| - 1].hi < x
    ensures Coalesced(AppendRun(r, x))
  {
    if Add(r[|r| - 1].hi, 1) == x {
      JoinLast(r, r[..|r| - 1], r[|r| - 1], x);
    } else {
      NewLast(r, x);
    }
  }

  lemma JoinLast(r: seq<Rg>, init: seq<Rg>, z: Rg, x: IP)
    requires Coalesced(r) && r != [] && init == r[..|r| - 1] && z == r[|r| - 1] && z.hi < x
    ensures Coalesced(init + [Rg(z.lo, x)])
  {
    assert forall i :: 0 <= i < |init| ==> r[i].hi + 2 <= r[|r| - 1].lo;
  }

  lemma NewLast(r: seq<Rg>, x: IP)
    requires Coalesced(r) && r != [] && r[|r| - 1].hi + 1 < x
    ensures Coalesced(r + [Rg(x, x)])
  {
    assert forall i :: 0 <= i < |r| - 1 ==> r[i].hi + 2 <= r[|r| - 1].lo;
  }

  /** Building the runs of duplicate-free addresses is merging them one by one, in any order. */
  lemma RunsAreMerges(s: seq<IP>, p: seq<IP>)
    requires Ascending(s) && NoDuplicates(s) && NoDuplicates(p)
    requires forall x :: x in s <==> x in p
    ensures Runs(s) == MergeAll([], p)
  {
    RunsDenote(s);
    RunsCoalesced(s);
    MergeAllDenotes([], p);
    forall x: int ensures Has(Runs(s), x) <==> Has(MergeAll([], p), x) {
      if x in p { var i :| 0 <= i < |p| && p[i] == x; assert p[i] in s; }
      if x in s { var i :| 0 <= i < |s| && s[i] == x; assert s[i] in p; }
    }
    CanonicalUnique(Runs(s), MergeAll([], p));
  }
}
