/**
 * The cyclic walk of pkg/ipametcd/backend/allocator/allocator.go over the positions of a range
 * set: order, one full turn, and which addresses a turn passes.
 */
module RangeWalk {
  import opened Addrs

  /** A canonical range. The gateway may lie anywhere, even in the other family. */
  datatype Range = Range(v6: bool, lo: nat, hi: nat, gw: Addr, ones: nat)

  predicate InRange(r: Range, a: Addr) {
    a.v6 == r.v6 && r.lo <= a.n <= r.hi
  }

  predicate Apart(r: Range, s: Range) {
    r.v6 != s.v6 || r.hi < s.lo || s.hi < r.lo
  }

  /** What RangeSet.Canonicalize establishes: ranges of one family, none inverted, no overlap. */
  ghost predicate WellFormed(rs: seq<Range>) {
    && rs != []
    && (forall i :: 0 <= i < |rs| ==> rs[i].lo <= rs[i].hi < Width(rs[i].v6) && rs[i].v6 == rs[0].v6)
    && (forall i, j :: 0 <= i < j < |rs| ==> Apart(rs[i], rs[j]))
  }

  // ------------------------------------------------------------------
  // Positions and their order

  datatype Pos = Pos(i: nat, n: nat)

  ghost predicate IsPos(rs: seq<Range>, p: Pos) {
    p.i < |rs| && rs[p.i].lo <= p.n <= rs[p.i].hi
  }

  function AddrAt(rs: seq<Range>, p: Pos): Addr
    requires WellFormed(rs) && IsPos(rs, p)
  {
    RawAddr(rs[p.i].v6, p.n)
  }

  function First(rs: seq<Range>): (p: Pos)
    requires WellFormed(rs)
    ensures IsPos(rs, p)
  {
    Pos(0, rs[0].lo)
  }

  /** The position after `p`: the next address, or the start of the next range, cyclically. */
  function Next(rs: seq<Range>, p: Pos): Pos
    requires WellFormed(rs) && IsPos(rs, p)
  {
    if p.n < rs[p.i].hi then Pos(p.i, p.n + 1)
    else if p.i + 1 < |rs| then Pos(p.i + 1, rs[p.i + 1].lo)
    else First(rs)
  }

  /**
   * The cursor rule of the iterator, whatever the ranges are: from the end of a range to the start of
   * the next one, from any other address to the address above it.
   */
  function Cursor(rs: seq<Range>, p: Pos): (q: Pos)
    requires p.i < |rs|
    ensures q.i < |rs|
  {
    if p.n == rs[p.i].hi then
      var i := if p.i + 1 < |rs| then p.i + 1 else 0;
      Pos(i, rs[i].lo)
    else Pos(p.i, p.n + 1)
  }

  /** On well-formed ranges that is the next position. */
  lemma CursorNext(rs: seq<Range>, p: Pos)
    requires WellFormed(rs) && IsPos(rs, p)
    ensures Cursor(rs, p) == Next(rs, p) && IsPos(rs, Next(rs, p))
    ensures CursorFits(rs, p)
  {
  }

  /** No address on the way is too large for its family. */
  ghost predicate CursorFits(rs: seq<Range>, p: Pos)
    requires p.i < |rs|
  {
    var q := Cursor(rs, p);
    rs[p.i].hi < Width(rs[p.i].v6) && p.n < Width(rs[p.i].v6) && q.n < Width(rs[q.i].v6)
  }

  /** Where the cursor stands after `k` moves. */
  function Wander(rs: seq<Range>, p: Pos, k: nat): (q: Pos)
    requires p.i < |rs|
    ensures q.i < |rs|
  {
    if k == 0 then p else Cursor(rs, Wander(rs, p, k - 1))
  }

  /** A cursor above the end of its range never meets it. */
  lemma {:induction false} WanderOn(rs: seq<Range>, p: Pos, k: nat)
    requires p.i < |rs| && rs[p.i].hi < p.n
    ensures Wander(rs, p, k) == Pos(p.i, p.n + k)
  {
    if k > 0 { WanderOn(rs, p, k - 1); }
  }

  /** How many addresses the first `i` ranges hold. */
  function Before(rs: seq<Range>, i: nat): nat
    requires WellFormed(rs) && i <= |rs|
  {
    if i == 0 then 0 else Before(rs, i - 1) + (rs[i - 1].hi - rs[i - 1].lo + 1)
  }

  function Total(rs: seq<Range>): nat
    requires WellFormed(rs)
  {
    Before(rs, |rs|)
  }

  /** The rank of a position in the set. */
  function Ord(rs: seq<Range>, p: Pos): nat
    requires WellFormed(rs) && IsPos(rs, p)
  {
    Before(rs, p.i) + (p.n - rs[p.i].lo)
  }

  lemma {:induction false} BeforeMono(rs: seq<Range>, i: nat, j: nat)
    requires WellFormed(rs) && i < j <= |rs|
    ensures Before(rs, i) + (rs[i].hi - rs[i].lo + 1) <= Before(rs, j)
    decreases j
  {
    if i + 1 < j { BeforeMono(rs, i, j - 1); }
  }

  lemma OrdBound(rs: seq<Range>, p: Pos)
    requires WellFormed(rs) && IsPos(rs, p)
    ensures Ord(rs, p) < Total(rs)
  {
    BeforeMono(rs, p.i, |rs|);
  }

  /** Ranks follow the order of the ranges in the set, and within a range that of the numbers. */
  lemma OrdOrder(rs: seq<Range>, p: Pos, q: Pos)
    requires WellFormed(rs) && IsPos(rs, p) && IsPos(rs, q)
    ensures Ord(rs, p) < Ord(rs, q) <==> p.i < q.i || (p.i == q.i && p.n < q.n)
  {
    if p.i < q.i { BeforeMono(rs, p.i, q.i); }
    if q.i < p.i { BeforeMono(rs, q.i, p.i); }
  }

  lemma OrdInjective(rs: seq<Range>, p: Pos, q: Pos)
    requires WellFormed(rs) && IsPos(rs, p) && IsPos(rs, q) && Ord(rs, p) == Ord(rs, q)
    ensures p == q
  {
    if p.i < q.i { BeforeMono(rs, p.i, q.i); }
    if q.i < p.i { BeforeMono(rs, q.i, p.i); }
  }

  lemma NextOrd(rs: seq<Range>, p: Pos)
    requires WellFormed(rs) && IsPos(rs, p)
    ensures IsPos(rs, Next(rs, p))
    ensures Ord(rs, Next(rs, p)) == if Ord(rs, p) + 1 == Total(rs) then 0 else Ord(rs, p) + 1
  {
    if p.i + 1 < |rs| { BeforeMono(rs, p.i + 1, |rs|); }
  }

  /** Distinct positions carry distinct addresses. */
  lemma AddrInjective(rs: seq<Range>, p: Pos, q: Pos)
    requires WellFormed(rs) && IsPos(rs, p) && IsPos(rs, q)
    requires AddrAt(rs, p) == AddrAt(rs, q)
    ensures p == q
  {
    assert forall i, j :: 0 <= i < j < |rs| ==> Apart(rs[i], rs[j]);
  }

  // ------------------------------------------------------------------
  // The walk

  function Walk(rs: seq<Range>, p: Pos, k: nat): (q: Pos)
    requires WellFormed(rs) && IsPos(rs, p)
    ensures IsPos(rs, q)
    decreases k
  {
    if k == 0 then p
    else
      var q := Walk(rs, p, k - 1);
      NextOrd(rs, q);
      Next(rs, q)
  }

  lemma {:induction false} WalkOrd(rs: seq<Range>, p: Pos, k: nat)
    requires WellFormed(rs) && IsPos(rs, p) && k <= Total(rs)
    ensures Ord(rs, Walk(rs, p, k)) ==
            if Ord(rs, p) + k < Total(rs) then Ord(rs, p) + k else Ord(rs, p) + k - Total(rs)
    decreases k
  {
    hide Next, Ord;
    OrdBound(rs, p);
    if k > 0 {
      WalkOrd(rs, p, k - 1);
      NextOrd(rs, Walk(rs, p, k - 1));
    }
  }

  /** A full turn ends where it began. */
  lemma FullTurn(rs: seq<Range>, p: Pos)
    requires WellFormed(rs) && IsPos(rs, p)
    ensures Walk(rs, p, Total(rs)) == p
  {
    WalkOrd(rs, p, Total(rs));
    OrdInjective(rs, Walk(rs, p, Total(rs)), p);
  }

  /** Within one turn no position comes twice. */
  lemma TurnInjective(rs: seq<Range>, p: Pos, j: nat, k: nat)
    requires WellFormed(rs) && IsPos(rs, p) && j < k < Total(rs)
    ensures Walk(rs, p, j) != Walk(rs, p, k)
  {
    WalkOrd(rs, p, j);
    WalkOrd(rs, p, k);
  }

  lemma {:induction false} WalkAdd(rs: seq<Range>, p: Pos, a: nat, b: nat)
    requires WellFormed(rs) && IsPos(rs, p)
    ensures Walk(rs, p, a + b) == Walk(rs, Walk(rs, p, a), b)
    decreases b
  {
    hide Next, WellFormed, IsPos;
    if b > 0 { WalkAdd(rs, p, a, b - 1); }
  }

  /** How many steps the walk needs from `p` to `q`. */
  function Distance(rs: seq<Range>, p: Pos, q: Pos): nat
    requires WellFormed(rs) && IsPos(rs, p) && IsPos(rs, q)
  {
    OrdBound(rs, p);
    if Ord(rs, p) <= Ord(rs, q) then Ord(rs, q) - Ord(rs, p) else Ord(rs, q) + Total(rs) - Ord(rs, p)
  }

  lemma WalkDistance(rs: seq<Range>, p: Pos, q: Pos)
    requires WellFormed(rs) && IsPos(rs, p) && IsPos(rs, q)
    ensures Distance(rs, p, q) < Total(rs) && Walk(rs, p, Distance(rs, p, q)) == q
  {
    OrdBound(rs, p);
    OrdBound(rs, q);
    var d := Distance(rs, p, q);
    WalkOrd(rs, p, d);
    OrdInjective(rs, Walk(rs, p, d), q);
  }

  lemma DistanceWalk(rs: seq<Range>, p: Pos, k: nat)
    requires WellFormed(rs) && IsPos(rs, p) && k < Total(rs)
    ensures Distance(rs, p, Walk(rs, p, k)) == k
  {
    WalkOrd(rs, p, k);
    OrdBound(rs, p);
  }

  /** A step that does not start at the goal brings it nearer. */
  lemma StepNearer(rs: seq<Range>, p: Pos, goal: Pos)
    requires WellFormed(rs) && IsPos(rs, p) && IsPos(rs, goal) && p != goal
    ensures IsPos(rs, Next(rs, p)) && Distance(rs, Next(rs, p), goal) == Distance(rs, p, goal) - 1
  {
    NextOrd(rs, p);
    OrdBound(rs, p);
    OrdBound(rs, goal);
    if Ord(rs, p) == Ord(rs, goal) { OrdInjective(rs, p, goal); }
  }

  // ------------------------------------------------------------------
  // What the walk hands out

  /** Not the gateway of its own range, and not taken. */
  ghost predicate Keep(rs: seq<Range>, p: Pos, taken: iset<Addr>)
    requires WellFormed(rs) && IsPos(rs, p)
  {
    AddrAt(rs, p) != rs[p.i].gw && AddrAt(rs, p) !in taken
  }

  /** The kept addresses among the first `k` positions from `p`, in walking order. */
  ghost function Seen(rs: seq<Range>, p: Pos, k: nat, taken: iset<Addr>): seq<Addr>
    requires WellFormed(rs) && IsPos(rs, p)
    decreases k
  {
    if k == 0 then []
    else
      var q := Walk(rs, p, k - 1);
      Seen(rs, p, k - 1, taken) + if Keep(rs, q, taken) then [AddrAt(rs, q)] else []
  }

  /** One lap: the kept addresses of the whole set, in cyclic order from `p`. */
  ghost function Lap(rs: seq<Range>, p: Pos, taken: iset<Addr>): seq<Addr>
    requires WellFormed(rs) && IsPos(rs, p)
  {
    Seen(rs, p, Total(rs), taken)
  }

  lemma {:induction false} SeenAdd(rs: seq<Range>, p: Pos, a: nat, b: nat, taken: iset<Addr>)
    requires WellFormed(rs) && IsPos(rs, p)
    ensures Seen(rs, p, a + b, taken) == Seen(rs, p, a, taken) + Seen(rs, Walk(rs, p, a), b, taken)
    decreases b
  {
    hide Keep, AddrAt, Next, WellFormed, IsPos;
    var s, t := Seen(rs, p, a, taken), Walk(rs, p, a);
    if b == 0 {
      assert s + [] == s;
    } else {
      SeenAdd(rs, p, a, b - 1, taken);
      WalkAdd(rs, p, a, b - 1);
      hide Walk;
      var q := Walk(rs, t, b - 1);
      var last := if Keep(rs, q, taken) then [AddrAt(rs, q)] else [];
      assert s + (Seen(rs, t, b - 1, taken) + last) == (s + Seen(rs, t, b - 1, taken)) + last;
    }
  }

  /** The walk from `p` meets `a`, kept, after `j` steps. */
  ghost predicate Meets(rs: seq<Range>, p: Pos, j: nat, taken: iset<Addr>, a: Addr)
    requires WellFormed(rs) && IsPos(rs, p)
  {
    Keep(rs, Walk(rs, p, j), taken) && AddrAt(rs, Walk(rs, p, j)) == a
  }

  lemma {:induction false} SeenHas(rs: seq<Range>, p: Pos, k: nat, taken: iset<Addr>, a: Addr)
    requires WellFormed(rs) && IsPos(rs, p)
    ensures a in Seen(rs, p, k, taken) <==> exists j :: 0 <= j < k && Meets(rs, p, j, taken, a)
    decreases k
  {
    hide Seen, Meets, WellFormed, IsPos;
    if k == 0 {
      SeenNone(rs, p, taken);
    } else {
      SeenHas(rs, p, k - 1, taken, a);
      SeenOne(rs, p, k, taken, a);
    }
  }

  lemma SeenNone(rs: seq<Range>, p: Pos, taken: iset<Addr>)
    requires WellFormed(rs) && IsPos(rs, p)
    ensures Seen(rs, p, 0, taken) == []
  {}

  lemma SeenOne(rs: seq<Range>, p: Pos, k: nat, taken: iset<Addr>, a: Addr)
    requires WellFormed(rs) && IsPos(rs, p) && k > 0
    ensures a in Seen(rs, p, k, taken) <==> a in Seen(rs, p, k - 1, taken) || Meets(rs, p, k - 1, taken, a)
  {
    hide WellFormed, IsPos;
  }

  /** The address lies in some range whose gateway it is not, and is not taken. */
  ghost predicate Allocatable(rs: seq<Range>, a: Addr, taken: iset<Addr>) {
    a !in taken && exists i :: 0 <= i < |rs| && InRange(rs[i], a) && a != rs[i].gw
  }

  /** A lap from anywhere hands out every allocatable address and nothing else. */
  lemma LapHas(rs: seq<Range>, p: Pos, taken: iset<Addr>, a: Addr)
    requires WellFormed(rs) && IsPos(rs, p)
    ensures a in Lap(rs, p, taken) <==> Allocatable(rs, a, taken)
  {
    SeenHas(rs, p, Total(rs), taken, a);
    if Allocatable(rs, a, taken) {
      var i :| 0 <= i < |rs| && InRange(rs[i], a) && a != rs[i].gw;
      var q := Pos(i, a.n);
      WalkDistance(rs, p, q);
      assert Meets(rs, p, Distance(rs, p, q), taken, a);
    }
    if a in Lap(rs, p, taken) {
      var j :| 0 <= j < Total(rs) && Meets(rs, p, j, taken, a);
      assert InRange(rs[Walk(rs, p, j).i], a);
    }
  }

  ghost predicate InSet(rs: seq<Range>, a: Addr) {
    exists i :: 0 <= i < |rs| && InRange(rs[i], a)
  }

  /** The position of an address of the set. */
  ghost function PosOf(rs: seq<Range>, a: Addr): (p: Pos)
    requires WellFormed(rs) && InSet(rs, a)
    ensures IsPos(rs, p) && AddrAt(rs, p) == a
  {
    var i :| 0 <= i < |rs| && InRange(rs[i], a);
    Pos(i, a.n)
  }

  lemma PosOfAt(rs: seq<Range>, p: Pos)
    requires WellFormed(rs) && IsPos(rs, p)
    ensures InSet(rs, AddrAt(rs, p)) && PosOf(rs, AddrAt(rs, p)) == p
  {
    assert InRange(rs[p.i], AddrAt(rs, p));
    AddrInjective(rs, p, PosOf(rs, AddrAt(rs, p)));
  }

  /** Every element of a partial turn is one of its positions, and they come in walking order. */
  lemma {:induction false} SeenOrdered(rs: seq<Range>, p: Pos, k: nat, taken: iset<Addr>)
    requires WellFormed(rs) && IsPos(rs, p) && k <= Total(rs)
    ensures forall i :: 0 <= i < |Seen(rs, p, k, taken)| ==>
              && InSet(rs, Seen(rs, p, k, taken)[i])
              && Distance(rs, p, PosOf(rs, Seen(rs, p, k, taken)[i])) < k
    ensures forall i, j :: 0 <= i < j < |Seen(rs, p, k, taken)| ==>
              Distance(rs, p, PosOf(rs, Seen(rs, p, k, taken)[i]))
              < Distance(rs, p, PosOf(rs, Seen(rs, p, k, taken)[j]))
    decreases k
  {
    hide Keep, Distance, Next;
    if k > 0 {
      SeenOrdered(rs, p, k - 1, taken);
      var q := Walk(rs, p, k - 1);
      PosOfAt(rs, q);
      DistanceWalk(rs, p, k - 1);
    }
  }

  /**
   * One lap lists the allocatable addresses, each exactly once, in order of how far the walk has
   * to go from `p` to reach them.
   */
  lemma LapOrder(rs: seq<Range>, p: Pos, taken: iset<Addr>)
    requires WellFormed(rs) && IsPos(rs, p)
    ensures var lap := Lap(rs, p, taken);
            && (forall a :: a in lap <==> Allocatable(rs, a, taken))
            && (forall i, j :: 0 <= i < j < |lap| ==> lap[i] != lap[j])
            && (forall i :: 0 <= i < |lap| ==> InSet(rs, lap[i]))
            && (forall i, j :: 0 <= i < j < |lap| ==>
                  Distance(rs, p, PosOf(rs, lap[i])) < Distance(rs, p, PosOf(rs, lap[j])))
  {
    hide Seen, Distance, Allocatable;
    SeenOrdered(rs, p, Total(rs), taken);
    forall a ensures a in Lap(rs, p, taken) <==> Allocatable(rs, a, taken) { LapHas(rs, p, taken, a); }
  }
}
