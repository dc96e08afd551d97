/** RangeIter of pkg/ipametcd/backend/allocator/allocator.go: the cursor that walks a range set. */
module RangeIterator {
  import opened Addrs
  import opened RangeWalk
  import opened RoundRobin

  /** What Next and Get hand out: the address, the prefix length of its subnet, and its gateway. */
  datatype IPConf = IPConf(addr: Addr, ones: nat, gw: Addr)

  function ConfAt(rs: seq<Range>, p: Pos): IPConf
    requires WellFormed(rs) && IsPos(rs, p)
  {
    IPConf(AddrAt(rs, p), rs[p.i].ones, rs[p.i].gw)
  }

  /**
   * Whether the "looped back" test can fire on a walk resumed after `last`: it remembers the range
   * of `last`, which is not where the walk starts if `last` ends one of several ranges.
   */
  ghost predicate Closes(rs: seq<Range>, last: Option<Addr>)
    requires WellFormed(rs)
  {
    last.Some? && InSet(rs, last.value) ==> StartAfter(rs, last).i == PosOf(rs, last.value).i
  }

  /** That is exactly when the set has one range or `last` is no range end. */
  lemma ClosesExact(rs: seq<Range>, last: Option<Addr>)
    requires WellFormed(rs)
    ensures Closes(rs, last) <==>
              |rs| == 1 || last.None? || !InSet(rs, last.value)
              || last.value.n < rs[PosOf(rs, last.value).i].hi
  {
  }

  lemma ModNext(i: nat, n: nat)
    requires i < n
    ensures (i + 1) % n == if i + 1 < n then i + 1 else 0
  {
  }

  class RangeIter {
    const rs: seq<Range>
    var rangeIdx: nat
    var cur: Option<Addr>
    var startIP: Option<Addr>
    var startRange: nat
    /** The position visited first, and how many have been visited. */
    ghost const origin: Pos
    ghost const closes: bool
    ghost var steps: nat

    constructor (rs: seq<Range>, last: Option<Addr>, at: nat)
      requires WellFormed(rs)
      requires last.Some? ==> at < |rs| && InRange(rs[at], last.value)
      ensures this.rs == rs && Valid() && steps == 0
      ensures origin == StartAfter(rs, last) && (closes <==> Closes(rs, last))
    {
      this.rs, steps := rs, 0;
      origin, closes := StartAfter(rs, last), Closes(rs, last);
      cur := last;
      if last.Some? {
        rangeIdx, startRange, startIP := at, at, None;
      } else {
        rangeIdx, startRange, startIP := 0, 0, Some(RawAddr(rs[0].v6, rs[0].lo));
      }
      new;
      if last.Some? {
        PosOfAt(rs, Pos(at, last.value.n));
        assert AddrAt(rs, Pos(at, last.value.n)) == last.value;
      }
    }

    ghost predicate Fresh()
      reads this
      requires WellFormed(rs) && IsPos(rs, origin)
    {
      if cur.None? then
        rangeIdx == 0 && startRange == 0 && origin == First(rs) && closes
      else
        && startIP.None? && rangeIdx == startRange < |rs| && InRange(rs[rangeIdx], cur.value)
        && origin == RangeWalk.Next(rs, Pos(rangeIdx, cur.value.n)) && (closes <==> origin.i == startRange)
    }

    /** The cursor stands on the last visited position; a closing walk has made at most one turn. */
    ghost predicate Valid()
      reads this
      ensures Valid() ==> WellFormed(rs) && IsPos(rs, origin) && (closes ==> steps <= Total(rs))
    {
      && WellFormed(rs) && IsPos(rs, origin)
      && if steps == 0 then Fresh()
         else
           && cur == Some(AddrAt(rs, Walk(rs, origin, steps - 1)))
           && rangeIdx == Walk(rs, origin, steps - 1).i
           && startIP == Some(AddrAt(rs, origin))
           && (closes <==> startRange == origin.i)
           && (closes ==> steps <= Total(rs))
    }

    /** Everything Next does up to the gateway test: move on one position, or notice the full turn. */
    method Step() returns (looped: bool)
      requires Valid()
      modifies this
      ensures looped <==> closes && old(steps) == Total(rs)
      ensures !looped ==> Valid() && steps == old(steps) + 1
    {
      hide Total, WellFormed, RangeWalk.Next, Walk, AddrAt, IsPos, First;
      OrdBound(rs, origin);
      if cur.None? {
        StepFirst();
        return false;
      }
      if startIP.None? {
        StepResumed();
        return false;
      }
      WalkStep(rs, origin, steps);
      MoveOn(Walk(rs, origin, steps - 1));
      LoopTest(rs, origin, steps, startRange, closes);
      if rangeIdx == startRange && cur == startIP {
        return true;
      }
      steps := steps + 1;
      looped := false;
    }

    /** The first move of a walk that starts at the first range. */
    method StepFirst()
      requires Valid() && cur.None?
      modifies this
      ensures Valid() && steps == 1 == old(steps) + 1
    {
      OrdBound(rs, origin);
      cur := Some(RawAddr(rs[rangeIdx].v6, rs[rangeIdx].lo));
      startIP := cur;
      steps := 1;
      assert Walk(rs, origin, 0) == origin;
    }

    /** The first move of a walk resumed after the last reserved address. */
    method StepResumed()
      requires Valid() && startIP.None? && cur.Some?
      modifies this
      ensures Valid() && steps == 1 == old(steps) + 1
    {
      OrdBound(rs, origin);
      assert AddrAt(rs, Pos(rangeIdx, cur.value.n)) == cur.value;
      MoveOn(Pos(rangeIdx, cur.value.n));
      startIP := cur;
      steps := 1;
      assert Walk(rs, origin, 0) == origin;
    }

    /** The move on a well-formed set. */
    method MoveOn(ghost p: Pos)
      requires WellFormed(rs) && IsPos(rs, p) && cur == Some(AddrAt(rs, p)) && rangeIdx == p.i
      modifies this`cur, this`rangeIdx
      ensures IsPos(rs, RangeWalk.Next(rs, p)) && cur == Some(AddrAt(rs, RangeWalk.Next(rs, p)))
                && rangeIdx == RangeWalk.Next(rs, p).i
    {
      CursorNext(rs, p);
      hide WellFormed, RangeWalk.Next, Cursor;
      Move(p);
    }

    /** The cursor moves to the next address, or to the start of the next range; the set may have any form. */
    method Move(ghost p: Pos)
      requires p.i == rangeIdx < |rs| && CursorFits(rs, p) && cur == Some(RawAddr(rs[p.i].v6, p.n))
      modifies this`cur, this`rangeIdx
      ensures var q := Cursor(rs, p); rangeIdx == q.i && cur == Some(RawAddr(rs[q.i].v6, q.n))
    {
      var r := rs[rangeIdx];
      if cur.value == RawAddr(r.v6, r.hi) {
        ModNext(rangeIdx, |rs|);
        rangeIdx := rangeIdx + 1;
        rangeIdx := rangeIdx % |rs|;
        r := rs[rangeIdx];
        cur := Some(RawAddr(r.v6, r.lo));
      } else {
        cur := Some(RawAddr(cur.value.v6, cur.value.n + 1));
      }
    }

    /** How far the next address that is no gateway lies ahead. */
    ghost function Ahead(): nat
      reads this
      requires Valid() && (!closes ==> Lap(rs, origin, iset{}) != [])
    {
      if closes then Total(rs) - steps
      else
        var goal := Open(rs, origin);
        Distance(rs, Walk(rs, origin, steps), goal)
    }

    /**
     * The next address that is not its range's gateway, in cyclic order; nil once a closing walk
     * has made its turn. Gateways are skipped by recursion.
     */
    method Next() returns (r: Option<IPConf>)
      requires Valid() && (!closes ==> Lap(rs, origin, iset{}) != [])
      modifies this
      ensures r.Some? ==>
                && Valid() && old(steps) < steps
                && r.value == ConfAt(rs, Walk(rs, origin, steps - 1))
                && Seen(rs, origin, steps, iset{}) == Seen(rs, origin, old(steps), iset{}) + [r.value.addr]
      ensures r.None? ==> closes && Lap(rs, origin, iset{}) == Seen(rs, origin, old(steps), iset{})
      decreases Ahead()
    {
      hide Total, WellFormed, RangeWalk.Next, Walk, AddrAt, IsPos, Lap, Distance;
      ghost var before := steps;
      Seconds(rs, origin, before);
      var looped := Step();
      if looped {
        return None;
      }
      ghost var q := Walk(rs, origin, before);
      Pass(rs, origin, before);
      if cur.value == rs[rangeIdx].gw {
        if !closes { StepNearer(rs, q, Open(rs, origin)); }
        r := Next();
      } else {
        r := Some(IPConf(cur.value, rs[rangeIdx].ones, rs[rangeIdx].gw));
      }
    }
  }

  lemma WalkStep(rs: seq<Range>, p: Pos, k: nat)
    requires WellFormed(rs) && IsPos(rs, p) && 0 < k
    ensures Walk(rs, p, k) == Next(rs, Walk(rs, p, k - 1))
  {
  }

  lemma Seconds(rs: seq<Range>, p: Pos, k: nat)
    requires WellFormed(rs) && IsPos(rs, p)
    ensures Walk(rs, p, k + 1) == Next(rs, Walk(rs, p, k))
    ensures Lap(rs, p, iset{}) == Seen(rs, p, Total(rs), iset{})
  {
  }

  /** What visiting one more position adds. */
  lemma Pass(rs: seq<Range>, p: Pos, k: nat)
    requires WellFormed(rs) && IsPos(rs, p)
    ensures var q := Walk(rs, p, k);
            && q.i < |rs|
            && (Keep(rs, q, iset{}) <==> AddrAt(rs, q) != rs[q.i].gw)
            && Seen(rs, p, k + 1, iset{}) ==
               if AddrAt(rs, q) != rs[q.i].gw then Seen(rs, p, k, iset{}) + [AddrAt(rs, q)] else Seen(rs, p, k, iset{})
  {
  }

  /** The looped-back test fires exactly when a walk that closes has made its turn. */
  lemma LoopTest(rs: seq<Range>, origin: Pos, k: nat, startRange: nat, closes: bool)
    requires WellFormed(rs) && IsPos(rs, origin) && 0 < k && (closes ==> k <= Total(rs))
    requires closes <==> startRange == origin.i
    ensures var q := Walk(rs, origin, k);
            q.i == startRange && AddrAt(rs, q) == AddrAt(rs, origin) <==> closes && k == Total(rs)
  {
    var q := Walk(rs, origin, k);
    FullTurn(rs, origin);
    if AddrAt(rs, q) == AddrAt(rs, origin) {
      AddrInjective(rs, q, origin);
      if closes && k < Total(rs) { TurnInjective(rs, origin, 0, k); }
    }
  }

  /** Some position that is no gateway. */
  ghost function Open(rs: seq<Range>, p: Pos): (q: Pos)
    requires WellFormed(rs) && IsPos(rs, p) && Lap(rs, p, iset{}) != []
    ensures IsPos(rs, q) && Keep(rs, q, iset{})
  {
    var a := Lap(rs, p, iset{})[0];
    SeenHas(rs, p, Total(rs), iset{}, a);
    var j: nat :| Meets(rs, p, j, iset{}, a);
    Walk(rs, p, j)
  }

  // ------------------------------------------------------------------
  // Whole laps

  /** Calling Next until it returns nil lists one lap, when the walk closes. */
  method Enumerate(iter: RangeIter) returns (addrs: seq<Addr>)
    requires iter.Valid() && iter.steps == 0 && iter.closes
    modifies iter
    ensures addrs == Lap(iter.rs, iter.origin, iset{})
  {
    hide RangeIter.Valid, Lap, Seen, Total, ConfAt, WellFormed, IsPos;
    addrs := [];
    var r := iter.Next();
    assert addrs == Seen(iter.rs, iter.origin, 0, iset{}) by { NoneSeen(iter.rs, iter.origin); }
    ghost var seen := 0;
    while r.Some?
      invariant iter.closes && WellFormed(iter.rs) && IsPos(iter.rs, iter.origin)
      invariant addrs == Seen(iter.rs, iter.origin, seen, iset{})
      invariant r.Some? ==>
                  && iter.Valid() && seen < iter.steps <= Total(iter.rs)
                  && Seen(iter.rs, iter.origin, iter.steps, iset{}) == addrs + [r.value.addr]
      invariant r.None? ==> Lap(iter.rs, iter.origin, iset{}) == addrs
      decreases Total(iter.rs) - seen, r.Some?
    {
      addrs := addrs + [r.value.addr];
      seen := iter.steps;
      r := iter.Next();
    }
  }

  lemma NoneSeen(rs: seq<Range>, p: Pos)
    requires WellFormed(rs) && IsPos(rs, p)
    ensures Seen(rs, p, 0, iset{}) == []
  {
  }

  /** A walk that does not close answers every call; after `n` calls it has listed what it has seen. */
  method EnumerateOn(iter: RangeIter, n: nat) returns (addrs: seq<Addr>)
    requires iter.Valid() && iter.steps == 0 && !iter.closes && Lap(iter.rs, iter.origin, iset{}) != []
    modifies iter
    ensures |addrs| == n && addrs == Seen(iter.rs, iter.origin, iter.steps, iset{})
  {
    hide RangeIter.Valid, Lap, Seen, ConfAt, WellFormed, IsPos;
    addrs := [];
    NoneSeen(iter.rs, iter.origin);
    for i := 0 to n
      invariant iter.Valid() && |addrs| == i && addrs == Seen(iter.rs, iter.origin, iter.steps, iset{})
    {
      var r := iter.Next();
      addrs := addrs + [r.value.addr];
    }
  }

  /** What a walk sees repeats lap by lap. */
  lemma SeenPeriod(rs: seq<Range>, p: Pos, k: nat)
    requires WellFormed(rs) && IsPos(rs, p)
    ensures Seen(rs, p, Total(rs) + k, iset{}) == Lap(rs, p, iset{}) + Seen(rs, p, k, iset{})
  {
    SeenAdd(rs, p, Total(rs), k, iset{});
    FullTurn(rs, p);
  }
}
