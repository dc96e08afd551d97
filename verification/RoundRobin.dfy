/**
 * The round-robin strategy of pkg/ipametcd/backend/allocator/allocator.go over runs: each grant
 * is the first allocatable address after the last one, so grants rotate through the whole set.
 */
module RoundRobin {
  import opened Addrs
  import opened RangeWalk

  /** Where GetIter starts: after the last reserved address, or at the first range. */
  ghost function StartAfter(rs: seq<Range>, last: Option<Addr>): (p: Pos)
    requires WellFormed(rs)
    ensures IsPos(rs, p)
  {
    if last.Some? && InSet(rs, last.value) then
      NextOrd(rs, PosOf(rs, last.value));
      Next(rs, PosOf(rs, last.value))
    else First(rs)
  }

  /** The allocatable addresses in cyclic order after the last reserved one. */
  ghost function FreeLap(rs: seq<Range>, last: Option<Addr>, taken: iset<Addr>): seq<Addr>
    requires WellFormed(rs)
  {
    Lap(rs, StartAfter(rs, last), taken)
  }

  /** The first of them. */
  ghost function NextGrant(rs: seq<Range>, last: Option<Addr>, taken: iset<Addr>): Option<Addr>
    requires WellFormed(rs)
  {
    var lap := FreeLap(rs, last, taken);
    if lap == [] then None else Some(lap[0])
  }

  /** A grant exists exactly when something is allocatable, and it is the nearest such address. */
  lemma NextGrantNearest(rs: seq<Range>, last: Option<Addr>, taken: iset<Addr>)
    requires WellFormed(rs)
    ensures NextGrant(rs, last, taken).None? <==> forall a :: !Allocatable(rs, a, taken)
    ensures NextGrant(rs, last, taken).Some? ==>
              var a := NextGrant(rs, last, taken).value;
              && Allocatable(rs, a, taken) && InSet(rs, a)
              && forall b :: Allocatable(rs, b, taken) && b != a && InSet(rs, b) ==>
                   Distance(rs, StartAfter(rs, last), PosOf(rs, a)) < Distance(rs, StartAfter(rs, last), PosOf(rs, b))
  {
    var p := StartAfter(rs, last);
    var lap := Lap(rs, p, taken);
    LapOrder(rs, p, taken);
    if lap == [] {
      forall a ensures !Allocatable(rs, a, taken) { assert a !in lap; }
    } else {
      assert lap[0] in lap;
      forall b | Allocatable(rs, b, taken) && b != lap[0] && InSet(rs, b)
        ensures Distance(rs, p, PosOf(rs, lap[0])) < Distance(rs, p, PosOf(rs, b))
      {
        assert b in lap;
        var j :| 0 <= j < |lap| && lap[j] == b;
      }
    }
  }

  // ------------------------------------------------------------------
  // The same by ranks

  /** With nothing to resume from, the grant is the allocatable address of least rank. */
  lemma GrantLeast(rs: seq<Range>, last: Option<Addr>, taken: iset<Addr>, b: Addr)
    requires WellFormed(rs) && (last.None? || !InSet(rs, last.value)) && Allocatable(rs, b, taken)
    ensures InSet(rs, b) && NextGrant(rs, last, taken).Some?
    ensures var a := NextGrant(rs, last, taken).value;
            Allocatable(rs, a, taken) && InSet(rs, a) && Ord(rs, PosOf(rs, a)) <= Ord(rs, PosOf(rs, b))
  {
    hide Allocatable, InRange;
    NextGrantNearest(rs, last, taken);
    AllocatableIn(rs, b, taken);
    var a := NextGrant(rs, last, taken).value;
    FirstRank(rs);
    hide NextGrant, WellFormed, IsPos;
  }

  lemma AllocatableIn(rs: seq<Range>, a: Addr, taken: iset<Addr>)
    requires Allocatable(rs, a, taken)
    ensures InSet(rs, a)
  {
  }

  lemma FirstRank(rs: seq<Range>)
    requires WellFormed(rs)
    ensures Ord(rs, First(rs)) == 0
  {
  }

  /** The walk starts at rank 0, or one rank behind the last reserved address, cyclically. */
  lemma StartRank(rs: seq<Range>, last: Option<Addr>)
    requires WellFormed(rs)
    ensures Ord(rs, StartAfter(rs, last)) ==
            if last.Some? && InSet(rs, last.value) && Ord(rs, PosOf(rs, last.value)) + 1 < Total(rs)
            then Ord(rs, PosOf(rs, last.value)) + 1 else 0
  {
    if last.Some? && InSet(rs, last.value) {
      NextOrd(rs, PosOf(rs, last.value));
      OrdBound(rs, PosOf(rs, last.value));
    }
    FirstRank(rs);
    hide WellFormed, IsPos, Ord, First, Next;
  }

  /** How many steps lead from `p` to `q`, a full turn if they are the same. */
  function StepsAfter(rs: seq<Range>, p: Pos, q: Pos): int
    requires WellFormed(rs) && IsPos(rs, p) && IsPos(rs, q)
  {
    if Ord(rs, p) < Ord(rs, q) then Ord(rs, q) - Ord(rs, p) else Ord(rs, q) + Total(rs) - Ord(rs, p)
  }

  lemma StepsDistance(rs: seq<Range>, p: Pos, q: Pos)
    requires WellFormed(rs) && IsPos(rs, p) && IsPos(rs, q)
    ensures IsPos(rs, Next(rs, p)) && Distance(rs, Next(rs, p), q) == StepsAfter(rs, p, q) - 1
  {
    NextOrd(rs, p);
    OrdBound(rs, p);
    OrdBound(rs, q);
    hide WellFormed, IsPos, Next;
  }

  /** After a last address of the set, the grant is the nearest allocatable one behind it, itself coming last. */
  lemma GrantAfter(rs: seq<Range>, last: Addr, taken: iset<Addr>, b: Addr)
    requires WellFormed(rs) && InSet(rs, last) && Allocatable(rs, b, taken)
    ensures InSet(rs, b) && NextGrant(rs, Some(last), taken).Some?
    ensures var a, p := NextGrant(rs, Some(last), taken).value, PosOf(rs, last);
            && Allocatable(rs, a, taken) && InSet(rs, a)
            && StepsAfter(rs, p, PosOf(rs, a)) <= StepsAfter(rs, p, PosOf(rs, b))
  {
    hide Allocatable, InRange, WellFormed, IsPos, Ord, Next;
    NextGrantNearest(rs, Some(last), taken);
    AllocatableIn(rs, b, taken);
    var a, p := NextGrant(rs, Some(last), taken).value, PosOf(rs, last);
    StepsDistance(rs, p, PosOf(rs, a));
    StepsDistance(rs, p, PosOf(rs, b));
    hide NextGrant, StepsAfter, Distance;
  }

  /** How far the walk goes to its first kept address. */
  lemma {:induction false} FirstKept(rs: seq<Range>, p: Pos, k: nat, taken: iset<Addr>) returns (d: nat)
    requires WellFormed(rs) && IsPos(rs, p) && Seen(rs, p, k, taken) != []
    ensures d < k && Seen(rs, p, d, taken) == [] && Keep(rs, Walk(rs, p, d), taken)
    ensures Seen(rs, p, k, taken)[0] == AddrAt(rs, Walk(rs, p, d))
  {
    hide Keep, AddrAt, Next;
    if Seen(rs, p, k - 1, taken) == [] {
      d := k - 1;
    } else {
      d := FirstKept(rs, p, k - 1, taken);
    }
  }

  /** The walk begun just after the first kept address passes the rest, and that address last. */
  lemma RotateAt(rs: seq<Range>, p: Pos, d: nat, taken: iset<Addr>, f: Addr)
    requires WellFormed(rs) && IsPos(rs, p) && d < Total(rs) && Seen(rs, p, d + 1, taken) == [f]
    ensures var lap := Seen(rs, p, Total(rs), taken);
            lap != [] && lap[0] == f && Seen(rs, Walk(rs, p, d + 1), Total(rs), taken) == lap[1..] + [f]
  {
    hide Seen, Walk, WellFormed, IsPos, Total;
    var t, p' := Total(rs), Walk(rs, p, d + 1);
    SeenAdd(rs, p, d + 1, t - d - 1, taken);
    SeenAdd(rs, p', t - d - 1, d + 1, taken);
    WalkAdd(rs, p, d + 1, t - d - 1);
    FullTurn(rs, p);
  }

  /** Where the walk stands after the first kept address. */
  lemma AfterFirst(rs: seq<Range>, p: Pos, taken: iset<Addr>) returns (d: nat)
    requires WellFormed(rs) && IsPos(rs, p) && Lap(rs, p, taken) != []
    ensures var f := Lap(rs, p, taken)[0];
            && d < Total(rs) && Seen(rs, p, d + 1, taken) == [f]
            && InSet(rs, f) && StartAfter(rs, Some(f)) == Walk(rs, p, d + 1)
  {
    hide Keep, Next, WellFormed, IsPos, Total, InSet;
    d := FirstKept(rs, p, Total(rs), taken);
    PosOfAt(rs, Walk(rs, p, d));
  }

  /** Starting after the first address of a lap moves it from the front to the back. */
  lemma Rotate(rs: seq<Range>, p: Pos, taken: iset<Addr>)
    requires WellFormed(rs) && IsPos(rs, p) && Lap(rs, p, taken) != []
    ensures var lap := Lap(rs, p, taken);
            FreeLap(rs, Some(lap[0]), taken) == lap[1..] + [lap[0]]
  {
    var d := AfterFirst(rs, p, taken);
    hide Seen, Walk, WellFormed, IsPos, Total, StartAfter;
    RotateAt(rs, p, d, taken, Lap(rs, p, taken)[0]);
  }

  // ------------------------------------------------------------------
  // One container that gets and releases, over and over

  /** The last reserved address after `n` rounds, the other reservations staying as they are. */
  ghost function LastAfter(rs: seq<Range>, last: Option<Addr>, taken: iset<Addr>, n: nat): Option<Addr>
    requires WellFormed(rs)
  {
    if n == 0 then last
    else
      var l := LastAfter(rs, last, taken, n - 1);
      var g := NextGrant(rs, l, taken);
      if g.Some? then g else l
  }

  /** The address granted in round `n`. */
  ghost function Grant(rs: seq<Range>, last: Option<Addr>, taken: iset<Addr>, n: nat): Option<Addr>
    requires WellFormed(rs)
  {
    NextGrant(rs, LastAfter(rs, last, taken, n), taken)
  }

  /** After `n` rounds, not more than a lap, the lap has turned by `n`. */
  lemma {:induction false} Turned(rs: seq<Range>, last: Option<Addr>, taken: iset<Addr>, n: nat)
    requires WellFormed(rs) && FreeLap(rs, last, taken) != [] && n <= |FreeLap(rs, last, taken)|
    ensures var f := FreeLap(rs, last, taken);
            FreeLap(rs, LastAfter(rs, last, taken, n), taken) == f[n..] + f[..n]
    decreases n
  {
    hide WellFormed, Lap, StartAfter;
    var f := FreeLap(rs, last, taken);
    if n == 0 {
      assert f[0..] + f[..0] == f;
    } else {
      Turned(rs, last, taken, n - 1);
      var l := LastAfter(rs, last, taken, n - 1);
      var g := f[n - 1..] + f[..n - 1];
      assert FreeLap(rs, l, taken) == g && g[0] == f[n - 1];
      Rotate(rs, StartAfter(rs, l), taken);
      assert g[1..] + [g[0]] == f[n..] + f[..n];
    }
  }

  lemma {:induction false} LastShift(rs: seq<Range>, last: Option<Addr>, taken: iset<Addr>, m: nat, n: nat)
    requires WellFormed(rs)
    ensures LastAfter(rs, last, taken, m + n) == LastAfter(rs, LastAfter(rs, last, taken, m), taken, n)
    decreases n
  {
    hide NextGrant;
    if n > 0 { LastShift(rs, last, taken, m, n - 1); }
  }

  /** The grants depend on the start of the walk only. */
  lemma {:induction false} SameStart(rs: seq<Range>, a: Option<Addr>, b: Option<Addr>, taken: iset<Addr>, n: nat)
    requires WellFormed(rs) && FreeLap(rs, a, taken) == FreeLap(rs, b, taken) && FreeLap(rs, a, taken) != []
    ensures Grant(rs, a, taken, n) == Grant(rs, b, taken, n)
    decreases n
  {
    hide FreeLap, StartAfter;
    if n > 0 {
      LastShift(rs, a, taken, 1, n - 1);
      LastShift(rs, b, taken, 1, n - 1);
      assert LastAfter(rs, a, taken, 1) == LastAfter(rs, b, taken, 1) by {
        assert LastAfter(rs, a, taken, 0) == a && LastAfter(rs, b, taken, 0) == b;
      }
    }
  }

  /**
   * Fairness: with k allocatable addresses the first k rounds grant each of them once, in cyclic
   * order after the last reserved one, and from then on the grants repeat with period k.
   */
  lemma Fairness(rs: seq<Range>, last: Option<Addr>, taken: iset<Addr>, n: nat)
    requires WellFormed(rs) && FreeLap(rs, last, taken) != []
    ensures var f := FreeLap(rs, last, taken);
            && (n < |f| ==> Grant(rs, last, taken, n) == Some(f[n]))
            && Grant(rs, last, taken, |f| + n) == Grant(rs, last, taken, n)
  {
    hide FreeLap, StartAfter, WellFormed, LastAfter;
    var f := FreeLap(rs, last, taken);
    if n < |f| { Turned(rs, last, taken, n); }
    Turned(rs, last, taken, |f|);
    assert f[|f|..] + f[..|f|] == f;
    LastShift(rs, last, taken, |f|, n);
    SameStart(rs, LastAfter(rs, last, taken, |f|), last, taken, n);
  }

  lemma FreeLapDiffer(rs: seq<Range>, last: Option<Addr>, taken: iset<Addr>, i: nat, j: nat)
    requires WellFormed(rs) && i < j < |FreeLap(rs, last, taken)|
    ensures FreeLap(rs, last, taken)[i] != FreeLap(rs, last, taken)[j]
  {
    LapOrder(rs, StartAfter(rs, last), taken);
  }

  /** No address comes again before the whole set has been run through. */
  lemma NoEarlyRepeat(rs: seq<Range>, last: Option<Addr>, taken: iset<Addr>, m: nat, n: nat)
    requires WellFormed(rs) && m < n < m + |FreeLap(rs, last, taken)|
    ensures Grant(rs, last, taken, m) != Grant(rs, last, taken, n)
    decreases m
  {
    hide FreeLap, Grant, WellFormed;
    var k := |FreeLap(rs, last, taken)|;
    if k <= m {
      Fairness(rs, last, taken, m - k);
      Fairness(rs, last, taken, n - k);
      NoEarlyRepeat(rs, last, taken, m - k, n - k);
    } else if k <= n {
      Fairness(rs, last, taken, m);
      Fairness(rs, last, taken, n - k);
      FreeLapDiffer(rs, last, taken, n - k, m);
    } else {
      Fairness(rs, last, taken, m);
      Fairness(rs, last, taken, n);
      FreeLapDiffer(rs, last, taken, m, n);
    }
  }
}
