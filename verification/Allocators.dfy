/** IPAllocator of pkg/ipametcd/backend/allocator/allocator.go over the etcd store. */
module Allocators {
  import opened Addrs
  import opened Keyspace
  import opened RangeWalk
  import opened RoundRobin
  import opened RangeIterator

  ghost function Taken(nm: Naming, kv: Keys): iset<Addr> {
    iset a: Addr | Reserved(nm, kv, a)
  }

  /** The address a call to Get reserves, if any. */
  ghost function Choice(rs: seq<Range>, nm: Naming, kv: Keys, rangeID: string, requested: Option<Addr>): Option<Addr>
    requires WellFormed(rs)
  {
    match requested
    case Some(ip) => if Allocatable(rs, ip, Taken(nm, kv)) then Some(ip) else None
    case None => NextGrant(rs, LastOf(nm, kv, rangeID), Taken(nm, kv))
  }

  /**
   * The loop of Get ends: the walk can notice its full turn, or some address is free. Otherwise
   * the source neither returns nor reports exhaustion.
   */
  ghost predicate Ends(rs: seq<Range>, nm: Naming, kv: Keys, rangeID: string, requested: Option<Addr>)
    requires WellFormed(rs)
  {
    || requested.Some?
    || Closes(rs, LastOf(nm, kv, rangeID))
    || exists a :: Allocatable(rs, a, Taken(nm, kv))
  }

  datatype Refusal = NotInSet | IsGateway | Unavailable | Duplicate | Exhausted

  datatype Answer = Ok(conf: IPConf) | Refused(why: Refusal)

  /** Why a call that grants nothing refuses. The duplicate test never does. */
  ghost function WhyRefused(rs: seq<Range>, requested: Option<Addr>): Refusal {
    match requested
    case None => Exhausted
    case Some(ip) =>
      if !InSet(rs, ip) then NotInSet
      else if !Allocatable(rs, ip, iset{}) then IsGateway
      else Unavailable
  }

  /** The configuration that goes with an address of the set. */
  ghost predicate ConfFor(rs: seq<Range>, conf: IPConf) {
    exists i :: 0 <= i < |rs| && InRange(rs[i], conf.addr) && conf.ones == rs[i].ones && conf.gw == rs[i].gw
  }

  /** The range set an allocator points to. */
  class RangeSetCell {
    var ranges: seq<Range>

    constructor (ranges: seq<Range>)
      ensures this.ranges == ranges
    {
      this.ranges := ranges;
    }
  }

  /** RangeFor: the first range that contains the address. */
  method RangeFor(rs: seq<Range>, a: Addr) returns (i: Option<nat>)
    ensures i.Some? ==> i.value < |rs| && InRange(rs[i.value], a)
    ensures i.None? ==> !InSet(rs, a)
  {
    for j := 0 to |rs|
      invariant forall k :: 0 <= k < j ==> !InRange(rs[k], a)
    {
      if InRange(rs[j], a) {
        return Some(j);
      }
    }
    i := None;
  }

  /** Whether one of these addresses lies in the set. */
  method AnyInSet(rs: seq<Range>, ips: seq<Addr>) returns (any: bool)
    ensures any <==> exists j :: 0 <= j < |ips| && InSet(rs, ips[j])
  {
    for j := 0 to |ips|
      invariant forall k :: 0 <= k < j ==> !InSet(rs, ips[k])
    {
      var existing := RangeFor(rs, ips[j]);
      if existing.Some? {
        return true;
      }
    }
    any := false;
  }

  class IPAllocator {
    const Rangeset: RangeSetCell
    const store: Store
    const rangeID: string

    constructor (Rangeset: RangeSetCell, store: Store, rangeID: string)
      ensures this.Rangeset == Rangeset && this.store == store && this.rangeID == rangeID
    {
      this.Rangeset, this.store, this.rangeID := Rangeset, store, rangeID;
    }

    ghost predicate Valid()
      reads Rangeset, store
    {
      WellFormed(Rangeset.ranges) && CodecOk(store.nm) && SlashedKeys(store.kv)
    }

    ghost function View(requested: Option<Addr>): Option<Addr>
      reads Rangeset, store
      requires Valid()
    {
      Choice(Rangeset.ranges, store.nm, store.kv, rangeID, requested)
    }

    /** Resume after the last reserved address if it still lies in the set, else from the first range. */
    method GetIter() returns (iter: RangeIter)
      requires Valid()
      ensures fresh(iter) && iter.rs == Rangeset.ranges && iter.Valid() && iter.steps == 0
      ensures iter.origin == StartAfter(iter.rs, LastOf(store.nm, store.kv, rangeID))
      ensures iter.closes <==> Closes(iter.rs, LastOf(store.nm, store.kv, rangeID))
    {
      hide CodecOk;
      var rs := Rangeset.ranges;
      var last := store.LastReservedIP(rangeID);
      var at := None;
      if last.Some? {
        at := RangeFor(rs, last.value);
      }
      if at.Some? {
        iter := new RangeIter(rs, last, at.value);
      } else {
        iter := new RangeIter(rs, None, 0);
        hide *;
      }
    }

    /**
     * Reserves the requested address, or the first allocatable one in cyclic order after the last
     * reserved. It succeeds exactly when there is such an address, and then writes that key and
     * this range's last-reserved entry only; a refusal writes nothing.
     */
    method Get(id: string, ifname: string, requested: Option<Addr>) returns (answer: Answer)
      requires Valid() && Ends(Rangeset.ranges, store.nm, store.kv, rangeID, requested)
      modifies store`kv
      ensures Valid()
      ensures answer.Ok? <==> old(View(requested)).Some?
      ensures answer.Ok? ==>
                && answer.conf.addr == old(View(requested)).value
                && ConfFor(Rangeset.ranges, answer.conf)
                && (exists r :: r in Rangeset.ranges && InRange(r, answer.conf.addr)
                                && answer.conf.ones == r.ones && answer.conf.gw == r.gw)
                && store.kv == ReserveIn(store.nm, old(store.kv), id, ifname, answer.conf.addr, rangeID)
      ensures answer.Refused? ==> store.kv == old(store.kv) && answer.why == WhyRefused(Rangeset.ranges, requested)
    {
      if requested.Some? {
        answer := GetRequested(id, ifname, requested.value);
      } else {
        answer := GetNext(id, ifname);
      }
    }

    method GetRequested(id: string, ifname: string, ip: Addr) returns (answer: Answer)
      requires Valid()
      modifies store`kv
      ensures Valid()
      ensures answer.Ok? <==> old(View(Some(ip))).Some?
      ensures answer.Ok? ==>
                && answer.conf.addr == ip && ConfFor(Rangeset.ranges, answer.conf)
                && store.kv == ReserveIn(store.nm, old(store.kv), id, ifname, ip, rangeID)
      ensures answer.Refused? ==> store.kv == old(store.kv) && answer.why == WhyRefused(Rangeset.ranges, Some(ip))
    {
      hide CodecOk, KeyOf, LastKey;
      KeysSlashed(store.nm, ip, rangeID);
      var r := RangeFor(Rangeset.ranges, ip);
      if r.None? {
        return Refused(NotInSet);
      }
      OneRange(Rangeset.ranges, ip, r.value, Taken(store.nm, store.kv));
      OneRange(Rangeset.ranges, ip, r.value, iset{});
      if ip == Rangeset.ranges[r.value].gw {
        return Refused(IsGateway);
      }
      var reserved := store.Reserve(id, ifname, ip, rangeID);
      if !reserved {
        return Refused(Unavailable);
      }
      answer := Ok(IPConf(ip, Rangeset.ranges[r.value].ones, Rangeset.ranges[r.value].gw));
    }

    method GetNext(id: string, ifname: string) returns (answer: Answer)
      requires Valid() && Ends(Rangeset.ranges, store.nm, store.kv, rangeID, None)
      modifies store`kv
      ensures Valid()
      ensures answer.Ok? <==> old(View(None)).Some?
      ensures answer.Ok? ==>
                && answer.conf.addr == old(View(None)).value && ConfFor(Rangeset.ranges, answer.conf)
                && store.kv == ReserveIn(store.nm, old(store.kv), id, ifname, answer.conf.addr, rangeID)
      ensures answer.Refused? ==> store.kv == old(store.kv) && answer.why == Exhausted
    {
      hide CodecOk, KeyOf, LastKey, WellFormed, IsPos, Total, Seen, Lap, RangeIter.Valid, ConfAt, LastOf, Walk,
          Allocatable;
      var allocatedIPs := store.GetByID(id, ifname);
      var duplicate := AnyInSet(Rangeset.ranges, allocatedIPs);
      if duplicate {
        return Refused(Duplicate);
      }
      var iter := GetIter();
      ghost var taken := Taken(store.nm, store.kv);
      WalkStart(iter.rs, iter.origin, taken);
      while true
        invariant fresh(iter) && iter.Valid() && store.kv == old(store.kv)
        invariant Seen(iter.rs, iter.origin, iter.steps, taken) == []
        invariant forall a :: a in Seen(iter.rs, iter.origin, iter.steps, iset{}) ==> a in taken
        decreases Total(iter.rs) - iter.steps
      {
        StillAhead(iter.rs, iter.origin, iter.steps, taken);
        ghost var before := iter.steps;
        var next := iter.Next();
        if next.None? {
          TurnTaken(iter.rs, iter.origin, before, taken);
          return Refused(Exhausted);
        }
        var reserved := store.Reserve(id, ifname, next.value.addr, rangeID);
        if reserved {
          FirstFree(iter.rs, iter.origin, before, iter.steps, next.value.addr, taken);
          ConfIsFor(iter.rs, Walk(iter.rs, iter.origin, iter.steps - 1));
          KeysSlashed(store.nm, next.value.addr, rangeID);
          return Ok(next.value);
        }
        StillTaken(iter.rs, iter.origin, before, iter.steps, next.value.addr, taken);
      }
    }

    /** Clears one address of the container. */
    method Release(id: string, ifname: string) returns (ghost dropped: set<string>)
      requires Valid()
      modifies store`kv
      ensures Valid()
      ensures dropped <= Owned(store.nm, old(store.kv), id, ifname) && store.kv == old(store.kv) - dropped
      ensures |dropped| == if Owned(store.nm, old(store.kv), id, ifname) == {} then 0 else 1
    {
      hide CodecOk, WellFormed;
      dropped := store.ReleaseByID(id, ifname);
    }
  }

  // ------------------------------------------------------------------
  // Proof steps of Get

  lemma OneRange(rs: seq<Range>, a: Addr, i: nat, taken: iset<Addr>)
    requires WellFormed(rs) && i < |rs| && InRange(rs[i], a)
    ensures Allocatable(rs, a, taken) <==> a !in taken && a != rs[i].gw
  {
    if j :| 0 <= j < |rs| && InRange(rs[j], a) {
      AddrInjective(rs, Pos(i, a.n), Pos(j, a.n));
    }
  }

  lemma ConfIsFor(rs: seq<Range>, p: Pos)
    requires WellFormed(rs) && IsPos(rs, p)
    ensures ConfFor(rs, ConfAt(rs, p))
  {
    assert InRange(rs[p.i], AddrAt(rs, p));
  }

  lemma WalkStart(rs: seq<Range>, p: Pos, taken: iset<Addr>)
    requires WellFormed(rs) && IsPos(rs, p)
    ensures Seen(rs, p, 0, taken) == [] && Seen(rs, p, 0, iset{}) == []
  {
  }

  /** Whatever has been passed is taken exactly when nothing free has been passed. */
  lemma {:induction false} PassedTaken(rs: seq<Range>, p: Pos, k: nat, taken: iset<Addr>)
    requires WellFormed(rs) && IsPos(rs, p)
    ensures Seen(rs, p, k, taken) == [] <==> forall a :: a in Seen(rs, p, k, iset{}) ==> a in taken
    decreases k
  {
    hide WellFormed, IsPos, Seen;
    if k == 0 {
      SeenNone(rs, p, taken);
      SeenNone(rs, p, iset{});
    } else {
      PassedTaken(rs, p, k - 1, taken);
      var b := PassedOne(rs, p, k, taken);
      AllInBoth(Seen(rs, p, k - 1, iset{}), b, taken);
    }
  }

  lemma AllInBoth(s: seq<Addr>, b: seq<Addr>, taken: iset<Addr>)
    ensures (forall a :: a in s + b ==> a in taken) <==>
              (forall a :: a in s ==> a in taken) && (forall a :: a in b ==> a in taken)
  {
    assert forall a :: a in s + b <==> a in s || a in b;
  }

  lemma PassedOne(rs: seq<Range>, p: Pos, k: nat, taken: iset<Addr>) returns (b: seq<Addr>)
    requires WellFormed(rs) && IsPos(rs, p) && k > 0
    ensures Seen(rs, p, k, iset{}) == Seen(rs, p, k - 1, iset{}) + b
    ensures Seen(rs, p, k, taken) == [] <==> Seen(rs, p, k - 1, taken) == [] && forall a :: a in b ==> a in taken
  {
    hide WellFormed, Next, Walk, AddrAt;
    var q := Walk(rs, p, k - 1);
    b := if AddrAt(rs, q) != rs[q.i].gw then [AddrAt(rs, q)] else [];
    assert Seen(rs, p, k, iset{}) == Seen(rs, p, k - 1, iset{}) + b;
    if b != [] { assert b[0] == AddrAt(rs, q) && b[0] in b; }
  }

  lemma SeenPrefix(rs: seq<Range>, p: Pos, j: nat, k: nat, taken: iset<Addr>)
    requires WellFormed(rs) && IsPos(rs, p) && j <= k
    ensures Seen(rs, p, j, taken) <= Seen(rs, p, k, taken)
  {
    hide Seen, Walk, WellFormed, IsPos;
    SeenAdd(rs, p, j, k - j, taken);
  }

  lemma LapEmpty(rs: seq<Range>, p: Pos, taken: iset<Addr>)
    requires WellFormed(rs) && IsPos(rs, p)
    ensures Lap(rs, p, taken) == [] <==> forall a :: !Allocatable(rs, a, taken)
  {
    hide Lap, WellFormed, IsPos, Allocatable;
    forall a { LapHas(rs, p, taken, a); }
    if Lap(rs, p, taken) != [] {
      assert Lap(rs, p, taken)[0] in Lap(rs, p, taken);
    } else {
      forall a ensures !Allocatable(rs, a, taken) { assert a !in Lap(rs, p, taken); }
    }
  }

  /** While some address is free and none has been passed, the turn is not complete. */
  lemma StillAhead(rs: seq<Range>, p: Pos, k: nat, taken: iset<Addr>)
    requires WellFormed(rs) && IsPos(rs, p) && Seen(rs, p, k, taken) == []
    ensures (exists a :: Allocatable(rs, a, taken)) ==> k < Total(rs) && Lap(rs, p, iset{}) != []
  {
    if Total(rs) <= k { SeenPrefix(rs, p, Total(rs), k, taken); }
    LapEmpty(rs, p, taken);
    LapEmpty(rs, p, iset{});
    if a :| Allocatable(rs, a, taken) { assert Allocatable(rs, a, iset{}); }
  }

  /** A turn on which everything was taken: nothing is allocatable. */
  lemma TurnTaken(rs: seq<Range>, p: Pos, k: nat, taken: iset<Addr>)
    requires WellFormed(rs) && IsPos(rs, p) && Lap(rs, p, iset{}) == Seen(rs, p, k, iset{})
    requires forall a :: a in Seen(rs, p, k, iset{}) ==> a in taken
    ensures Lap(rs, p, taken) == []
  {
    PassedTaken(rs, p, Total(rs), taken);
  }

  /** The address that could be reserved heads the lap of free ones. */
  lemma FirstFree(rs: seq<Range>, p: Pos, k: nat, k': nat, a: Addr, taken: iset<Addr>)
    requires WellFormed(rs) && IsPos(rs, p) && k < k' && a !in taken
    requires forall b :: b in Seen(rs, p, k, iset{}) ==> b in taken
    requires Seen(rs, p, k', iset{}) == Seen(rs, p, k, iset{}) + [a]
    ensures Lap(rs, p, taken) != [] && Lap(rs, p, taken)[0] == a
  {
    hide Seen, WellFormed, IsPos, Total, Allocatable;
    var t := Total(rs);
    SeenFiltered(rs, p, k', taken, Seen(rs, p, k, iset{}), a);
    if k' <= t {
      SeenPrefix(rs, p, k', t, taken);
    } else {
      SeenPrefix(rs, p, t, k', taken);
      assert a in Seen(rs, p, k', taken);
      SeenAllocatable(rs, p, k', taken, a);
      LapHas(rs, p, taken, a);
    }
  }

  lemma SeenAllocatable(rs: seq<Range>, p: Pos, k: nat, taken: iset<Addr>, a: Addr)
    requires WellFormed(rs) && IsPos(rs, p) && a in Seen(rs, p, k, taken)
    ensures Allocatable(rs, a, taken)
  {
    SeenHas(rs, p, k, taken, a);
    var j :| 0 <= j < k && Meets(rs, p, j, taken, a);
    assert InRange(rs[Walk(rs, p, j).i], a);
  }

  /** Filtering what has been passed: only the last address is free. */
  lemma {:induction false} SeenFiltered(rs: seq<Range>, p: Pos, k: nat, taken: iset<Addr>, s: seq<Addr>, a: Addr)
    requires WellFormed(rs) && IsPos(rs, p) && Seen(rs, p, k, iset{}) == s + [a]
    requires a !in taken && forall b :: b in s ==> b in taken
    ensures Seen(rs, p, k, taken) == [a]
    decreases k
  {
    hide WellFormed, Next;
    var q := Walk(rs, p, k - 1);
    if AddrAt(rs, q) != rs[q.i].gw {
      assert Seen(rs, p, k, iset{}) == Seen(rs, p, k - 1, iset{}) + [AddrAt(rs, q)];
      assert (s + [a])[|s|] == a && (s + [a])[..|s|] == s;
      PassedTaken(rs, p, k - 1, taken);
    } else {
      SeenFiltered(rs, p, k - 1, taken, s, a);
    }
  }

  lemma StillTaken(rs: seq<Range>, p: Pos, k: nat, k': nat, a: Addr, taken: iset<Addr>)
    requires WellFormed(rs) && IsPos(rs, p) && a in taken
    requires forall b :: b in Seen(rs, p, k, iset{}) ==> b in taken
    requires Seen(rs, p, k', iset{}) == Seen(rs, p, k, iset{}) + [a]
    ensures Seen(rs, p, k', taken) == []
    ensures forall b :: b in Seen(rs, p, k', iset{}) ==> b in taken
  {
    PassedTaken(rs, p, k', taken);
  }

  // ------------------------------------------------------------------
  // What the calls amount to

  /** Get without a request succeeds exactly when an address is allocatable, and takes the nearest. */
  lemma ChoiceNearest(rs: seq<Range>, nm: Naming, kv: Keys, rangeID: string)
    requires WellFormed(rs)
    ensures var last, taken := LastOf(nm, kv, rangeID), Taken(nm, kv);
            match Choice(rs, nm, kv, rangeID, None)
            case None => forall a :: !Allocatable(rs, a, taken)
            case Some(a) =>
              && Allocatable(rs, a, taken) && InSet(rs, a)
              && forall b :: Allocatable(rs, b, taken) && b != a && InSet(rs, b) ==>
                   Distance(rs, StartAfter(rs, last), PosOf(rs, a)) < Distance(rs, StartAfter(rs, last), PosOf(rs, b))
  {
    NextGrantNearest(rs, LastOf(nm, kv, rangeID), Taken(nm, kv));
    hide Taken, Allocatable, StartAfter, Distance, WellFormed, LastOf;
  }

  /** The address lies in a range that does not have it as gateway, and its key is not in the store. */
  ghost predicate Grantable(rs: seq<Range>, nm: Naming, kv: Keys, a: Addr) {
    KeyOf(nm, a) !in kv && exists i :: 0 <= i < |rs| && a.v6 == rs[i].v6 && rs[i].lo <= a.n <= rs[i].hi && a != rs[i].gw
  }

  /**
   * What is granted is such an address, and the requested one if there was a request; a refusal
   * means that the requested address, or every address, is none.
   */
  lemma ChoiceMeans(rs: seq<Range>, nm: Naming, kv: Keys, rangeID: string, requested: Option<Addr>)
    requires WellFormed(rs)
    ensures match Choice(rs, nm, kv, rangeID, requested)
            case Some(a) => Grantable(rs, nm, kv, a) && (requested.Some? ==> requested.value == a)
            case None => forall a :: (requested.Some? ==> requested.value == a) ==> !Grantable(rs, nm, kv, a)
  {
    hide KeyOf, WellFormed, NextGrant;
    if requested.None? { ChoiceNearest(rs, nm, kv, rangeID); }
    forall a: Addr ensures Allocatable(rs, a, Taken(nm, kv)) <==> Grantable(rs, nm, kv, a) {}
  }

  /** What each reason for a refusal means. */
  lemma RefusalMeans(rs: seq<Range>, nm: Naming, kv: Keys, rangeID: string, requested: Option<Addr>)
    requires WellFormed(rs) && Choice(rs, nm, kv, rangeID, requested).None?
    ensures match WhyRefused(rs, requested)
            case NotInSet => requested.Some? && forall i :: 0 <= i < |rs| ==> !InRange(rs[i], requested.value)
            case IsGateway => requested.Some? && exists i :: 0 <= i < |rs| && InRange(rs[i], requested.value)
                                                        && requested.value == rs[i].gw
            case Unavailable => requested.Some? && KeyOf(nm, requested.value) in kv
            case Exhausted => requested.None? && forall a :: !Grantable(rs, nm, kv, a)
            case Duplicate => false
  {
    hide KeyOf, WellFormed, NextGrant;
    ChoiceMeans(rs, nm, kv, rangeID, requested);
    if requested.Some? { SpelledOut(rs, requested.value); }
  }

  lemma SpelledOut(rs: seq<Range>, a: Addr)
    ensures InSet(rs, a) <==> exists i :: 0 <= i < |rs| && InRange(rs[i], a)
    ensures Allocatable(rs, a, iset{}) <==> exists i :: 0 <= i < |rs| && InRange(rs[i], a) && a != rs[i].gw
  {
  }

  /**
   * When the loop of Get cannot end it really does not: the walk never notices its full turn, and
   * everything it ever passes is taken.
   */
  lemma GetNeverEnds(rs: seq<Range>, nm: Naming, kv: Keys, rangeID: string, k: nat)
    requires WellFormed(rs) && !Ends(rs, nm, kv, rangeID, None)
    ensures var last := LastOf(nm, kv, rangeID);
            && |rs| > 1 && last.Some? && InSet(rs, last.value)
            && last.value.n == rs[PosOf(rs, last.value).i].hi
            && Seen(rs, StartAfter(rs, last), k, Taken(nm, kv)) == []
  {
    ClosesExact(rs, LastOf(nm, kv, rangeID));
    var s := Seen(rs, StartAfter(rs, LastOf(nm, kv, rangeID)), k, Taken(nm, kv));
    hide Taken, LastOf, Seen, Allocatable, Closes;
    if s != [] {
      SeenAllocatable(rs, StartAfter(rs, LastOf(nm, kv, rangeID)), k, Taken(nm, kv), s[0]);
    }
  }

  /** On a set of gateways alone the walk passes nothing, so a call to Next that cannot close has no end. */
  lemma OnlyGateways(rs: seq<Range>, p: Pos, k: nat)
    requires WellFormed(rs) && IsPos(rs, p) && Lap(rs, p, iset{}) == []
    ensures Seen(rs, p, k, iset{}) == []
  {
    hide WellFormed, IsPos, Seen, Lap, Allocatable;
    if Seen(rs, p, k, iset{}) != [] {
      var a := Seen(rs, p, k, iset{})[0];
      SeenAllocatable(rs, p, k, iset{}, a);
      LapHas(rs, p, iset{}, a);
    }
  }

  /** Two full ranges with the last reservation at the end of the first: Get would not return. */
  lemma StuckExample(nm: Naming, kv: Keys)
    requires CodecOk(nm)
    requires KeyOf(nm, RawAddr(false, 2)) in kv && KeyOf(nm, RawAddr(false, 6)) in kv
    requires LastOf(nm, kv, "0") == Some(RawAddr(false, 2))
    ensures var rs := [Range(false, 1, 2, RawAddr(false, 1), 30), Range(false, 5, 6, RawAddr(false, 5), 30)];
            WellFormed(rs) && !Ends(rs, nm, kv, "0", None)
  {
    var rs := [Range(false, 1, 2, RawAddr(false, 1), 30), Range(false, 5, 6, RawAddr(false, 5), 30)];
    var last: Addr := RawAddr(false, 2);
    assert InRange(rs[0], last);
    assert AddrAt(rs, Pos(0, 2)) == last;
    PosOfAt(rs, Pos(0, 2));
    hide CodecOk, KeyOf;
  }
}
