/**
 * A container that gets an address and releases it again, round after round, against the real
 * allocator and store: the run the comment at GetIter speaks of.
 */
module CrashLoop {
  import opened Addrs
  import opened OwnerText
  import opened Keyspace
  import opened RangeWalk
  import opened RoundRobin
  import opened Allocators

  /** The container owns nothing yet, and its owner value will be recognised on release. */
  ghost predicate Ready(a: IPAllocator, id: string, ifname: string)
    reads a.Rangeset, a.store
  {
    && a.Valid() && LastsOk(a.store.nm, a.store.kv)
    && a.store.nm.parse(Trim(id)).None? && Recognised(id, ifname)
    && Owned(a.store.nm, a.store.kv, id, ifname) == {}
  }

  /** One round grants the next address and leaves every reservation as it was. */
  method Round(a: IPAllocator, id: string, ifname: string) returns (ip: Addr)
    requires Ready(a, id, ifname) && a.View(None).Some?
    modifies a.store`kv
    ensures Ready(a, id, ifname)
    ensures Some(ip) == old(a.View(None))
    ensures Taken(a.store.nm, a.store.kv) == old(Taken(a.store.nm, a.store.kv))
    ensures LastOf(a.store.nm, a.store.kv, a.rangeID) == Some(ip)
  {
    hide CodecOk, KeyOf, LastKey, Owner, Trim, WellFormed, LastsOk, Recognised, Owned, Reserved;
    ghost var nm, kv := a.store.nm, a.store.kv;
    GrantUnreserved(a.Rangeset.ranges, nm, kv, a.rangeID);
    var answer := a.Get(id, ifname, None);
    ip := answer.conf.addr;
    OwnedReserve(nm, kv, id, ifname, ip, a.rangeID);
    ghost var dropped := a.Release(id, ifname);
    OwnedDrop(nm, ReserveIn(nm, kv, id, ifname, ip, a.rangeID), id, ifname, dropped);
    OneOf(dropped, KeyOf(nm, ip));
    TakenAgain(nm, kv, id, ifname, ip, a.rangeID);
  }

  lemma OneOf(d: set<string>, k: string)
    requires d <= {k} && |d| == 1
    ensures d == {k}
  {
    var x :| x in d;
    assert d - {x} == {} by { assert |d - {x}| == 0; }
  }

  lemma GrantUnreserved(rs: seq<Range>, nm: Naming, kv: Keys, rangeID: string)
    requires WellFormed(rs) && Choice(rs, nm, kv, rangeID, None).Some?
    ensures KeyOf(nm, Choice(rs, nm, kv, rangeID, None).value) !in kv
    ensures Ends(rs, nm, kv, rangeID, None)
  {
    ChoiceNearest(rs, nm, kv, rangeID);
    assert Choice(rs, nm, kv, rangeID, None).value !in Taken(nm, kv);
  }

  /** Reserving an address and deleting its key changes the last-reserved entry only. */
  lemma TakenAgain(nm: Naming, kv: Keys, id: string, ifname: string, a: Addr, rangeID: string)
    requires CodecOk(nm) && KeyOf(nm, a) !in kv
    ensures var kv' := ReserveIn(nm, kv, id, ifname, a, rangeID) - {KeyOf(nm, a)};
            Taken(nm, kv') == Taken(nm, kv) && LastOf(nm, kv', rangeID) == Some(a)
  {
    hide CodecOk, KeyOf, LastKey, Owner, Trim;
    var kv' := ReserveIn(nm, kv, id, ifname, a, rangeID) - {KeyOf(nm, a)};
    forall b: Addr ensures Reserved(nm, kv', b) <==> Reserved(nm, kv, b) {
      KeysApart(nm, a, b, rangeID, rangeID);
      KeysApart(nm, b, a, rangeID, rangeID);
    }
    KeysApart(nm, a, a, rangeID, rangeID);
    ParsesBack(nm, a);
  }

  /**
   * Round-robin fairness of the running code: round `i` grants what the round-robin specification
   * says, so no address comes again before the whole set has been run through.
   */
  method Rounds(a: IPAllocator, id: string, ifname: string, n: nat) returns (ips: seq<Addr>)
    requires Ready(a, id, ifname) && a.View(None).Some?
    modifies a.store`kv
    ensures Ready(a, id, ifname) && |ips| == n
    ensures var last, taken := old(LastOf(a.store.nm, a.store.kv, a.rangeID)), old(Taken(a.store.nm, a.store.kv));
            var k := |FreeLap(a.Rangeset.ranges, last, taken)|;
            && (forall i :: 0 <= i < n ==> Some(ips[i]) == Grant(a.Rangeset.ranges, last, taken, i))
            && (forall i, j :: 0 <= i < j < n && j < i + k ==> ips[i] != ips[j])
  {
    hide Ready, Taken, FreeLap, LastOf, WellFormed;
    ghost var rs, last := a.Rangeset.ranges, LastOf(a.store.nm, a.store.kv, a.rangeID);
    ghost var taken := Taken(a.store.nm, a.store.kv);
    ReadyValid(a, id, ifname);
    ips := [];
    for i := 0 to n
      invariant Ready(a, id, ifname) && |ips| == i && WellFormed(rs)
      invariant Taken(a.store.nm, a.store.kv) == taken
      invariant LastOf(a.store.nm, a.store.kv, a.rangeID) == LastAfter(rs, last, taken, i)
      invariant forall j :: 0 <= j < i ==> Some(ips[j]) == Grant(rs, last, taken, j)
      invariant NextGrant(rs, LastAfter(rs, last, taken, i), taken).Some?
    {
      ReadyValid(a, id, ifname);
      var ip := Round(a, id, ifname);
      ips := ips + [ip];
      StillGrants(rs, last, taken, i);
    }
    forall i, j | 0 <= i < j < n && j < i + |FreeLap(rs, last, taken)| ensures ips[i] != ips[j] {
      NoEarlyRepeat(rs, last, taken, i, j);
    }
  }

  lemma ReadyValid(a: IPAllocator, id: string, ifname: string)
    requires Ready(a, id, ifname)
    ensures a.Valid()
  {
  }

  lemma StillGrants(rs: seq<Range>, last: Option<Addr>, taken: iset<Addr>, i: nat)
    requires WellFormed(rs) && NextGrant(rs, LastAfter(rs, last, taken, i), taken).Some?
    ensures NextGrant(rs, LastAfter(rs, last, taken, i + 1), taken).Some?
  {
    hide FreeLap;
    NextGrantNearest(rs, LastAfter(rs, last, taken, i), taken);
    NextGrantNearest(rs, LastAfter(rs, last, taken, i + 1), taken);
  }
}
