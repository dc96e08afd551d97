/**
 * Counting the keys of a container through Add's reservations and the one-key-per-allocator
 * rollback of pkg/daemon/handler.go.
 */
module Rollback {
  import opened Addrs
  import opened OwnerText
  import opened Keyspace
  import opened RangeWalk
  import opened Allocators
  import opened AddRelation

  /** Each address was unreserved when it was granted. */
  ghost predicate FreshGrants(nm: Naming, kv: Keys, allocs: seq<Alloc>, id: string, ifname: string, granted: seq<Addr>)
    ensures FreshGrants(nm, kv, allocs, id, ifname, granted) ==> |granted| <= |allocs|
  {
    && |granted| <= |allocs|
    && forall j :: 0 <= j < |granted| ==> KeyOf(nm, granted[j]) !in GrantAll(nm, kv, allocs, id, ifname, granted[..j])
  }

  lemma LoopFresh(nm: Naming, kv: Keys, allocs: seq<Alloc>, reqs: Requests, id: string, ifname: string,
                  picks: seq<Option<string>>, granted: seq<Addr>)
    requires AllocsOk(allocs) && Loop(nm, kv, allocs, reqs, id, ifname, picks, granted)
    ensures FreshGrants(nm, kv, allocs, id, ifname, granted)
  {
    hide WellFormed, InSet, PickOk, Choice, GrantAll, KeyOf;
    forall j | 0 <= j < |granted| ensures KeyOf(nm, granted[j]) !in GrantAll(nm, kv, allocs, id, ifname, granted[..j]) {
      var stage := GrantAll(nm, kv, allocs, id, ifname, granted[..j]);
      assert Turn(nm, kv, allocs, reqs, id, ifname, granted[..j], picks[j]) == Some(granted[j]);
      ChoiceAllocatable(allocs[j].rs, nm, stage, allocs[j].rid, Asked(reqs, picks[j]));
      assert granted[j] !in Taken(nm, stage);
    }
  }

  lemma FreshPrefix(nm: Naming, kv: Keys, allocs: seq<Alloc>, id: string, ifname: string, granted: seq<Addr>)
    requires FreshGrants(nm, kv, allocs, id, ifname, granted) && granted != []
    ensures FreshGrants(nm, kv, allocs, id, ifname, granted[..|granted| - 1])
    ensures KeyOf(nm, granted[|granted| - 1]) !in GrantAll(nm, kv, allocs, id, ifname, granted[..|granted| - 1])
  {
    hide GrantAll, KeyOf;
    var init := granted[..|granted| - 1];
    assert forall j :: 0 <= j < |init| ==> init[..j] == granted[..j];
  }

  /** The keys of the granted addresses. */
  function KeysOf(nm: Naming, granted: seq<Addr>): set<string> {
    set a: Addr | a in granted :: KeyOf(nm, a)
  }

  lemma KeysOfStep(nm: Naming, granted: seq<Addr>)
    requires granted != []
    ensures KeysOf(nm, granted) == KeysOf(nm, granted[..|granted| - 1]) + {KeyOf(nm, granted[|granted| - 1])}
  {
    hide KeyOf;
    assert granted == granted[..|granted| - 1] + [granted[|granted| - 1]];
  }

  /** What the reservations leave the container owning. */
  lemma {:induction false} OwnedAfterGrants(nm: Naming, kv: Keys, allocs: seq<Alloc>, id: string, ifname: string,
                                            granted: seq<Addr>)
    requires CodecOk(nm) && LastsOk(nm, kv) && nm.parse(Trim(id)).None?
    requires FreshGrants(nm, kv, allocs, id, ifname, granted)
    ensures var after := GrantAll(nm, kv, allocs, id, ifname, granted);
            && LastsOk(nm, after)
            && Owned(nm, after, id, ifname) ==
               Owned(nm, kv, id, ifname) + (if Recognised(id, ifname) then KeysOf(nm, granted) else {})
    decreases |granted|
  {
    hide CodecOk, LastsOk, KeyOf, Owner, Trim, Recognised, ReserveIn, Owned, LastKey;
    if granted == [] {
      assert KeysOf(nm, granted) == {};
    } else {
      var n := |granted| - 1;
      FreshPrefix(nm, kv, allocs, id, ifname, granted);
      OwnedAfterGrants(nm, kv, allocs, id, ifname, granted[..n]);
      OwnedReserve(nm, GrantAll(nm, kv, allocs, id, ifname, granted[..n]), id, ifname, granted[n], allocs[n].rid);
      KeysOfStep(nm, granted);
      hide FreshGrants, KeysOf;
    }
  }

  /** Each grant is one key more. */
  lemma {:induction false} KeysCount(nm: Naming, kv: Keys, allocs: seq<Alloc>, id: string, ifname: string,
                                     granted: seq<Addr>)
    requires CodecOk(nm) && FreshGrants(nm, kv, allocs, id, ifname, granted)
    ensures |KeysOf(nm, granted)| == |granted|
    ensures forall k :: k in KeysOf(nm, granted) ==> k !in kv
    decreases |granted|
  {
    hide CodecOk, KeyOf, GrantAll;
    if granted == [] {
      assert KeysOf(nm, granted) == {};
    } else {
      var n := |granted| - 1;
      FreshPrefix(nm, kv, allocs, id, ifname, granted);
      KeysCount(nm, kv, allocs, id, ifname, granted[..n]);
      KeysOfStep(nm, granted);
      forall a | a in granted[..n] ensures KeyOf(nm, a) != KeyOf(nm, granted[n]) {
        GrantsNew(nm, kv, allocs, id, ifname, granted[..n], a);
      }
      GrantsNew(nm, kv, allocs, id, ifname, granted, granted[n]);
      hide FreshGrants;
    }
  }

  lemma OwnedCount(nm: Naming, kv: Keys, allocs: seq<Alloc>, id: string, ifname: string, granted: seq<Addr>)
    requires CodecOk(nm) && LastsOk(nm, kv) && nm.parse(Trim(id)).None?
    requires FreshGrants(nm, kv, allocs, id, ifname, granted) && Recognised(id, ifname)
    ensures |Owned(nm, GrantAll(nm, kv, allocs, id, ifname, granted), id, ifname)|
            == |Owned(nm, kv, id, ifname)| + |granted|
  {
    hide CodecOk, LastsOk, FreshGrants, GrantAll, Owned, KeysOf, Recognised;
    OwnedAfterGrants(nm, kv, allocs, id, ifname, granted);
    KeysCount(nm, kv, allocs, id, ifname, granted);
    OwnedInside(nm, kv, id, ifname);
    assert Owned(nm, kv, id, ifname) * KeysOf(nm, granted) == {};
  }

  lemma OwnedInside(nm: Naming, kv: Keys, id: string, ifname: string)
    ensures forall k :: k in Owned(nm, kv, id, ifname) ==> k in kv
  {
    hide Owner, Trim;
  }

  lemma SubsetSize<T>(a: set<T>, b: set<T>)
    requires a <= b
    ensures |b - a| == |b| - |a|
    ensures |a| == |b| ==> a == b
  {
    assert b == a + (b - a);
    if |a| == |b| { assert b - a == {} by { assert |b - a| == 0; } }
  }

  /**
   * Rollback by counting: what the container owns afterwards is what it owned before, plus what
   * was granted, minus one key per allocator, and never less than nothing.
   */
  lemma RollbackCount(nm: Naming, kv: Keys, allocs: seq<Alloc>, id: string, ifname: string, granted: seq<Addr>,
                      kv': Keys, dropped: set<string>)
    requires CodecOk(nm) && LastsOk(nm, kv) && nm.parse(Trim(id)).None? && Recognised(id, ifname)
    requires FreshGrants(nm, kv, allocs, id, ifname, granted)
    requires RolledBack(nm, GrantAll(nm, kv, allocs, id, ifname, granted), kv', |allocs|, id, ifname, dropped)
    ensures var total := |Owned(nm, kv, id, ifname)| + |granted|;
            |Owned(nm, kv', id, ifname)| == if total <= |allocs| then 0 else total - |allocs|
  {
    hide CodecOk, LastsOk, KeyOf, Owner, Trim, Recognised, GrantAll, Matching, LastKey, FreshGrants, KeysOf, Owned;
    var after := GrantAll(nm, kv, allocs, id, ifname, granted);
    OwnedCount(nm, kv, allocs, id, ifname, granted);
    OwnedDrop(nm, after, id, ifname, dropped);
    SubsetSize(dropped, Owned(nm, after, id, ifname));
  }

  /** Whatever the container owned before, a key it does not own survives the call and its rollback. */
  lemma RollbackSpares(nm: Naming, kv: Keys, allocs: seq<Alloc>, id: string, ifname: string, granted: seq<Addr>,
                       kv': Keys, dropped: set<string>, k: string)
    requires CodecOk(nm) && LastsOk(nm, kv) && nm.parse(Trim(id)).None?
    requires FreshGrants(nm, kv, allocs, id, ifname, granted)
    requires RolledBack(nm, GrantAll(nm, kv, allocs, id, ifname, granted), kv', |allocs|, id, ifname, dropped)
    requires k in kv && k !in Owned(nm, kv, id, ifname) && forall r :: k != LastKey(nm, r)
    ensures k in kv' && kv'[k] == kv[k]
  {
    hide CodecOk, LastsOk, KeyOf, Recognised, GrantAll, LastKey, FreshGrants, KeysOf, Owned;
    OwnedAfterGrants(nm, kv, allocs, id, ifname, granted);
    KeysCount(nm, kv, allocs, id, ifname, granted);
    GrantsTouch(nm, kv, allocs, id, ifname, granted, k);
  }

  /**
   * So a failed Add leaves every reservation of other containers and interfaces with its owner.
   * With nothing granted this is what Del does.
   */
  lemma OthersKeep(nm: Naming, kv: Keys, allocs: seq<Alloc>, id: string, ifname: string, granted: seq<Addr>,
                   kv': Keys, dropped: set<string>,
                   owners: map<Addr, string>, last: map<string, Addr>, holders: map<Addr, Holder>, a: Addr)
    requires CodecOk(nm) && Encodes(nm, kv, owners, last) && HeldBy(owners, holders)
    requires OneLine(Trim(id)) && nm.parse(Trim(id)).None?
    requires FreshGrants(nm, kv, allocs, id, ifname, granted)
    requires RolledBack(nm, GrantAll(nm, kv, allocs, id, ifname, granted), kv', |allocs|, id, ifname, dropped)
    requires a in holders && !Finds(id, ifname, holders[a])
    ensures KeyOf(nm, a) in kv' && kv'[KeyOf(nm, a)] == owners[a]
  {
    hide CodecOk, KeyOf, GrantAll, LastKey, FreshGrants, Owned, Finds, Matches, RolledBack, OneLine, CleanId;
    assert LastsOk(nm, kv) by { hide LastKey; }
    forall r ensures KeyOf(nm, a) != LastKey(nm, r) { KeysApart(nm, a, a, r, r); }
    AddressOwned(nm, kv, owners, last, id, ifname, a);
    FindsExact(id, ifname, holders[a]);
    RollbackSpares(nm, kv, allocs, id, ifname, granted, kv', dropped, KeyOf(nm, a));
  }

  /** Apart from last-reserved entries the two keyspaces hold the same. */
  ghost predicate SameButLasts(nm: Naming, a: Keys, b: Keys) {
    forall k :: (k in a && k in b && a[k] == b[k]) || (k !in a && k !in b) || exists r :: k == LastKey(nm, r)
  }

  lemma {:induction false} GrantsTouch(nm: Naming, kv: Keys, allocs: seq<Alloc>, id: string, ifname: string,
                                       granted: seq<Addr>, k: string)
    requires |granted| <= |allocs| && k !in KeysOf(nm, granted) && forall r :: k != LastKey(nm, r)
    ensures var after := GrantAll(nm, kv, allocs, id, ifname, granted);
            (k in after <==> k in kv) && (k in kv ==> after[k] == kv[k])
    decreases |granted|
  {
    hide KeyOf, LastKey, Owner, KeysOf;
    if granted != [] {
      KeysOfStep(nm, granted);
      GrantsTouch(nm, kv, allocs, id, ifname, granted[..|granted| - 1], k);
    }
  }

  lemma {:induction false} GrantsNew(nm: Naming, kv: Keys, allocs: seq<Alloc>, id: string, ifname: string,
                                     granted: seq<Addr>, a: Addr)
    requires CodecOk(nm) && FreshGrants(nm, kv, allocs, id, ifname, granted) && a in granted
    ensures KeyOf(nm, a) !in kv && KeyOf(nm, a) in GrantAll(nm, kv, allocs, id, ifname, granted)
  {
    var j :| 0 <= j < |granted| && granted[j] == a;
    GrantTaken(nm, kv, allocs, id, ifname, granted, a);
    GrantTaken(nm, kv, allocs, id, ifname, granted[..j], a);
    hide CodecOk, KeyOf, GrantAll;
    assert a !in Taken(nm, GrantAll(nm, kv, allocs, id, ifname, granted[..j]));
  }

  /**
   * A container that owned nothing owns nothing after the rollback, and every other key is as
   * before: reserving and rolling back leaves only last-reserved entries behind.
   */
  lemma RollbackRestores(nm: Naming, kv: Keys, allocs: seq<Alloc>, id: string, ifname: string, granted: seq<Addr>,
                         kv': Keys, dropped: set<string>)
    requires CodecOk(nm) && LastsOk(nm, kv) && nm.parse(Trim(id)).None? && Recognised(id, ifname)
    requires Owned(nm, kv, id, ifname) == {}
    requires FreshGrants(nm, kv, allocs, id, ifname, granted)
    requires RolledBack(nm, GrantAll(nm, kv, allocs, id, ifname, granted), kv', |allocs|, id, ifname, dropped)
    ensures Owned(nm, kv', id, ifname) == {}
    ensures SameButLasts(nm, kv', kv)
    ensures Taken(nm, kv') == Taken(nm, kv)
  {
    hide CodecOk, LastsOk, KeyOf, Owner, Trim, Recognised, GrantAll, LastKey, Owned, KeysOf, Taken;
    var after := GrantAll(nm, kv, allocs, id, ifname, granted);
    OwnedAfterGrants(nm, kv, allocs, id, ifname, granted);
    OwnedCount(nm, kv, allocs, id, ifname, granted);
    OwnedDrop(nm, after, id, ifname, dropped);
    assert Owned(nm, after, id, ifname) == KeysOf(nm, granted);
    SubsetSize(dropped, Owned(nm, after, id, ifname));
    assert dropped == KeysOf(nm, granted);
    RestoredKeys(nm, kv, allocs, id, ifname, granted, kv');
  }

  lemma RestoredKeys(nm: Naming, kv: Keys, allocs: seq<Alloc>, id: string, ifname: string, granted: seq<Addr>,
                     kv': Keys)
    requires CodecOk(nm) && FreshGrants(nm, kv, allocs, id, ifname, granted)
    requires kv' == GrantAll(nm, kv, allocs, id, ifname, granted) - KeysOf(nm, granted)
    ensures SameButLasts(nm, kv', kv) && Taken(nm, kv') == Taken(nm, kv)
  {
    hide CodecOk, KeyOf, Owner, GrantAll, LastKey, FreshGrants;
    forall k
      ensures (k in kv' && k in kv && kv'[k] == kv[k]) || (k !in kv' && k !in kv) || exists r :: k == LastKey(nm, r)
    {
      if forall r :: k != LastKey(nm, r) {
        if k in KeysOf(nm, granted) {
          var a: Addr :| a in granted && k == KeyOf(nm, a);
          GrantsNew(nm, kv, allocs, id, ifname, granted, a);
        } else {
          GrantsTouch(nm, kv, allocs, id, ifname, granted, k);
        }
      }
    }
    forall a: Addr ensures KeyOf(nm, a) in kv' <==> KeyOf(nm, a) in kv {
      forall r ensures KeyOf(nm, a) != LastKey(nm, r) { KeysApart(nm, a, a, r, r); }
    }
  }

  /** If the owner value is not recognised, nothing granted is ever rolled back. */
  lemma RollbackLeaks(nm: Naming, kv: Keys, allocs: seq<Alloc>, id: string, ifname: string, granted: seq<Addr>,
                      kv': Keys, dropped: set<string>)
    requires CodecOk(nm) && LastsOk(nm, kv) && nm.parse(Trim(id)).None? && !Recognised(id, ifname)
    requires Owned(nm, kv, id, ifname) == {}
    requires FreshGrants(nm, kv, allocs, id, ifname, granted)
    requires RolledBack(nm, GrantAll(nm, kv, allocs, id, ifname, granted), kv', |allocs|, id, ifname, dropped)
    ensures kv' == GrantAll(nm, kv, allocs, id, ifname, granted)
    ensures Taken(nm, kv') == Taken(nm, kv) <==> granted == []
  {
    hide CodecOk, LastsOk, KeyOf, Owner, Trim, Recognised, LastKey, Owned, KeysOf;
    var after := GrantAll(nm, kv, allocs, id, ifname, granted);
    OwnedAfterGrants(nm, kv, allocs, id, ifname, granted);
    assert dropped == {};
    if granted != [] {
      GrantsNew(nm, kv, allocs, id, ifname, granted, granted[0]);
      assert granted[0] in Taken(nm, after) && granted[0] !in Taken(nm, kv);
    }
  }

  /**
   * All or nothing, exactly: a failed Add of a container that owned nothing leaves the
   * reservations as they were if and only if nothing was granted or its interface name is blank,
   * or its id is not blank and its interface name does not end in white space.
   */
  lemma AllOrNothing(nm: Naming, kv: Keys, allocs: seq<Alloc>, reqs: Requests, id: string, ifname: string,
                     picks: seq<Option<string>>, granted: seq<Addr>, kv': Keys, dropped: set<string>)
    requires CodecOk(nm) && LastsOk(nm, kv) && nm.parse(Trim(id)).None? && Owned(nm, kv, id, ifname) == {}
    requires AllocsOk(allocs) && Loop(nm, kv, allocs, reqs, id, ifname, picks, granted)
    requires RolledBack(nm, GrantAll(nm, kv, allocs, id, ifname, granted), kv', |allocs|, id, ifname, dropped)
    ensures Taken(nm, kv') == Taken(nm, kv)
            <==> granted == [] || Blank(ifname) || (!Blank(id) && !IsSpace(ifname[|ifname| - 1]))
    ensures Recognised(id, ifname) ==> Owned(nm, kv', id, ifname) == {} && SameButLasts(nm, kv', kv)
  {
    hide CodecOk, LastsOk, KeyOf, Owner, Trim, Recognised, LastKey, Owned, KeysOf, GrantAll, Taken, Blank, RolledBack,
        Loop, SameButLasts;
    LoopFresh(nm, kv, allocs, reqs, id, ifname, picks, granted);
    RecognisedExact(id, ifname);
    if Recognised(id, ifname) {
      RollbackRestores(nm, kv, allocs, id, ifname, granted, kv', dropped);
    } else {
      RollbackLeaks(nm, kv, allocs, id, ifname, granted, kv', dropped);
    }
  }
}
