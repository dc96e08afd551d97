/** The IPAM server of pkg/daemon/handler.go, with HTTP and logging stripped away. */
module Daemon {
  import opened Addrs
  import opened OwnerText
  import opened Keyspace
  import opened RangeWalk
  import opened RangeIterator
  import opened Allocators
  import opened AddRelation
  import opened Rollback

  // ------------------------------------------------------------------
  // The request

  /** strings.Split with a one-character separator: an empty text gives one empty piece. */
  function Split(s: string, sep: char): (pieces: seq<string>)
    ensures pieces != []
  {
    if s == "" then [""]
    else
      var rest := Split(s[1..], sep);
      if s[0] == sep then [""] + rest else [[s[0]] + rest[0]] + rest[1..]
  }

  function RequestMap(texts: seq<string>, parse: string -> Option<Addr>): Requests {
    map t | t in texts :: parse(t)
  }

  method ParseAll(texts: seq<string>, parse: string -> Option<Addr>) returns (requestedIPs: Requests)
    ensures requestedIPs == RequestMap(texts, parse)
  {
    requestedIPs := map[];
    for i := 0 to |texts|
      invariant requestedIPs == RequestMap(texts[..i], parse)
    {
      requestedIPs := requestedIPs[texts[i] := parse(texts[i])];
      assert texts[..i + 1] == texts[..i] + [texts[i]];
    }
    assert texts[..|texts|] == texts;
  }

  /** One remaining text whose address lies in the set, whichever the map yields first. */
  method Pick(rs: seq<Range>, requestedIPs: Requests) returns (pick: Option<string>)
    ensures pick.Some? ==> Fitting(rs, requestedIPs, pick.value)
    ensures pick.None? ==> forall t :: !Fitting(rs, requestedIPs, t)
  {
    var rest := requestedIPs.Keys;
    while rest != {}
      invariant rest <= requestedIPs.Keys
      invariant forall t :: Fitting(rs, requestedIPs, t) ==> t in rest
    {
      var k :| k in rest;
      rest := rest - {k};
      if requestedIPs[k].Some? {
        var r := RangeFor(rs, requestedIPs[k].value);
        if r.Some? {
          return Some(k);
        }
      }
    }
    pick := None;
  }

  /** A text that parses to nothing is never used up, so such a request always fails. */
  lemma UnparsedFails(nm: Naming, kv: Keys, allocs: seq<Alloc>, reqs: Requests, id: string, ifname: string,
                      picks: seq<Option<string>>, granted: seq<Addr>, t: string)
    requires AllocsOk(allocs) && Loop(nm, kv, allocs, reqs, id, ifname, picks, granted)
    requires t in reqs && reqs[t].None?
    ensures !Succeeded(allocs, reqs, picks, granted)
  {
    hide Turn, AllocsOk;
    forall j | 0 <= j < |picks| ensures picks[j] != Some(t) {
      assert PickOk(allocs[j].rs, reqs, Used(picks[..j]), picks[j]);
    }
  }

  /** Asking for no address at all sends one empty text, so the request always fails. */
  lemma EmptyRequestFails(nm: Naming, kv: Keys, allocs: seq<Alloc>, id: string, ifname: string,
                          picks: seq<Option<string>>, granted: seq<Addr>)
    requires CodecOk(nm) && AllocsOk(allocs)
    requires Loop(nm, kv, allocs, RequestMap(Split("", ','), nm.parse), id, ifname, picks, granted)
    ensures !Succeeded(allocs, RequestMap(Split("", ','), nm.parse), picks, granted)
  {
    hide AllocsOk, Loop, Succeeded;
    var reqs := RequestMap(Split("", ','), nm.parse);
    assert Split("", ',') == [""] && "" in [""];
    assert nm.parse("").None?;
    UnparsedFails(nm, kv, allocs, reqs, id, ifname, picks, granted, "");
  }

  // ------------------------------------------------------------------
  // When the search of every allocator ends

  /** The allocatable addresses of a set. */
  ghost function FreeSet(rs: seq<Range>, taken: iset<Addr>): set<Addr>
    requires WellFormed(rs)
  {
    set a | a in Lap(rs, First(rs), taken)
  }

  /** The allocator's search ends even if `n` of its addresses go first. */
  ghost predicate Settles(nm: Naming, kv: Keys, a: Alloc, n: nat)
    requires WellFormed(a.rs)
  {
    Closes(a.rs, LastOf(nm, kv, a.rid)) || n < |FreeSet(a.rs, Taken(nm, kv))|
  }

  lemma SettlesEnds(nm: Naming, kv: Keys, a: Alloc, requested: Option<Addr>)
    requires WellFormed(a.rs) && Settles(nm, kv, a, 0)
    ensures Ends(a.rs, nm, kv, a.rid, requested)
  {
    hide WellFormed, Closes, Taken, Allocatable, LastOf, Lap;
    if FreeSet(a.rs, Taken(nm, kv)) != {} {
      var x :| x in FreeSet(a.rs, Taken(nm, kv));
      LapHas(a.rs, First(a.rs), Taken(nm, kv), x);
    }
  }

  lemma RequestEnds(nm: Naming, kv: Keys, a: Alloc, requested: Option<Addr>)
    requires WellFormed(a.rs) && (requested.Some? || Ends(a.rs, nm, kv, a.rid, requested))
    ensures Ends(a.rs, nm, kv, a.rid, requested)
  {
  }

  /** A reservation under another id costs at most one free address. */
  lemma SettlesReserve(nm: Naming, kv: Keys, a: Alloc, n: nat, id: string, ifname: string, x: Addr, rid: string)
    requires CodecOk(nm) && WellFormed(a.rs) && Settles(nm, kv, a, n + 1) && rid != a.rid
    ensures Settles(nm, ReserveIn(nm, kv, id, ifname, x, rid), a, n)
  {
    hide CodecOk, WellFormed, Closes, Taken, Lap, KeyOf, LastKey, Owner, First;
    var kv' := ReserveIn(nm, kv, id, ifname, x, rid);
    KeysApart(nm, x, x, rid, a.rid);
    KeysApart(nm, x, x, a.rid, rid);
    assert LastOf(nm, kv', a.rid) == LastOf(nm, kv, a.rid);
    var f, f' := FreeSet(a.rs, Taken(nm, kv)), FreeSet(a.rs, Taken(nm, kv'));
    forall y | y in f - {x} ensures y in f' {
      LapHas(a.rs, First(a.rs), Taken(nm, kv), y);
      LapHas(a.rs, First(a.rs), Taken(nm, kv'), y);
      ReserveTaken(nm, kv, id, ifname, x, rid, y);
    }
    SubsetSize(f - {x}, f');
    assert |f - {x}| >= |f| - 1;
  }

  /** The allocator may be left without a request: an earlier one can take every text that fits its set. */
  ghost predicate MaySearch(allocs: seq<Alloc>, reqs: Requests, i: nat)
    requires i < |allocs|
  {
    forall t :: Fitting(allocs[i].rs, reqs, t) ==> exists j :: 0 <= j < i && Fitting(allocs[j].rs, reqs, t)
  }

  ghost predicate Meet(rs: seq<Range>, ss: seq<Range>) {
    exists a :: InSet(rs, a) && InSet(ss, a)
  }

  /** How many of the allocators from number `i` on, up to `j`, can take addresses from the set of `j`. */
  ghost function Rivals(allocs: seq<Alloc>, i: nat, j: nat): nat
    requires j < |allocs|
    decreases j - i
  {
    if i >= j then 0
    else Rivals(allocs, i + 1, j) + if Meet(allocs[i].rs, allocs[j].rs) then 1 else 0
  }

  /** Every search that may come up, in the allocators from number `first` on, ends. */
  ghost predicate SearchesEnd(nm: Naming, kv: Keys, allocs: seq<Alloc>, reqs: Requests, first: nat)
    requires AllocsOk(allocs)
  {
    forall j :: first <= j < |allocs| && MaySearch(allocs, reqs, j) ==>
      Settles(nm, kv, allocs[j], Rivals(allocs, first, j))
  }

  lemma {:induction false} DisjointRivals(allocs: seq<Alloc>, i: nat, j: nat)
    requires Disjoint(allocs) && j < |allocs|
    ensures Rivals(allocs, i, j) == 0
    decreases j - i
  {
    hide InSet;
    if i < j { DisjointRivals(allocs, i + 1, j); }
  }

  /** With disjoint sets no allocator costs another anything. */
  lemma DisjointSearches(nm: Naming, kv: Keys, allocs: seq<Alloc>, reqs: Requests)
    requires AllocsOk(allocs) && Disjoint(allocs)
    ensures SearchesEnd(nm, kv, allocs, reqs, 0) <==>
              forall j :: 0 <= j < |allocs| && MaySearch(allocs, reqs, j) ==> Settles(nm, kv, allocs[j], 0)
  {
    hide MaySearch, Settles, WellFormed, Disjoint, Rivals;
    forall j | 0 <= j < |allocs| ensures Rivals(allocs, 0, j) == 0 { DisjointRivals(allocs, 0, j); }
  }

  /** A reservation outside its set costs an allocator nothing. */
  lemma SettlesApart(nm: Naming, kv: Keys, a: Alloc, n: nat, id: string, ifname: string, x: Addr, rid: string)
    requires CodecOk(nm) && WellFormed(a.rs) && Settles(nm, kv, a, n) && rid != a.rid && !InSet(a.rs, x)
    ensures Settles(nm, ReserveIn(nm, kv, id, ifname, x, rid), a, n)
  {
    hide CodecOk, WellFormed, Closes, Taken, Lap, KeyOf, LastKey, Owner, First;
    var kv' := ReserveIn(nm, kv, id, ifname, x, rid);
    KeysApart(nm, x, x, rid, a.rid);
    KeysApart(nm, x, x, a.rid, rid);
    assert LastOf(nm, kv', a.rid) == LastOf(nm, kv, a.rid);
    var f, f' := FreeSet(a.rs, Taken(nm, kv)), FreeSet(a.rs, Taken(nm, kv'));
    forall y | y in f ensures y in f' {
      LapHas(a.rs, First(a.rs), Taken(nm, kv), y);
      LapHas(a.rs, First(a.rs), Taken(nm, kv'), y);
      AllocatableInSet(a.rs, y, Taken(nm, kv));
      ReserveTaken(nm, kv, id, ifname, x, rid, y);
    }
    SubsetSize(f, f');
  }

  /** The search of allocator `j` still ends after number `i` has been granted an address. */
  lemma SettlesAfter(nm: Naming, kv: Keys, allocs: seq<Alloc>, i: nat, j: nat, id: string, ifname: string, x: Addr)
    requires CodecOk(nm) && AllocsOk(allocs) && i < j < |allocs| && InSet(allocs[i].rs, x)
    requires Settles(nm, kv, allocs[j], Rivals(allocs, i, j))
    ensures Settles(nm, ReserveIn(nm, kv, id, ifname, x, allocs[i].rid), allocs[j], Rivals(allocs, i + 1, j))
  {
    hide CodecOk, WellFormed, AllocsOk, Settles, InSet, ReserveIn;
    DistinctIds(allocs, i, j);
    if Meet(allocs[i].rs, allocs[j].rs) {
      SettlesReserve(nm, kv, allocs[j], Rivals(allocs, i + 1, j), id, ifname, x, allocs[i].rid);
    } else {
      SettlesApart(nm, kv, allocs[j], Rivals(allocs, i + 1, j), id, ifname, x, allocs[i].rid);
    }
  }

  /** An allocator that finds no unused text may have to search. */
  lemma IdleMaySearch(allocs: seq<Alloc>, reqs: Requests, picks: seq<Option<string>>, i: nat)
    requires |picks| == i < |allocs| && PickOk(allocs[i].rs, reqs, Used(picks), None)
    requires forall j :: 0 <= j < |picks| ==> PickOk(allocs[j].rs, reqs, Used(picks[..j]), picks[j])
    ensures MaySearch(allocs, reqs, i)
  {
    hide Fitting, Used;
    forall t | Fitting(allocs[i].rs, reqs, t) ensures exists j :: 0 <= j < i && Fitting(allocs[j].rs, reqs, t) {
      var j := UsedAt(picks, t);
      assert PickOk(allocs[j].rs, reqs, Used(picks[..j]), picks[j]);
    }
  }

  lemma LoopPicks(nm: Naming, kv: Keys, allocs: seq<Alloc>, reqs: Requests, id: string, ifname: string,
                  picks: seq<Option<string>>, granted: seq<Addr>)
    requires AllocsOk(allocs) && Loop(nm, kv, allocs, reqs, id, ifname, picks, granted)
    ensures |picks| <= |allocs|
    ensures forall j :: 0 <= j < |picks| ==> PickOk(allocs[j].rs, reqs, Used(picks[..j]), picks[j])
  {
  }

  // ------------------------------------------------------------------
  // The server

  datatype AddResult = Added(confs: seq<IPConf>) | Rejected | Abandoned

  class IpamServer {
    const allocs: seq<IPAllocator>
    const store: Store

    constructor (allocs: seq<IPAllocator>, store: Store)
      ensures this.allocs == allocs && this.store == store
    {
      this.allocs, this.store := allocs, store;
    }

    ghost predicate Valid()
      reads store, set a | a in allocs :: a.Rangeset
    {
      && CodecOk(store.nm) && SlashedKeys(store.kv)
      && (forall i :: 0 <= i < |allocs| ==> allocs[i].store == store)
      && AllocsOk(Sets())
    }

    ghost function Sets(): (s: seq<Alloc>)
      reads set a | a in allocs :: a.Rangeset
      ensures |s| == |allocs|
      ensures forall i :: 0 <= i < |allocs| ==> s[i] == Alloc(allocs[i].Rangeset.ranges, allocs[i].rangeID)
    {
      seq(|allocs|, i requires 0 <= i < |allocs| reads set a | a in allocs :: a.Rangeset =>
        Alloc(allocs[i].Rangeset.ranges, allocs[i].rangeID))
    }

    /** One release per allocator: each deletes at most one key of the container. */
    method ReleaseAll(contID: string, ifName: string) returns (ghost dropped: set<string>)
      requires Valid()
      modifies store`kv
      ensures Valid() && RolledBack(store.nm, old(store.kv), store.kv, |allocs|, contID, ifName, dropped)
    {
      hide CodecOk, AllocsOk, Owned, WellFormed;
      dropped := {};
      ghost var nm, kv := store.nm, store.kv;
      for i := 0 to |allocs|
        invariant Valid() && dropped <= Owned(nm, kv, contID, ifName) && store.kv == kv - dropped
        invariant |dropped| == if |Owned(nm, kv, contID, ifName)| <= i then |Owned(nm, kv, contID, ifName)| else i
      {
        AllocValid(i);
        ghost var more := allocs[i].Release(contID, ifName);
        OwnedDrop(nm, kv, contID, ifName, dropped);
        DropMore(Owned(nm, kv, contID, ifName), dropped, more, i);
        dropped := dropped + more;
      }
    }

    lemma AllocValid(i: nat)
      requires Valid() && i < |allocs|
      ensures allocs[i].Valid()
    {
      assert Sets()[i].rs == allocs[i].Rangeset.ranges;
    }

    method Del(contID: string, ifName: string) returns (ghost dropped: set<string>)
      requires Valid()
      modifies store`kv
      ensures Valid() && RolledBack(store.nm, old(store.kv), store.kv, |allocs|, contID, ifName, dropped)
    {
      dropped := ReleaseAll(contID, ifName);
    }

    /**
     * Asks every allocator for one address, a requested one if some remaining request lies in its
     * set. If one refuses, or a request is left over, the container's keys are released again.
     * `resolvBroken` says that a configured resolver file cannot be read.
     */
    method Add(reqIPs: string, contID: string, ifName: string, resolvBroken: bool)
      returns (res: AddResult, ghost picks: seq<Option<string>>, ghost granted: seq<Addr>, ghost dropped: set<string>)
      requires Valid() && SearchesEnd(store.nm, store.kv, Sets(), RequestMap(Split(reqIPs, ','), store.nm.parse), 0)
      modifies store`kv
      ensures Valid()
      ensures var nm, kv, sets := store.nm, old(store.kv), Sets();
              var reqs := RequestMap(Split(reqIPs, ','), nm.parse);
              && Loop(nm, kv, sets, reqs, contID, ifName, picks, granted)
              && (if res.Rejected? then
                    && Failed(nm, kv, sets, reqs, contID, ifName, picks, granted)
                    && RolledBack(nm, GrantAll(nm, kv, sets, contID, ifName, granted), store.kv, |allocs|, contID,
                         ifName, dropped)
                  else
                    && Succeeded(sets, reqs, picks, granted)
                    && store.kv == GrantAll(nm, kv, sets, contID, ifName, granted)
                    && (res.Abandoned? <==> resolvBroken))
              && (res.Added? ==> Served(sets, granted, res.confs))
    {
      hide CodecOk, WellFormed, AllocsOk, Settles, Loop, Owned, Split, Used, GrantAll, Turn, ConfFor;
      dropped := {};
      ghost var nm, kv, sets := store.nm, store.kv, Sets();
      var requestedIPs := ParseAll(Split(reqIPs, ','), store.nm.parse);
      ghost var reqs := requestedIPs;
      var allocatedIPs: seq<IPConf> := [];
      picks, granted := [], [];
      ServingStart(kv, reqs, contID, ifName);
      for i := 0 to |allocs|
        invariant Serving(kv, reqs, requestedIPs, contID, ifName, picks, granted) && |granted| == |allocatedIPs| == i
        invariant forall j :: 0 <= j < i ==> allocatedIPs[j].addr == granted[j] && ConfFor(sets[j].rs, allocatedIPs[j])
      {
        var answer;
        ghost var pick;
        answer, requestedIPs, pick := ServeOne(i, requestedIPs, contID, ifName, kv, reqs, picks, granted);
        picks := picks + [pick];
        if answer.Refused? {
          dropped := ReleaseAll(contID, ifName);
          res := Rejected;
          return;
        }
        allocatedIPs := allocatedIPs + [answer.conf];
        granted := granted + [answer.conf.addr];
      }
      assert reqs.Keys <= Used(picks) <==> requestedIPs == map[] by { LeftOver(reqs, Used(picks)); }
      if requestedIPs != map[] {
        dropped := ReleaseAll(contID, ifName);
        res := Rejected;
        return;
      }
      if resolvBroken {
        res := Abandoned;
        return;
      }
      res := Added(allocatedIPs);
    }

    /** The state between two turns of Add's loop. */
    ghost predicate Serving(kv: Keys, reqs: Requests, requestedIPs: Requests, contID: string, ifName: string,
                            picks: seq<Option<string>>, granted: seq<Addr>)
      reads store, set a | a in allocs :: a.Rangeset
    {
      && Valid() && |picks| == |granted| <= |allocs|
      && Loop(store.nm, kv, Sets(), reqs, contID, ifName, picks, granted)
      && store.kv == GrantAll(store.nm, kv, Sets(), contID, ifName, granted)
      && requestedIPs == reqs - Used(picks)
      && SearchesEnd(store.nm, store.kv, Sets(), reqs, |granted|)
    }

    lemma ServingStart(kv: Keys, reqs: Requests, contID: string, ifName: string)
      requires Valid() && store.kv == kv
      requires SearchesEnd(store.nm, store.kv, Sets(), reqs, 0)
      ensures Serving(kv, reqs, reqs, contID, ifName, [], [])
    {
      hide CodecOk, WellFormed, Settles, Turn, PickOk;
      NothingUsed();
    }

    /** One turn: pick a request for allocator `i`, and ask it. */
    method ServeOne(i: nat, requestedIPs: Requests, contID: string, ifName: string, ghost kv: Keys,
                    ghost reqs: Requests,
                    ghost picks: seq<Option<string>>, ghost granted: seq<Addr>)
      returns (answer: Answer, remaining: Requests, ghost pick: Option<string>)
      requires Serving(kv, reqs, requestedIPs, contID, ifName, picks, granted) && |granted| == i < |allocs|
      modifies store`kv
      ensures Valid() && Loop(store.nm, kv, Sets(), reqs, contID, ifName, picks + [pick], granted)
      ensures answer.Refused? ==>
                && Turn(store.nm, kv, Sets(), reqs, contID, ifName, granted, pick).None?
                && store.kv == GrantAll(store.nm, kv, Sets(), contID, ifName, granted)
      ensures answer.Ok? ==>
                && ConfFor(Sets()[i].rs, answer.conf)
                && Serving(kv, reqs, remaining, contID, ifName, picks + [pick], granted + [answer.conf.addr])
    {
      hide CodecOk, WellFormed, AllocsOk, Settles, Loop, Used, GrantAll, Turn, ConfFor, PickOk, Choice, ReserveIn,
          Fitting, Ends;
      ghost var sets, stage := Sets(), store.kv;
      AllocValid(i);
      var chosen := Pick(allocs[i].Rangeset.ranges, requestedIPs);
      pick := chosen;
      PickAmong(sets[i].rs, reqs, Used(picks), pick);
      UsedMore(picks, pick);
      remaining := requestedIPs;
      var requestedIP := None;
      if chosen.Some? {
        PickedText(sets[i].rs, reqs, Used(picks), pick);
        requestedIP := requestedIPs[chosen.value];
        remaining := requestedIPs - {chosen.value};
      }
      LoopPick(store.nm, kv, sets, reqs, contID, ifName, picks, granted, pick);
      TurnIs(store.nm, kv, sets, reqs, contID, ifName, granted, pick);
      if chosen.None? {
        LoopPicks(store.nm, kv, sets, reqs, contID, ifName, picks, granted);
        IdleMaySearch(sets, reqs, picks, i);
        SettlesEnds(store.nm, stage, sets[i], None);
      }
      RequestEnds(store.nm, stage, sets[i], requestedIP);
      answer := allocs[i].Get(contID, ifName, requestedIP);
      if answer.Ok? {
        ServedOne(stage, kv, reqs, contID, ifName, picks, granted, pick, answer.conf.addr);
      }
    }

    /** After a grant the loop state is there for the next allocator. */
    lemma ServedOne(stage: Keys, kv: Keys, reqs: Requests, contID: string, ifName: string,
                    picks: seq<Option<string>>, granted: seq<Addr>, pick: Option<string>, a: Addr)
      requires Valid() && |picks| == |granted| < |allocs|
      requires stage == GrantAll(store.nm, kv, Sets(), contID, ifName, granted)
      requires store.kv == ReserveIn(store.nm, stage, contID, ifName, a, Sets()[|granted|].rid)
      requires Loop(store.nm, kv, Sets(), reqs, contID, ifName, picks + [pick], granted)
      requires Turn(store.nm, kv, Sets(), reqs, contID, ifName, granted, pick) == Some(a)
      requires SearchesEnd(store.nm, stage, Sets(), reqs, |granted|)
      ensures Loop(store.nm, kv, Sets(), reqs, contID, ifName, picks + [pick], granted + [a])
      ensures store.kv == GrantAll(store.nm, kv, Sets(), contID, ifName, granted + [a])
      ensures SearchesEnd(store.nm, store.kv, Sets(), reqs, |granted| + 1)
    {
      hide CodecOk, WellFormed, AllocsOk, Settles, Loop, GrantAll, Turn, ReserveIn;
      var sets, i := Sets(), |granted|;
      LoopGrant(store.nm, kv, sets, reqs, contID, ifName, picks + [pick], granted, a);
      GrantOne(store.nm, kv, sets, contID, ifName, granted, a);
      TurnIs(store.nm, kv, sets, reqs, contID, ifName, granted, pick);
      ChoiceAllocatable(sets[i].rs, store.nm, stage, sets[i].rid, Asked(reqs, pick));
      hide MaySearch, Rivals, Choice, Allocatable, InSet, Asked, Taken;
      forall j | i + 1 <= j < |allocs| && MaySearch(sets, reqs, j)
        ensures Settles(store.nm, store.kv, sets[j], Rivals(sets, i + 1, j))
      {
        SettlesAfter(store.nm, stage, sets, i, j, contID, ifName, a);
      }
    }
  }

  lemma LeftOver(reqs: Requests, used: set<string>)
    ensures reqs.Keys <= used <==> reqs - used == map[]
  {
    if !(reqs.Keys <= used) {
      var t :| t in reqs && t !in used;
      assert t in reqs - used;
    }
  }

  /** One configuration per allocator, from its own set, with the granted address. */
  ghost predicate Served(sets: seq<Alloc>, granted: seq<Addr>, confs: seq<IPConf>) {
    && |sets| == |granted| == |confs|
    && forall j :: 0 <= j < |sets| ==> confs[j].addr == granted[j] && ConfFor(sets[j].rs, confs[j])
  }

  // ------------------------------------------------------------------
  // Proof steps of Add

  lemma NothingUsed()
    ensures Used([]) == {}
  {
  }

  lemma DropMore(owned: set<string>, dropped: set<string>, more: set<string>, i: nat)
    requires dropped <= owned && |dropped| == if |owned| <= i then |owned| else i
    requires more <= owned - dropped && |more| == if owned - dropped == {} then 0 else 1
    ensures |dropped + more| == if |owned| <= i + 1 then |owned| else i + 1
  {
    SubsetSize(dropped, owned);
    assert |dropped + more| == |dropped| + |more|;
  }

  lemma PickAmong(rs: seq<Range>, reqs: Requests, used: set<string>, pick: Option<string>)
    requires pick.Some? ==> Fitting(rs, reqs - used, pick.value)
    requires pick.None? ==> forall t :: !Fitting(rs, reqs - used, t)
    ensures PickOk(rs, reqs, used, pick)
  {
    forall t | t !in used ensures Fitting(rs, reqs - used, t) <==> Fitting(rs, reqs, t) {}
  }

  lemma PickedText(rs: seq<Range>, reqs: Requests, used: set<string>, pick: Option<string>)
    requires PickOk(rs, reqs, used, pick) && pick.Some?
    ensures pick.value in reqs && pick.value !in used
  {
  }

  lemma UsedMore(picks: seq<Option<string>>, pick: Option<string>)
    ensures Used(picks + [pick]) == Used(picks) + if pick.Some? then {pick.value} else {}
  {
  }

  lemma LoopPick(nm: Naming, kv: Keys, allocs: seq<Alloc>, reqs: Requests, id: string, ifname: string,
                 picks: seq<Option<string>>, granted: seq<Addr>, pick: Option<string>)
    requires AllocsOk(allocs) && Loop(nm, kv, allocs, reqs, id, ifname, picks, granted)
    requires |picks| == |granted| < |allocs| && PickOk(allocs[|picks|].rs, reqs, Used(picks), pick)
    ensures Loop(nm, kv, allocs, reqs, id, ifname, picks + [pick], granted)
  {
    hide PickOk, Turn, Used, AllocsOk;
    var more := picks + [pick];
    assert more[..|picks|] == picks;
    assert forall j :: 0 <= j < |picks| ==> more[..j] == picks[..j] && more[j] == picks[j];
  }

  lemma LoopGrant(nm: Naming, kv: Keys, allocs: seq<Alloc>, reqs: Requests, id: string, ifname: string,
                  picks: seq<Option<string>>, granted: seq<Addr>, a: Addr)
    requires AllocsOk(allocs) && Loop(nm, kv, allocs, reqs, id, ifname, picks, granted)
    requires |picks| == |granted| + 1
    requires Turn(nm, kv, allocs, reqs, id, ifname, granted, picks[|granted|]) == Some(a)
    ensures Loop(nm, kv, allocs, reqs, id, ifname, picks, granted + [a])
  {
    hide PickOk, Turn, Used, AllocsOk;
    var more := granted + [a];
    assert more[..|granted|] == granted;
    assert forall j :: 0 <= j < |granted| ==> more[..j] == granted[..j] && more[j] == granted[j];
  }

  lemma GrantOne(nm: Naming, kv: Keys, allocs: seq<Alloc>, id: string, ifname: string, granted: seq<Addr>, a: Addr)
    requires |granted| < |allocs|
    ensures GrantAll(nm, kv, allocs, id, ifname, granted + [a]) ==
            ReserveIn(nm, GrantAll(nm, kv, allocs, id, ifname, granted), id, ifname, a, allocs[|granted|].rid)
  {
    hide ReserveIn;
    assert (granted + [a])[..|granted|] == granted;
  }

  lemma TurnIs(nm: Naming, kv: Keys, allocs: seq<Alloc>, reqs: Requests, id: string, ifname: string,
               granted: seq<Addr>, pick: Option<string>)
    requires AllocsOk(allocs) && |granted| < |allocs|
    ensures WellFormed(allocs[|granted|].rs)
    ensures Turn(nm, kv, allocs, reqs, id, ifname, granted, pick) ==
            Choice(allocs[|granted|].rs, nm, GrantAll(nm, kv, allocs, id, ifname, granted), allocs[|granted|].rid,
                Asked(reqs, pick))
  {
  }

  lemma DistinctIds(allocs: seq<Alloc>, i: nat, j: nat)
    requires AllocsOk(allocs) && i < j < |allocs|
    ensures allocs[i].rid != allocs[j].rid && WellFormed(allocs[j].rs)
  {
  }

  // ------------------------------------------------------------------
  // Starting the server

  /** strconv.Itoa. */
  function Itoa(n: nat): string {
    if n < 10 then ["0123456789"[n]] else Itoa(n / 10) + ["0123456789"[n % 10]]
  }

  /** The number a decimal text stands for. */
  function Decimal(t: string): int {
    if t == "" then 0 else 10 * Decimal(t[..|t| - 1]) + (t[|t| - 1] as int - '0' as int)
  }

  /** Decimal digits without a leading zero, read as the number. */
  lemma {:induction false} ItoaReads(n: nat)
    ensures Decimal(Itoa(n)) == n && Itoa(n) != "" && (forall c :: c in Itoa(n) ==> '0' <= c <= '9')
    ensures Itoa(n)[0] == '0' ==> n == 0 && |Itoa(n)| == 1
  {
    var d := "0123456789"[n % 10];
    assert d as int == '0' as int + n % 10;
    if n >= 10 {
      ItoaReads(n / 10);
      assert Itoa(n)[..|Itoa(n)| - 1] == Itoa(n / 10);
    } else {
      assert Itoa(n) == [d] && [d][..0] == "";
      assert Decimal([d]) == 10 * Decimal("") + n;
    }
  }

  lemma {:induction false} ItoaInjective(m: nat, n: nat)
    requires Itoa(m) == Itoa(n)
    ensures m == n
  {
    assert forall i, j :: 0 <= i < j < 10 ==> "0123456789"[i] != "0123456789"[j];
    assert Itoa(m)[|Itoa(m)| - 1] == "0123456789"[m % 10];
    assert Itoa(n)[|Itoa(n)| - 1] == "0123456789"[n % 10];
    if m >= 10 && n >= 10 {
      assert Itoa(m)[..|Itoa(m)| - 1] == Itoa(m / 10);
      assert Itoa(n)[..|Itoa(n)| - 1] == Itoa(n / 10);
      ItoaInjective(m / 10, n / 10);
    } else {
      ItoaLength(m);
      ItoaLength(n);
    }
  }

  lemma ItoaLength(n: nat)
    ensures |Itoa(n)| == 1 <==> n < 10
    ensures 0 < |Itoa(n)|
  {
  }

  /** What NewIpamServer leaves behind: one allocator per set, each pointing to the last of them. */
  ghost predicate Built(server: IpamServer, ranges: seq<seq<Range>>)
    reads server, set a | a in server.allocs :: a.Rangeset
  {
    && |server.allocs| == |ranges|
    && forall i :: 0 <= i < |ranges| ==>
         && server.allocs[i].store == server.store && server.allocs[i].rangeID == Itoa(i)
         && server.allocs[i].Rangeset.ranges == ranges[|ranges| - 1]
  }

  lemma BuiltIds(server: IpamServer, ranges: seq<seq<Range>>)
    requires Built(server, ranges) && forall i :: 0 <= i < |ranges| ==> WellFormed(ranges[i])
    ensures AllocsOk(server.Sets())
  {
    hide WellFormed, Itoa;
    var sets := server.Sets();
    forall i, j | 0 <= i < j < |sets| ensures sets[i].rid != sets[j].rid {
      if Itoa(i) == Itoa(j) { ItoaInjective(i, j); }
    }
  }

  /**
   * NewIpamServer hands every allocator the address of the one loop variable, so all of them end
   * up with the last range set.
   */
  method NewIpamServer(ranges: seq<seq<Range>>, store: Store) returns (server: IpamServer)
    ensures server.store == store && Built(server, ranges)
    ensures CodecOk(store.nm) && SlashedKeys(store.kv) && (forall i :: 0 <= i < |ranges| ==> WellFormed(ranges[i]))
            ==> server.Valid()
  {
    var allocs: seq<IPAllocator> := [];
    var rangeset := new RangeSetCell([]);
    for idx := 0 to |ranges|
      invariant fresh(rangeset) && |allocs| == idx
      invariant idx > 0 ==> rangeset.ranges == ranges[idx - 1]
      invariant forall i :: 0 <= i < idx ==>
                  && allocs[i].store == store && allocs[i].rangeID == Itoa(i) && allocs[i].Rangeset == rangeset
    {
      hide Itoa;
      rangeset.ranges := ranges[idx];
      var allocator := new IPAllocator(rangeset, store, Itoa(idx));
      allocs := allocs + [allocator];
    }
    server := new IpamServer(allocs, store);
    hide CodecOk, SlashedKeys, WellFormed, AllocsOk, Itoa;
    if forall i :: 0 <= i < |ranges| ==> WellFormed(ranges[i]) { BuiltIds(server, ranges); }
  }

  /** So each allocator serves its own set only when there is just one, if the sets are disjoint as configured. */
  lemma OwnSetOnlyIfOne(ranges: seq<seq<Range>>)
    requires forall i :: 0 <= i < |ranges| ==> WellFormed(ranges[i])
    requires forall i, j, a :: 0 <= i < j < |ranges| && InSet(ranges[i], a) ==> !InSet(ranges[j], a)
    ensures (forall i :: 0 <= i < |ranges| ==> ranges[|ranges| - 1] == ranges[i]) <==> |ranges| <= 1
  {
    if |ranges| > 1 && ranges[|ranges| - 1] == ranges[0] {
      var r := ranges[0][0];
      var a: Addr := RawAddr(r.v6, r.lo);
      assert InRange(ranges[0][0], a);
      assert InSet(ranges[0], a);
    }
  }
}
