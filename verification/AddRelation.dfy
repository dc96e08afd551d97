/**
 * What the daemon's Add and its rollback do to the keyspace (pkg/daemon/handler.go), as a relation
 * over the texts asked for, the addresses granted and the keys deleted again.
 */
module AddRelation {
  import opened Addrs
  import opened OwnerText
  import opened Keyspace
  import opened RangeWalk
  import opened Allocators

  /** One allocator: its range set and the id under which it tracks its last address. */
  datatype Alloc = Alloc(rs: seq<Range>, rid: string)

  /** The requested texts with what they parse to. */
  type Requests = map<string, Option<Addr>>

  ghost predicate AllocsOk(allocs: seq<Alloc>)
    ensures AllocsOk(allocs) ==> forall i :: 0 <= i < |allocs| ==> WellFormed(allocs[i].rs)
  {
    && (forall i :: 0 <= i < |allocs| ==> WellFormed(allocs[i].rs))
    && (forall i, j :: 0 <= i < j < |allocs| ==> allocs[i].rid != allocs[j].rid)
  }

  /** No address belongs to two allocators. */
  ghost predicate Disjoint(allocs: seq<Alloc>) {
    forall i, j, a :: 0 <= i < j < |allocs| && InSet(allocs[i].rs, a) ==> !InSet(allocs[j].rs, a)
  }

  /** The keyspace after the first allocators have reserved these addresses, one each. */
  ghost function GrantAll(nm: Naming, kv: Keys, allocs: seq<Alloc>, id: string, ifname: string,
                          granted: seq<Addr>): Keys
    requires |granted| <= |allocs|
    decreases |granted|
  {
    if granted == [] then kv
    else
      var n := |granted| - 1;
      ReserveIn(nm, GrantAll(nm, kv, allocs, id, ifname, granted[..n]), id, ifname, granted[n], allocs[n].rid)
  }

  /** The texts already handed to an allocator. */
  function Used(picks: seq<Option<string>>): set<string> {
    set p | p in picks && p.Some? :: p.value
  }

  function Asked(reqs: Requests, pick: Option<string>): Option<Addr> {
    if pick.Some? && pick.value in reqs then reqs[pick.value] else None
  }

  ghost predicate Fitting(rs: seq<Range>, reqs: Requests, t: string) {
    t in reqs && reqs[t].Some? && InSet(rs, reqs[t].value)
  }

  /** Some unused text that fits the set is picked, if there is one. */
  ghost predicate PickOk(rs: seq<Range>, reqs: Requests, used: set<string>, pick: Option<string>) {
    match pick
    case Some(t) => t !in used && Fitting(rs, reqs, t)
    case None => forall t :: t !in used ==> !Fitting(rs, reqs, t)
  }

  /** What allocator number `j` does in its turn. */
  ghost function Turn(nm: Naming, kv: Keys, allocs: seq<Alloc>, reqs: Requests, id: string, ifname: string,
                      granted: seq<Addr>, pick: Option<string>): Option<Addr>
    requires AllocsOk(allocs) && |granted| < |allocs|
  {
    Choice(allocs[|granted|].rs, nm, GrantAll(nm, kv, allocs, id, ifname, granted), allocs[|granted|].rid,
           Asked(reqs, pick))
  }

  /** The loop over the allocators, as far as it got: what each picked and was granted. */
  ghost predicate Loop(nm: Naming, kv: Keys, allocs: seq<Alloc>, reqs: Requests, id: string, ifname: string,
                       picks: seq<Option<string>>, granted: seq<Addr>)
    requires AllocsOk(allocs)
  {
    && |granted| <= |picks| <= |allocs|
    && (forall j :: 0 <= j < |picks| ==> PickOk(allocs[j].rs, reqs, Used(picks[..j]), picks[j]))
    && (forall j :: 0 <= j < |granted| ==>
          Turn(nm, kv, allocs, reqs, id, ifname, granted[..j], picks[j]) == Some(granted[j]))
  }

  ghost predicate Succeeded(allocs: seq<Alloc>, reqs: Requests, picks: seq<Option<string>>, granted: seq<Addr>) {
    |granted| == |picks| == |allocs| && reqs.Keys <= Used(picks)
  }

  /** One allocator refused, or all were served and a text was left over. */
  ghost predicate Failed(nm: Naming, kv: Keys, allocs: seq<Alloc>, reqs: Requests, id: string, ifname: string,
                         picks: seq<Option<string>>, granted: seq<Addr>)
    requires AllocsOk(allocs)
  {
    || (|granted| == |picks| == |allocs| && !(reqs.Keys <= Used(picks)))
    || (|granted| < |allocs| && |picks| == |granted| + 1
        && Turn(nm, kv, allocs, reqs, id, ifname, granted, picks[|granted|]).None?)
  }

  /** The keyspace after a rollback that deletes one key of the container per allocator. */
  ghost predicate RolledBack(nm: Naming, after: Keys, kv': Keys, allocs: nat, id: string, ifname: string,
                             dropped: set<string>) {
    && dropped <= Owned(nm, after, id, ifname) && kv' == after - dropped
    && |dropped| == if |Owned(nm, after, id, ifname)| <= allocs then |Owned(nm, after, id, ifname)| else allocs
  }

  // ------------------------------------------------------------------
  // Order independence: with disjoint sets success is decided before the call

  /**
   * Every text parses to an allocatable address, no two fall into one set, and every set that is
   * asked for nothing still has an allocatable address.
   */
  ghost predicate Satisfiable(nm: Naming, kv: Keys, allocs: seq<Alloc>, reqs: Requests) {
    && (forall t :: t in reqs ==> reqs[t].Some? && Servable(allocs, reqs[t].value, Taken(nm, kv)))
    && (forall j, t, u :: 0 <= j < |allocs| && Fitting(allocs[j].rs, reqs, t) && Fitting(allocs[j].rs, reqs, u)
                          ==> t == u)
    && (forall j :: 0 <= j < |allocs| && !AskedOf(allocs[j].rs, reqs) ==> HasFree(allocs[j].rs, Taken(nm, kv)))
  }

  ghost predicate Servable(allocs: seq<Alloc>, a: Addr, taken: iset<Addr>) {
    exists j :: 0 <= j < |allocs| && Allocatable(allocs[j].rs, a, taken)
  }

  ghost predicate AskedOf(rs: seq<Range>, reqs: Requests) {
    exists t :: Fitting(rs, reqs, t)
  }

  ghost predicate HasFree(rs: seq<Range>, taken: iset<Addr>) {
    exists a :: Allocatable(rs, a, taken)
  }

  lemma ReserveTaken(nm: Naming, kv: Keys, id: string, ifname: string, a: Addr, rid: string, b: Addr)
    requires CodecOk(nm)
    ensures b in Taken(nm, ReserveIn(nm, kv, id, ifname, a, rid)) <==> b == a || b in Taken(nm, kv)
  {
    hide CodecOk, KeyOf, LastKey, Owner;
    KeysApart(nm, a, b, rid, rid);
    KeysApart(nm, b, a, rid, rid);
  }

  lemma {:induction false} GrantTaken(nm: Naming, kv: Keys, allocs: seq<Alloc>, id: string, ifname: string,
                                      granted: seq<Addr>, b: Addr)
    requires CodecOk(nm) && |granted| <= |allocs|
    ensures b in Taken(nm, GrantAll(nm, kv, allocs, id, ifname, granted)) <==> b in granted || b in Taken(nm, kv)
    decreases |granted|
  {
    hide CodecOk, Taken, ReserveIn;
    if granted != [] {
      var n := |granted| - 1;
      GrantTaken(nm, kv, allocs, id, ifname, granted[..n], b);
      ReserveTaken(nm, GrantAll(nm, kv, allocs, id, ifname, granted[..n]), id, ifname, granted[n], allocs[n].rid, b);
      assert granted == granted[..n] + [granted[n]];
    }
  }

  lemma ChoiceAllocatable(rs: seq<Range>, nm: Naming, kv: Keys, rid: string, requested: Option<Addr>)
    requires WellFormed(rs)
    ensures match Choice(rs, nm, kv, rid, requested)
            case Some(a) => Allocatable(rs, a, Taken(nm, kv)) && InSet(rs, a)
                            && (requested.Some? ==> requested.value == a)
            case None => if requested.Some? then !Allocatable(rs, requested.value, Taken(nm, kv))
                         else !HasFree(rs, Taken(nm, kv))
  {
    if requested.None? { ChoiceNearest(rs, nm, kv, rid); }
  }

  /** With disjoint sets the turn of an allocator sees its own set as it was at the start. */
  lemma StageFrame(nm: Naming, kv: Keys, allocs: seq<Alloc>, id: string, ifname: string, granted: seq<Addr>, a: Addr)
    requires CodecOk(nm) && AllocsOk(allocs) && Disjoint(allocs) && |granted| < |allocs|
    requires forall i :: 0 <= i < |granted| ==> InSet(allocs[i].rs, granted[i])
    ensures Allocatable(allocs[|granted|].rs, a, Taken(nm, GrantAll(nm, kv, allocs, id, ifname, granted)))
            <==> Allocatable(allocs[|granted|].rs, a, Taken(nm, kv))
  {
    hide CodecOk, Taken, GrantAll, WellFormed;
    GrantTaken(nm, kv, allocs, id, ifname, granted, a);
    if a in granted {
      var i :| 0 <= i < |granted| && granted[i] == a;
      assert InSet(allocs[i].rs, a) && !InSet(allocs[|granted|].rs, a);
    }
  }

  lemma LoopInSets(nm: Naming, kv: Keys, allocs: seq<Alloc>, reqs: Requests, id: string, ifname: string,
                   picks: seq<Option<string>>, granted: seq<Addr>)
    requires AllocsOk(allocs) && Loop(nm, kv, allocs, reqs, id, ifname, picks, granted)
    ensures forall j :: 0 <= j < |granted| ==> InSet(allocs[j].rs, granted[j])
  {
    hide Taken, WellFormed, Allocatable, InSet, PickOk, Choice, GrantAll;
    forall j | 0 <= j < |granted| ensures InSet(allocs[j].rs, granted[j]) {
      assert Turn(nm, kv, allocs, reqs, id, ifname, granted[..j], picks[j]) == Some(granted[j]);
      ChoiceAllocatable(allocs[j].rs, nm, GrantAll(nm, kv, allocs, id, ifname, granted[..j]), allocs[j].rid,
          Asked(reqs, picks[j]));
    }
  }

  /** The turn of allocator `j` succeeds exactly when what it was given, or anything, was free at the start. */
  lemma TurnExact(nm: Naming, kv: Keys, allocs: seq<Alloc>, reqs: Requests, id: string, ifname: string,
                  granted: seq<Addr>, pick: Option<string>)
    requires CodecOk(nm) && AllocsOk(allocs) && Disjoint(allocs) && |granted| < |allocs|
    requires forall i :: 0 <= i < |granted| ==> InSet(allocs[i].rs, granted[i])
    ensures var rs, asked := allocs[|granted|].rs, Asked(reqs, pick);
            Turn(nm, kv, allocs, reqs, id, ifname, granted, pick).Some?
            <==> if asked.Some? then Allocatable(rs, asked.value, Taken(nm, kv)) else HasFree(rs, Taken(nm, kv))
  {
    hide CodecOk, Taken, WellFormed, Allocatable, InSet, Choice, GrantAll, Disjoint, Asked;
    var rs, asked := allocs[|granted|].rs, Asked(reqs, pick);
    ChoiceAllocatable(rs, nm, GrantAll(nm, kv, allocs, id, ifname, granted), allocs[|granted|].rid, asked);
    forall a ensures Allocatable(rs, a, Taken(nm, GrantAll(nm, kv, allocs, id, ifname, granted)))
                     <==> Allocatable(rs, a, Taken(nm, kv))
    {
      StageFrame(nm, kv, allocs, id, ifname, granted, a);
    }
  }

  /** A text picked by an allocator is picked by the one whose set it falls into. */
  lemma PickedBy(allocs: seq<Alloc>, reqs: Requests, picks: seq<Option<string>>, t: string, j: nat) returns (i: nat)
    requires Disjoint(allocs) && |picks| <= |allocs| && j < |allocs|
    requires forall k :: 0 <= k < |picks| ==> PickOk(allocs[k].rs, reqs, Used(picks[..k]), picks[k])
    requires t in Used(picks) && Fitting(allocs[j].rs, reqs, t)
    ensures i == j && j < |picks| && picks[j] == Some(t)
  {
    var p :| p in picks && p == Some(t);
    i :| 0 <= i < |picks| && picks[i] == p;
    assert PickOk(allocs[i].rs, reqs, Used(picks[..i]), picks[i]);
    assert InSet(allocs[i].rs, reqs[t].value) && InSet(allocs[j].rs, reqs[t].value);
  }

  lemma SuccessFits(nm: Naming, kv: Keys, allocs: seq<Alloc>, reqs: Requests, id: string, ifname: string,
                    picks: seq<Option<string>>, granted: seq<Addr>)
    requires CodecOk(nm) && AllocsOk(allocs) && Disjoint(allocs)
    requires Loop(nm, kv, allocs, reqs, id, ifname, picks, granted) && Succeeded(allocs, reqs, picks, granted)
    ensures Satisfiable(nm, kv, allocs, reqs)
  {
    hide CodecOk, Taken, WellFormed, Allocatable, InSet, GrantAll, Turn, AllocsOk, Used, Disjoint;
    LoopInSets(nm, kv, allocs, reqs, id, ifname, picks, granted);
    forall j | 0 <= j < |allocs|
      ensures var asked := Asked(reqs, picks[j]);
              if asked.Some? then Allocatable(allocs[j].rs, asked.value, Taken(nm, kv))
              else HasFree(allocs[j].rs, Taken(nm, kv))
    {
      assert Turn(nm, kv, allocs, reqs, id, ifname, granted[..j], picks[j]) == Some(granted[j]);
      TurnExact(nm, kv, allocs, reqs, id, ifname, granted[..j], picks[j]);
    }
    forall t | t in reqs ensures reqs[t].Some? && Servable(allocs, reqs[t].value, Taken(nm, kv)) {
      var j := UsedAt(picks, t);
      assert PickOk(allocs[j].rs, reqs, Used(picks[..j]), picks[j]);
    }
    forall j, t, u | 0 <= j < |allocs| && Fitting(allocs[j].rs, reqs, t) && Fitting(allocs[j].rs, reqs, u)
      ensures t == u
    {
      var i := PickedBy(allocs, reqs, picks, t, j);
      i := PickedBy(allocs, reqs, picks, u, j);
    }
    forall j | 0 <= j < |allocs| && !AskedOf(allocs[j].rs, reqs) ensures HasFree(allocs[j].rs, Taken(nm, kv)) {
      assert PickOk(allocs[j].rs, reqs, Used(picks[..j]), picks[j]);
    }
  }

  lemma UsedAt(picks: seq<Option<string>>, t: string) returns (j: nat)
    requires t in Used(picks)
    ensures j < |picks| && picks[j] == Some(t)
  {
    var p :| p in picks && p == Some(t);
    j :| 0 <= j < |picks| && picks[j] == p;
  }

  lemma UsedPrefix(picks: seq<Option<string>>, j: nat)
    requires j <= |picks|
    ensures Used(picks[..j]) <= Used(picks)
  {
  }

  /** What the first unserved allocator would need, if everything can be satisfied, is there. */
  lemma TurnServed(nm: Naming, kv: Keys, allocs: seq<Alloc>, reqs: Requests, id: string, ifname: string,
                   picks: seq<Option<string>>, granted: seq<Addr>)
    requires CodecOk(nm) && AllocsOk(allocs) && Disjoint(allocs) && Satisfiable(nm, kv, allocs, reqs)
    requires Loop(nm, kv, allocs, reqs, id, ifname, picks, granted) && |picks| == |granted| + 1
    ensures Turn(nm, kv, allocs, reqs, id, ifname, granted, picks[|granted|]).Some?
  {
    hide CodecOk, Taken, WellFormed, InSet, GrantAll, Turn, AllocsOk, Used, Allocatable;
    var j := |granted|;
    var rs := allocs[j].rs;
    LoopInSets(nm, kv, allocs, reqs, id, ifname, picks, granted);
    TurnExact(nm, kv, allocs, reqs, id, ifname, granted, picks[j]);
    assert PickOk(rs, reqs, Used(picks[..j]), picks[j]);
    if picks[j].Some? {
      var a := reqs[picks[j].value].value;
      var i :| 0 <= i < |allocs| && Allocatable(allocs[i].rs, a, Taken(nm, kv));
      AllocatableInSet(allocs[i].rs, a, Taken(nm, kv));
      assert i == j;
    } else if AskedOf(rs, reqs) {
      var t :| Fitting(rs, reqs, t);
      assert t in Used(picks[..j]);
      var i := PickedBy(allocs, reqs, picks[..j], t, j) by { PrefixPicks(allocs, reqs, picks, j); }
    }
  }

  lemma AllocatableInSet(rs: seq<Range>, a: Addr, taken: iset<Addr>)
    requires Allocatable(rs, a, taken)
    ensures InSet(rs, a)
  {
  }

  lemma PrefixPicks(allocs: seq<Alloc>, reqs: Requests, picks: seq<Option<string>>, j: nat)
    requires j <= |picks| <= |allocs|
    requires forall k :: 0 <= k < |picks| ==> PickOk(allocs[k].rs, reqs, Used(picks[..k]), picks[k])
    ensures forall k :: 0 <= k < j ==> PickOk(allocs[k].rs, reqs, Used(picks[..j][..k]), picks[..j][k])
  {
    hide PickOk, Used;
    assert forall k :: 0 <= k < j ==> picks[..j][..k] == picks[..k];
  }

  lemma LeftoverUnfit(nm: Naming, kv: Keys, allocs: seq<Alloc>, reqs: Requests, id: string, ifname: string,
                      picks: seq<Option<string>>, granted: seq<Addr>, t: string)
    requires CodecOk(nm) && AllocsOk(allocs) && Disjoint(allocs)
    requires Loop(nm, kv, allocs, reqs, id, ifname, picks, granted) && |picks| == |allocs|
    requires t in reqs && t !in Used(picks)
    ensures !Satisfiable(nm, kv, allocs, reqs)
  {
    hide CodecOk, Taken, WellFormed, InSet, GrantAll, Turn, AllocsOk, Used, Allocatable, Disjoint;
    if Satisfiable(nm, kv, allocs, reqs) {
      var a := reqs[t].value;
      var j :| 0 <= j < |allocs| && Allocatable(allocs[j].rs, a, Taken(nm, kv));
      AllocatableInSet(allocs[j].rs, a, Taken(nm, kv));
      UsedPrefix(picks, j);
      assert PickOk(allocs[j].rs, reqs, Used(picks[..j]), picks[j]);
      assert Fitting(allocs[j].rs, reqs, t);
      PickUsed(picks, j);
    }
  }

  lemma PickUsed(picks: seq<Option<string>>, j: nat)
    requires j < |picks| && picks[j].Some?
    ensures picks[j].value in Used(picks)
  {
    assert picks[j] in picks;
  }

  /**
   * With disjoint range sets the outcome of Add is decided by the request and the keyspace alone:
   * whatever order the requested texts are tried in, a finished loop has succeeded exactly when
   * the request was satisfiable.
   */
  lemma Verdict(nm: Naming, kv: Keys, allocs: seq<Alloc>, reqs: Requests, id: string, ifname: string,
                picks: seq<Option<string>>, granted: seq<Addr>)
    requires CodecOk(nm) && AllocsOk(allocs) && Disjoint(allocs)
    requires Loop(nm, kv, allocs, reqs, id, ifname, picks, granted)
    ensures Succeeded(allocs, reqs, picks, granted) ==> Satisfiable(nm, kv, allocs, reqs)
    ensures Failed(nm, kv, allocs, reqs, id, ifname, picks, granted) ==> !Satisfiable(nm, kv, allocs, reqs)
  {
    hide CodecOk, AllocsOk, Disjoint, Loop, Turn, Satisfiable, Used;
    LoopLengths(nm, kv, allocs, reqs, id, ifname, picks, granted);
    if Succeeded(allocs, reqs, picks, granted) {
      SuccessFits(nm, kv, allocs, reqs, id, ifname, picks, granted);
    }
    if Failed(nm, kv, allocs, reqs, id, ifname, picks, granted) {
      if |granted| < |allocs| {
        if Satisfiable(nm, kv, allocs, reqs) { TurnServed(nm, kv, allocs, reqs, id, ifname, picks, granted); }
      } else {
        var t :| t in reqs && t !in Used(picks);
        LeftoverUnfit(nm, kv, allocs, reqs, id, ifname, picks, granted, t);
      }
    }
  }

  lemma LoopLengths(nm: Naming, kv: Keys, allocs: seq<Alloc>, reqs: Requests, id: string, ifname: string,
                    picks: seq<Option<string>>, granted: seq<Addr>)
    requires AllocsOk(allocs) && Loop(nm, kv, allocs, reqs, id, ifname, picks, granted)
    ensures |granted| <= |picks| <= |allocs|
  {
  }

  /** Success means that every requested address was granted, each by the allocator that picked it. */
  lemma RequestedGranted(nm: Naming, kv: Keys, allocs: seq<Alloc>, reqs: Requests, id: string, ifname: string,
                         picks: seq<Option<string>>, granted: seq<Addr>, t: string)
    requires AllocsOk(allocs) && Loop(nm, kv, allocs, reqs, id, ifname, picks, granted)
    requires Succeeded(allocs, reqs, picks, granted) && t in reqs
    ensures reqs[t].Some? && exists j :: 0 <= j < |granted| && picks[j] == Some(t) && granted[j] == reqs[t].value
  {
    hide AllocsOk, GrantAll, Taken, Allocatable, Choice;
    var j := UsedAt(picks, t);
    assert PickOk(allocs[j].rs, reqs, Used(picks[..j]), picks[j]);
    assert Turn(nm, kv, allocs, reqs, id, ifname, granted[..j], picks[j]) == Some(granted[j]);
    ChoiceAllocatable(allocs[j].rs, nm, GrantAll(nm, kv, allocs, id, ifname, granted[..j]), allocs[j].rid, reqs[t]);
  }
}
