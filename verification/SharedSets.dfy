/**
 * Add on the server as NewIpamServer builds it (pkg/daemon/handler.go): all allocators share one
 * range set, so the verdict for disjoint sets does not apply and counting takes its place.
 */
module SharedSets {
  import opened Addrs
  import opened Keyspace
  import opened RangeWalk
  import opened Allocators
  import opened AddRelation
  import opened Rollback
  import opened Daemon

  ghost predicate Shared(allocs: seq<Alloc>, rs: seq<Range>) {
    forall i :: 0 <= i < |allocs| ==> allocs[i].rs == rs
  }

  /**
   * Every text parses to an allocatable address of the shared set, no two to the same one, there
   * are not more texts than allocators, and not more allocators than allocatable addresses.
   */
  ghost predicate SharedSatisfiable(nm: Naming, kv: Keys, rs: seq<Range>, n: nat, reqs: Requests)
    requires WellFormed(rs)
  {
    && (forall t :: t in reqs ==> reqs[t].Some? && Allocatable(rs, reqs[t].value, Taken(nm, kv)))
    && (forall t, u :: t in reqs && u in reqs && reqs[t] == reqs[u] ==> t == u)
    && |reqs| <= n <= |FreeSet(rs, Taken(nm, kv))|
  }

  // ------------------------------------------------------------------
  // Counting

  function Elements<T(!new)>(s: seq<T>): (e: set<T>)
    ensures forall x :: x in e <==> x in s
  {
    set x | x in s
  }

  lemma {:induction false} DistinctCount<T(!new)>(s: seq<T>)
    requires NoRepeat(s)
    ensures |Elements(s)| == |s|
    decreases |s|
  {
    if s != [] {
      var init, x := s[..|s| - 1], s[|s| - 1];
      DistinctCount(init);
      assert Elements(s) == Elements(init) + {x};
    }
  }

  ghost predicate NoRepeat<T>(s: seq<T>) {
    forall i, j :: 0 <= i < j < |s| ==> s[i] != s[j]
  }

  lemma FreeSetIs(rs: seq<Range>, taken: iset<Addr>, a: Addr)
    requires WellFormed(rs)
    ensures a in FreeSet(rs, taken) <==> Allocatable(rs, a, taken)
  {
    LapHas(rs, First(rs), taken, a);
    hide WellFormed, Allocatable, Lap, First;
  }

  /** Each grant takes another address that was free at the start. */
  lemma GrantsDiffer(nm: Naming, kv: Keys, allocs: seq<Alloc>, rs: seq<Range>, reqs: Requests, id: string,
                     ifname: string,
                     picks: seq<Option<string>>, granted: seq<Addr>)
    requires CodecOk(nm) && AllocsOk(allocs) && Shared(allocs, rs)
    requires Loop(nm, kv, allocs, reqs, id, ifname, picks, granted)
    ensures NoRepeat(granted)
    ensures forall j :: 0 <= j < |granted| ==> Allocatable(rs, granted[j], Taken(nm, kv))
  {
    hide CodecOk, WellFormed, AllocsOk, Taken, GrantAll, PickOk, Choice;
    forall j | 0 <= j < |granted|
      ensures granted[j] !in granted[..j] && Allocatable(rs, granted[j], Taken(nm, kv))
    {
      assert Turn(nm, kv, allocs, reqs, id, ifname, granted[..j], picks[j]) == Some(granted[j]);
      ChoiceAllocatable(rs, nm, GrantAll(nm, kv, allocs, id, ifname, granted[..j]), allocs[j].rid,
                        Asked(reqs, picks[j]));
      GrantTaken(nm, kv, allocs, id, ifname, granted[..j], granted[j]);
    }
    forall i, j | 0 <= i < j < |granted| ensures granted[i] != granted[j] {
      assert granted[..j][i] == granted[i];
    }
  }

  /** So no more can be granted than was free. */
  lemma GrantsFit(nm: Naming, kv: Keys, allocs: seq<Alloc>, rs: seq<Range>, reqs: Requests, id: string, ifname: string,
                  picks: seq<Option<string>>, granted: seq<Addr>)
    requires CodecOk(nm) && AllocsOk(allocs) && Shared(allocs, rs) && WellFormed(rs)
    requires Loop(nm, kv, allocs, reqs, id, ifname, picks, granted)
    ensures Elements(granted) <= FreeSet(rs, Taken(nm, kv))
    ensures |granted| == |Elements(granted)| <= |FreeSet(rs, Taken(nm, kv))|
  {
    hide CodecOk, WellFormed, AllocsOk, Taken, Loop, Allocatable, FreeSet;
    GrantsDiffer(nm, kv, allocs, rs, reqs, id, ifname, picks, granted);
    DistinctCount(granted);
    forall a | a in Elements(granted) ensures a in FreeSet(rs, Taken(nm, kv)) { FreeSetIs(rs, Taken(nm, kv), a); }
    SubsetSize(Elements(granted), FreeSet(rs, Taken(nm, kv)));
  }

  // ------------------------------------------------------------------
  // The verdict

  /** The picked texts are requested ones and differ from each other. */
  lemma PicksDiffer(allocs: seq<Alloc>, reqs: Requests, picks: seq<Option<string>>, i: nat, j: nat)
    requires |picks| <= |allocs| && i < j < |picks| && picks[i].Some?
    requires PickOk(allocs[j].rs, reqs, Used(picks[..j]), picks[j])
    ensures picks[i] != picks[j]
  {
    assert picks[..j][i] == picks[i];
    PickUsed(picks[..j], i);
  }

  /** While a requested text waits, no allocator goes without one. */
  lemma NoneIdle(nm: Naming, kv: Keys, allocs: seq<Alloc>, rs: seq<Range>, reqs: Requests, id: string, ifname: string,
                 picks: seq<Option<string>>, granted: seq<Addr>, i: nat, t: string)
    requires AllocsOk(allocs) && Shared(allocs, rs) && Loop(nm, kv, allocs, reqs, id, ifname, picks, granted)
    requires i < |picks| && Fitting(rs, reqs, t) && t !in Used(picks[..i])
    ensures picks[i].Some? && picks[i].value in reqs
  {
    hide AllocsOk, Fitting, Used, Turn;
    assert PickOk(allocs[i].rs, reqs, Used(picks[..i]), picks[i]);
    if picks[i].Some? { FittingAsked(rs, reqs, picks[i].value); }
  }

  lemma FittingAsked(rs: seq<Range>, reqs: Requests, t: string)
    requires Fitting(rs, reqs, t)
    ensures t in reqs && reqs[t].Some?
  {
  }

  lemma SharedSuccess(nm: Naming, kv: Keys, allocs: seq<Alloc>, rs: seq<Range>, reqs: Requests, id: string,
                      ifname: string,
                      picks: seq<Option<string>>, granted: seq<Addr>)
    requires CodecOk(nm) && AllocsOk(allocs) && Shared(allocs, rs) && WellFormed(rs)
    requires Loop(nm, kv, allocs, reqs, id, ifname, picks, granted) && Succeeded(allocs, reqs, picks, granted)
    ensures SharedSatisfiable(nm, kv, rs, |allocs|, reqs)
  {
    hide CodecOk, WellFormed, AllocsOk, Taken, Loop, Allocatable, FreeSet, Shared, Used;
    forall t | t in reqs ensures reqs[t].Some? && Allocatable(rs, reqs[t].value, Taken(nm, kv)) {
      var j := GrantedAt(nm, kv, allocs, rs, reqs, id, ifname, picks, granted, t);
    }
    forall t, u | t in reqs && u in reqs && reqs[t] == reqs[u] ensures t == u {
      var j := GrantedAt(nm, kv, allocs, rs, reqs, id, ifname, picks, granted, t);
      var k := GrantedAt(nm, kv, allocs, rs, reqs, id, ifname, picks, granted, u);
      GrantsDiffer(nm, kv, allocs, rs, reqs, id, ifname, picks, granted);
      assert j == k;
    }
    GrantsFit(nm, kv, allocs, rs, reqs, id, ifname, picks, granted);
    UsedCount(picks);
    SubsetSize(reqs.Keys, Used(picks));
  }

  /** The allocator that served a text. */
  lemma GrantedAt(nm: Naming, kv: Keys, allocs: seq<Alloc>, rs: seq<Range>, reqs: Requests, id: string, ifname: string,
                  picks: seq<Option<string>>, granted: seq<Addr>, t: string) returns (j: nat)
    requires CodecOk(nm) && AllocsOk(allocs) && Shared(allocs, rs)
    requires Loop(nm, kv, allocs, reqs, id, ifname, picks, granted) && Succeeded(allocs, reqs, picks, granted)
    requires t in reqs
    ensures reqs[t].Some? && j < |granted| && picks[j] == Some(t) && granted[j] == reqs[t].value
    ensures Allocatable(rs, reqs[t].value, Taken(nm, kv))
  {
    hide CodecOk, WellFormed, AllocsOk, Taken, Loop, Allocatable, Shared, Used;
    RequestedGranted(nm, kv, allocs, reqs, id, ifname, picks, granted, t);
    GrantsDiffer(nm, kv, allocs, rs, reqs, id, ifname, picks, granted);
    j :| 0 <= j < |granted| && picks[j] == Some(t) && granted[j] == reqs[t].value;
  }

  lemma {:induction false} UsedCount(picks: seq<Option<string>>)
    ensures |Used(picks)| <= |picks|
    decreases |picks|
  {
    if picks != [] {
      var init, p := picks[..|picks| - 1], picks[|picks| - 1];
      UsedCount(init);
      assert picks == init + [p];
      UsedMore(init, p);
    }
  }

  lemma {:induction false} UsedExactly(picks: seq<Option<string>>)
    requires NoRepeat(picks) && forall i :: 0 <= i < |picks| ==> picks[i].Some?
    ensures |Used(picks)| == |picks|
    decreases |picks|
  {
    if picks != [] {
      var init, p := picks[..|picks| - 1], picks[|picks| - 1];
      UsedExactly(init);
      assert picks == init + [p];
      UsedMore(init, p);
      assert p !in init;
    }
  }

  /** A text is left over although all allocators took one: there were too many. */
  lemma SharedLeftover(nm: Naming, kv: Keys, allocs: seq<Alloc>, rs: seq<Range>, reqs: Requests, id: string,
                       ifname: string,
                       picks: seq<Option<string>>, granted: seq<Addr>, t: string)
    requires AllocsOk(allocs) && Shared(allocs, rs) && WellFormed(rs)
    requires Loop(nm, kv, allocs, reqs, id, ifname, picks, granted) && |picks| == |allocs|
    requires t in reqs && t !in Used(picks)
    ensures !SharedSatisfiable(nm, kv, rs, |allocs|, reqs)
  {
    hide WellFormed, AllocsOk, Taken, Allocatable, FreeSet, Used, Turn;
    if SharedSatisfiable(nm, kv, rs, |allocs|, reqs) {
      AllocatableInSet(rs, reqs[t].value, Taken(nm, kv));
      forall i | 0 <= i < |picks| ensures picks[i].Some? && picks[i].value in reqs {
        UsedPrefix(picks, i);
        NoneIdle(nm, kv, allocs, rs, reqs, id, ifname, picks, granted, i, t);
      }
      forall i, j | 0 <= i < j < |picks| ensures picks[i] != picks[j] {
        PicksDiffer(allocs, reqs, picks, i, j);
      }
      UsedExactly(picks);
      forall u | u in Used(picks) ensures u in reqs { var j := UsedAt(picks, u); }
      assert |Used(picks) + {t}| == |picks| + 1;
      SubsetSize(Used(picks) + {t}, reqs.Keys);
    }
  }

  /** A requested address that is refused had been granted for another text before. */
  lemma SharedAsked(nm: Naming, kv: Keys, allocs: seq<Alloc>, rs: seq<Range>, reqs: Requests, id: string,
                    ifname: string,
                    picks: seq<Option<string>>, granted: seq<Addr>, t: string)
    requires CodecOk(nm) && AllocsOk(allocs) && Shared(allocs, rs) && WellFormed(rs)
    requires Loop(nm, kv, allocs, reqs, id, ifname, picks, granted) && |picks| == |granted| + 1
    requires SharedSatisfiable(nm, kv, rs, |allocs|, reqs) && picks[|granted|] == Some(t)
    ensures t in reqs && reqs[t].Some? && reqs[t].value !in granted
  {
    hide CodecOk, WellFormed, AllocsOk, Taken, FreeSet, GrantAll;
  }

  /** While allocators remain, something is still free. */
  lemma SharedFree(nm: Naming, kv: Keys, allocs: seq<Alloc>, rs: seq<Range>, reqs: Requests, id: string, ifname: string,
                   picks: seq<Option<string>>, granted: seq<Addr>) returns (a: Addr)
    requires CodecOk(nm) && AllocsOk(allocs) && Shared(allocs, rs) && WellFormed(rs)
    requires Loop(nm, kv, allocs, reqs, id, ifname, picks, granted) && |granted| < |FreeSet(rs, Taken(nm, kv))|
    ensures a !in granted && Allocatable(rs, a, Taken(nm, kv))
  {
    hide CodecOk, WellFormed, AllocsOk, Taken, Allocatable, FreeSet, Loop, Shared;
    GrantsFit(nm, kv, allocs, rs, reqs, id, ifname, picks, granted);
    SubsetSize(Elements(granted), FreeSet(rs, Taken(nm, kv)));
    a :| a in FreeSet(rs, Taken(nm, kv)) - Elements(granted);
    FreeSetIs(rs, Taken(nm, kv), a);
  }

  lemma SharedTurn(nm: Naming, kv: Keys, allocs: seq<Alloc>, rs: seq<Range>, reqs: Requests, id: string, ifname: string,
                   picks: seq<Option<string>>, granted: seq<Addr>)
    requires CodecOk(nm) && AllocsOk(allocs) && Shared(allocs, rs) && WellFormed(rs)
    requires Loop(nm, kv, allocs, reqs, id, ifname, picks, granted) && |picks| == |granted| + 1
    requires SharedSatisfiable(nm, kv, rs, |allocs|, reqs)
    ensures Turn(nm, kv, allocs, reqs, id, ifname, granted, picks[|granted|]).Some?
  {
    hide CodecOk, WellFormed, AllocsOk, FreeSet, GrantAll, Choice, Loop, Used, Fitting, InSet, Taken;
    LoopLengths(nm, kv, allocs, reqs, id, ifname, picks, granted);
    var pick := picks[|granted|];
    var at := GrantAll(nm, kv, allocs, id, ifname, granted);
    ChoiceAllocatable(rs, nm, at, allocs[|granted|].rid, Asked(reqs, pick));
    var a: Addr;
    if pick.Some? {
      SharedAsked(nm, kv, allocs, rs, reqs, id, ifname, picks, granted, pick.value);
      a := reqs[pick.value].value;
    } else {
      a := SharedFree(nm, kv, allocs, rs, reqs, id, ifname, picks, granted);
    }
    GrantTaken(nm, kv, allocs, id, ifname, granted, a);
    assert Allocatable(rs, a, Taken(nm, at));
  }

  /**
   * With one set shared by all allocators the outcome of Add is again decided by the request and
   * the keyspace alone, whatever order the requested texts are tried in.
   */
  lemma SharedVerdict(nm: Naming, kv: Keys, allocs: seq<Alloc>, rs: seq<Range>, reqs: Requests, id: string,
                      ifname: string,
                      picks: seq<Option<string>>, granted: seq<Addr>)
    requires CodecOk(nm) && AllocsOk(allocs) && Shared(allocs, rs) && WellFormed(rs)
    requires Loop(nm, kv, allocs, reqs, id, ifname, picks, granted)
    ensures Succeeded(allocs, reqs, picks, granted) ==> SharedSatisfiable(nm, kv, rs, |allocs|, reqs)
    ensures Failed(nm, kv, allocs, reqs, id, ifname, picks, granted) ==> !SharedSatisfiable(nm, kv, rs, |allocs|, reqs)
  {
    hide CodecOk, AllocsOk, Loop, Turn, SharedSatisfiable, Used, WellFormed, Shared;
    if Succeeded(allocs, reqs, picks, granted) {
      SharedSuccess(nm, kv, allocs, rs, reqs, id, ifname, picks, granted);
    }
    if Failed(nm, kv, allocs, reqs, id, ifname, picks, granted) {
      if |granted| < |allocs| {
        if SharedSatisfiable(nm, kv, rs, |allocs|, reqs) {
          SharedTurn(nm, kv, allocs, rs, reqs, id, ifname, picks, granted);
        }
      } else {
        var t :| t in reqs && t !in Used(picks);
        SharedLeftover(nm, kv, allocs, rs, reqs, id, ifname, picks, granted, t);
      }
    }
  }
}
