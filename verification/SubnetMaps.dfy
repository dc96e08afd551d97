/**
 * PodToIP/IPToPod and PodToMac/MacToPod of pkg/ipam/subnet.go: when the two directions stay
 * inverse to each other, and what a new subnet starts from.
 */
module SubnetMaps {
  import opened Bits
  import opened Ipv4
  import opened RangeLists
  import opened PoolSplit
  import opened SubnetState

  /** Each map undoes the other. */
  ghost predicate Mutual<K, V>(a: map<K, V>, b: map<V, K>) {
    && (forall k :: k in a ==> a[k] in b && b[a[k]] == k)
    && (forall v :: v in b ==> b[v] in a && a[b[v]] == v)
  }

  /** Writing a pair into both maps keeps them inverse exactly for a new pair, or one already there. */
  lemma PutMutual<K, V>(a: map<K, V>, b: map<V, K>, k: K, v: V)
    requires Mutual(a, b)
    ensures Mutual(a[k := v], b[v := k]) <==> (k !in a && v !in b) || (k in a && a[k] == v)
  {
    var a', b' := a[k := v], b[v := k];
    if k in a && a[k] != v {
      assert a[k] in b' && b'[a[k]] == k && a'[k] == v;
    } else if k !in a && v in b {
      assert b[v] in a' && a'[b[v]] == v && b'[v] == k;
    }
  }

  lemma DropMutual<K, V>(a: map<K, V>, b: map<V, K>, k: K)
    requires Mutual(a, b) && k in a
    ensures Mutual(a - {k}, b - {a[k]})
  {
  }

  /** A pod that already holds an address asks, successfully, for another one. */
  predicate Regrants(st: State, op: Op) {
    && op.GetStatic? && Admitted(st, op)
    && op.pod in st.podToIP && op.ip !in st.ipToPod
    && (Has(st.reserved, op.ip) || Has(st.free, op.ip))
  }

  /** Before an admitted request for an unheld address, what decides is whether it is free or reserved. */
  lemma StaticGranted(st: State, op: Op)
    requires op.GetStatic? && Safe(st, op)
    ensures StaticAddress(st, op.pod, op.ip, op.mac, op.gen).1.Granted? && op.ip !in st.ipToPod
            <==> Admitted(st, op) && op.ip !in st.ipToPod && (Has(st.reserved, op.ip) || Has(st.free, op.ip))
  {
    RequestMacOnly(st, op.pod, op.mac, op.gen);
    SplitSucceeds(st.free, op.ip);
    hide Has, SplitList, InCidr, RequestMac, EmptyAt;
  }

  /** The pair of address maps before and after a static request. */
  lemma StaticMaps(st: State, op: Op)
    requires op.GetStatic?
    ensures var (st', reply) := StaticAddress(st, op.pod, op.ip, op.mac, op.gen);
            if reply.Granted? && op.ip !in st.ipToPod then
              st'.podToIP == st.podToIP[op.pod := op.ip] && st'.ipToPod == st.ipToPod[op.ip := op.pod]
            else st'.podToIP == st.podToIP && st'.ipToPod == st.ipToPod
  {
    hide Has, SplitList, InCidr, RequestMac;
    RequestMacOnly(st, op.pod, op.mac, op.gen);
  }

  lemma RandomMaps(st: State, pod: Pod, gen: Mac)
    ensures var st' := RandomAddress(st, pod, gen).0;
            if pod !in st.podToIP && st.free != [] then
              st'.podToIP == st.podToIP[pod := st.free[0].lo] && st'.ipToPod == st.ipToPod[st.free[0].lo := pod]
            else st'.podToIP == st.podToIP && st'.ipToPod == st.ipToPod
  {
    hide TakeFirst;
  }

  lemma ReleaseMaps(st: State, pod: Pod)
    ensures var st' := ReleaseAddress(st, pod);
            if pod in st.podToIP then
              st'.podToIP == st.podToIP - {pod} && st'.ipToPod == st.ipToPod - {st.podToIP[pod]}
            else st'.podToIP == st.podToIP && st'.ipToPod == st.ipToPod
  {
    hide Has, MergeList, InCidr;
  }

  /** PodToIP and IPToPod stay inverse exactly when no pod is given a second address. */
  lemma AddressMapsStep(st: State, start: seq<Rg>, op: Op)
    requires Inv(st, start) && Safe(st, op) && Mutual(st.podToIP, st.ipToPod)
    ensures Mutual(Step(st, op).podToIP, Step(st, op).ipToPod) <==> !Regrants(st, op)
  {
    match op
    case GetRandom(pod, gen) =>
      RandomMaps(st, pod, gen);
      if pod !in st.podToIP && st.free != [] {
        HeadFree(st.free);
        assert st.free[0].lo !in st.ipToPod.Keys;
        PutMutual(st.podToIP, st.ipToPod, pod, st.free[0].lo);
      }
      hide Inv, Mutual, Has, EmptyAt, Balanced, TakeFirst, RandomAddress;
    case GetStatic(pod, ip, mac, gen) =>
      hide Inv, Safe, Mutual, StaticAddress, Has, Admitted;
      StaticMaps(st, op);
      StaticGranted(st, op);
      PutMutual(st.podToIP, st.ipToPod, pod, ip);
      if pod in st.podToIP && st.podToIP[pod] == ip { MutualIn(st.podToIP, st.ipToPod, pod); }
    case Release(pod) =>
      hide Inv, Safe, Mutual, ReleaseAddress;
      ReleaseMaps(st, pod);
      if pod in st.podToIP { DropMutual(st.podToIP, st.ipToPod, pod); }
    case _ =>
  }

  lemma MutualIn<K, V>(a: map<K, V>, b: map<V, K>, k: K)
    requires Mutual(a, b) && k in a
    ensures a[k] in b
  {
  }

  /** A MAC is written over: a generated one that is in use, or a second one for the same pod. */
  predicate MacClash(st: State, op: Op) {
    match op
    case GetRandom(pod, gen) =>
      pod !in st.podToIP && st.free != [] && pod !in st.podToMac && gen in st.macToPod
    case GetStatic(pod, ip, mac, gen) =>
      && InCidr(st, ip)
      && if mac == "" then mac !in st.podToMac && pod !in st.podToMac && gen in st.macToPod
         else mac !in st.macToPod && pod in st.podToMac
    case Release(_) => false
    case GetRandomMac(pod, gen) => pod !in st.podToMac && gen in st.macToPod
    case GetStaticMac(pod, mac) => mac !in st.macToPod && pod in st.podToMac
  }

  lemma RandomMacMaps(st: State, pod: Pod, gen: Mac)
    requires Mutual(st.podToMac, st.macToPod)
    ensures Mutual(RandomMac(st, pod, gen).0.podToMac, RandomMac(st, pod, gen).0.macToPod)
            <==> pod in st.podToMac || gen !in st.macToPod
  {
    PutMutual(st.podToMac, st.macToPod, pod, gen);
    hide Mutual;
  }

  lemma StaticMacMaps(st: State, pod: Pod, mac: Mac)
    requires Mutual(st.podToMac, st.macToPod)
    ensures Mutual(StaticMac(st, pod, mac).0.podToMac, StaticMac(st, pod, mac).0.macToPod)
            <==> mac in st.macToPod || pod !in st.podToMac
  {
    PutMutual(st.podToMac, st.macToPod, pod, mac);
    assert pod in st.podToMac ==> st.podToMac[pod] in st.macToPod;
    hide Mutual;
  }

  /** Which MAC maps a step leaves behind, by the MAC function it goes through. */
  lemma StepMacs(st: State, op: Op)
    ensures var st' := Step(st, op);
            match op
            case GetRandom(pod, gen) =>
              if pod in st.podToIP || st.free == [] then SameMacs(st', st)
              else SameMacs(st', RandomMac(st, pod, gen).0)
            case GetStatic(pod, ip, mac, gen) =>
              if InCidr(st, ip) then SameMacs(st', RequestMac(st, pod, mac, gen).0) else SameMacs(st', st)
            case Release(pod) =>
              if pod in st.podToIP then SameMacs(st', ReleaseMac(st, pod)) else SameMacs(st', st)
            case GetRandomMac(pod, gen) => SameMacs(st', RandomMac(st, pod, gen).0)
            case GetStaticMac(pod, mac) => SameMacs(st', StaticMac(st, pod, mac).0)
  {
    hide Has, SplitList, MergeList, TakeFirst, InCidr, RequestMac;
  }

  predicate SameMacs(a: State, b: State) {
    a.podToMac == b.podToMac && a.macToPod == b.macToPod
  }

  /** PodToMac and MacToPod stay inverse exactly when no MAC is written over. */
  lemma MacMapsStep(st: State, op: Op)
    requires Mutual(st.podToMac, st.macToPod)
    ensures Mutual(Step(st, op).podToMac, Step(st, op).macToPod) <==> !MacClash(st, op)
  {
    hide Step, InCidr, Mutual;
    StepMacs(st, op);
    match op
    case GetRandom(pod, gen) => RandomMacMaps(st, pod, gen);
    case GetStatic(pod, ip, mac, gen) =>
      RandomMacMaps(st, pod, gen);
      StaticMacMaps(st, pod, mac);
    case Release(pod) =>
      if pod in st.podToMac { DropMutual(st.podToMac, st.macToPod, pod); }
    case GetRandomMac(pod, gen) => RandomMacMaps(st, pod, gen);
    case GetStaticMac(pod, mac) => StaticMacMaps(st, pod, mac);
  }

  ghost predicate CleanRun(st: State, ops: seq<Op>) {
    forall k :: 0 <= k < |ops| ==> !Regrants(Run(st, ops[..k]), ops[k]) && !MacClash(Run(st, ops[..k]), ops[k])
  }

  /** All four maps stay pairwise inverse over every safe run without a second address and without a clash. */
  lemma {:induction false} RunMaps(st: State, start: seq<Rg>, ops: seq<Op>)
    requires Inv(st, start) && SafeRun(st, ops) && CleanRun(st, ops)
    requires Mutual(st.podToIP, st.ipToPod) && Mutual(st.podToMac, st.macToPod)
    ensures var end := Run(st, ops); Mutual(end.podToIP, end.ipToPod) && Mutual(end.podToMac, end.macToPod)
    decreases |ops|
  {
    hide Inv, Safe, Step, Regrants, MacClash, Mutual;
    if ops != [] {
      var init, last := ops[..|ops| - 1], ops[|ops| - 1];
      assert forall k :: 0 <= k < |init| ==> init[k] == ops[k] && init[..k] == ops[..k];
      assert Safe(Run(st, ops[..|ops| - 1]), last);
      assert !Regrants(Run(st, ops[..|ops| - 1]), last) && !MacClash(Run(st, ops[..|ops| - 1]), last);
      RunMaps(st, start, init);
      RunKeeps(st, start, init);
      AddressMapsStep(Run(st, init), start, last);
      MacMapsStep(Run(st, init), last);
    }
  }

  // ------------------------------------------------------------------
  // A new subnet

  /** The state NewSubnet builds from a prefix and the sorted addresses to exclude. */
  function Fresh(ip: IP, ones: nat, excluded: seq<IP>): State
    requires ones <= 32
  {
    State(Network(ip, ones), ones,
          SubtractAll([Rg(GetFirstIP(ip, ones), GetLastIP(ip, ones))], Runs(excluded)), Runs(excluded),
          map[], map[], map[], map[])
  }

  /** Masking gives the network address exactly inside the block. */
  lemma CidrIsBlock(ip: IP, ones: nat, x: IP)
    requires ones <= 32
    ensures Network(x, ones) == Network(ip, ones) <==> BlockBase(ip, ones) <= x < BlockBase(ip, ones) + Pow2(32 - ones)
  {
    FloorFloor(ip, 32 - ones);
    FloorBlock(x, BlockBase(ip, ones), 32 - ones);
  }

  /** No reserved run straddles the end of the pool: the last host is not excluded, or all hosts are. */
  lemma StraddleMeans(pool: Rg, rs: seq<Rg>)
    requires !Empty(pool) && Coalesced(rs)
    ensures NoStraddle([pool], rs) <==> !Has(rs, pool.hi) || forall x: IP :: In(pool, x) ==> Has(rs, x)
  {
    if Has(rs, pool.hi) {
      var k :| 0 <= k < |rs| && In(rs[k], pool.hi);
      if rs[k].lo <= pool.lo {
        forall x: IP | In(pool, x) ensures Has(rs, x) { assert In(rs[k], x); }
        forall j | 0 <= j < |rs| ensures !Straddles([pool][0], rs[j]) {
          assert j < k ==> rs[j].hi + 2 <= rs[k].lo;
          assert k < j ==> rs[k].hi + 2 <= rs[j].lo;
        }
      } else {
        assert Straddles([pool][0], rs[k]);
        HoleBelow(rs, k);
        assert In(pool, rs[k].lo - 1);
      }
    } else {
      forall j | 0 <= j < |rs| ensures !Straddles([pool][0], rs[j]) {
        assert !In(rs[j], pool.hi);
      }
    }
  }

  lemma HoleBelow(rs: seq<Rg>, k: int)
    requires Coalesced(rs) && 0 <= k < |rs|
    ensures !Has(rs, rs[k].lo - 1)
  {
    forall j | 0 <= j < |rs| ensures !In(rs[j], rs[k].lo - 1) {
      assert j < k ==> rs[j].hi + 2 <= rs[k].lo;
      assert k < j ==> rs[k].hi + 2 <= rs[j].lo;
    }
  }

  /** The books of a new subnet balance exactly when its free list is the hosts minus the excluded ones. */
  lemma FreshBalanced(ip: IP, ones: nat, excluded: seq<IP>)
    requires ones <= 30
    requires var st := Fresh(ip, ones, excluded);
             && Coalesced(st.free)
             && (forall x: int :: Has(st.free, x) ==>
                  GetFirstIP(ip, ones) <= x <= GetLastIP(ip, ones) && !Has(st.reserved, x))
    ensures Inv(Fresh(ip, ones, excluded), Fresh(ip, ones, excluded).free)
  {
    var st := Fresh(ip, ones, excluded);
    HostPool(ip, ones);
    CoalescedIff(st.free);
    forall x: IP | Has(st.free, x) ensures InCidr(st, x) { CidrIsBlock(ip, ones, x); }
    hide SubtractAll, Runs, GetFirstIP, GetLastIP, Network;
  }

  /** The free list of a pool and the verdict on it. */
  lemma PoolVerdict(pool: Rg, rs: seq<Rg>, free: seq<Rg>)
    requires !Empty(pool) && pool.hi < SIZE - 1 && Coalesced(rs) && free == SubtractAll([pool], rs)
    ensures var good := !Has(rs, pool.hi) || forall x: IP :: In(pool, x) ==> Has(rs, x);
            && (good ==> Coalesced(free) && forall x: int :: Has(free, x) <==> In(pool, x) && !Has(rs, x))
            && (!good ==> exists x: IP :: Has(free, x) && Has(rs, x))
  {
    hide SubtractAll;
    StraddleMeans(pool, rs);
    PoolExact(pool, rs);
    if !NoStraddle([pool], rs) {
      var i, k :| 0 <= i < 1 && 0 <= k < |rs| && Straddles([pool][i], rs[k]);
      PoolWithStraddle(pool, rs, k);
      assert In(rs[k], rs[k].lo);
      assert Has(free, rs[k].lo) && Has(rs, rs[k].lo);
    }
  }

  /** The guard of NewSubnet: the last host is not excluded, or all hosts are. */
  ghost predicate ExcludesFit(ip: IP, ones: nat, excluded: seq<IP>)
    requires ones <= 32
  {
    || GetLastIP(ip, ones) !in excluded
    || forall x: IP :: GetFirstIP(ip, ones) <= x <= GetLastIP(ip, ones) ==> x in excluded
  }

  /**
   * A new subnet for a prefix up to /30 starts with balanced books, and its free list is the
   * hosts minus the excluded addresses, exactly when the last host is not excluded or all are.
   */
  lemma FreshExact(ip: IP, ones: nat, excluded: seq<IP>)
    requires ones <= 30 && Ascending(excluded) && NoDuplicates(excluded)
    ensures var st := Fresh(ip, ones, excluded);
            && (Inv(st, st.free) <==> ExcludesFit(ip, ones, excluded))
            && ((forall x: int :: Has(st.free, x) <==>
                 GetFirstIP(ip, ones) <= x <= GetLastIP(ip, ones) && x !in excluded)
                <==> ExcludesFit(ip, ones, excluded))
            && Mutual(st.podToIP, st.ipToPod) && Mutual(st.podToMac, st.macToPod)
  {
    hide SubtractAll, Runs, GetFirstIP, GetLastIP, Network, PoolOk, PodsKnown, Coalesced;
    var st := Fresh(ip, ones, excluded);
    var pool := Rg(GetFirstIP(ip, ones), GetLastIP(ip, ones));
    HostPool(ip, ones);
    RunsDenote(excluded);
    RunsCoalesced(excluded);
    PoolVerdict(pool, st.reserved, st.free);
    assert forall x: IP :: x in excluded <==> Has(st.reserved, x);
    if ExcludesFit(ip, ones, excluded) {
      FreshBalanced(ip, ones, excluded);
    } else {
      var x: IP :| Has(st.free, x) && Has(st.reserved, x);
      assert x in excluded;
    }
  }
}
