/**
 * The state of one subnet and what each operation of pkg/ipam/subnet.go does to it, with the
 * properties every run keeps.
 */
module SubnetState {
  import opened Ipv4
  import opened RangeLists

  type Pod = string
  type Mac = string

  datatype State = State(
    net: IP, ones: nat,
    free: seq<Rg>, reserved: seq<Rg>,
    podToIP: map<Pod, IP>, ipToPod: map<IP, Pod>,
    podToMac: map<Pod, Mac>, macToPod: map<Mac, Pod>)

  datatype Error = OutOfRange | Conflict | NoAvailable

  datatype Reply = Granted(ip: IP, mac: Mac) | Failed(error: Error)

  /** CIDR.Contains: masking the address gives the network address. */
  predicate InCidr(st: State, ip: IP) {
    st.ones <= 32 && Network(ip, st.ones) == st.net
  }

  // ------------------------------------------------------------------
  // MAC addresses

  /** `gen` is the address the generator would produce. */
  function RandomMac(st: State, pod: Pod, gen: Mac): (State, Mac) {
    if pod in st.podToMac then (st, st.podToMac[pod])
    else (st.(podToMac := st.podToMac[pod := gen], macToPod := st.macToPod[gen := pod]), gen)
  }

  function StaticMac(st: State, pod: Pod, mac: Mac): (State, bool) {
    if mac in st.macToPod then (st, false)
    else (st.(podToMac := st.podToMac[pod := mac], macToPod := st.macToPod[mac := pod]), true)
  }

  /** How a static request gets its MAC: no MAC asked for looks up the pod named "". */
  function RequestMac(st: State, pod: Pod, mac: Mac, gen: Mac): (State, Mac, bool) {
    if mac == "" then
      if mac in st.podToMac then (st, st.podToMac[mac], true)
      else var (st1, m) := RandomMac(st, pod, gen); (st1, m, true)
    else
      var (st1, ok) := StaticMac(st, pod, mac); (st1, mac, ok)
  }

  // ------------------------------------------------------------------
  // Addresses

  function Bind(st: State, pod: Pod, ip: IP): State {
    st.(podToIP := st.podToIP[pod := ip], ipToPod := st.ipToPod[ip := pod])
  }

  function MacOf(st: State, pod: Pod): Mac {
    if pod in st.podToMac then st.podToMac[pod] else ""
  }

  /** The free list after its first address has been handed out. */
  function TakeFirst(l: seq<Rg>): seq<Rg>
    requires l != []
  {
    if l[0].lo == l[0].hi then l[1..] else [Rg(Add(l[0].lo, 1), l[0].hi)] + l[1..]
  }

  function RandomAddress(st: State, pod: Pod, gen: Mac): (State, Reply) {
    if pod in st.podToIP then (st, Granted(st.podToIP[pod], MacOf(st, pod)))
    else if st.free == [] then (st, Failed(NoAvailable))
    else
      var ip := st.free[0].lo;
      var (st1, mac) := RandomMac(st, pod, gen);
      (Bind(st1.(free := TakeFirst(st.free)), pod, ip), Granted(ip, mac))
  }

  /** The part of a static request that looks at addresses, once its MAC is settled. */
  function Assign(st: State, pod: Pod, ip: IP, mac: Mac): (State, Reply) {
    if ip in st.ipToPod then
      (st, if st.ipToPod[ip] != pod then Failed(Conflict) else Granted(ip, mac))
    else if Has(st.reserved, ip) then (Bind(st, pod, ip), Granted(ip, mac))
    else
      var (split, free') := SplitList(st.free, ip);
      if split then (Bind(st.(free := free'), pod, ip), Granted(ip, mac))
      else (st, Failed(NoAvailable))
  }

  function StaticAddress(st: State, pod: Pod, ip: IP, mac: Mac, gen: Mac): (State, Reply) {
    if !InCidr(st, ip) then (st, Failed(OutOfRange))
    else
      var (st1, m, ok) := RequestMac(st, pod, mac, gen);
      if ok then Assign(st1, pod, ip, m) else (st1, Failed(Conflict))
  }

  function ReleaseMac(st: State, pod: Pod): State {
    if pod in st.podToMac then
      st.(podToMac := st.podToMac - {pod}, macToPod := st.macToPod - {st.podToMac[pod]})
    else st
  }

  function ReleaseAddress(st: State, pod: Pod): State {
    if pod !in st.podToIP then st
    else
      var ip := st.podToIP[pod];
      var st1 := ReleaseMac(st.(podToIP := st.podToIP - {pod}, ipToPod := st.ipToPod - {ip}), pod);
      if !InCidr(st1, ip) || Has(st1.reserved, ip) || Has(st1.free, ip) then st1
      else st1.(free := MergeList(st1.free, ip))
  }

  datatype Op =
    | GetRandom(pod: Pod, gen: Mac)
    | GetStatic(pod: Pod, ip: IP, mac: Mac, gen: Mac)
    | Release(pod: Pod)
    | GetRandomMac(pod: Pod, gen: Mac)
    | GetStaticMac(pod: Pod, mac: Mac)

  function Step(st: State, op: Op): State {
    match op
    case GetRandom(pod, gen) => RandomAddress(st, pod, gen).0
    case GetStatic(pod, ip, mac, gen) => StaticAddress(st, pod, ip, mac, gen).0
    case Release(pod) => ReleaseAddress(st, pod)
    case GetRandomMac(pod, gen) => RandomMac(st, pod, gen).0
    case GetStaticMac(pod, mac) => StaticMac(st, pod, mac).0
  }

  function Run(st: State, ops: seq<Op>): State
    decreases |ops|
  {
    if ops == [] then st else Step(Run(st, ops[..|ops| - 1]), ops[|ops| - 1])
  }

  // ------------------------------------------------------------------
  // Conservation

  /**
   * The books balance against the initial free list `start`: no address is both free and held or
   * both free and reserved, free and held-but-not-reserved together are the initial pool, and an
   * empty range in the free list marks a held address just below it.
   */
  ghost predicate Balanced(free: seq<Rg>, held: set<IP>, reserved: seq<Rg>, start: seq<Rg>) {
    && Separated(free)
    && (forall x: IP :: Has(free, x) ==> x !in held && !Has(reserved, x))
    && (forall x: IP :: Has(start, x) <==> Has(free, x) || (x in held && !Has(reserved, x)))
    && (forall x: IP :: EmptyAt(free, x + 1) ==> x in held && !Has(reserved, x))
  }

  ghost predicate PoolOk(st: State, start: seq<Rg>) {
    && Coalesced(start)
    && (forall x: IP :: Has(start, x) ==> x < SIZE - 1 && InCidr(st, x))
  }

  ghost predicate PodsKnown(st: State) {
    forall p :: p in st.podToIP ==> st.podToIP[p] in st.ipToPod && st.ipToPod[st.podToIP[p]] == p
  }

  ghost predicate Inv(st: State, start: seq<Rg>) {
    && PoolOk(st, start)
    && PodsKnown(st)
    && Balanced(st.free, st.ipToPod.Keys, st.reserved, start)
  }

  lemma GrantFree(free: seq<Rg>, ip: IP, held: set<IP>, reserved: seq<Rg>, start: seq<Rg>)
    requires Balanced(free, held, reserved, start) && Has(free, ip) && ip < SIZE - 1
    ensures Balanced(SplitList(free, ip).1, held + {ip}, reserved, start)
  {
    FreeNotEmptyStart(free, ip);
    SplitDenotes(free, ip);
  }

  /** A listed address is not the start of an empty range. */
  lemma FreeNotEmptyStart(l: seq<Rg>, ip: IP)
    requires Separated(l) && Has(l, ip)
    ensures !EmptyAt(l, ip)
  {
    var i :| 0 <= i < |l| && In(l[i], ip);
    forall e | 0 <= e < |l| && Empty(l[e]) ensures l[e].lo != ip {
      assert i < e ==> l[i].hi + 2 <= l[e].lo;
      assert e < i ==> l[e].hi + 2 <= l[i].lo;
    }
  }

  lemma GrantReserved(free: seq<Rg>, ip: IP, held: set<IP>, reserved: seq<Rg>, start: seq<Rg>)
    requires Balanced(free, held, reserved, start) && Has(reserved, ip)
    ensures Balanced(free, held + {ip}, reserved, start)
    ensures Balanced(free, held - {ip}, reserved, start)
  {
  }

  lemma TakeBack(free: seq<Rg>, ip: IP, held: set<IP>, reserved: seq<Rg>, start: seq<Rg>)
    requires Balanced(free, held, reserved, start) && ip in held && !Has(reserved, ip)
    ensures !Has(free, ip)
    ensures Balanced(MergeList(free, ip), held - {ip}, reserved, start)
  {
    MergeDenotes(free, ip);
  }

  /** Handing out the head of the list is the split at its first address. */
  lemma TakeFirstIsSplit(l: seq<Rg>)
    requires l != []
    ensures SplitList(l, l[0].lo) == (true, TakeFirst(l))
  {
    assert FirstHit(l, l[0].lo) == 0;
    assert l[..0] + Pieces(l[0], l[0].lo) + l[1..] == TakeFirst(l);
  }

  lemma HeadFree(l: seq<Rg>)
    requires Separated(l) && l != []
    ensures Has(l, l[0].lo) <==> !Empty(l[0])
    ensures EmptyAt(l, l[0].lo) <==> Empty(l[0])
  {
    assert forall j :: 0 < j < |l| ==> l[0].hi + 2 <= l[j].lo && l[0].lo <= l[0].hi + 1;
    if !Empty(l[0]) { assert In(l[0], l[0].lo); }
  }

  /** Taking from an empty range breaks the books. */
  lemma TakeEmpty(free: seq<Rg>, ip: IP, held: set<IP>, reserved: seq<Rg>, start: seq<Rg>)
    requires Balanced(free, held, reserved, start) && EmptyAt(free, ip)
    ensures !Balanced(SplitList(free, ip).1, held + {ip}, reserved, start)
  {
    if ip < SIZE - 1 {
      SplitAtEmpty(free, ip);
    } else {
      var e :| 0 <= e < |free| && Empty(free[e]) && free[e].lo == ip;
      var x := free[e].hi;
      forall i | 0 <= i < |free| && i != e ensures !Hit(free[i], ip) { EmptyAlone(free, e, i); }
      assert Hit(free[e], ip);
      assert FirstHit(free, ip) == e;
      assert EmptyAt(free, x + 1);
      assert SplitList(free, ip).1[e] == Rg(0, x);
      assert In(SplitList(free, ip).1[e], x);
      assert Has(SplitList(free, ip).1, x);
    }
  }

  /**
   * What a caller can check before the call: a random request does not find an empty range at
   * the head of the free list, and a static one that gets as far as the free list does not ask
   * for an address where an empty range starts.
   */
  predicate Safe(st: State, op: Op) {
    match op
    case GetRandom(pod, _) => pod in st.podToIP || st.free == [] || !Empty(st.free[0])
    case GetStatic(pod, ip, mac, _) =>
      || !InCidr(st, ip)
      || (mac != "" && mac in st.macToPod)
      || ip in st.ipToPod
      || Has(st.reserved, ip)
      || !EmptyAt(st.free, ip)
    case _ => true
  }

  lemma RandomExact(st: State, start: seq<Rg>, pod: Pod, gen: Mac)
    requires Inv(st, start)
    ensures Inv(RandomAddress(st, pod, gen).0, start) <==> Safe(st, GetRandom(pod, gen))
  {
    hide PoolOk, Balanced, Has, EmptyAt, TakeFirst, Bind;
    if pod !in st.podToIP && st.free != [] {
      if Empty(st.free[0]) {
        RandomFromEmpty(st, start, pod, gen);
      } else {
        RandomFromListed(st, start, pod, gen);
      }
      hide Inv, RandomAddress;
    }
  }

  lemma RandomFromEmpty(st: State, start: seq<Rg>, pod: Pod, gen: Mac)
    requires Inv(st, start) && pod !in st.podToIP && st.free != [] && Empty(st.free[0])
    ensures !Inv(RandomAddress(st, pod, gen).0, start)
  {
    var ip, st' := st.free[0].lo, RandomAddress(st, pod, gen).0;
    TakeFirstIsSplit(st.free);
    HeadFree(st.free);
    assert st'.ipToPod.Keys == st.ipToPod.Keys + {ip};
    TakeEmpty(st.free, ip, st.ipToPod.Keys, st.reserved, start);
    hide PoolOk, Balanced, Has, EmptyAt, TakeFirst, SplitList;
  }

  lemma RandomFromListed(st: State, start: seq<Rg>, pod: Pod, gen: Mac)
    requires Inv(st, start) && pod !in st.podToIP && st.free != [] && !Empty(st.free[0])
    ensures Inv(RandomAddress(st, pod, gen).0, start)
  {
    var ip, st' := st.free[0].lo, RandomAddress(st, pod, gen).0;
    HeadFree(st.free);
    HeadKnown(st, start, ip);
    TakeFirstIsSplit(st.free);
    GrantFree(st.free, ip, st.ipToPod.Keys, st.reserved, start);
    BindInv(st, st', start, pod, ip);
    hide PoolOk, Balanced, Has, EmptyAt, TakeFirst, SplitList;
  }

  lemma HeadKnown(st: State, start: seq<Rg>, ip: IP)
    requires Inv(st, start) && Has(st.free, ip)
    ensures Has(start, ip) && ip < SIZE - 1 && ip !in st.ipToPod
  {
    hide Has, Separated, EmptyAt, InCidr, PodsKnown;
  }

  /** Only the MAC maps differ. */
  predicate SameAddresses(st: State, st1: State) {
    st1 == st.(podToMac := st1.podToMac, macToPod := st1.macToPod)
  }

  lemma RequestMacOnly(st: State, pod: Pod, mac: Mac, gen: Mac)
    ensures SameAddresses(st, RequestMac(st, pod, mac, gen).0)
    ensures RequestMac(st, pod, mac, gen).2 <==> mac == "" || mac !in st.macToPod
  {
  }

  lemma SameInv(st: State, st1: State, start: seq<Rg>)
    requires SameAddresses(st, st1)
    ensures Inv(st, start) <==> Inv(st1, start)
  {
    assert PoolOk(st, start) <==> PoolOk(st1, start);
    hide PoolOk, Balanced;
  }

  lemma AssignExact(st: State, start: seq<Rg>, pod: Pod, ip: IP, mac: Mac)
    requires Inv(st, start) && InCidr(st, ip)
    ensures Inv(Assign(st, pod, ip, mac).0, start)
            <==> ip in st.ipToPod || Has(st.reserved, ip) || !EmptyAt(st.free, ip)
  {
    if ip !in st.ipToPod {
      var st' := Assign(st, pod, ip, mac).0;
      SplitSucceeds(st.free, ip);
      if Has(st.reserved, ip) {
        GrantReserved(st.free, ip, st.ipToPod.Keys, st.reserved, start);
        BindInv(st, st', start, pod, ip);
      } else if EmptyAt(st.free, ip) {
        TakeEmpty(st.free, ip, st.ipToPod.Keys, st.reserved, start);
        BindInv(st, st', start, pod, ip);
      } else if Has(st.free, ip) {
        assert Has(start, ip);
        GrantFree(st.free, ip, st.ipToPod.Keys, st.reserved, start);
        BindInv(st, st', start, pod, ip);
      }
      hide *;
    }
  }

  /** Binding an unheld address keeps the pod map right, so the books decide. */
  lemma BindInv(st: State, st': State, start: seq<Rg>, pod: Pod, ip: IP)
    requires Inv(st, start) && ip !in st.ipToPod
    requires SameAddresses(Bind(st.(free := st'.free), pod, ip), st')
    ensures Inv(st', start) <==> Balanced(st'.free, st.ipToPod.Keys + {ip}, st.reserved, start)
  {
    assert st'.ipToPod.Keys == st.ipToPod.Keys + {ip};
    assert PoolOk(st', start);
    hide PoolOk, Balanced;
  }

  lemma StaticExact(st: State, start: seq<Rg>, pod: Pod, ip: IP, mac: Mac, gen: Mac)
    requires Inv(st, start)
    ensures Inv(StaticAddress(st, pod, ip, mac, gen).0, start) <==> Safe(st, GetStatic(pod, ip, mac, gen))
  {
    var (st1, m, ok) := RequestMac(st, pod, mac, gen);
    RequestMacOnly(st, pod, mac, gen);
    SameInv(st, st1, start);
    assert InCidr(st1, ip) <==> InCidr(st, ip);
    if InCidr(st, ip) && ok { AssignExact(st1, start, pod, ip, m); }
    hide Inv, InCidr, Assign, RequestMac, Has, EmptyAt;
  }

  lemma ReleaseKeeps(st: State, start: seq<Rg>, pod: Pod)
    requires Inv(st, start)
    ensures Inv(ReleaseAddress(st, pod), start)
  {
    if pod in st.podToIP {
      var ip := st.podToIP[pod];
      var st' := ReleaseAddress(st, pod);
      assert st'.ipToPod.Keys == st.ipToPod.Keys - {ip};
      if Has(st.reserved, ip) {
        GrantReserved(st.free, ip, st.ipToPod.Keys, st.reserved, start);
      } else {
        TakeBack(st.free, ip, st.ipToPod.Keys, st.reserved, start);
        assert Has(start, ip);
      }
    }
  }

  /** One step keeps the books exactly when it is safe. */
  lemma StepExact(st: State, start: seq<Rg>, op: Op)
    requires Inv(st, start)
    ensures Inv(Step(st, op), start) <==> Safe(st, op)
  {
    match op
    case GetRandom(pod, gen) => RandomExact(st, start, pod, gen);
    case GetStatic(pod, ip, mac, gen) => StaticExact(st, start, pod, ip, mac, gen);
    case Release(pod) => ReleaseKeeps(st, start, pod);
    case _ =>
  }

  ghost predicate SafeRun(st: State, ops: seq<Op>) {
    forall k :: 0 <= k < |ops| ==> Safe(Run(st, ops[..k]), ops[k])
  }

  /** Conservation over every safe run. */
  lemma {:induction false} RunKeeps(st: State, start: seq<Rg>, ops: seq<Op>)
    requires Inv(st, start) && SafeRun(st, ops)
    ensures Inv(Run(st, ops), start)
    decreases |ops|
  {
    hide Inv, Safe, Step, SafeRun;
    if ops != [] {
      var init := ops[..|ops| - 1];
      SafeRunSplit(st, ops);
      RunKeeps(st, start, init);
      StepExact(Run(st, init), start, ops[|ops| - 1]);
    }
  }

  /** A static request that gets past the tests of its address and its MAC. */
  predicate Admitted(st: State, op: Op)
    requires op.GetStatic?
  {
    InCidr(st, op.ip) && (op.mac == "" || op.mac !in st.macToPod)
  }

  /** The static requests that leave an empty range behind: the last address of a longer free range. */
  predicate TakesTail(st: State, op: Op) {
    op.GetStatic? && Admitted(st, op) && TailOfLonger(st.free, op.ip)
  }

  /** From a canonical free list every step is safe. */
  lemma CanonicalSafe(st: State, op: Op)
    requires Coalesced(st.free)
    ensures Safe(st, op)
  {
    CoalescedIff(st.free);
  }

  /** The canonical form survives a step exactly when the step takes no tail. */
  lemma CanonicalStep(st: State, start: seq<Rg>, op: Op)
    requires Inv(st, start) && Coalesced(st.free)
    ensures Coalesced(Step(st, op).free) <==> !TakesTail(st, op)
  {
    match op
    case GetRandom(pod, gen) =>
      if pod !in st.podToIP && st.free != [] {
        HeadIsNoTail(st.free);
        assert Has(start, st.free[0].lo);
        CanonicalSplit(st.free, st.free[0].lo);
        TakeFirstIsSplit(st.free);
      }
      hide Coalesced, SplitList, TakeFirst;
    case GetStatic(pod, ip, mac, gen) =>
      CanonicalStatic(st, start, op);
    case Release(pod) =>
      if pod in st.podToIP && !Has(st.free, st.podToIP[pod]) { MergeCoalesced(st.free, st.podToIP[pod]); }
      hide Coalesced, Has, MergeList;
    case _ =>
  }

  lemma CanonicalStatic(st: State, start: seq<Rg>, op: Op)
    requires Inv(st, start) && Coalesced(st.free) && op.GetStatic?
    ensures Coalesced(Step(st, op).free) <==> !TakesTail(st, op)
  {
    StaticFree(st, start, op);
    TailListed(st.free, op.ip);
    if Has(st.free, op.ip) {
      HeadKnown(st, start, op.ip);
      CanonicalSplit(st.free, op.ip);
    }
    hide Inv, Coalesced, Has, StaticAddress, SplitList, Admitted, TailOfLonger;
  }

  /** From a canonical list a static request takes exactly an admitted listed address. */
  lemma StaticFree(st: State, start: seq<Rg>, op: Op)
    requires Inv(st, start) && Coalesced(st.free) && op.GetStatic?
    ensures StaticAddress(st, op.pod, op.ip, op.mac, op.gen).0.free ==
            if Admitted(st, op) && Has(st.free, op.ip) then SplitList(st.free, op.ip).1 else st.free
  {
    RequestMacOnly(st, op.pod, op.mac, op.gen);
    SplitSucceeds(st.free, op.ip);
    CoalescedIff(st.free);
    FreeUnheld(st, start, op.ip);
    hide Inv, Coalesced, Has, SplitList, InCidr, RequestMac, EmptyAt;
  }

  lemma FreeUnheld(st: State, start: seq<Rg>, ip: IP)
    requires Inv(st, start)
    ensures Has(st.free, ip) ==> ip !in st.ipToPod && !Has(st.reserved, ip)
  {
    hide Has, Separated, EmptyAt, PoolOk, PodsKnown;
  }

  lemma TailListed(l: seq<Rg>, ip: IP)
    ensures TailOfLonger(l, ip) ==> Has(l, ip)
  {
    if TailOfLonger(l, ip) {
      var i :| 0 <= i < |l| && l[i].lo < l[i].hi == ip;
      assert In(l[i], ip);
    }
  }

  lemma CanonicalSplit(l: seq<Rg>, ip: IP)
    requires Coalesced(l) && Has(l, ip) && ip < SIZE - 1
    ensures Coalesced(SplitList(l, ip).1) <==> !TailOfLonger(l, ip)
  {
    CoalescedIff(l);
    SplitDenotes(l, ip);
    CoalescedIff(SplitList(l, ip).1);
    if TailOfLonger(l, ip) { assert EmptyAt(SplitList(l, ip).1, ip + 1); }
  }

  /** The first address of a range is never the tail of a longer one. */
  lemma HeadIsNoTail(l: seq<Rg>)
    requires Coalesced(l) && l != []
    ensures Has(l, l[0].lo) && !TailOfLonger(l, l[0].lo)
  {
    assert In(l[0], l[0].lo);
    TailIsHit(l, 0, l[0].lo);
  }

  ghost predicate NoTailRun(st: State, ops: seq<Op>) {
    forall k :: 0 <= k < |ops| ==> !TakesTail(Run(st, ops[..k]), ops[k])
  }

  /** From a canonical free list, a run in which no static request takes a tail is safe throughout. */
  lemma {:induction false} NoTailIsSafe(st: State, start: seq<Rg>, ops: seq<Op>)
    requires Inv(st, start) && Coalesced(st.free) && NoTailRun(st, ops)
    ensures SafeRun(st, ops) && Coalesced(Run(st, ops).free)
    decreases |ops|
  {
    hide Inv, Safe, Step, TakesTail, Coalesced, SafeRun, NoTailRun;
    if ops == [] {
      SafeRunSplit(st, ops);
    } else {
      var init, last := ops[..|ops| - 1], ops[|ops| - 1];
      NoTailSplit(st, ops);
      NoTailIsSafe(st, start, init);
      RunKeeps(st, start, init);
      CanonicalSafe(Run(st, init), last);
      CanonicalStep(Run(st, init), start, last);
      SafeRunSplit(st, ops);
    }
  }

  lemma NoTailSplit(st: State, ops: seq<Op>)
    requires NoTailRun(st, ops) && ops != []
    ensures NoTailRun(st, ops[..|ops| - 1]) && !TakesTail(Run(st, ops[..|ops| - 1]), ops[|ops| - 1])
  {
    hide TakesTail, Run;
    var init := ops[..|ops| - 1];
    assert forall k :: 0 <= k < |init| ==> init[k] == ops[k] && init[..k] == ops[..k];
  }

  /** A run is safe if it is safe up to its last step and that step is. */
  lemma SafeRunSplit(st: State, ops: seq<Op>)
    ensures SafeRun(st, ops) <==>
              ops == [] || (SafeRun(st, ops[..|ops| - 1]) && Safe(Run(st, ops[..|ops| - 1]), ops[|ops| - 1]))
  {
    hide Safe, Run;
    if ops != [] {
      var init := ops[..|ops| - 1];
      assert forall k :: 0 <= k < |init| ==> init[k] == ops[k] && init[..k] == ops[..k];
    }
  }

  /**
   * Whatever a safe run did, once nothing but reserved addresses is held the free list is the
   * initial one again, range by range.
   */
  lemma AllBackRestores(st: State, start: seq<Rg>, ops: seq<Op>)
    requires Inv(st, start) && SafeRun(st, ops)
    requires forall ip :: ip in Run(st, ops).ipToPod ==> Has(st.reserved, ip)
    ensures Run(st, ops).free == start
  {
    RunKeeps(st, start, ops);
    RunReserved(st, ops);
    var end := Run(st, ops);
    NoneHeldNoneEmpty(end.free, end.ipToPod.Keys, st.reserved, start);
    CanonicalUnique(end.free, start);
  }

  lemma NoneHeldNoneEmpty(free: seq<Rg>, held: set<IP>, reserved: seq<Rg>, start: seq<Rg>)
    requires Balanced(free, held, reserved, start)
    requires forall ip :: ip in held ==> Has(reserved, ip)
    ensures Coalesced(free) && SameSet(free, start)
  {
    forall i | 0 <= i < |free| ensures !Empty(free[i]) {
      var h: int := free[i].hi;
      assert h !in held || Has(reserved, h);
      assert !EmptyAt(free, h + 1);
      assert free[i].lo <= h + 1;
    }
    forall x: int ensures Has(free, x) <==> Has(start, x) {
      if 0 <= x < SIZE { assert Has(start, x as IP) <==> Has(free, x as IP); }
    }
  }

  lemma StepReserved(st: State, op: Op)
    ensures Step(st, op).reserved == st.reserved
  {
    hide Has, SplitList, MergeList, TakeFirst, InCidr;
  }

  lemma {:induction false} RunReserved(st: State, ops: seq<Op>)
    ensures Run(st, ops).reserved == st.reserved
    decreases |ops|
  {
    if ops != [] {
      RunReserved(st, ops[..|ops| - 1]);
      StepReserved(Run(st, ops[..|ops| - 1]), ops[|ops| - 1]);
      hide Step;
    }
  }
}
