/**
 * What becomes of the address that a pod of pkg/ipam/subnet.go held when it is given a second one.
 */
module SubnetLost {
  import opened Ipv4
  import opened RangeLists
  import opened SubnetState
  import opened SubnetMaps

  /** Entered for a pod that does not hold it, and held by no other. */
  ghost predicate Lost(st: State, a: IP) {
    a in st.ipToPod && forall p :: p in st.podToIP ==> st.podToIP[p] != a
  }

  /** A second grant loses the first address. */
  lemma RegrantLoses(st: State, start: seq<Rg>, op: Op)
    requires Inv(st, start) && Safe(st, op) && Regrants(st, op)
    ensures Lost(Step(st, op), st.podToIP[op.pod]) && Step(st, op).ipToPod[st.podToIP[op.pod]] == op.pod
  {
    hide PoolOk, Balanced, StaticAddress, Has, Admitted, Safe;
    StaticMaps(st, op);
    StaticGranted(st, op);
  }

  /** No safe step of any pod frees or rebinds a lost address. */
  lemma LostStep(st: State, start: seq<Rg>, op: Op, a: IP)
    requires Inv(st, start) && Safe(st, op) && Lost(st, a)
    ensures Lost(Step(st, op), a) && Step(st, op).ipToPod[a] == st.ipToPod[a]
  {
    hide Inv, Safe, RandomAddress, StaticAddress, ReleaseAddress;
    match op
    case GetRandom(pod, gen) =>
      RandomMaps(st, pod, gen);
      if pod !in st.podToIP && st.free != [] { HeadUnheld(st, start, op); }
    case GetStatic(pod, ip, mac, gen) => StaticMaps(st, op);
    case Release(pod) => ReleaseMaps(st, pod);
    case _ =>
  }

  lemma HeadUnheld(st: State, start: seq<Rg>, op: Op)
    requires Inv(st, start) && op.GetRandom? && Safe(st, op) && op.pod !in st.podToIP && st.free != []
    ensures st.free[0].lo !in st.ipToPod
  {
    HeadFree(st.free);
    FreeUnheld(st, start, st.free[0].lo);
    hide Has, EmptyAt, PoolOk, PodsKnown;
  }

  /**
   * Over every safe run a lost address stays lost: it is entered for the same pod, no pod holds it,
   * and it is not free.
   */
  lemma {:induction false} LostForEver(st: State, start: seq<Rg>, ops: seq<Op>, a: IP)
    requires Inv(st, start) && SafeRun(st, ops) && Lost(st, a)
    ensures var end := Run(st, ops); Lost(end, a) && end.ipToPod[a] == st.ipToPod[a] && !Has(end.free, a)
    decreases |ops|
  {
    hide Inv, Safe, Step, SafeRun, Lost, Has;
    RunKeeps(st, start, ops);
    FreeUnheld(Run(st, ops), start, a);
    if ops != [] {
      var init := ops[..|ops| - 1];
      SafeRunSplit(st, ops);
      LostForEver(st, start, init, a);
      RunKeeps(st, start, init);
      LostStep(Run(st, init), start, ops[|ops| - 1], a);
    }
    LostEntered(Run(st, ops), a);
  }

  lemma LostEntered(st: State, a: IP)
    requires Lost(st, a)
    ensures a in st.ipToPod
  {
  }
}
