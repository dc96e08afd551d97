/** What the callers of a subnet are told, in terms of the initial pool and of who holds what. */
module SubnetReplies {
  import opened Bits
  import opened Ipv4
  import opened RangeLists
  import opened PoolSplit
  import opened SubnetState
  import opened SubnetMaps

  /** In the initial pool and held by no pod. */
  ghost predicate Available(st: State, start: seq<Rg>, ip: IP) {
    Has(start, ip) && ip !in st.ipToPod
  }

  /** In balanced books the available addresses are the listed ones. */
  lemma AvailableListed(st: State, start: seq<Rg>, ip: IP)
    requires Inv(st, start)
    ensures Available(st, start, ip) && !Has(st.reserved, ip) <==> Has(st.free, ip)
    ensures Has(start, ip) ==> !Has(st.reserved, ip)
  {
    hide Has, EmptyAt, Separated, Coalesced, InCidr;
  }

  lemma HeadLowest(l: seq<Rg>, x: int)
    requires Separated(l) && Has(l, x)
    ensures l != [] && l[0].lo <= x
  {
    var i :| 0 <= i < |l| && In(l[i], x);
    assert 0 < i ==> l[0].hi + 2 <= l[i].lo;
  }

  /**
   * A pod without an address is granted the lowest available one, and refused exactly when none
   * is available; a pod with an address is given that one again. The MAC is the one entered for the
   * pod, which may be missing if it has an address, or a generated one.
   */
  lemma RandomReply(st: State, start: seq<Rg>, pod: Pod, gen: Mac)
    requires Inv(st, start) && Safe(st, GetRandom(pod, gen))
    ensures match RandomAddress(st, pod, gen).1
            case Granted(ip, mac) =>
              && mac == (if pod in st.podToMac then st.podToMac[pod] else if pod in st.podToIP then "" else gen)
              && if pod in st.podToIP then ip == st.podToIP[pod]
                 else Available(st, start, ip) && forall x: IP :: Available(st, start, x) ==> ip <= x
            case Failed(e) =>
              e == NoAvailable && pod !in st.podToIP && forall x: IP :: !Available(st, start, x)
  {
    forall x: IP ensures Available(st, start, x) <==> Has(st.free, x) { AvailableListed(st, start, x); }
    if st.free != [] {
      HeadFree(st.free);
      forall x: IP | Has(st.free, x) ensures st.free[0].lo <= x { HeadLowest(st.free, x); }
    }
    NothingListed(st.free);
    hide Inv, Has, EmptyAt, Separated, Available, TakeFirst;
  }

  lemma NothingListed(l: seq<Rg>)
    ensures l == [] ==> forall x: int :: !Has(l, x)
  {
  }

  /** Why the address part of a static request fails, if it does. */
  ghost function AddressVerdict(st: State, start: seq<Rg>, pod: Pod, ip: IP): set<Error> {
    if ip in st.ipToPod then if st.ipToPod[ip] == pod then {} else {Conflict}
    else if Has(start, ip) || Has(st.reserved, ip) then {}
    else {NoAvailable}
  }

  /** The first error in the order the source looks for them, if there is one. */
  ghost function StaticVerdict(st: State, start: seq<Rg>, pod: Pod, ip: IP, mac: Mac): set<Error> {
    if !InCidr(st, ip) then {OutOfRange}
    else if mac != "" && mac in st.macToPod then {Conflict}
    else AddressVerdict(st, start, pod, ip)
  }

  lemma AssignReply(st: State, start: seq<Rg>, pod: Pod, ip: IP, mac: Mac)
    requires Inv(st, start) && (ip in st.ipToPod || Has(st.reserved, ip) || !EmptyAt(st.free, ip))
    ensures match Assign(st, pod, ip, mac).1
            case Granted(got, m) => got == ip && m == mac && AddressVerdict(st, start, pod, ip) == {}
            case Failed(e) => AddressVerdict(st, start, pod, ip) == {e}
  {
    AvailableListed(st, start, ip);
    SplitSucceeds(st.free, ip);
    hide Inv, Has, EmptyAt, SplitList;
  }

  /**
   * A static request is granted exactly the address it names, if the address lies in the subnet,
   * its MAC is not in use, and the address is its own already, available, or reserved and unheld.
   */
  lemma StaticReply(st: State, start: seq<Rg>, pod: Pod, ip: IP, mac: Mac, gen: Mac)
    requires Inv(st, start) && Safe(st, GetStatic(pod, ip, mac, gen))
    ensures match StaticAddress(st, pod, ip, mac, gen).1
            case Granted(got, m) =>
              && got == ip && StaticVerdict(st, start, pod, ip, mac) == {}
              && m == (if mac != "" then mac else if "" in st.podToMac then st.podToMac[""]
                       else if pod in st.podToMac then st.podToMac[pod] else gen)
            case Failed(e) => StaticVerdict(st, start, pod, ip, mac) == {e}
  {
    hide Inv, Has, EmptyAt, InCidr, Assign;
    var (st1, m, ok) := RequestMac(st, pod, mac, gen);
    RequestMacOnly(st, pod, mac, gen);
    SameInv(st, st1, start);
    if InCidr(st, ip) && ok { AssignReply(st1, start, pod, ip, m); }
  }

  /** No operation changes the subnet's network. */
  lemma StepNet(st: State, op: Op)
    ensures Step(st, op).net == st.net && Step(st, op).ones == st.ones
  {
    hide Has, SplitList, MergeList, TakeFirst, InCidr;
  }

  lemma {:induction false} RunNet(st: State, ops: seq<Op>)
    ensures Run(st, ops).net == st.net && Run(st, ops).ones == st.ones
    decreases |ops|
  {
    hide Step;
    if ops != [] {
      RunNet(st, ops[..|ops| - 1]);
      StepNet(Run(st, ops[..|ops| - 1]), ops[|ops| - 1]);
    }
  }

  /**
   * In every run of a subnet a static request is refused as out of range exactly if its address lies
   * outside the prefix block, and then nothing changes.
   */
  lemma OutOfRangeExact(ip: IP, ones: nat, excluded: seq<IP>, ops: seq<Op>, pod: Pod, x: IP, mac: Mac, gen: Mac)
    requires ones <= 32
    ensures var st := Run(Fresh(ip, ones, excluded), ops);
            var (st', reply) := StaticAddress(st, pod, x, mac, gen);
            && (reply == Failed(OutOfRange)
                <==> !(BlockBase(ip, ones) <= x < BlockBase(ip, ones) + Pow2(32 - ones)))
            && (reply == Failed(OutOfRange) ==> st' == st)
  {
    hide Run, RequestMac, Has, SplitList, SubtractAll, Runs;
    var st := Run(Fresh(ip, ones, excluded), ops);
    RunNet(Fresh(ip, ones, excluded), ops);
    CidrIsBlock(ip, ones, x);
    assert InCidr(st, x) <==> Network(x, ones) == Network(ip, ones);
    hide InCidr, Network, BlockBase;
  }

  /** After a safe run no address is held by two pods, and no held address is listed free. */
  lemma HeldOnce(st: State, start: seq<Rg>, ops: seq<Op>, p: Pod, q: Pod)
    requires Inv(st, start) && SafeRun(st, ops)
    requires p in Run(st, ops).podToIP && q in Run(st, ops).podToIP && p != q
    ensures Run(st, ops).podToIP[p] != Run(st, ops).podToIP[q]
    ensures !Has(Run(st, ops).free, Run(st, ops).podToIP[p])
  {
    hide Run, SafeRun, Balanced;
    RunKeeps(st, start, ops);
    HeldNotFree(Run(st, ops), start, p);
  }

  lemma HeldNotFree(st: State, start: seq<Rg>, p: Pod)
    requires Inv(st, start) && p in st.podToIP
    ensures !Has(st.free, st.podToIP[p])
  {
    hide Has, EmptyAt, Separated, Coalesced;
  }
}
