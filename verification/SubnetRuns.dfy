/** Short runs from a new /30 subnet of pkg/ipam/subnet.go that reach the surprising cases. */
module SubnetRuns {
  import opened Bits
  import opened Ipv4
  import opened RangeLists
  import opened PoolSplit
  import opened SubnetState
  import opened SubnetMaps
  import opened SubnetMacs

  /** A new /30 subnet has its two hosts free. */
  lemma FreshTwo(ip: IP)
    ensures var st, b := Fresh(ip, 30, []), BlockBase(ip, 30);
            && b + 3 == Broadcast(ip, 30) < SIZE
            && st.free == [Rg(b + 1, b + 2)] && st.reserved == []
            && InCidr(st, b + 1) && InCidr(st, b + 2)
  {
    HostPool(ip, 30);
    assert Pow2(2) == 4;
    CidrIsBlock(ip, 30, BlockBase(ip, 30) + 1);
    CidrIsBlock(ip, 30, BlockBase(ip, 30) + 2);
    hide Network, GetFirstIP, GetLastIP, BlockBase;
  }

  lemma SplitLast(b: IP)
    requires b + 3 < SIZE
    ensures SplitList([Rg(b + 1, b + 2)], b + 2) == (true, [Rg(b + 1, b + 1), Rg(b + 3, b + 2)])
    ensures SplitList([Rg(b + 1, b + 2)], b + 1) == (true, [Rg(b + 2, b + 2)])
    ensures SplitList([Rg(b + 2, b + 2)], b + 2) == (true, [])
  {
    var l, m := [Rg(b + 1, b + 2)], [Rg(b + 2, b + 2)];
    assert FirstHit(l, b + 2) == 0 == FirstHit(l, b + 1) && FirstHit(m, b + 2) == 0;
    WholeReplaced(Rg(b + 1, b + 2), Pieces(Rg(b + 1, b + 2), b + 2));
    WholeReplaced(Rg(b + 1, b + 2), Pieces(Rg(b + 1, b + 2), b + 1));
    WholeReplaced(Rg(b + 2, b + 2), Pieces(Rg(b + 2, b + 2), b + 2));
  }

  lemma WholeReplaced(r: Rg, p: seq<Rg>)
    ensures [r][..0] + p + [r][1..] == p
  {
  }

  /** A granted static request of a pod and for an address that are new, with nothing reserved. */
  lemma StaticTakes(st: State, pod: Pod, ip: IP, gen: Mac)
    requires InCidr(st, ip) && ip !in st.ipToPod && st.reserved == [] && SplitList(st.free, ip).0
    ensures var op := GetStatic(pod, ip, "", gen); var st' := Step(st, op);
            && ReplyOf(st, op).Granted? && ReplyOf(st, op).ip == ip
            && ("" in st.podToMac ==> ReplyOf(st, op).mac == st.podToMac[""] && st'.podToMac == st.podToMac)
            && st'.free == SplitList(st.free, ip).1 && st'.reserved == []
            && st'.podToIP == st.podToIP[pod := ip] && st'.ipToPod == st.ipToPod[ip := pod]
            && st'.net == st.net && st'.ones == st.ones
  {
    hide SplitList, InCidr;
  }

  lemma RandomTakes(st: State, pod: Pod, gen: Mac)
    requires pod !in st.podToIP && st.free != []
    ensures var op := GetRandom(pod, gen); var st' := Step(st, op);
            && ReplyOf(st, op).Granted? && ReplyOf(st, op).ip == st.free[0].lo
            && st'.free == TakeFirst(st.free) && st'.podToIP == st.podToIP[pod := st.free[0].lo]
  {
    hide TakeFirst;
  }

  /**
   * One pod asks for the last host, two others for any address: the third is handed the broadcast
   * address of the subnet.
   */
  lemma BroadcastHandedOut(ip: IP, p: Pod, q: Pod, r: Pod, g1: Mac, g2: Mac, g3: Mac)
    requires p != q && q != r && p != r
    ensures var st := Fresh(ip, 30, []);
            var st1 := Step(st, GetStatic(p, BlockBase(ip, 30) + 2, "", g1));
            var st2 := Step(st1, GetRandom(q, g2));
            && ReplyOf(st, GetStatic(p, BlockBase(ip, 30) + 2, "", g1)).Granted?
            && ReplyOf(st1, GetRandom(q, g2)).Granted?
            && ReplyOf(st2, GetRandom(r, g3)).Granted? && ReplyOf(st2, GetRandom(r, g3)).ip == Broadcast(ip, 30)
  {
    hide Fresh, Step, ReplyOf, InCidr, SplitList, BlockBase, Broadcast;
    var st, b := Fresh(ip, 30, []), BlockBase(ip, 30);
    FreshTwo(ip);
    FreshUnheld(ip, 30, []);
    SplitLast(b);
    StaticTakes(st, p, b + 2, g1);
    var st1 := Step(st, GetStatic(p, b + 2, "", g1));
    RandomTakes(st1, q, g2);
    RandomTakes(Step(st1, GetRandom(q, g2)), r, g3);
  }

  /** A new subnet has handed out nothing. */
  lemma FreshUnheld(ip: IP, ones: nat, excluded: seq<IP>)
    requires ones <= 32
    ensures var st := Fresh(ip, ones, excluded);
            st.podToIP == map[] && st.ipToPod == map[] && st.podToMac == map[] && st.macToPod == map[]
  {
    hide Network, SubtractAll, Runs;
  }

  /** Once a MAC has been made for the pod named "", two other pods that name none are given that same one. */
  lemma SameMacReached(ip: IP, p: Pod, q: Pod, mac: Mac, g1: Mac, g2: Mac)
    requires p != q
    ensures var st := Step(Fresh(ip, 30, []), GetRandomMac("", mac));
            var op1, op2 := GetStatic(p, BlockBase(ip, 30) + 1, "", g1), GetStatic(q, BlockBase(ip, 30) + 2, "", g2);
            && ReplyOf(st, op1) == Granted(BlockBase(ip, 30) + 1, mac)
            && ReplyOf(Step(st, op1), op2) == Granted(BlockBase(ip, 30) + 2, mac)
  {
    hide Fresh, Step, ReplyOf, SplitList, BlockBase, Broadcast, Network, InCidr;
    var st, b := Step(Fresh(ip, 30, []), GetRandomMac("", mac)), BlockBase(ip, 30);
    FreshTwo(ip);
    FreshUnheld(ip, 30, []);
    MacMade(Fresh(ip, 30, []), mac);
    SplitLast(b);
    SameCidr(Fresh(ip, 30, []), st);
    StaticTakes(st, p, b + 1, g1);
    var st1 := Step(st, GetStatic(p, b + 1, "", g1));
    SameCidr(st, st1);
    StaticTakes(st1, q, b + 2, g2);
  }

  lemma MacMade(st: State, mac: Mac)
    requires st.podToMac == map[]
    ensures var st' := Step(st, GetRandomMac("", mac));
            SameAddresses(st, st') && "" in st'.podToMac && st'.podToMac[""] == mac
  {
  }

  lemma SameCidr(st: State, st': State)
    requires st'.net == st.net && st'.ones == st.ones
    ensures forall x: IP :: InCidr(st', x) <==> InCidr(st, x)
  {
  }
}
