/** The Subnet object of pkg/ipam/subnet.go: range objects and maps updated in place. */
module Subnets {
  import Addrs
  import opened Ipv4
  import opened RangeLists
  import opened PoolSplit
  import opened IPRanges
  import opened RangeBuild
  import opened SubnetState
  import opened SubnetMaps

  /** The two lists a new subnet starts from. */
  method BuildLists(ip: IP, prefix: nat, excludeIps: array<IP>) returns (free: seq<IPRange>, reserved: seq<IPRange>)
    requires prefix <= 32
    modifies excludeIps
    ensures Ascending(excludeIps[..]) && multiset(excludeIps[..]) == multiset(old(excludeIps[..]))
    ensures Vals(reserved) == Runs(excludeIps[..])
    ensures Vals(free) == SubtractAll([Rg(GetFirstIP(ip, prefix), GetLastIP(ip, prefix))], Runs(excludeIps[..]))
    ensures Distinct(free) && forall r :: r in free ==> r !in reserved
    ensures fresh(set r | r in free) && fresh(set r | r in reserved)
  {
    hide SubtractAll, Runs, GetFirstIP, GetLastIP, Vals, Ascending;
    reserved := GetIPRangeList(excludeIps);
    var pool := WholePool(ip, prefix);
    free := SubtractReserves([pool], reserved);
  }

  method WholePool(ip: IP, prefix: nat) returns (pool: IPRange)
    requires prefix <= 32
    ensures fresh(pool) && Vals([pool]) == [Rg(GetFirstIP(ip, prefix), GetLastIP(ip, prefix))]
  {
    hide GetFirstIP, GetLastIP;
    pool := new IPRange(GetFirstIP(ip, prefix), GetLastIP(ip, prefix));
  }

  class Subnet {
    const net: IP
    const ones: nat
    var FreeIPList: seq<IPRange>
    var ReservedIPList: seq<IPRange>
    var PodToIP: map<Pod, IP>
    var IPToPod: map<IP, Pod>
    var PodToMac: map<Pod, Mac>
    var MacToPod: map<Mac, Pod>

    /** No range object is shared: neither within the free list nor with the reserved one. */
    ghost predicate Valid()
      reads this
    {
      && Distinct(FreeIPList)
      && forall r :: r in FreeIPList ==> r !in ReservedIPList
    }

    function View(): State
      reads this, FreeIPList, ReservedIPList
    {
      State(net, ones, Vals(FreeIPList), Vals(ReservedIPList), PodToIP, IPToPod, PodToMac, MacToPod)
    }

    /** NewSubnet; the caller's list of excluded addresses is left sorted. */
    constructor (ip: IP, prefix: nat, excludeIps: array<IP>)
      requires prefix <= 32
      modifies excludeIps
      ensures Valid()
      ensures Ascending(excludeIps[..]) && multiset(excludeIps[..]) == multiset(old(excludeIps[..]))
      ensures View() == Fresh(ip, prefix, excludeIps[..])
      ensures fresh(set r | r in FreeIPList) && fresh(set r | r in ReservedIPList)
    {
      hide SubtractAll, Runs, GetFirstIP, GetLastIP, Network, Vals, Ascending;
      var free, reserved := BuildLists(ip, prefix, excludeIps);
      net, ones := Network(ip, prefix), prefix;
      FreeIPList, ReservedIPList := free, reserved;
      PodToIP, IPToPod, PodToMac, MacToPod := map[], map[], map[], map[];
      new;
    }

    predicate CidrContains(ip: IP)
    {
      ones <= 32 && Network(ip, ones) == net
    }

    /** `gen` is what the generator produces if it is asked. */
    method GetRandomMac(pod: Pod, gen: Mac) returns (mac: Mac)
      modifies this`PodToMac, this`MacToPod
      ensures (View(), mac) == RandomMac(old(View()), pod, gen)
    {
      if pod in PodToMac {
        return PodToMac[pod];
      }
      PodToMac := PodToMac[pod := gen];
      MacToPod := MacToPod[gen := pod];
      mac := gen;
    }

    /** False is the conflict error. */
    method GetStaticMac(pod: Pod, mac: Mac) returns (ok: bool)
      modifies this`PodToMac, this`MacToPod
      ensures (View(), ok) == StaticMac(old(View()), pod, mac)
    {
      if mac in MacToPod {
        return false;
      }
      PodToMac := PodToMac[pod := mac];
      MacToPod := MacToPod[mac := pod];
      ok := true;
    }

    method GetRandomAddress(pod: Pod, gen: Mac) returns (reply: Reply)
      requires Valid()
      modifies this, FreeIPList
      ensures Valid() && (View(), reply) == RandomAddress(old(View()), pod, gen)
      ensures ReservedIPList == old(ReservedIPList) && forall r :: r in FreeIPList ==> r in old(FreeIPList)
    {
      hide TakeFirst, Distinct, RandomMac;
      if pod in PodToIP {
        return Granted(PodToIP[pod], if pod in PodToMac then PodToMac[pod] else "");
      }
      if |FreeIPList| == 0 {
        return Failed(NoAvailable);
      }
      var freeRange := FreeIPList[0];
      var ip := freeRange.Start;
      var mac := GetRandomMac(pod, gen);
      TakeHead();
      IPToPod := IPToPod[ip := pod];
      PodToIP := PodToIP[pod := ip];
      reply := Granted(ip, mac);
    }

    /** Drops a one-address head, or moves the start of the head in place. */
    method TakeHead()
      requires Valid() && FreeIPList != []
      modifies this`FreeIPList, FreeIPList
      ensures Valid() && Vals(FreeIPList) == TakeFirst(old(Vals(FreeIPList)))
      ensures Vals(ReservedIPList) == old(Vals(ReservedIPList))
      ensures forall r :: r in FreeIPList ==> r in old(FreeIPList)
    {
      var head := FreeIPList[0];
      assert head in FreeIPList;
      assert forall i :: 0 < i < |FreeIPList| ==> FreeIPList[i] != head;
      assert forall i :: 0 <= i < |ReservedIPList| ==> ReservedIPList[i] != head;
      ghost var was := Vals(FreeIPList);
      if head.Start == head.End {
        FreeIPList := FreeIPList[1..];
      } else {
        head.Start := Add(head.Start, 1);
        assert Vals(FreeIPList) == [Rg(Add(was[0].lo, 1), was[0].hi)] + was[1..];
      }
    }

    method GetStaticAddress(pod: Pod, ip: IP, mac: Mac, gen: Mac) returns (reply: Reply)
      requires Valid()
      modifies this
      ensures Valid() && (View(), reply) == StaticAddress(old(View()), pod, ip, mac, gen)
      ensures ReservedIPList == old(ReservedIPList)
      ensures forall r :: r in FreeIPList ==> r in old(FreeIPList) || fresh(r)
    {
      if !CidrContains(ip) {
        return Failed(OutOfRange);
      }
      var m := mac;
      if mac == "" {
        if mac in PodToMac {
          m := PodToMac[mac];
        } else {
          m := GetRandomMac(pod, gen);
        }
      } else {
        var ok := GetStaticMac(pod, mac);
        if !ok {
          return Failed(Conflict);
        }
      }
      reply := AssignAddress(pod, ip, m);
    }

    /** The rest of GetStaticAddress, once the MAC is settled. */
    method AssignAddress(pod: Pod, ip: IP, mac: Mac) returns (reply: Reply)
      requires Valid()
      modifies this`FreeIPList, this`PodToIP, this`IPToPod
      ensures Valid() && (View(), reply) == Assign(old(View()), pod, ip, mac)
      ensures forall r :: r in FreeIPList ==> r in old(FreeIPList) || fresh(r)
    {
      hide Has, SplitList;
      if ip in IPToPod {
        return if IPToPod[ip] != pod then Failed(Conflict) else Granted(ip, mac);
      }
      var isReserved := ListContains(ReservedIPList, ip);
      if isReserved {
        PodToIP := PodToIP[pod := ip];
        IPToPod := IPToPod[ip := pod];
        return Granted(ip, mac);
      }
      var split, newFreeList := SplitIPRangeList(FreeIPList, ip);
      if split {
        FreeIPList := newFreeList;
        PodToIP := PodToIP[pod := ip];
        IPToPod := IPToPod[ip := pod];
        return Granted(ip, mac);
      }
      reply := Failed(NoAvailable);
    }

    /** Also returns the address and MAC the pod held. */
    method ReleaseAddress(pod: Pod) returns (was: Addrs.Option<IP>, mac: Mac)
      requires Valid()
      modifies this, FreeIPList
      ensures Valid() && View() == SubnetState.ReleaseAddress(old(View()), pod)
      ensures was == (if pod in old(PodToIP) then Addrs.Some(old(PodToIP)[pod]) else Addrs.None)
      ensures mac == if pod in old(PodToIP) && pod in old(PodToMac) then old(PodToMac)[pod] else ""
      ensures ReservedIPList == old(ReservedIPList)
      ensures forall r :: r in FreeIPList ==> r in old(FreeIPList) || fresh(r)
    {
      hide MergeList, Has, Network;
      if pod !in PodToIP {
        return Addrs.None, "";
      }
      var ip := PodToIP[pod];
      was := Addrs.Some(ip);
      PodToIP := PodToIP - {pod};
      IPToPod := IPToPod - {ip};
      mac := DropMac(pod);
      if !CidrContains(ip) {
        return;
      }
      var isReserved := ListContains(ReservedIPList, ip);
      if isReserved {
        return;
      }
      PutBack(ip);
    }

    method DropMac(pod: Pod) returns (mac: Mac)
      modifies this`PodToMac, this`MacToPod
      ensures View() == ReleaseMac(old(View()), pod) && mac == MacOf(old(View()), pod)
    {
      mac := "";
      if pod in PodToMac {
        mac := PodToMac[pod];
        PodToMac := PodToMac - {pod};
        MacToPod := MacToPod - {mac};
      }
    }

    /** The merge of a released address into the free list. */
    method PutBack(ip: IP)
      requires Valid()
      modifies this`FreeIPList, FreeIPList
      ensures Valid()
      ensures Vals(FreeIPList) == if Has(old(Vals(FreeIPList)), ip) then old(Vals(FreeIPList))
                                  else MergeList(old(Vals(FreeIPList)), ip)
      ensures Vals(ReservedIPList) == old(Vals(ReservedIPList))
      ensures forall r :: r in FreeIPList ==> r in old(FreeIPList) || fresh(r)
    {
      var merged, newFreeList := MergeIPRangeList(FreeIPList, ip);
      assert forall i :: 0 <= i < |ReservedIPList| ==> ReservedIPList[i] !in FreeIPList;
      if merged {
        FreeIPList := newFreeList;
      }
    }
  }
}
