/**
 * Building lists of range objects: GetIPRangeList (pkg/ipam/ip.go) with its in-place sort, and
 * splitRange over two lists (pkg/ipam/util.go, pkg/ipam/subnet.go).
 */
module RangeBuild {
  import opened Ipv4
  import opened RangeLists
  import opened PoolSplit
  import opened IPRanges

  /** The first `i` elements are in place. */
  ghost predicate Placed(s: seq<IP>, i: int) {
    forall p, q :: 0 <= p < i && p < q < |s| ==> s[p] <= s[q]
  }

  /** Stands for the library sort that GetIPRangeList applies to its argument in place. */
  method SortIPs(a: array<IP>)
    modifies a
    ensures Ascending(a[..]) && multiset(a[..]) == multiset(old(a[..]))
  {
    for i := 0 to a.Length
      invariant multiset(a[..]) == multiset(old(a[..])) && Placed(a[..], i)
    {
      PlaceLeast(a, i);
    }
  }

  method PlaceLeast(a: array<IP>, i: nat)
    requires i < a.Length && Placed(a[..], i)
    modifies a
    ensures Placed(a[..], i + 1) && multiset(a[..]) == multiset(old(a[..]))
  {
    for j := i + 1 to a.Length
      invariant multiset(a[..]) == multiset(old(a[..])) && Placed(a[..], i)
      invariant forall q :: i < q < j ==> a[i] <= a[q]
    {
      hide Placed;
      if a[j] < a[i] {
        PlacedSwap(a[..], i, j);
        SwapSame(a[..], i, j);
        Exchange(a, i, j);
      }
    }
  }

  method Exchange(a: array<IP>, i: nat, j: nat)
    requires i < j < a.Length
    modifies a
    ensures a[..] == old(a[..])[i := old(a[j])][j := old(a[i])]
  {
    a[i], a[j] := a[j], a[i];
  }

  lemma PlacedSwap(s: seq<IP>, i: nat, j: nat)
    requires i < j < |s| && Placed(s, i)
    ensures Placed(s[i := s[j]][j := s[i]], i)
  {
  }

  lemma SwapSame(s: seq<IP>, i: nat, j: nat)
    requires i < j < |s|
    ensures multiset(s[i := s[j]][j := s[i]]) == multiset(s)
  {
  }

  /**
   * Sorts the caller's list in place and returns new range objects that are its runs of
   * consecutive addresses.
   */
  method GetIPRangeList(ips: array<IP>) returns (list: seq<IPRange>)
    modifies ips
    ensures Ascending(ips[..]) && multiset(ips[..]) == multiset(old(ips[..]))
    ensures Vals(list) == Runs(ips[..])
    ensures Distinct(list) && fresh(set r | r in list)
  {
    if ips.Length == 0 {
      return [];
    }
    SortIPs(ips);
    list := CollectRuns(ips);
  }

  method CollectRuns(ips: array<IP>) returns (list: seq<IPRange>)
    requires ips.Length > 0
    ensures Vals(list) == Runs(ips[..])
    ensures Distinct(list) && fresh(set r | r in list)
  {
    list := [];
    var pre: IP := ips[0];
    var rg := new IPRange(ips[0], ips[0]);
    for i := 1 to ips.Length
      invariant pre == ips[i - 1] && rg !in list && Distinct(list)
      invariant fresh(rg) && fresh(set r | r in list)
      invariant Runs(ips[..i]) == Vals(list) + [Rg(rg.Start, pre)]
    {
      var ip := ips[i];
      assert ips[..i + 1][..i] == ips[..i];
      if Add(pre, 1) != ip {
        list := CloseRun(list, rg, pre);
        rg := new IPRange(ip, ip);
      }
      pre := ip;
    }
    assert ips[..ips.Length] == ips[..];
    list := CloseRun(list, rg, pre);
  }

  /** Ends the current run and appends it to the list. */
  method CloseRun(list: seq<IPRange>, rg: IPRange, pre: IP) returns (res: seq<IPRange>)
    requires Distinct(list) && rg !in list
    modifies rg`End
    ensures res == list + [rg] && Distinct(res)
    ensures Vals(res) == old(Vals(list)) + [Rg(rg.Start, pre)]
  {
    rg.End := pre;
    Appended(list, [rg]);
    res := list + [rg];
  }

  /** The same object when nothing overlaps, otherwise new ones. */
  method SplitRangeObj(a: IPRange, b: IPRange) returns (res: seq<IPRange>, ghost now: set<IPRange>)
    ensures Vals(res) == SplitRange(a.Val(), b.Val())
    ensures fresh(now) && Distinct(res) && BuiltFrom(res, [a], now)
  {
    if b.End < a.Start || b.Start > a.End {
      return [a], {};
    }
    if (a.Start == b.Start || a.Start > b.Start) && (a.End == b.End || a.End < b.End) {
      return [], {};
    }
    if (a.Start == b.Start || a.Start > b.Start) && a.End > b.End {
      var upper := new IPRange(Add(b.End, 1), a.End);
      return [upper], {upper};
    }
    if (a.End == b.End || a.End < b.End) && a.Start < b.Start {
      var lower := new IPRange(a.Start, Add(b.Start, 1));
      return [lower], {lower};
    }
    var lower := new IPRange(a.Start, Sub(b.Start, 1));
    var upper := new IPRange(Add(b.End, 1), a.End);
    return [lower, upper], {lower, upper};
  }

  /** The inner loop of splitFreeWithReserve: every free range minus one reserved range. */
  method SubtractReserve(free: seq<IPRange>, reserve: IPRange) returns (res: seq<IPRange>, ghost made: set<IPRange>)
    requires Distinct(free)
    ensures Vals(res) == SubtractOne(Vals(free), reserve.Val())
    ensures fresh(made) && Distinct(res) && BuiltFrom(res, free, made)
  {
    res, made := [], {};
    ghost var v, b := Vals(free), reserve.Val();
    for i := 0 to |free|
      invariant Vals(res) == SubtractOne(v[..i], b)
      invariant fresh(made) && Distinct(res) && BuiltFrom(res, free[..i], made)
    {
      var pieces, now := SplitRangeObj(free[i], reserve);
      Turn(res, pieces, free, i, made, now);
      ValsAppend(res, pieces);
      assert v[..i + 1][..i] == v[..i];
      res, made := res + pieces, made + now;
    }
    assert v[..|v|] == v && free[..|free|] == free;
  }

  lemma BuiltOn(res: seq<IPRange>, before: seq<IPRange>, l: seq<IPRange>, made: set<IPRange>, now: set<IPRange>)
    requires BuiltFrom(res, before, now) && BuiltFrom(before, l, made)
    ensures BuiltFrom(res, l, made + now)
  {
  }

  /** splitFreeWithReserve: the free list minus every reserved range in turn. */
  method SubtractReserves(free: seq<IPRange>, reserved: seq<IPRange>) returns (res: seq<IPRange>)
    requires Distinct(free)
    ensures Vals(res) == SubtractAll(Vals(free), Vals(reserved))
    ensures Distinct(res) && forall r :: r in res ==> r in free || fresh(r)
  {
    res := free;
    ghost var v, rs, made := Vals(free), Vals(reserved), {};
    for i := 0 to |reserved|
      invariant Vals(res) == SubtractAll(v, rs[..i])
      invariant fresh(made) && Distinct(res) && BuiltFrom(res, free, made)
    {
      hide Distinct, BuiltFrom, SubtractOne;
      ghost var now, before := {}, res;
      res, now := SubtractReserve(res, reserved[i]);
      BuiltOn(res, before, free, made, now);
      made := made + now;
      assert rs[..i + 1][..i] == rs[..i];
    }
    assert rs[..|rs|] == rs;
  }
}
