/**
 * The heap form of pkg/ipam/ip.go and pkg/ipam/util.go: IPRange objects, shared between the old
 * and the new list and updated in place, with every loop proved against the functions on values.
 */
module IPRanges {
  import opened Ipv4
  import opened RangeLists

  class IPRange {
    var Start: IP
    var End: IP

    constructor (s: IP, e: IP)
      ensures Start == s && End == e
    {
      Start, End := s, e;
    }

    predicate Contains(ip: IP)
      reads this
    {
      !(Start > ip) && !(ip > End)
    }

    function Val(): Rg
      reads this
    {
      Rg(Start, End)
    }
  }

  function Vals(l: seq<IPRange>): (v: seq<Rg>)
    reads l
    ensures |v| == |l| && forall i :: 0 <= i < |l| ==> v[i] == l[i].Val()
  {
    seq(|l|, i requires 0 <= i < |l| reads l => l[i].Val())
  }

  /** No range object stands in the list twice. */
  ghost predicate Distinct(l: seq<IPRange>) {
    forall i, j :: 0 <= i < j < |l| ==> l[i] != l[j]
  }

  /** IPRangeList.Contains. */
  method ListContains(l: seq<IPRange>, ip: IP) returns (found: bool)
    ensures found <==> Has(Vals(l), ip)
  {
    for i := 0 to |l|
      invariant forall j :: 0 <= j < i ==> !In(Vals(l)[j], ip)
    {
      if l[i].Contains(ip) {
        assert In(Vals(l)[i], ip);
        return true;
      }
    }
    return false;
  }

  lemma DistinctAppend(a: seq<IPRange>, b: seq<IPRange>)
    requires Distinct(a) && Distinct(b) && forall r :: r in b ==> r !in a
    ensures Distinct(a + b)
  {
    forall i, j | 0 <= i < j < |a + b| ensures (a + b)[i] != (a + b)[j] {
      if i < |a| <= j { assert a[i] in a && b[j - |a|] in b; }
    }
  }

  lemma NotBefore(l: seq<IPRange>, i: int)
    requires Distinct(l) && 0 <= i < |l|
    ensures l[i] !in l[..i]
  {
  }

  lemma LaterApart(l: seq<IPRange>, i: int, kept: seq<IPRange>)
    requires Distinct(l) && 0 <= i < |l| && forall r :: r in kept ==> r in l[..i]
    ensures forall j :: i <= j < |l| ==> l[j] !in kept
  {
  }

  /** Appending `b` in one step: values, distinctness. */
  lemma Appended(a: seq<IPRange>, b: seq<IPRange>)
    requires Distinct(a) && Distinct(b) && forall r :: r in b ==> r !in a
    ensures Vals(a + b) == Vals(a) + Vals(b) && Distinct(a + b)
  {
    DistinctAppend(a, b);
    ValsAppend(a, b);
  }

  lemma ValsAppend(a: seq<IPRange>, b: seq<IPRange>)
    ensures Vals(a + b) == Vals(a) + Vals(b)
  {
  }

  /** The objects of `res` stand in `l` or are among the new ones. */
  ghost predicate BuiltFrom(res: seq<IPRange>, l: seq<IPRange>, made: set<IPRange>) {
    forall r :: r in res ==> r in l || r in made
  }

  /** Appending what one turn makes of range number `i`. */
  lemma Turn(res: seq<IPRange>, more: seq<IPRange>, l: seq<IPRange>, i: int, made: set<IPRange>, now: set<IPRange>)
    requires Distinct(l) && 0 <= i < |l|
    requires Distinct(res) && BuiltFrom(res, l[..i], made)
    requires Distinct(more) && BuiltFrom(more, [l[i]], now)
    requires forall r :: r in now ==> r !in made && r !in l
    requires forall r :: r in made ==> r !in l
    ensures Distinct(res + more) && BuiltFrom(res + more, l[..i + 1], made + now)
  {
    NotBefore(l, i);
    forall r | r in more ensures r !in res {
      assert r == l[i] || r in now;
      if r in now { assert r !in l[..i]; }
    }
    DistinctAppend(res, more);
    forall r | r in res + more ensures r in l[..i + 1] || r in made + now {
      if r in res { assert r in l[..i] ==> r in l[..i + 1]; }
      else { assert r == l[i] || r in now; assert l[..i + 1][i] == l[i]; }
    }
  }

  /** Removes one address; ranges that stay are the same objects, replaced ones are new. */
  method SplitIPRangeList(iprl: seq<IPRange>, ip: IP) returns (split: bool, res: seq<IPRange>)
    requires Distinct(iprl)
    ensures (split, Vals(res)) == SplitList(Vals(iprl), ip)
    ensures Distinct(res) && forall r :: r in res ==> r in iprl || fresh(r)
  {
    hide SplitList, SplitFrom, Distinct, BuiltFrom;
    res, split := [], false;
    ghost var v, made := Vals(iprl), {};
    SplitStart(v, ip);
    NothingBuilt(iprl);
    for i := 0 to |iprl|
      invariant SplitList(v, ip) == SplitFrom(Vals(res), split, v[i..], ip)
      invariant fresh(made) && Distinct(res) && BuiltFrom(res, iprl[..i], made)
    {
      ghost var now;
      split, res, now := SplitNext(iprl, i, res, split, ip, made);
      made := made + now;
    }
    assert v[|v|..] == [];
    SplitEnd(Vals(res), split, ip);
    AllBuilt(res, iprl, made);
  }

  lemma NothingBuilt(l: seq<IPRange>)
    ensures Distinct([]) && BuiltFrom([], l[..0], {})
  {
  }

  lemma AllBuilt(res: seq<IPRange>, l: seq<IPRange>, made: set<IPRange>)
    requires BuiltFrom(res, l[..|l|], made)
    ensures forall r :: r in res ==> r in l || r in made
  {
  }

  lemma SplitStart(v: seq<Rg>, ip: IP)
    ensures SplitList(v, ip) == SplitFrom([], false, v[0..], ip)
  {
    hide SplitList;
    assert v[0..] == v && [] + SplitList(v, ip).1 == SplitList(v, ip).1;
  }

  lemma SplitEnd(acc: seq<Rg>, split: bool, ip: IP)
    ensures SplitFrom(acc, split, [], ip) == (split, acc)
  {
    assert SplitList([], ip) == (false, []);
    hide SplitList;
    assert acc + [] == acc;
  }

  /** One turn of the splitting loop. */
  method SplitNext(iprl: seq<IPRange>, i: nat, res: seq<IPRange>, split: bool, ip: IP, ghost made: set<IPRange>)
    returns (done: bool, longer: seq<IPRange>, ghost now: set<IPRange>)
    requires Distinct(iprl) && i < |iprl| && Distinct(res) && BuiltFrom(res, iprl[..i], made)
    requires forall r :: r in made ==> r !in iprl
    ensures fresh(now) && Distinct(longer) && BuiltFrom(longer, iprl[..i + 1], made + now)
    ensures SplitFrom(Vals(longer), done, Vals(iprl)[i + 1..], ip) == SplitFrom(Vals(res), split, Vals(iprl)[i..], ip)
  {
    hide SplitList, SplitFrom, Distinct, BuiltFrom;
    ghost var v := Vals(iprl);
    var pieces;
    done, pieces, now := SplitOne(iprl[i], split, ip);
    Turn(res, pieces, iprl, i, made, now);
    SplitAppended(res, split, pieces, v, i, ip);
    longer := res + pieces;
  }

  /** What the splitting loop still has to do after it has kept `acc`. */
  function SplitFrom(acc: seq<Rg>, split: bool, t: seq<Rg>, ip: IP): (bool, seq<Rg>) {
    if split then (true, acc + t) else (SplitList(t, ip).0, acc + SplitList(t, ip).1)
  }

  lemma SplitListRec(t: seq<Rg>, ip: IP)
    requires t != []
    ensures SplitList(t, ip) == if Hit(t[0], ip) then (true, Pieces(t[0], ip) + t[1..])
                                else (SplitList(t[1..], ip).0, [t[0]] + SplitList(t[1..], ip).1)
  {
    var k := FirstHit(t[1..], ip);
    if Hit(t[0], ip) {
      assert FirstHit(t, ip) == 0;
      assert t[..0] + Pieces(t[0], ip) == Pieces(t[0], ip);
    } else if k < |t| - 1 {
      var u, p := t[1..], Pieces(t[k + 1], ip);
      assert t[..k + 1] + p + t[k + 2..] == [t[0]] + (u[..k] + p + u[k + 1..]);
    } else {
      assert t == [t[0]] + t[1..];
    }
  }

  lemma SplitTurn(acc: seq<Rg>, split: bool, t: seq<Rg>, ip: IP)
    requires t != []
    ensures SplitFrom(acc, split, t, ip) ==
            if split then SplitFrom(acc + [t[0]], true, t[1..], ip)
            else if Hit(t[0], ip) then SplitFrom(acc + Pieces(t[0], ip), true, t[1..], ip)
            else SplitFrom(acc + [t[0]], false, t[1..], ip)
  {
    SplitListRec(t, ip);
    assert acc + t == acc + [t[0]] + t[1..];
    if !split && Hit(t[0], ip) {
      assert acc + (Pieces(t[0], ip) + t[1..]) == (acc + Pieces(t[0], ip)) + t[1..];
    }
    var u := SplitList(t[1..], ip).1;
    assert acc + ([t[0]] + u) == (acc + [t[0]]) + u;
  }

  /** One turn of the splitting loop: appending the pieces of range number `i`. */
  lemma SplitAppended(res: seq<IPRange>, split: bool, pieces: seq<IPRange>, v: seq<Rg>, i: int, ip: IP)
    requires 0 <= i < |v|
    requires Vals(pieces) == if !split && Hit(v[i], ip) then Pieces(v[i], ip) else [v[i]]
    ensures SplitFrom(Vals(res + pieces), split || Hit(v[i], ip), v[i + 1..], ip)
            == SplitFrom(Vals(res), split, v[i..], ip)
  {
    ValsAppend(res, pieces);
    assert v[i..][0] == v[i] && v[i..][1..] == v[i + 1..];
    SplitTurn(Vals(res), split, v[i..], ip);
  }

  /** The body of the splitting loop. */
  method SplitOne(ipr: IPRange, split: bool, ip: IP)
    returns (done: bool, pieces: seq<IPRange>, ghost now: set<IPRange>)
    ensures done <==> split || Hit(ipr.Val(), ip)
    ensures Vals(pieces) == if !split && Hit(ipr.Val(), ip) then Pieces(ipr.Val(), ip) else [ipr.Val()]
    ensures fresh(now) && Distinct(pieces) && BuiltFrom(pieces, [ipr], now)
  {
    if split {
      return true, [ipr], {};
    }
    if ipr.Start == ipr.End && ipr.Start == ip {
      return true, [], {};
    }
    if ipr.Start == ip {
      var upper := new IPRange(Add(ip, 1), ipr.End);
      return true, [upper], {upper};
    }
    if ipr.Contains(ip) {
      var lower := new IPRange(ipr.Start, Sub(ip, 1));
      var upper := new IPRange(Add(ip, 1), ipr.End);
      return true, [lower, upper], {lower, upper};
    }
    return false, [ipr], {};
  }

  /**
   * Adds one absent address. The result is built from the old objects and one new one; only
   * `End` fields of objects of the list may be written.
   */
  method MergeIPRangeList(iprl: seq<IPRange>, ip: IP) returns (merged: bool, res: seq<IPRange>)
    requires Distinct(iprl)
    modifies (set r | r in iprl)`End
    ensures merged <==> !Has(old(Vals(iprl)), ip)
    ensures !merged ==> res == [] && Vals(iprl) == old(Vals(iprl))
    ensures merged ==> Vals(res) == MergeList(old(Vals(iprl)), ip)
    ensures Distinct(res) && forall r :: r in res ==> r in iprl || fresh(r)
  {
    var contains := ListContains(iprl, ip);
    if contains {
      return false, [];
    }
    var ins := InsertRange(iprl, ip);
    assert forall r :: r in ins ==> r in iprl || fresh(r);
    res := FuseRanges(ins);
    merged := true;
  }

  /** The first loop of the merge. */
  method InsertRange(iprl: seq<IPRange>, ip: IP) returns (ins: seq<IPRange>)
    requires Distinct(iprl)
    ensures Vals(ins) == Insert(Vals(iprl), ip)
    ensures Distinct(ins) && forall r :: r in ins ==> r in iprl || fresh(r)
  {
    hide Insert, InsertFrom, Distinct, BuiltFrom;
    ins := [];
    var inserted := false;
    ghost var v, made := Vals(iprl), {};
    InsertStart(v, ip);
    NothingBuilt(iprl);
    for i := 0 to |iprl|
      invariant Insert(v, ip) == InsertFrom(Vals(ins), inserted, v[i..], ip)
      invariant fresh(made) && Distinct(ins) && BuiltFrom(ins, iprl[..i], made)
    {
      ghost var now;
      inserted, ins, now := InsertNext(iprl, i, ins, inserted, ip, made);
      made := made + now;
    }
    assert v[|v|..] == [];
    InsertEnd(Vals(ins), inserted, ip);
    AllBuilt(ins, iprl, made);
    if !inserted {
      ins := AppendSingle(ins, ip);
    }
  }

  lemma InsertStart(v: seq<Rg>, ip: IP)
    ensures Insert(v, ip) == InsertFrom([], false, v[0..], ip)
  {
    hide Insert;
    assert v[0..] == v && [] + Insert(v, ip) == Insert(v, ip);
  }

  lemma InsertEnd(acc: seq<Rg>, inserted: bool, ip: IP)
    ensures InsertFrom(acc, inserted, [], ip) == if inserted then acc else acc + [Rg(ip, ip)]
  {
    assert Insert([], ip) == [Rg(ip, ip)];
    hide Insert;
    assert acc + [] == acc;
  }

  /** One turn of the first loop. */
  method InsertNext(iprl: seq<IPRange>, i: nat, ins: seq<IPRange>, inserted: bool, ip: IP, ghost made: set<IPRange>)
    returns (placed: bool, longer: seq<IPRange>, ghost now: set<IPRange>)
    requires Distinct(iprl) && i < |iprl| && Distinct(ins) && BuiltFrom(ins, iprl[..i], made)
    requires forall r :: r in made ==> r !in iprl
    ensures fresh(now) && Distinct(longer) && BuiltFrom(longer, iprl[..i + 1], made + now)
    ensures InsertFrom(Vals(longer), placed, Vals(iprl)[i + 1..], ip)
            == InsertFrom(Vals(ins), inserted, Vals(iprl)[i..], ip)
  {
    hide Insert, InsertFrom, Distinct, BuiltFrom;
    ghost var v := Vals(iprl);
    var more;
    placed, more, now := InsertOne(iprl[i], inserted, ip);
    Turn(ins, more, iprl, i, made, now);
    InsertAppended(ins, inserted, more, v, i, ip);
    longer := ins + more;
  }

  /** The address goes last if no range started above it. */
  method AppendSingle(ins: seq<IPRange>, ip: IP) returns (res: seq<IPRange>)
    requires Distinct(ins)
    ensures Vals(res) == Vals(ins) + [Rg(ip, ip)]
    ensures Distinct(res) && forall r :: r in res ==> r in ins || fresh(r)
  {
    var single := new IPRange(ip, ip);
    Appended(ins, [single]);
    res := ins + [single];
  }

  /** What the first loop still has to do after it has kept `acc`. */
  function InsertFrom(acc: seq<Rg>, inserted: bool, t: seq<Rg>, ip: IP): seq<Rg> {
    acc + if inserted then t else Insert(t, ip)
  }

  lemma InsertTurn(acc: seq<Rg>, inserted: bool, t: seq<Rg>, ip: IP)
    requires t != []
    ensures InsertFrom(acc, inserted, t, ip) ==
            InsertFrom(acc + (if inserted then [t[0]] else InsertStep(t[0], ip)),
                       inserted || t[0].lo > ip, t[1..], ip)
  {
    hide InsertStep;
    if inserted {
      assert t == [t[0]] + t[1..];
      assert acc + t == acc + [t[0]] + t[1..];
    } else {
      InsertStepRec(t, ip);
    }
  }

  lemma InsertStepRec(t: seq<Rg>, ip: IP)
    requires t != []
    ensures Insert(t, ip) == InsertStep(t[0], ip) + if t[0].lo > ip then t[1..] else Insert(t[1..], ip)
  {
    assert t == [t[0]] + t[1..];
  }

  /** One turn of the first loop: appending what range number `i` becomes. */
  lemma InsertAppended(ins: seq<IPRange>, inserted: bool, more: seq<IPRange>, v: seq<Rg>, i: int, ip: IP)
    requires 0 <= i < |v|
    requires Vals(more) == if inserted then [v[i]] else InsertStep(v[i], ip)
    ensures InsertFrom(Vals(ins + more), inserted || v[i].lo > ip, v[i + 1..], ip)
            == InsertFrom(Vals(ins), inserted, v[i..], ip)
  {
    ValsAppend(ins, more);
    assert v[i..][0] == v[i] && v[i..][1..] == v[i + 1..];
    InsertTurn(Vals(ins), inserted, v[i..], ip);
  }

  /** The body of the first loop. */
  method InsertOne(ipr: IPRange, inserted: bool, ip: IP)
    returns (placed: bool, more: seq<IPRange>, ghost now: set<IPRange>)
    ensures Vals(more) == if inserted then [ipr.Val()] else InsertStep(ipr.Val(), ip)
    ensures placed <==> inserted || ipr.Start > ip
    ensures fresh(now) && Distinct(more) && BuiltFrom(more, [ipr], now)
  {
    if inserted || ipr.Start < ip {
      return inserted, [ipr], {};
    }
    if ipr.Start > ip {
      var single := new IPRange(ip, ip);
      return true, [single, ipr], {single};
    }
    return false, [], {};
  }

  /** The second loop of the merge, with its writes to `End`. */
  method FuseRanges(ins: seq<IPRange>) returns (res: seq<IPRange>)
    requires Distinct(ins)
    modifies (set r | r in ins)`End
    ensures Vals(res) == Fuse([], old(Vals(ins)))
    ensures Distinct(res) && forall r :: r in res ==> r in ins
  {
    res := [];
    ghost var v := Vals(ins);
    for i := 0 to |ins|
      invariant Fuse([], v) == Fuse(Vals(res), v[i..])
      invariant forall j :: i <= j < |ins| ==> ins[j].Val() == v[j]
      invariant Distinct(res) && forall r :: r in res ==> r in ins[..i]
    {
      assert v[i..][0] == v[i] && v[i..][1..] == v[i + 1..];
      LaterApart(ins, i, res);
      res := FuseOne(res, ins[i]);
    }
  }

  /** The body of the second loop, with the one in-place write of the merge. */
  method FuseOne(acc: seq<IPRange>, ipr: IPRange) returns (res: seq<IPRange>)
    requires Distinct(acc) && ipr !in acc
    modifies (set r | r in acc)`End
    ensures Vals(res) == FuseStep(old(Vals(acc)), old(ipr.Val()))
    ensures res == acc || res == acc + [ipr]
    ensures Distinct(res)
  {
    Appended(acc, [ipr]);
    if |acc| != 0 && Add(acc[|acc| - 1].End, 1) == ipr.Start {
      var last := acc[|acc| - 1];
      assert last in acc;
      last.End := ipr.End;
      return acc;
    }
    return acc + [ipr];
  }
}
