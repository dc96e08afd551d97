/**
 * Exclude lists with repeated addresses, which NewSubnet (pkg/ipam/subnet.go) accepts: their runs
 * touch, and that decides whether the pool comes out right.
 */
module PoolRepeats {
  import opened Ipv4
  import opened RangeLists
  import opened PoolSplit
  import opened SubnetState
  import opened SubnetMaps

  /** The runs of a sorted list: a run may start on the last address of the one before, never just above it. */
  ghost predicate Linked(rs: seq<Rg>) {
    && (forall i :: 0 <= i < |rs| ==> !Empty(rs[i]))
    && (forall i, j :: 0 <= i < j < |rs| ==> rs[i].hi <= rs[j].lo)
    && (forall i :: 0 < i < |rs| ==> rs[i].lo == rs[i - 1].hi || rs[i - 1].hi + 2 <= rs[i].lo)
  }

  lemma {:induction false} RunsLinked(s: seq<IP>)
    requires Ascending(s)
    ensures Linked(Runs(s))
    decreases |s|
  {
    if s != [] {
      RunsLinked(s[..|s| - 1]);
      assert |s| > 1 ==> s[|s| - 2] <= s[|s| - 1];
      RunLinked(Runs(s[..|s| - 1]), s[|s| - 1]);
    }
  }

  lemma RunLinked(r: seq<Rg>, x: IP)
    requires Linked(r) && (r != [] ==> r[|r| - 1].hi <= x)
    ensures Linked(AppendRun(r, x))
  {
    if r != [] && Add(r[|r| - 1].hi, 1) == x {
      LinkedLonger(r, r[..|r| - 1], r[|r| - 1], x);
    } else {
      LinkedNext(r, Rg(x, x));
    }
  }

  lemma LinkedLonger(r: seq<Rg>, init: seq<Rg>, z: Rg, x: IP)
    requires Linked(r) && r == init + [z] && z.hi <= x
    ensures Linked(init + [Rg(z.lo, x)])
  {
    forall i | 0 <= i < |init| ensures init[i].hi <= z.lo && init[i] == r[i] {
      assert r[i].hi <= r[|r| - 1].lo;
    }
  }

  lemma LinkedNext(r: seq<Rg>, b: Rg)
    requires Linked(r) && !Empty(b)
    requires r != [] ==> b.lo == r[|r| - 1].hi || r[|r| - 1].hi + 2 <= b.lo
    ensures Linked(r + [b])
  {
    forall i | 0 <= i < |r| ensures r[i].hi <= b.lo {
      assert i < |r| - 1 ==> r[i].hi <= r[|r| - 1].lo;
    }
  }

  /** The first run that reaches `p`. */
  function Reach(rs: seq<Rg>, p: IP): (k: nat)
    ensures k <= |rs|
    ensures forall i :: 0 <= i < k ==> rs[i].hi < p
    ensures k < |rs| ==> p <= rs[k].hi
  {
    if rs == [] || p <= rs[0].hi then 0 else 1 + Reach(rs[1..], p)
  }

  /** The last host alone is excluded, at least three times, and the address above it is excluded too. */
  ghost predicate Repaired(rs: seq<Rg>, k: nat, p: IP) {
    k + 1 < |rs| && rs[k] == rs[k + 1] == Rg(p, p) && Has(rs, p + 1)
  }

  /**
   * The guard, on the runs: the first run that reaches the last host does not start inside the
   * pool, or starts on an address that is excluded twice, or the excess is taken away again.
   */
  ghost predicate TailFits(pool: Rg, rs: seq<Rg>) {
    var k := Reach(rs, pool.hi);
    || k == |rs|
    || !Straddles(pool, rs[k])
    || (k > 0 && rs[k - 1].hi == rs[k].lo)
    || Repaired(rs, k, pool.hi)
  }

  ghost predicate Exact(pool: Rg, rs: seq<Rg>) {
    forall x: int :: Has(SubtractAll([pool], rs), x) <==> In(pool, x) && !Has(rs, x)
  }

  lemma {:induction false} SubtractAllAppend(l: seq<Rg>, a: seq<Rg>, b: seq<Rg>)
    ensures SubtractAll(l, a + b) == SubtractAll(SubtractAll(l, a), b)
    decreases |b|
  {
    if b == [] {
      assert a + b == a;
    } else {
      assert (a + b)[..|a + b| - 1] == a + b[..|b| - 1];
      SubtractAllAppend(l, a, b[..|b| - 1]);
    }
  }

  /** What is free before the first run that reaches the end of the pool. */
  lemma PoolUpTo(pool: Rg, rs: seq<Rg>, k: nat)
    requires !Empty(pool) && Linked(rs) && k <= Reach(rs, pool.hi)
    ensures Coalesced(SubtractAll([pool], rs[..k]))
    ensures forall x: int :: Has(SubtractAll([pool], rs[..k]), x) <==> In(pool, x) && !Has(rs[..k], x)
  {
    forall i, j | 0 <= i < j < k ensures rs[i].lo <= rs[j].lo {
      assert rs[i].hi <= rs[j].lo;
    }
    PoolBefore(pool, rs[..k]);
  }

  /** A run that straddles no piece is taken out exactly. */
  lemma OneExact(cur: seq<Rg>, b: Rg)
    requires Coalesced(cur) && !Empty(b) && forall i :: 0 <= i < |cur| ==> !Straddles(cur[i], b)
    ensures Coalesced(SubtractOne(cur, b))
    ensures forall x: int :: Has(SubtractOne(cur, b), x) <==> Has(cur, x) && !In(b, x)
  {
    SubtractOneForm(cur, b);
    forall x: int { SubtractOneAt(cur, b, x); }
  }

  lemma RunsAround(rs: seq<Rg>, k: nat, x: int)
    requires k < |rs|
    ensures rs == rs[..k] + ([rs[k]] + rs[k + 1..])
    ensures Has(rs, x) <==> Has(rs[..k], x) || In(rs[k], x) || Has(rs[k + 1..], x)
  {
    HasAppend(rs[..k], [rs[k]] + rs[k + 1..], x);
    HasAppend([rs[k]], rs[k + 1..], x);
    assert rs == rs[..k] + ([rs[k]] + rs[k + 1..]);
    assert Has([rs[k]], x) <==> In([rs[k]][0], x);
  }

  /** The two addresses at the start of a straddling run share their fate: each range holds both or neither. */
  ghost predicate Bonded(l: seq<Rg>, s: int) {
    forall i :: 0 <= i < |l| ==> (In(l[i], s - 1) <==> In(l[i], s))
  }

  lemma BondedSplit(a: Rg, b: Rg, s: int)
    requires 2 <= s < b.lo && !Empty(b) && (In(a, s - 1) <==> In(a, s))
    ensures Bonded(SplitRange(a, b), s)
  {
  }

  lemma {:induction false} BondedOne(l: seq<Rg>, b: Rg, s: int)
    requires 2 <= s < b.lo && !Empty(b) && Bonded(l, s)
    ensures Bonded(SubtractOne(l, b), s)
    decreases |l|
  {
    if l != [] {
      BondedOne(l[..|l| - 1], b, s);
      BondedSplit(l[|l| - 1], b, s);
      hide SplitRange;
    }
  }

  lemma {:induction false} BondedAll(l: seq<Rg>, rs: seq<Rg>, s: int)
    requires 2 <= s && Bonded(l, s) && forall j :: 0 <= j < |rs| ==> s < rs[j].lo && !Empty(rs[j])
    ensures Bonded(SubtractAll(l, rs), s)
    decreases |rs|
  {
    if rs != [] {
      BondedAll(l, rs[..|rs| - 1], s);
      BondedOne(SubtractAll(l, rs[..|rs| - 1]), rs[|rs| - 1], s);
      hide SubtractOne, Bonded;
    }
  }

  /** Another end for the last range. */
  lemma LastReplaced(init: seq<Rg>, z: Rg, hi: IP)
    requires Coalesced(init + [z]) && z.lo <= hi
    ensures Coalesced(init + [Rg(z.lo, hi)])
    ensures forall i :: 0 <= i < |init| ==> init[i].hi + 2 <= z.lo
  {
    SeparatedAppend(init, [z]);
    assert [z][0] == z;
    assert forall i :: 0 <= i < |init| ==> (init + [z])[i] == init[i];
    SeparatedAppend(init, [Rg(z.lo, hi)]);
  }

  /** A range that holds both of them, or has been turned inside out at the top of the address space. */
  predicate Damaged(r: Rg, s: int) {
    0 < r.lo && (r.hi == 0 || r.lo < s <= r.hi)
  }

  ghost predicate SomeDamaged(l: seq<Rg>, s: int) {
    exists i :: 0 <= i < |l| && Damaged(l[i], s)
  }

  lemma DamagedSplit(a: Rg, b: Rg, s: int)
    requires 2 <= s < b.lo && !Empty(b) && Damaged(a, s)
    ensures SomeDamaged(SplitRange(a, b), s)
  {
    assert Damaged(SplitRange(a, b)[0], s);
  }

  lemma {:induction false} DamagedOne(l: seq<Rg>, b: Rg, s: int)
    requires 2 <= s < b.lo && !Empty(b) && SomeDamaged(l, s)
    ensures SomeDamaged(SubtractOne(l, b), s)
    decreases |l|
  {
    hide Damaged, SplitRange;
    var init, z := l[..|l| - 1], l[|l| - 1];
    var i :| 0 <= i < |l| && Damaged(l[i], s);
    if i < |l| - 1 {
      assert Damaged(init[i], s);
      DamagedOne(init, b, s);
    } else {
      DamagedSplit(z, b, s);
    }
    DamagedAppend(SubtractOne(init, b), SplitRange(z, b), s);
  }

  lemma DamagedAppend(a: seq<Rg>, b: seq<Rg>, s: int)
    ensures SomeDamaged(a, s) || SomeDamaged(b, s) ==> SomeDamaged(a + b, s)
  {
    hide Damaged;
    assert forall i :: 0 <= i < |a| ==> (a + b)[i] == a[i];
    assert forall i :: 0 <= i < |b| ==> (a + b)[|a| + i] == b[i];
  }

  lemma {:induction false} DamagedAll(l: seq<Rg>, rs: seq<Rg>, s: int)
    requires 2 <= s && SomeDamaged(l, s) && forall j :: 0 <= j < |rs| ==> s < rs[j].lo && !Empty(rs[j])
    ensures SomeDamaged(SubtractAll(l, rs), s)
    decreases |rs|
  {
    if rs != [] {
      DamagedAll(l, rs[..|rs| - 1], s);
      DamagedOne(SubtractAll(l, rs[..|rs| - 1]), rs[|rs| - 1], s);
      hide SubtractOne, SomeDamaged;
    }
  }

  /** What a run leaves of a list whose last range it straddles. */
  lemma LastStraddled(init: seq<Rg>, z: Rg, b: Rg)
    requires Coalesced(init + [z]) && Straddles(z, b) && b.lo < SIZE - 1
    ensures SubtractOne(init + [z], b) == init + [Rg(z.lo, b.lo + 1)]
    ensures Coalesced(init + [Rg(z.lo, b.lo + 1)]) && Bonded(init + [Rg(z.lo, b.lo + 1)], b.lo)
  {
    hide Coalesced, Has, Bonded, SplitRange;
    var l := init + [z];
    assert l[..|l| - 1] == init && l[|l| - 1] == z;
    LastReplaced(init, z, b.lo + 1);
    SubtractOneAbove(init, b);
    SplitStraddled(z, b);
    BondedLast(init, Rg(z.lo, b.lo + 1), b.lo);
  }

  lemma BondedLast(init: seq<Rg>, z: Rg, s: IP)
    requires z.lo < s < z.hi && forall i :: 0 <= i < |init| ==> init[i].hi + 2 <= z.lo
    ensures Bonded(init + [z], s)
  {
  }

  // ------------------------------------------------------------------
  // The three ways a pool comes out

  /** The first run that reaches the end is taken out exactly, and later ones find nothing. */
  lemma FitsExact(pool: Rg, rs: seq<Rg>, k: nat)
    requires !Empty(pool) && Linked(rs) && k == Reach(rs, pool.hi) < |rs|
    requires !Straddles(pool, rs[k]) || (k > 0 && rs[k - 1].hi == rs[k].lo)
    ensures Exact(pool, rs) && Coalesced(SubtractAll([pool], rs))
  {
    var b, cur, post := rs[k], SubtractAll([pool], rs[..k]), rs[k + 1..];
    PoolUpTo(pool, rs, k);
    if k > 0 { assert rs[..k][k - 1] == rs[k - 1] && In(rs[..k][k - 1], rs[k - 1].hi); }
    forall i | 0 <= i < |cur| ensures !Straddles(cur[i], b) {
      assert In(cur[i], cur[i].lo) && In(cur[i], cur[i].hi);
      assert Has(cur, cur[i].lo) && Has(cur, cur[i].hi);
      assert In(cur[i], b.lo) ==> Has(cur, b.lo);
    }
    OneExact(cur, b);
    var res := SubtractOne(cur, b);
    FitsRest(pool, rs, k, res);
  }

  lemma FitsRest(pool: Rg, rs: seq<Rg>, k: nat, res: seq<Rg>)
    requires Linked(rs) && k < |rs| && pool.hi <= rs[k].hi
    requires res == SubtractOne(SubtractAll([pool], rs[..k]), rs[k]) && Coalesced(res)
    requires forall x: int :: Has(res, x) <==> In(pool, x) && !Has(rs[..k], x) && !In(rs[k], x)
    ensures Exact(pool, rs) && Coalesced(SubtractAll([pool], rs))
  {
    hide SubtractAll, SubtractOne, Linked, Coalesced, Has;
    SubtractFrom(pool, rs, k);
    PiecesBelow(pool, rs, k, res, rs[k + 1..]);
    NothingTouched(res, rs[k + 1..]);
    forall x: int ensures Has(res, x) <==> In(pool, x) && !Has(rs, x) { RestAbove(pool, rs, k, x); }
  }

  lemma NothingTouched(l: seq<Rg>, post: seq<Rg>)
    requires forall i, j :: 0 <= i < |l| && 0 <= j < |post| ==> l[i].hi < post[j].lo
    ensures SubtractAll(l, post) == l
  {
    SubtractAllAbove(l, [], post);
    assert [] + post == post;
  }

  lemma PiecesBelow(pool: Rg, rs: seq<Rg>, k: nat, res: seq<Rg>, post: seq<Rg>)
    requires Linked(rs) && k < |rs| && pool.hi <= rs[k].hi && Coalesced(res) && post == rs[k + 1..]
    requires forall x: int :: Has(res, x) ==> In(pool, x) && !In(rs[k], x)
    ensures forall i, j :: 0 <= i < |res| && 0 <= j < |post| ==> res[i].hi < post[j].lo
  {
    forall i, j | 0 <= i < |res| && 0 <= j < |post| ensures res[i].hi < post[j].lo {
      assert In(res[i], res[i].hi);
      assert Has(res, res[i].hi);
      assert rs[k].hi <= rs[k + 1 + j].lo;
    }
  }

  /** Above the end of the pool there is nothing to reserve any more. */
  lemma RestAbove(pool: Rg, rs: seq<Rg>, k: nat, x: int)
    requires Linked(rs) && k < |rs| && pool.hi <= rs[k].hi
    ensures In(pool, x) && !Has(rs, x) <==> In(pool, x) && !Has(rs[..k], x) && !In(rs[k], x)
  {
    RunsAround(rs, k, x);
    if Has(rs[k + 1..], x) { PostAbove(rs, k, x); }
    hide Has, Linked;
  }

  lemma PostAbove(rs: seq<Rg>, k: nat, x: int)
    requires Linked(rs) && k < |rs| && Has(rs[k + 1..], x)
    ensures rs[k].hi <= x
  {
    var i :| 0 <= i < |rs[k + 1..]| && In(rs[k + 1..][i], x);
    assert rs[k].hi <= rs[k + 1 + i].lo;
  }

  /** The list after the run that straddles the end: as before it, with a longer last range. */
  lemma AfterStraddle(pool: Rg, rs: seq<Rg>, k: nat) returns (init: seq<Rg>, lo: IP)
    requires StraddlesFresh(pool, rs, k)
    ensures var s := rs[k].lo;
            && 0 < lo < s < SIZE - 1
            && SubtractOne(SubtractAll([pool], rs[..k]), rs[k]) == init + [Rg(lo, s + 1)]
            && Coalesced(init + [Rg(lo, s + 1)]) && Bonded(init + [Rg(lo, s + 1)], s)
  {
    hide Coalesced, Bonded, SubtractAll, SubtractOne, Has, Linked;
    var b, cur := rs[k], SubtractAll([pool], rs[..k]);
    PoolUpTo(pool, rs, k);
    BelowStart(rs, k);
    PoolTail(pool, cur, rs[..k], b);
    StartsInside(cur, |cur| - 1);
    init, lo := cur[..|cur| - 1], cur[|cur| - 1].lo;
    assert cur == init + [cur[|cur| - 1]];
    LastStraddled(init, cur[|cur| - 1], b);
  }

  lemma StartsInside(cur: seq<Rg>, i: int)
    requires Coalesced(cur) && 0 <= i < |cur|
    ensures Has(cur, cur[i].lo)
  {
    assert In(cur[i], cur[i].lo);
  }

  /** The addresses it holds. */
  lemma AfterStraddleHas(pool: Rg, rs: seq<Rg>, k: nat, x: int)
    requires StraddlesFresh(pool, rs, k)
    ensures Has(SubtractOne(SubtractAll([pool], rs[..k]), rs[k]), x) <==>
              (In(pool, x) && !Has(rs[..k], x) && !In(rs[k], x)) || x == rs[k].lo || x == rs[k].lo + 1
  {
    var cur := SubtractAll([pool], rs[..k]);
    PoolUpTo(pool, rs, k);
    BelowStart(rs, k);
    PoolTail(pool, cur, rs[..k], rs[k]);
    hide Coalesced, SubtractAll, SubtractOne, Has, Linked;
    StraddleStep(cur, rs[k]);
  }

  /** The first run that reaches the end straddles it, and its start has not been taken out before. */
  ghost predicate StraddlesFresh(pool: Rg, rs: seq<Rg>, k: nat) {
    && 0 < pool.lo <= pool.hi < SIZE - 1 && Linked(rs) && k == Reach(rs, pool.hi) < |rs|
    && Straddles(pool, rs[k]) && !(k > 0 && rs[k - 1].hi == rs[k].lo)
  }

  lemma BelowStart(rs: seq<Rg>, k: nat)
    requires Linked(rs) && k < |rs| && !(k > 0 && rs[k - 1].hi == rs[k].lo)
    ensures forall j :: 0 <= j < k ==> rs[j].hi + 2 <= rs[k].lo
    ensures !Has(rs, rs[k].lo - 1)
  {
    forall j | 0 <= j < k ensures rs[j].hi + 2 <= rs[k].lo {
      assert j < k - 1 ==> rs[j].hi <= rs[k - 1].lo;
    }
    forall j | k <= j < |rs| ensures rs[k].lo <= rs[j].lo {
      assert k < j ==> rs[k].hi <= rs[j].lo;
    }
  }

  /** In canonical form, with nothing reserved in it. */
  ghost predicate Disjoint(l: seq<Rg>, rs: seq<Rg>) {
    Coalesced(l) && forall x: int :: Has(l, x) ==> !Has(rs, x)
  }

  lemma DamageShows(l: seq<Rg>, rs: seq<Rg>, s: int)
    requires SomeDamaged(l, s) && Has(rs, s)
    ensures !Disjoint(l, rs)
  {
    var i :| 0 <= i < |l| && Damaged(l[i], s);
    if l[i].hi != 0 {
      assert In(l[i], s);
      assert Has(l, s);
    }
  }

  /** Runs that start above the straddling start cannot undo what it did. */
  lemma SpoiltStays(pool: Rg, rs: seq<Rg>, l: seq<Rg>, post: seq<Rg>, s: int)
    requires 2 <= s && Bonded(l, s) && forall j :: 0 <= j < |post| ==> s < post[j].lo && !Empty(post[j])
    requires SubtractAll([pool], rs) == SubtractAll(l, post) && SomeDamaged(l, s)
    requires Has(rs, s) && !Has(rs, s - 1) && In(pool, s - 1)
    ensures !Exact(pool, rs)
    ensures !Disjoint(SubtractAll([pool], rs), rs)
  {
    BondedAll(l, post, s);
    DamagedAll(l, post, s);
    var res := SubtractAll(l, post);
    DamageShows(res, rs, s);
    if Has(res, s - 1) {
      var i :| 0 <= i < |res| && In(res[i], s - 1);
      assert In(res[i], s);
      assert Has(res, s);
    }
  }

  lemma SubtractMore(l: seq<Rg>, a: seq<Rg>, b: Rg)
    ensures SubtractAll(l, a + [b]) == SubtractOne(SubtractAll(l, a), b)
  {
    hide SubtractOne;
    assert (a + [b])[..|a|] == a;
  }

  lemma SubtractFrom(pool: Rg, rs: seq<Rg>, k: nat)
    requires k < |rs|
    ensures SubtractAll([pool], rs) == SubtractAll(SubtractOne(SubtractAll([pool], rs[..k]), rs[k]), rs[k + 1..])
  {
    hide SubtractAll, SubtractOne;
    assert rs == (rs[..k] + [rs[k]]) + rs[k + 1..];
    SubtractAllAppend([pool], rs[..k] + [rs[k]], rs[k + 1..]);
    SubtractMore([pool], rs[..k], rs[k]);
  }

  /** A straddling run that is not the repeated last host alone spoils the pool for good. */
  lemma StraddleSpoils(pool: Rg, rs: seq<Rg>, k: nat)
    requires StraddlesFresh(pool, rs, k)
    requires !(k + 1 < |rs| && rs[k] == rs[k + 1] == Rg(pool.hi, pool.hi))
    ensures !Exact(pool, rs)
    ensures !Disjoint(SubtractAll([pool], rs), rs)
  {
    hide Has, Coalesced, SubtractAll, SubtractOne, Bonded, Exact, Disjoint, Linked, Reach;
    var init, lo := AfterStraddle(pool, rs, k);
    SubtractFrom(pool, rs, k);
    var post := rs[k + 1..];
    if rs[k].lo < rs[k].hi || post == [] || rs[k].lo < post[0].lo {
      forall j | 0 <= j < |post| ensures rs[k].lo < post[j].lo && !Empty(post[j]) { PostStart(rs, k, j); }
      SpoiltFrom(pool, rs, k, init, lo, post);
    } else {
      SpoiltAgain(pool, rs, k, init, lo);
    }
  }

  lemma SpoiltAgain(pool: Rg, rs: seq<Rg>, k: nat, init: seq<Rg>, lo: IP)
    requires StraddlesFresh(pool, rs, k) && k + 1 < |rs| && rs[k + 1] != rs[k]
    requires rs[k].hi <= rs[k].lo && rs[k + 1].lo <= rs[k].lo && 0 < lo < rs[k].lo < SIZE - 1
    requires SubtractOne(SubtractAll([pool], rs[..k]), rs[k]) == init + [Rg(lo, rs[k].lo + 1)]
    requires Coalesced(init + [Rg(lo, rs[k].lo + 1)]) && Bonded(init + [Rg(lo, rs[k].lo + 1)], rs[k].lo)
    ensures !Exact(pool, rs) && !Disjoint(SubtractAll([pool], rs), rs)
  {
    hide Has, Coalesced, SubtractAll, SubtractOne, Bonded, Exact, Disjoint, Linked, Reach;
    var rest := rs[k + 2..];
    assert rs[k + 1..] == [rs[k + 1]] + rest;
    NextStart(rs, k);
    SubtractFrom(pool, rs, k);
    SameAgain(init, lo, rs[k + 1], rest);
    forall j | 0 <= j < |rest| ensures rs[k].lo < rest[j].lo && !Empty(rest[j]) { PostStart(rs, k + 1, j); }
    SpoiltFrom(pool, rs, k, init, lo, rest);
  }

  lemma NextStart(rs: seq<Rg>, k: nat)
    requires Linked(rs) && k + 1 < |rs| && rs[k + 1] != rs[k] && rs[k].hi <= rs[k].lo && rs[k + 1].lo <= rs[k].lo
    ensures rs[k].lo == rs[k + 1].lo < rs[k + 1].hi
  {
  }

  lemma SpoiltFrom(pool: Rg, rs: seq<Rg>, k: nat, init: seq<Rg>, lo: IP, post: seq<Rg>)
    requires StraddlesFresh(pool, rs, k) && 0 < lo < rs[k].lo < SIZE - 1
    requires SubtractAll([pool], rs) == SubtractAll(init + [Rg(lo, rs[k].lo + 1)], post)
    requires Bonded(init + [Rg(lo, rs[k].lo + 1)], rs[k].lo)
    requires forall j :: 0 <= j < |post| ==> rs[k].lo < post[j].lo && !Empty(post[j])
    ensures !Exact(pool, rs) && !Disjoint(SubtractAll([pool], rs), rs)
  {
    StartReserved(rs, k);
    hide Has, SubtractAll, Bonded, SomeDamaged, Exact, Disjoint, Linked, Reach;
    LastDamaged(init, lo, rs[k].lo);
    SpoiltStays(pool, rs, init + [Rg(lo, rs[k].lo + 1)], post, rs[k].lo);
  }

  lemma LastDamaged(init: seq<Rg>, lo: IP, s: IP)
    requires 0 < lo < s < SIZE - 1
    ensures SomeDamaged(init + [Rg(lo, s + 1)], s)
  {
    assert Damaged((init + [Rg(lo, s + 1)])[|init|], s);
  }

  lemma StartReserved(rs: seq<Rg>, k: nat)
    requires Linked(rs) && k < |rs| && !(k > 0 && rs[k - 1].hi == rs[k].lo)
    ensures Has(rs, rs[k].lo) && !Has(rs, rs[k].lo - 1)
  {
    BelowStart(rs, k);
    assert In(rs[k], rs[k].lo);
  }

  lemma PostStart(rs: seq<Rg>, k: nat, j: nat)
    requires Linked(rs) && k + 1 + j < |rs|
    ensures !Empty(rs[k + 1 + j]) && rs[k].hi <= rs[k + 1 + j].lo && rs[k + 1].lo <= rs[k + 1 + j].lo
  {
    assert 0 < j ==> rs[k + 1].hi <= rs[k + 1 + j].lo;
  }

  /** A longer run with the same start straddles the longer range again and changes nothing. */
  lemma SameAgain(init: seq<Rg>, lo: IP, c: Rg, rest: seq<Rg>)
    requires lo < c.lo < c.hi && Coalesced(init + [Rg(lo, c.lo + 1)])
    ensures SubtractAll(init + [Rg(lo, c.lo + 1)], [c] + rest) == SubtractAll(init + [Rg(lo, c.lo + 1)], rest)
  {
    hide SubtractOne, Coalesced, Bonded;
    var l := init + [Rg(lo, c.lo + 1)];
    LastStraddled(init, Rg(lo, c.lo + 1), c);
    SubtractAllAppend(l, [c], rest);
    SubtractMore(l, [], c);
    assert [] + [c] == [c];
  }

  /**
   * The last host excluded again takes it out of the longer range, and what lies one above it is
   * left, unless that is excluded as well.
   */
  lemma RepeatedHost(pool: Rg, rs: seq<Rg>, k: nat)
    requires StraddlesFresh(pool, rs, k) && k + 1 < |rs| && rs[k] == rs[k + 1] == Rg(pool.hi, pool.hi)
    ensures Coalesced(SubtractAll([pool], rs))
    ensures forall x: int :: Has(SubtractAll([pool], rs), x) <==> (In(pool, x) || x == pool.hi + 1) && !Has(rs, x)
  {
    hide SubtractAll, SubtractOne, Coalesced, Bonded, Linked, Has;
    var l := SubtractOne(SubtractAll([pool], rs[..k]), rs[k]);
    var init, lo := AfterStraddle(pool, rs, k);
    NoneInside(l, rs[k], init, lo);
    OneExact(l, rs[k]);
    var m := SubtractOne(l, rs[k]);
    forall x: int ensures Has(m, x) <==> (In(pool, x) && !Has(rs[..k], x) && x != pool.hi) || x == pool.hi + 1 {
      AfterStraddleHas(pool, rs, k, x);
    }
    NothingStraddled(m, rs, k, pool.hi);
    SubtractAllDenotes(m, rs[k + 2..]);
    SubtractTwice(pool, rs, k);
    forall x: int ensures Has(m, x) && !Has(rs[k + 2..], x) <==> (In(pool, x) || x == pool.hi + 1) && !Has(rs, x) {
      RunsAroundTwo(rs, k, x);
      HostAbove(rs, k, pool.hi);
    }
  }

  lemma RunsAroundTwo(rs: seq<Rg>, k: nat, x: int)
    requires k + 1 < |rs|
    ensures Has(rs, x) <==> Has(rs[..k], x) || In(rs[k], x) || In(rs[k + 1], x) || Has(rs[k + 2..], x)
  {
    hide Has;
    RunsAround(rs, k, x);
    RunsAround(rs[k + 1..], 0, x);
    assert rs[k + 1..][..0] == [] && rs[k + 1..][1..] == rs[k + 2..];
    NoRuns(x);
  }

  lemma NoRuns(x: int)
    ensures !Has([], x)
  {
  }

  lemma SubtractTwice(pool: Rg, rs: seq<Rg>, k: nat)
    requires k + 1 < |rs|
    ensures SubtractAll([pool], rs) ==
            SubtractAll(SubtractOne(SubtractOne(SubtractAll([pool], rs[..k]), rs[k]), rs[k + 1]), rs[k + 2..])
  {
    hide SubtractAll, SubtractOne;
    SubtractFrom(pool, rs, k + 1);
    assert rs[..k + 1] == rs[..k] + [rs[k]];
    SubtractMore([pool], rs[..k], rs[k]);
  }

  lemma NoneInside(l: seq<Rg>, b: Rg, init: seq<Rg>, lo: IP)
    requires lo < b.lo == b.hi < SIZE - 1 && l == init + [Rg(lo, b.lo + 1)] && Coalesced(l)
    ensures forall i :: 0 <= i < |l| ==> !Straddles(l[i], b)
  {
    LastReplaced(init, Rg(lo, b.lo + 1), b.lo + 1);
  }

  lemma HostAbove(rs: seq<Rg>, k: nat, p: IP)
    requires k <= Reach(rs, p)
    ensures !Has(rs[..k], p + 1)
  {
  }

  /** Only the address above the last host is left there, and no later run starts inside it. */
  lemma NothingStraddled(m: seq<Rg>, rs: seq<Rg>, k: nat, p: IP)
    requires Coalesced(m) && Linked(rs) && k + 1 < |rs| && rs[k + 1].hi == p
    requires !Has(m, p) && forall x: int :: Has(m, x) ==> x <= p + 1
    ensures NoStraddle(m, rs[k + 2..]) && AscendingStarts(rs[k + 2..])
  {
    var post := rs[k + 2..];
    forall i, j | 0 <= i < |m| && 0 <= j < |post| ensures !Straddles(m[i], post[j]) {
      assert p <= rs[k + 2 + j].lo == post[j].lo;
      assert In(m[i], m[i].hi) && Has(m, m[i].hi);
      assert !In(m[i], p);
    }
    forall i, j | 0 <= i < j < |post| ensures post[i].lo <= post[j].lo {
      assert rs[k + 2 + i].hi <= rs[k + 2 + j].lo;
    }
  }

  // ------------------------------------------------------------------
  // The verdict

  /**
   * Repeated addresses allowed, the free pool is the hosts minus the excluded addresses exactly
   * under the guard on the runs, and then it is in canonical form.
   */
  lemma RepeatsExact(pool: Rg, rs: seq<Rg>)
    requires 0 < pool.lo <= pool.hi < SIZE - 1 && Linked(rs)
    ensures Exact(pool, rs) <==> TailFits(pool, rs)
    ensures TailFits(pool, rs) ==> Coalesced(SubtractAll([pool], rs))
  {
    hide Exact, Linked, Coalesced, SubtractAll;
    var k := Reach(rs, pool.hi);
    if k == |rs| {
      PoolUpTo(pool, rs, k);
      assert rs[..k] == rs;
      assert Exact(pool, rs) by { ExactIs(pool, rs); }
    } else if !Straddles(pool, rs[k]) || (k > 0 && rs[k - 1].hi == rs[k].lo) {
      FitsExact(pool, rs, k);
    } else if k + 1 < |rs| && rs[k] == rs[k + 1] == Rg(pool.hi, pool.hi) {
      RepeatedHost(pool, rs, k);
      assert Exact(pool, rs) <==> Has(rs, pool.hi + 1) by { ExactIs(pool, rs); }
    } else {
      StraddleSpoils(pool, rs, k);
    }
  }

  lemma ExactIs(pool: Rg, rs: seq<Rg>)
    ensures Exact(pool, rs) <==> forall x: int :: Has(SubtractAll([pool], rs), x) <==> In(pool, x) && !Has(rs, x)
  {
  }

  /** If the last host is not excluded, or all hosts are, the pool comes out right however often addresses repeat. */
  lemma FitSuffices(pool: Rg, rs: seq<Rg>)
    requires !Empty(pool) && Linked(rs)
    requires !Has(rs, pool.hi) || forall x: IP :: In(pool, x) ==> Has(rs, x)
    ensures TailFits(pool, rs)
  {
    var k := Reach(rs, pool.hi);
    if k < |rs| && Straddles(pool, rs[k]) {
      assert In(rs[k], pool.hi);
      assert Has(rs, pool.hi);
      assert In(pool, rs[k].lo - 1);
      if !(k > 0 && rs[k - 1].hi == rs[k].lo) { BelowStart(rs, k); }
    }
  }

  /** With repetitions the pool can come out right although the last host is excluded and others are not. */
  lemma RepeatsHelp()
    ensures var pool, s: seq<IP> := Rg(1, 10), [9, 9, 10];
            Ascending(s) && Runs(s) == [Rg(9, 9), Rg(9, 10)] && SubtractAll([pool], Runs(s)) == [Rg(1, 8)]
  {
    var s: seq<IP> := [9, 9, 10];
    RunsOfRepeat();
    hide Runs, SubtractAll, SubtractOne;
    SubtractMore([Rg(1, 10)], [], Rg(9, 9));
    SubtractMore([Rg(1, 10)], [Rg(9, 9)], Rg(9, 10));
    assert [Rg(9, 9)] + [Rg(9, 10)] == [Rg(9, 9), Rg(9, 10)] && [] + [Rg(9, 9)] == [Rg(9, 9)];
    NoReserve([Rg(1, 10)]);
    OneOfPool(Rg(1, 10), Rg(9, 9));
    TwoOfPool(Rg(1, 8), Rg(10, 10), Rg(9, 10));
  }

  lemma NoReserve(l: seq<Rg>)
    ensures SubtractAll(l, []) == l
  {
  }

  lemma RunsOfRepeat()
    ensures Runs([9, 9, 10]) == [Rg(9, 9), Rg(9, 10)]
  {
    hide Runs;
    RunsMore([], 9);
    RunsMore([9], 9);
    RunsMore([9, 9], 10);
    assert [] + [9] == [9] && [9] + [9] == [9, 9] && [9, 9] + [10] == [9, 9, 10];
  }

  lemma RunsMore(s: seq<IP>, x: IP)
    ensures Runs(s + [x]) == AppendRun(Runs(s), x)
  {
    hide AppendRun;
    assert (s + [x])[..|s|] == s;
  }

  lemma OneOfPool(a: Rg, r: Rg)
    ensures SubtractOne([a], r) == SplitRange(a, r)
  {
    assert [a][..0] == [];
  }

  lemma TwoOfPool(a: Rg, b: Rg, r: Rg)
    ensures SubtractOne([a, b], r) == SplitRange(a, r) + SplitRange(b, r)
  {
    assert [a, b][..1] == [a];
    OneOfPool(a, r);
  }

  /** The last host alone, three times, and the address above it: the pool comes out right as well. */
  lemma RepairHelps(p: IP)
    requires 1 < p < SIZE - 1
    ensures TailFits(Rg(1, p), [Rg(p, p), Rg(p, p), Rg(p, p + 1)])
    ensures Linked([Rg(p, p), Rg(p, p), Rg(p, p + 1)])
  {
    var rs := [Rg(p, p), Rg(p, p), Rg(p, p + 1)];
    assert In(rs[2], p + 1);
    assert Reach(rs, p) == 0;
  }

  /**
   * The guard for the books: the pool comes out right, or the last host is excluded alone, more than
   * once, and the address above it, which then is free, is not the highest of all.
   */
  ghost predicate BooksFit(pool: Rg, rs: seq<Rg>) {
    var k := Reach(rs, pool.hi);
    || TailFits(pool, rs)
    || (k + 1 < |rs| && rs[k] == rs[k + 1] == Rg(pool.hi, pool.hi) && pool.hi + 1 < SIZE - 1)
  }

  /** What the books of a new subnet come down to. */
  lemma FreshBooks(ip: IP, ones: nat, excluded: seq<IP>)
    requires ones <= 30
    ensures var st := Fresh(ip, ones, excluded);
            Inv(st, st.free) <==>
              Disjoint(st.free, st.reserved) && forall x: IP :: Has(st.free, x) ==> x < SIZE - 1 && InCidr(st, x)
  {
    hide Runs, GetFirstIP, GetLastIP, SubtractAll, InCidr, Has, EmptyAt, Separated, Coalesced;
    var st := Fresh(ip, ones, excluded);
    CoalescedIff(st.free);
    HasInRange(st.free);
    if Inv(st, st.free) { NoneHeldNoneEmpty(st.free, {}, st.reserved, st.free); }
  }

  lemma HasInRange(l: seq<Rg>)
    ensures forall x: int :: Has(l, x) ==> 0 <= x < SIZE
  {
  }

  lemma BooksExact(ip: IP, ones: nat, excluded: seq<IP>)
    requires ones <= 30 && Ascending(excluded)
    ensures var st, pool := Fresh(ip, ones, excluded), Rg(GetFirstIP(ip, ones), GetLastIP(ip, ones));
            Inv(st, st.free) <==> BooksFit(pool, Runs(excluded))
  {
    hide Network, GetFirstIP, GetLastIP, Runs, SubtractAll, Linked, Coalesced, Inv, Has, Disjoint, InCidr, Exact;
    hide Repaired;
    var st, pool := Fresh(ip, ones, excluded), Rg(GetFirstIP(ip, ones), GetLastIP(ip, ones));
    var rs := Runs(excluded);
    var k := Reach(rs, pool.hi);
    HostPool(ip, ones);
    RunsLinked(excluded);
    FreshBooks(ip, ones, excluded);
    RepeatsExact(pool, rs);
    if TailFits(pool, rs) {
      ExactIs(pool, rs);
      DisjointIs(st.free, rs);
      forall x: IP | Has(st.free, x) ensures x < SIZE - 1 && InCidr(st, x) { BlockCidr(ip, ones, excluded, x); }
    } else if k + 1 < |rs| && rs[k] == rs[k + 1] == Rg(pool.hi, pool.hi) {
      RepeatedHost(pool, rs, k);
      DisjointIs(st.free, rs);
      RepairedIs(rs, k, pool.hi);
      forall x: IP | Has(st.free, x) ensures InCidr(st, x) { BlockCidr(ip, ones, excluded, x); }
      assert Has(st.free, pool.hi + 1);
    } else {
      StraddleSpoils(pool, rs, k);
    }
  }

  lemma DisjointIs(l: seq<Rg>, rs: seq<Rg>)
    ensures Disjoint(l, rs) <==> Coalesced(l) && forall x: int :: Has(l, x) ==> !Has(rs, x)
  {
  }

  lemma RepairedIs(rs: seq<Rg>, k: nat, p: IP)
    ensures Repaired(rs, k, p) <==> k + 1 < |rs| && rs[k] == rs[k + 1] == Rg(p, p) && Has(rs, p + 1)
  {
  }

  /** The pool and the address above it lie in the block. */
  lemma BlockCidr(ip: IP, ones: nat, excluded: seq<IP>, x: IP)
    requires ones <= 30 && GetFirstIP(ip, ones) <= x <= GetLastIP(ip, ones) + 1
    ensures InCidr(Fresh(ip, ones, excluded), x)
  {
    HostPool(ip, ones);
    CidrIsBlock(ip, ones, x);
    hide SubtractAll, Runs, GetFirstIP, GetLastIP, Network;
  }

  /**
   * A new subnet, whatever addresses are excluded and how often: its free list is the hosts minus
   * the excluded addresses exactly under the one guard, and its books balance exactly under the other.
   */
  lemma FreshRepeats(ip: IP, ones: nat, excluded: seq<IP>)
    requires ones <= 30 && Ascending(excluded)
    ensures var st, pool := Fresh(ip, ones, excluded), Rg(GetFirstIP(ip, ones), GetLastIP(ip, ones));
            && ((forall x: int :: Has(st.free, x) <==> In(pool, x) && x !in excluded) <==>
                 TailFits(pool, Runs(excluded)))
            && (Inv(st, st.free) <==> BooksFit(pool, Runs(excluded)))
            && (ExcludesFit(ip, ones, excluded) ==> TailFits(pool, Runs(excluded)))
  {
    hide Network, GetFirstIP, GetLastIP, Runs, SubtractAll, Linked, Coalesced, TailFits, BooksFit, Inv;
    var st, pool := Fresh(ip, ones, excluded), Rg(GetFirstIP(ip, ones), GetLastIP(ip, ones));
    HostPool(ip, ones);
    RunsLinked(excluded);
    RunsDenote(excluded);
    RepeatsExact(pool, Runs(excluded));
    BooksExact(ip, ones, excluded);
    if ExcludesFit(ip, ones, excluded) {
      forall x: IP ensures x in excluded <==> Has(Runs(excluded), x) {}
      FitSuffices(pool, Runs(excluded));
    }
  }
}
