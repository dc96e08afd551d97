/**
 * Taking reserved ranges out of the free pool: splitRange (pkg/ipam/util.go) and
 * splitFreeWithReserve (pkg/ipam/subnet.go) on values.
 */
module PoolSplit {
  import opened Ipv4
  import opened RangeLists

  /** What is left of `a` after reserving `b`, case by case as the source has it. */
  function SplitRange(a: Rg, b: Rg): seq<Rg> {
    if b.hi < a.lo || b.lo > a.hi then [a]
    else if a.lo >= b.lo && a.hi <= b.hi then []
    else if a.lo >= b.lo && a.hi > b.hi then [Rg(Add(b.hi, 1), a.hi)]
    else if a.hi <= b.hi && a.lo < b.lo then [Rg(a.lo, Add(b.lo, 1))]
    else [Rg(a.lo, Sub(b.lo, 1)), Rg(Add(b.hi, 1), a.hi)]
  }

  /** `b` starts strictly inside `a` and reaches its end. */
  predicate Straddles(a: Rg, b: Rg) {
    a.lo < b.lo <= a.hi <= b.hi
  }

  /** The inner loop, over the free ranges. */
  function SubtractOne(l: seq<Rg>, b: Rg): seq<Rg>
    decreases |l|
  {
    if l == [] then [] else SubtractOne(l[..|l| - 1], b) + SplitRange(l[|l| - 1], b)
  }

  /** The outer loop, over the reserved ranges. */
  function SubtractAll(l: seq<Rg>, rs: seq<Rg>): seq<Rg>
    decreases |rs|
  {
    if rs == [] then l else SubtractOne(SubtractAll(l, rs[..|rs| - 1]), rs[|rs| - 1])
  }

  lemma SplitRangeAt(a: Rg, b: Rg, x: int)
    requires !Empty(a) && !Empty(b)
    ensures !Straddles(a, b) ==> (Has(SplitRange(a, b), x) <==> In(a, x) && !In(b, x))
    ensures Straddles(a, b) && b.lo < SIZE - 1 ==>
      (Has(SplitRange(a, b), x) <==> (In(a, x) && !In(b, x)) || x == b.lo || x == b.lo + 1)
  {
    var p := SplitRange(a, b);
    assert |p| >= 1 ==> (In(p[0], x) ==> Has(p, x));
    assert |p| >= 2 ==> (In(p[1], x) ==> Has(p, x));
    assert Has(p, x) <==> (|p| >= 1 && In(p[0], x)) || (|p| >= 2 && In(p[1], x));
  }

  /**
   * The split is the set difference exactly when `b` does not straddle the end of `a`;
   * when it does, the first reserved address and the one above it stay free.
   */
  lemma SplitRangeExact(a: Rg, b: Rg)
    requires !Empty(a) && !Empty(b) && a.hi < SIZE - 1
    ensures (forall x: int :: Has(SplitRange(a, b), x) <==> In(a, x) && !In(b, x)) <==> !Straddles(a, b)
    ensures Straddles(a, b) ==> SplitRange(a, b) == [Rg(a.lo, b.lo + 1)]
  {
    if Straddles(a, b) {
      SplitRangeAt(a, b, b.lo);
      assert Has(SplitRange(a, b), b.lo) && In(b, b.lo);
    } else {
      forall x: int { SplitRangeAt(a, b, x); }
    }
  }

  /** Without a straddle the pieces are sorted, apart, not empty, and inside `a`. */
  lemma SplitRangePieces(a: Rg, b: Rg)
    requires !Empty(a) && !Empty(b) && !Straddles(a, b)
    ensures Coalesced(SplitRange(a, b))
    ensures forall i :: 0 <= i < |SplitRange(a, b)| ==>
      a.lo <= SplitRange(a, b)[i].lo && SplitRange(a, b)[i].hi <= a.hi
  {
  }

  lemma {:induction false} SubtractOneAt(l: seq<Rg>, b: Rg, x: int)
    requires !Empty(b) && forall i :: 0 <= i < |l| ==> !Empty(l[i]) && !Straddles(l[i], b)
    ensures Has(SubtractOne(l, b), x) <==> Has(l, x) && !In(b, x)
    decreases |l|
  {
    if l != [] {
      var init, z := l[..|l| - 1], l[|l| - 1];
      assert l == init + [z];
      SubtractOneAt(init, b, x);
      HasAppend(SubtractOne(init, b), SplitRange(z, b), x);
      HasAppend(init, [z], x);
      SplitRangeAt(z, b, x);
      assert Has([z], x) <==> In([z][0], x);
    }
  }

  lemma {:induction false} SubtractOneForm(l: seq<Rg>, b: Rg)
    requires Coalesced(l) && !Empty(b)
    requires forall i :: 0 <= i < |l| ==> !Straddles(l[i], b)
    ensures Coalesced(SubtractOne(l, b))
    ensures l != [] ==> forall i :: 0 <= i < |SubtractOne(l, b)| ==> SubtractOne(l, b)[i].hi <= l[|l| - 1].hi
    decreases |l|
  {
    if l != [] {
      var init, z := l[..|l| - 1], l[|l| - 1];
      SeparatedAround(l, |l| - 1);
      SubtractOneForm(init, b);
      var head, tail := SubtractOne(init, b), SplitRange(z, b);
      if init != [] { assert init[|init| - 1].hi + 2 <= [z][0].lo; }
      SubtractJoin(head, tail, z, b);
    }
  }

  lemma SubtractJoin(head: seq<Rg>, tail: seq<Rg>, z: Rg, b: Rg)
    requires !Empty(z) && !Empty(b) && !Straddles(z, b) && tail == SplitRange(z, b)
    requires Coalesced(head) && forall i :: 0 <= i < |head| ==> head[i].hi + 2 <= z.lo
    ensures Coalesced(head + tail)
    ensures forall i :: 0 <= i < |head + tail| ==> (head + tail)[i].hi <= z.hi
  {
    SplitRangePieces(z, b);
    assert Before(head, tail);
    SeparatedAppend(head, tail);
  }

  ghost predicate AscendingStarts(rs: seq<Rg>) {
    && (forall i :: 0 <= i < |rs| ==> !Empty(rs[i]))
    && (forall i, j :: 0 <= i < j < |rs| ==> rs[i].lo <= rs[j].lo)
  }

  /** No reserved range straddles the end of a free one. */
  ghost predicate NoStraddle(l: seq<Rg>, rs: seq<Rg>) {
    forall i, j :: 0 <= i < |l| && 0 <= j < |rs| ==> !Straddles(l[i], rs[j])
  }

  /** A piece left by an earlier reserve is straddled only by what straddled the whole. */
  lemma {:induction false} StillNoStraddle(l: seq<Rg>, b: Rg, r: Rg)
    requires !Empty(b) && b.lo <= r.lo
    requires forall i :: 0 <= i < |l| ==> !Empty(l[i]) && !Straddles(l[i], b) && !Straddles(l[i], r)
    ensures forall i :: 0 <= i < |SubtractOne(l, b)| ==> !Straddles(SubtractOne(l, b)[i], r)
    decreases |l|
  {
    if l != [] {
      StillNoStraddle(l[..|l| - 1], b, r);
    }
  }

  lemma {:induction false} SubtractAllForm(l: seq<Rg>, rs: seq<Rg>, rest: seq<Rg>)
    requires Coalesced(l) && AscendingStarts(rs + rest) && NoStraddle(l, rs + rest)
    ensures Coalesced(SubtractAll(l, rs))
    ensures NoStraddle(SubtractAll(l, rs), rest)
    decreases |rs|
  {
    if rs == [] {
      assert rs + rest == rest;
    } else {
      var init, b := rs[..|rs| - 1], rs[|rs| - 1];
      assert rs + rest == init + ([b] + rest);
      SubtractAllForm(l, init, [b] + rest);
      var cur := SubtractAll(l, init);
      assert ([b] + rest)[0] == b && (rs + rest)[|rs| - 1] == b;
      SubtractOneForm(cur, b);
      forall j | 0 <= j < |rest|
        ensures forall i :: 0 <= i < |SubtractOne(cur, b)| ==> !Straddles(SubtractOne(cur, b)[i], rest[j])
      {
        assert ([b] + rest)[j + 1] == rest[j] && (rs + rest)[|rs| + j] == rest[j];
        StillNoStraddle(cur, b, rest[j]);
      }
    }
  }

  lemma {:induction false} SubtractAllAt(l: seq<Rg>, rs: seq<Rg>, rest: seq<Rg>, x: int)
    requires Coalesced(l) && AscendingStarts(rs + rest) && NoStraddle(l, rs + rest)
    ensures Has(SubtractAll(l, rs), x) <==> Has(l, x) && !Has(rs, x)
    decreases |rs|
  {
    if rs != [] {
      var init, b := rs[..|rs| - 1], rs[|rs| - 1];
      assert rs + rest == init + ([b] + rest);
      SubtractAllAt(l, init, [b] + rest, x);
      SubtractAllForm(l, init, [b] + rest);
      assert ([b] + rest)[0] == b && (rs + rest)[|rs| - 1] == b;
      SubtractOneAt(SubtractAll(l, init), b, x);
      assert rs == init + [b];
      HasAppend(init, [b], x);
      assert Has([b], x) <==> In([b][0], x);
    }
  }

  /** Reserves that straddle no free range leave exactly the set difference, in canonical form. */
  lemma SubtractAllDenotes(l: seq<Rg>, rs: seq<Rg>)
    requires Coalesced(l) && AscendingStarts(rs) && NoStraddle(l, rs)
    ensures Coalesced(SubtractAll(l, rs))
    ensures forall x: int :: Has(SubtractAll(l, rs), x) <==> Has(l, x) && !Has(rs, x)
  {
    assert rs + [] == rs;
    SubtractAllForm(l, rs, []);
    forall x: int { SubtractAllAt(l, rs, [], x); }
  }

  // ------------------------------------------------------------------
  // The one pool a subnet starts from

  lemma {:induction false} SubtractOneAbove(l: seq<Rg>, b: Rg)
    requires forall i :: 0 <= i < |l| ==> l[i].hi < b.lo
    ensures SubtractOne(l, b) == l
    decreases |l|
  {
    if l != [] {
      SubtractOneAbove(l[..|l| - 1], b);
      assert l == l[..|l| - 1] + [l[|l| - 1]];
    }
  }

  lemma {:induction false} SubtractAllAbove(l: seq<Rg>, pre: seq<Rg>, post: seq<Rg>)
    requires forall i, j :: 0 <= i < |SubtractAll(l, pre)| && 0 <= j < |post| ==>
               SubtractAll(l, pre)[i].hi < post[j].lo
    ensures SubtractAll(l, pre + post) == SubtractAll(l, pre)
    decreases |post|
  {
    if post == [] {
      assert pre + post == pre;
    } else {
      var init := post[..|post| - 1];
      assert pre + post == (pre + init) + [post[|post| - 1]];
      SubtractAllAbove(l, pre, init);
      SubtractOneAbove(SubtractAll(l, pre), post[|post| - 1]);
    }
  }

  /** The last free range before the straddling reserve reaches the end of the pool. */
  lemma LastPiece(cur: seq<Rg>, top: IP, below: IP)
    requires Coalesced(cur) && Has(cur, top) && below < top && Has(cur, below)
    requires forall x: int :: below <= x <= top ==> Has(cur, x)
    requires forall x: int :: Has(cur, x) ==> x <= top
    ensures cur != [] && cur[|cur| - 1].hi == top && cur[|cur| - 1].lo <= below
  {
    var i :| 0 <= i < |cur| && In(cur[i], top);
    var z := cur[|cur| - 1];
    assert In(z, z.hi) && Has(cur, z.hi);
    forall j | 0 <= j < |cur| - 1 ensures cur[j].hi + 2 <= z.lo {}
    assert !Has(cur, z.lo - 1);
  }

  /**
   * Only the reserve that straddles the pool's end goes wrong: its first address and the next one are
   * free. For a reserve that starts at the end of the pool the next one lies outside the pool.
   */
  lemma PoolWithStraddle(pool: Rg, rs: seq<Rg>, k: int)
    requires !Empty(pool) && pool.hi < SIZE - 1 && Coalesced(rs)
    requires 0 <= k < |rs| && Straddles(pool, rs[k])
    ensures forall x: int :: Has(SubtractAll([pool], rs), x) <==>
              (In(pool, x) && !Has(rs, x)) || x == rs[k].lo || x == rs[k].lo + 1
  {
    assert rs == rs[..k] + [rs[k]] + rs[k + 1..];
    SeparatedAround(rs, k);
    assert forall j :: 0 <= j < k ==> rs[..k][j].hi + 2 <= [rs[k]][0].lo;
    PoolParts(pool, rs[..k], rs[k], rs[k + 1..]);
  }

  lemma PoolParts(pool: Rg, pre: seq<Rg>, b: Rg, post: seq<Rg>)
    requires !Empty(pool) && pool.hi < SIZE - 1 && Straddles(pool, b)
    requires Coalesced(pre) && forall j :: 0 <= j < |pre| ==> pre[j].hi + 2 <= b.lo
    requires forall j :: 0 <= j < |post| ==> b.hi + 2 <= post[j].lo
    ensures forall x: int :: Has(SubtractAll([pool], pre + [b] + post), x) <==>
              (In(pool, x) && !Has(pre + [b] + post, x)) || x == b.lo || x == b.lo + 1
  {
    CoalescedAscends(pre);
    PoolBefore(pool, pre);
    var cur := SubtractAll([pool], pre);
    PoolTail(pool, cur, pre, b);
    StraddleStep(cur, b);
    assert (pre + [b])[..|pre|] == pre;
    assert SubtractAll([pool], pre + [b]) == SubtractOne(cur, b);
    SubtractAllAbove([pool], pre + [b], post);
    forall x: int
      ensures Has(SubtractAll([pool], pre + [b] + post), x) <==>
                (In(pool, x) && !Has(pre + [b] + post, x)) || x == b.lo || x == b.lo + 1
    {
      HasAppend(pre + [b], post, x);
      HasAppend(pre, [b], x);
      assert Has([b], x) <==> In([b][0], x);
    }
  }

  lemma CoalescedAscends(rs: seq<Rg>)
    requires Coalesced(rs)
    ensures AscendingStarts(rs)
  {
    forall i, j | 0 <= i < j < |rs| ensures rs[i].lo <= rs[j].lo {
      assert rs[i].hi + 2 <= rs[j].lo;
    }
  }

  lemma PoolBefore(pool: Rg, pre: seq<Rg>)
    requires !Empty(pool) && AscendingStarts(pre) && forall j :: 0 <= j < |pre| ==> pre[j].hi < pool.hi
    ensures Coalesced(SubtractAll([pool], pre))
    ensures forall x: int :: Has(SubtractAll([pool], pre), x) <==> In(pool, x) && !Has(pre, x)
  {
    SubtractAllDenotes([pool], pre);
    forall x: int ensures Has([pool], x) <==> In(pool, x) {
      assert Has([pool], x) <==> In([pool][0], x);
    }
  }

  /** Below the straddling reserve everything up to the pool's end is still one free range. */
  lemma PoolTail(pool: Rg, cur: seq<Rg>, pre: seq<Rg>, b: Rg)
    requires !Empty(pool) && Straddles(pool, b) && Coalesced(cur)
    requires forall j :: 0 <= j < |pre| ==> pre[j].hi + 2 <= b.lo
    requires forall x: int :: Has(cur, x) <==> In(pool, x) && !Has(pre, x)
    ensures cur != [] && Straddles(cur[|cur| - 1], b)
  {
    forall x: int | b.lo - 1 <= x <= pool.hi ensures Has(cur, x) {}
    LastPiece(cur, pool.hi, b.lo - 1);
  }

  lemma SplitStraddled(a: Rg, b: Rg)
    requires Straddles(a, b) && b.lo < SIZE - 1
    ensures SplitRange(a, b) == [Rg(a.lo, b.lo + 1)]
  {
  }

  lemma StraddleStep(cur: seq<Rg>, b: Rg)
    requires Coalesced(cur) && cur != [] && Straddles(cur[|cur| - 1], b) && b.lo < SIZE - 1
    ensures forall i :: 0 <= i < |SubtractOne(cur, b)| ==> SubtractOne(cur, b)[i].hi <= b.lo + 1
    ensures forall x: int :: Has(SubtractOne(cur, b), x) <==>
              (Has(cur, x) && !In(b, x)) || x == b.lo || x == b.lo + 1
  {
    var init, z := cur[..|cur| - 1], cur[|cur| - 1];
    assert cur == init + [z];
    forall i | 0 <= i < |init| ensures init[i].hi < b.lo {
      assert cur[i].hi + 2 <= cur[|cur| - 1].lo;
    }
    SubtractOneAbove(init, b);
    SplitStraddled(z, b);
    assert SubtractOne(cur, b) == init + SplitRange(z, b);
    forall x: int { StraddleAt(init, z, b, x); }
  }

  lemma StraddleAt(init: seq<Rg>, z: Rg, b: Rg, x: int)
    requires Straddles(z, b) && b.lo < SIZE - 1 && forall i :: 0 <= i < |init| ==> init[i].hi < b.lo
    ensures Has(init + [Rg(z.lo, b.lo + 1)], x) <==>
              (Has(init + [z], x) && !In(b, x)) || x == b.lo || x == b.lo + 1
  {
    HasAppend(init, [z], x);
    HasAppend(init, SplitRange(z, b), x);
    SplitRangeAt(z, b, x);
    assert Has([z], x) <==> In([z][0], x);
  }

  /**
   * The free pool of a new subnet is its host addresses minus the reserved ones exactly
   * when no reserved run starts inside the pool, above its first address, and reaches its last.
   */
  lemma PoolExact(pool: Rg, rs: seq<Rg>)
    requires !Empty(pool) && pool.hi < SIZE - 1 && Coalesced(rs)
    ensures (forall x: int :: Has(SubtractAll([pool], rs), x) <==> In(pool, x) && !Has(rs, x))
            <==> NoStraddle([pool], rs)
    ensures NoStraddle([pool], rs) ==> Coalesced(SubtractAll([pool], rs))
  {
    hide SubtractAll, Coalesced;
    CoalescedAscends(rs);
    PoolFree(pool);
    if NoStraddle([pool], rs) {
      SubtractAllDenotes([pool], rs);
      forall x: int ensures Has([pool], x) <==> In(pool, x) { OnlyPool(pool, x); }
    } else {
      var i, k :| 0 <= i < |[pool]| && 0 <= k < |rs| && Straddles([pool][i], rs[k]);
      PoolWithStraddle(pool, rs, k);
      assert Has(SubtractAll([pool], rs), rs[k].lo);
      assert In(rs[k], rs[k].lo);
    }
  }

  lemma PoolFree(pool: Rg)
    requires !Empty(pool)
    ensures Coalesced([pool])
  {
  }

  lemma OnlyPool(pool: Rg, x: int)
    ensures Has([pool], x) <==> In(pool, x)
  {
    assert Has([pool], x) <==> In([pool][0], x);
  }
}
