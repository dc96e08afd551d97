/**
 * RangeSet of pkg/ipametcd/backend/allocator/range_set.go and the validating half of
 * LoadIPAMConfig in config.go: what is accepted is what the walk and the daemon need.
 */
module RangeSets {
  import opened Addrs
  import opened RangeWalk
  import opened Ranges
  import opened AddRelation

  /** Canonicalizing every range in turn, up to the first that is refused. */
  ghost predicate AllCanon(cs: seq<Conf>) {
    forall i :: 0 <= i < |cs| ==> Canon(cs[i]).1
  }

  function Canonical(cs: seq<Conf>): (ds: seq<Conf>)
    ensures |ds| == |cs| && forall i :: 0 <= i < |cs| ==> ds[i] == Canon(cs[i]).0
  {
    seq(|cs|, i requires 0 <= i < |cs| => Canon(cs[i]).0)
  }

  predicate SameFamily(c: Conf, d: Conf) {
    c.start.IP? && d.start.IP? && c.start.a.v6 == d.start.a.v6
  }

  ghost predicate OneFamily(ds: seq<Conf>) {
    forall i :: 0 <= i < |ds| ==> SameFamily(ds[0], ds[i])
  }

  ghost predicate NoneOverlap(ds: seq<Conf>) {
    forall i, j :: 0 <= i < j < |ds| ==> !Overlaps(ds[i], ds[j])
  }

  /** What RangeSet.Canonicalize accepts. */
  ghost predicate SetOk(cs: seq<Conf>) {
    cs != [] && AllCanon(cs) && OneFamily(Canonical(cs)) && NoneOverlap(Canonical(cs))
  }

  /** RangeSet.Canonicalize: the ranges are filled in where they stand. */
  method CanonicalizeSet(s: array<Conf>) returns (ok: bool)
    modifies s
    ensures ok <==> SetOk(old(s[..]))
    ensures ok ==> s[..] == Canonical(old(s[..]))
  {
    hide Canon, Overlaps;
    if s.Length == 0 {
      return false;
    }
    ghost var cs := s[..];
    ok := FillIn(s);
    if !ok {
      return false;
    }
    ok := Unrelated(s[..]);
  }

  /** The first loop: canonicalize each range and compare its family with the first. */
  method FillIn(s: array<Conf>) returns (ok: bool)
    requires s.Length > 0
    modifies s
    ensures ok <==> AllCanon(old(s[..])) && OneFamily(Canonical(old(s[..])))
    ensures ok ==> s[..] == Canonical(old(s[..]))
  {
    hide Canon;
    ghost var cs := s[..];
    forall i | 0 <= i < |cs| && Canon(cs[i]).1 ensures Canon(cs[i]).0.start.IP? { CanonExact(cs[i]); }
    for i := 0 to s.Length
      invariant forall j :: 0 <= j < i ==> s[j] == Canon(cs[j]).0 && Canon(cs[j]).1 && SameFamily(Canon(cs[0]).0, s[j])
      invariant forall j :: i <= j < s.Length ==> s[j] == cs[j]
    {
      ok := CanonicalizeAt(s, i);
      if !ok {
        return false;
      }
      if i > 0 && !(s[0].start.a.v6 == s[i].start.a.v6) {
        assert !SameFamily(Canonical(cs)[0], Canonical(cs)[i]);
        return false;
      }
    }
    ok := true;
  }

  /** The second pair of loops: no range overlaps a later one. */
  method Unrelated(ds: seq<Conf>) returns (ok: bool)
    ensures ok <==> NoneOverlap(ds)
  {
    hide Overlaps;
    for i := 0 to |ds|
      invariant forall k, j :: 0 <= k < i && k < j < |ds| ==> !Overlaps(ds[k], ds[j])
    {
      for j := i + 1 to |ds|
        invariant forall l :: i < l < j ==> !Overlaps(ds[i], ds[l])
      {
        if Overlaps(ds[i], ds[j]) {
          return false;
        }
      }
    }
    ok := true;
  }

  // ------------------------------------------------------------------
  // What acceptance gives

  lemma CanonicalFilled(cs: seq<Conf>)
    requires AllCanon(cs)
    ensures forall i :: 0 <= i < |cs| ==> Filled(Canonical(cs)[i])
  {
    forall i | 0 <= i < |cs| ensures Filled(Canonical(cs)[i]) { CanonExact(cs[i]); }
    hide Filled, Canon;
  }

  /** No two filled ranges that the endpoint test separates hold a common address, inverted ones included. */
  lemma SeparateRanges(c: Conf, d: Conf, a: Addr)
    requires Filled(c) && Filled(d) && !Overlaps(c, d) && SameFamily(c, d)
    ensures !(Contains(c, IP(a)) && Contains(d, IP(a)))
  {
    ContainsExact(c, a);
    ContainsExact(d, a);
    if c.start.a.n <= c.end.a.n && d.start.a.n <= d.end.a.n {
      OverlapsExact(c, d);
    }
    hide Filled, Overlaps;
  }

  /** After acceptance every address lies in at most one range of the set, so RangeFor is unambiguous. */
  lemma UniqueRange(cs: seq<Conf>, i: nat, j: nat, a: Addr)
    requires SetOk(cs) && i < |cs| && j < |cs|
    requires Contains(Canonical(cs)[i], IP(a)) && Contains(Canonical(cs)[j], IP(a))
    ensures i == j
  {
    hide Contains, Canon, Filled, Overlaps;
    var ds := Canonical(cs);
    CanonicalFilled(cs);
    assert SameFamily(ds[0], ds[i]) && SameFamily(ds[0], ds[j]);
    if i < j {
      SeparateRanges(ds[i], ds[j], a);
    } else if j < i {
      SeparateRanges(ds[j], ds[i], a);
    }
  }

  ghost predicate NoBroadcastStart(cs: seq<Conf>) {
    forall i :: 0 <= i < |cs| ==> !BroadcastStart(cs[i])
  }

  /** The set as the walk sees it. */
  function ToRanges(ds: seq<Conf>): (rs: seq<Range>)
    requires forall i :: 0 <= i < |ds| ==> Filled(ds[i])
    ensures |rs| == |ds| && forall i :: 0 <= i < |ds| ==> rs[i] == ToRange(ds[i])
  {
    seq(|ds|, i requires 0 <= i < |ds| => ToRange(ds[i]))
  }

  lemma CanonRange(c: Conf)
    requires Canon(c).1
    ensures var d := Canon(c).0;
            && Filled(d)
            && ToRange(d).hi < Width(ToRange(d).v6) && ToRange(d).v6 == d.start.a.v6
            && (ToRange(d).lo <= ToRange(d).hi <==> !BroadcastStart(c))
  {
    CanonExact(c);
    hide Canon, BroadcastStart;
  }

  /** An accepted set is well formed for the walk exactly when no range was the broadcast case. */
  lemma AcceptedWellFormed(cs: seq<Conf>)
    requires SetOk(cs)
    ensures forall i :: 0 <= i < |cs| ==> Filled(Canonical(cs)[i])
    ensures WellFormed(ToRanges(Canonical(cs))) <==> NoBroadcastStart(cs)
    ensures forall a: Addr :: InSet(ToRanges(Canonical(cs)), a)
                              <==> exists i :: 0 <= i < |cs| && Contains(Canonical(cs)[i], IP(a))
  {
    hide Contains, Canon, Filled, Overlaps, BroadcastStart;
    CanonicalFilled(cs);
    var ds := Canonical(cs);
    var rs := ToRanges(ds);
    forall i | 0 <= i < |cs|
      ensures rs[i].hi < Width(rs[i].v6) && rs[i].v6 == rs[0].v6
      ensures rs[i].lo <= rs[i].hi <==> !BroadcastStart(cs[i])
    {
      CanonRange(cs[i]);
      assert SameFamily(ds[0], ds[i]);
    }
    if NoBroadcastStart(cs) {
      forall i, j | 0 <= i < j < |rs| ensures Apart(rs[i], rs[j]) { ApartRanges(ds[i], ds[j]); }
    }
    forall a: Addr, i | 0 <= i < |cs| ensures InRange(rs[i], a) <==> Contains(ds[i], IP(a)) {
      ToRangeContains(ds[i], a);
    }
  }

  lemma ApartRanges(c: Conf, d: Conf)
    requires Filled(c) && Filled(d) && !Overlaps(c, d)
    requires c.start.a.n <= c.end.a.n && d.start.a.n <= d.end.a.n
    ensures Apart(ToRange(c), ToRange(d))
  {
    OverlapsExact(c, d);
    forall a: Addr ensures !(Contains(c, IP(a)) && Contains(d, IP(a))) {}
    ContainsExact(c, d.start.a);
    ContainsExact(d, d.start.a);
    ContainsExact(c, c.start.a);
    ContainsExact(d, c.start.a);
    hide Contains, Filled, Overlaps;
  }

  // ------------------------------------------------------------------
  // What is accepted, on the configuration itself

  ghost predicate RangesFit(cs: seq<Conf>) {
    forall i :: 0 <= i < |cs| ==> SubnetFits(cs[i]) && BoundsFit(cs[i])
  }

  ghost predicate OneFamilyOf(cs: seq<Conf>) {
    forall i :: 0 <= i < |cs| ==> cs[0].subnet.IP? && cs[i].subnet.IP? && cs[i].subnet.a.v6 == cs[0].subnet.a.v6
  }

  ghost predicate NoneShared(cs: seq<Conf>) {
    forall i, j, a :: 0 <= i < j < |cs| && Between(cs[i], a) ==> !Between(cs[j], a)
  }

  /** The canonical ranges in terms of the configured ones. */
  lemma CanonMeans(c: Conf)
    requires Canon(c).1
    ensures var d := Canon(c).0; Filled(d) && c.subnet.IP? && d.start.a.v6 == c.subnet.a.v6
    ensures Canon(c).0.start.a.n <= Canon(c).0.end.a.n <==> !BroadcastStart(c)
  {
    CanonExact(c);
    hide Canon, BroadcastStart;
  }

  lemma OverlapMeans(c: Conf, d: Conf)
    requires Canon(c).1 && Canon(d).1 && !BroadcastStart(c) && !BroadcastStart(d)
    ensures Overlaps(Canon(c).0, Canon(d).0) <==> exists a: Addr :: Between(c, a) && Between(d, a)
  {
    hide Canon, Filled, BroadcastStart, Between, Overlaps, Contains;
    CanonMeans(c);
    CanonMeans(d);
    OverlapsExact(Canon(c).0, Canon(d).0);
    forall a: Addr
      ensures Contains(Canon(c).0, IP(a)) <==> Between(c, a)
      ensures Contains(Canon(d).0, IP(a)) <==> Between(d, a)
    {
      BetweenExact(c, a);
      BetweenExact(d, a);
    }
  }

  /**
   * Without the broadcast case a set is accepted exactly if it is not empty, each range fits, all are
   * of one family, and no address lies in two of them.
   */
  lemma SetOkExact(cs: seq<Conf>)
    requires NoBroadcastStart(cs)
    ensures SetOk(cs) <==> cs != [] && RangesFit(cs) && OneFamilyOf(cs) && NoneShared(cs)
  {
    hide Canon, Filled, SubnetFits, BoundsFit, BroadcastStart, Between, Overlaps, Contains;
    forall i | 0 <= i < |cs| ensures Canon(cs[i]).1 <==> SubnetFits(cs[i]) && BoundsFit(cs[i]) { AcceptExact(cs[i]); }
    assert AllCanon(cs) <==> RangesFit(cs);
    if AllCanon(cs) {
      FamilyExact(cs);
      SharedExact(cs);
    }
    hide OneFamily, NoneOverlap, OneFamilyOf, NoneShared, Canonical;
  }

  lemma FamilyExact(cs: seq<Conf>)
    requires AllCanon(cs)
    ensures OneFamily(Canonical(cs)) <==> OneFamilyOf(cs)
  {
    hide Canon, Filled, BroadcastStart;
    forall i | 0 <= i < |cs|
      ensures cs[0].subnet.IP? && cs[i].subnet.IP?
      ensures SameFamily(Canonical(cs)[0], Canonical(cs)[i]) <==> cs[i].subnet.a.v6 == cs[0].subnet.a.v6
    {
      CanonMeans(cs[0]);
      CanonMeans(cs[i]);
      StartsGiven(Canonical(cs)[0]);
      StartsGiven(Canonical(cs)[i]);
    }
  }

  lemma StartsGiven(c: Conf)
    requires Filled(c)
    ensures c.start.IP? && c.end.IP?
  {
  }

  lemma SharedExact(cs: seq<Conf>)
    requires AllCanon(cs) && NoBroadcastStart(cs)
    ensures NoneOverlap(Canonical(cs)) <==> NoneShared(cs)
  {
    hide Canon, BroadcastStart, Between, Overlaps;
    forall i, j | 0 <= i < j < |cs|
      ensures Overlaps(Canonical(cs)[i], Canonical(cs)[j]) <==> exists a: Addr :: Between(cs[i], a) && Between(cs[j], a)
    {
      OverlapMeans(cs[i], cs[j]);
    }
  }

  // ------------------------------------------------------------------
  // LoadIPAMConfig

  /** RangeSet.Overlaps. */
  ghost predicate SetsOverlap(ds: seq<Conf>, es: seq<Conf>) {
    exists i, j :: 0 <= i < |ds| && 0 <= j < |es| && Overlaps(ds[i], es[j])
  }

  method CheckOverlap(ds: seq<Conf>, es: seq<Conf>) returns (any: bool)
    ensures any <==> SetsOverlap(ds, es)
  {
    hide Overlaps;
    for i := 0 to |ds|
      invariant forall k, j :: 0 <= k < i && 0 <= j < |es| ==> !Overlaps(ds[k], es[j])
    {
      for j := 0 to |es|
        invariant forall l :: 0 <= l < j ==> !Overlaps(ds[i], es[l])
      {
        if Overlaps(ds[i], es[j]) {
          return true;
        }
      }
    }
    any := false;
  }

  function Contents(sets: seq<array<Conf>>): (v: seq<seq<Conf>>)
    reads sets
    ensures |v| == |sets| && forall i :: 0 <= i < |sets| ==> v[i] == sets[i][..]
  {
    seq(|sets|, i requires 0 <= i < |sets| reads sets => sets[i][..])
  }

  /** How many sets are IPv4, judged by the start of their first range. */
  function CountV4(vs: seq<seq<Conf>>): nat
    decreases |vs|
  {
    if vs == [] then 0 else CountV4(vs[..|vs| - 1]) + if IsV4(vs[|vs| - 1]) then 1 else 0
  }

  predicate IsV4(cs: seq<Conf>) {
    cs != [] && Canon(cs[0]).0.start.IP? && !Canon(cs[0]).0.start.a.v6
  }

  ghost predicate AllSetsOk(vs: seq<seq<Conf>>) {
    forall i :: 0 <= i < |vs| ==> SetOk(vs[i])
  }

  ghost predicate NoSetsOverlap(vs: seq<seq<Conf>>) {
    forall i, j :: 0 <= i < j < |vs| ==> !SetsOverlap(Canonical(vs[i]), Canonical(vs[j]))
  }

  /** What LoadIPAMConfig accepts. `legacy` is a CNI version that allows one address per family. */
  ghost predicate ConfigOk(vs: seq<seq<Conf>>, legacy: bool) {
    && vs != [] && AllSetsOk(vs)
    && !(legacy && (CountV4(vs) > 1 || |vs| - CountV4(vs) > 1))
    && NoSetsOverlap(vs)
  }

  /** Whether a set is IPv6, by the subnet of its first range. */
  predicate IsV6Set(cs: seq<Conf>) {
    cs != [] && cs[0].subnet.IP? && cs[0].subnet.a.v6
  }

  /** Two sets of the same family, IPv6 or not. */
  ghost predicate TwoOf(vs: seq<seq<Conf>>, v6: bool) {
    exists i, j :: 0 <= i < j < |vs| && IsV6Set(vs[i]) == v6 == IsV6Set(vs[j])
  }

  ghost predicate OneOf(vs: seq<seq<Conf>>, v6: bool) {
    exists i :: 0 <= i < |vs| && IsV6Set(vs[i]) == v6
  }

  lemma FamilyAgrees(cs: seq<Conf>)
    requires SetOk(cs)
    ensures IsV4(cs) <==> !IsV6Set(cs)
  {
    hide Canon, Filled;
    CanonMeans(cs[0]);
    StartsGiven(Canon(cs[0]).0);
  }

  lemma OneMore(vs: seq<seq<Conf>>, v6: bool)
    requires vs != []
    ensures var init, z := vs[..|vs| - 1], vs[|vs| - 1];
            && (OneOf(vs, v6) <==> OneOf(init, v6) || IsV6Set(z) == v6)
            && (TwoOf(vs, v6) <==> TwoOf(init, v6) || (OneOf(init, v6) && IsV6Set(z) == v6))
  {
    hide IsV6Set;
    var init, z := vs[..|vs| - 1], vs[|vs| - 1];
    assert forall i :: 0 <= i < |init| ==> init[i] == vs[i];
    if OneOf(init, v6) && IsV6Set(z) == v6 {
      var i :| 0 <= i < |init| && IsV6Set(init[i]) == v6;
      assert IsV6Set(vs[i]) == v6 == IsV6Set(vs[|vs| - 1]);
    }
  }

  /** The two counters tell whether a family comes once or twice. */
  lemma {:induction false} CountFamilies(vs: seq<seq<Conf>>)
    requires forall i :: 0 <= i < |vs| ==> (IsV4(vs[i]) <==> !IsV6Set(vs[i]))
    ensures CountV4(vs) <= |vs|
    ensures CountV4(vs) >= 1 <==> OneOf(vs, false)
    ensures CountV4(vs) >= 2 <==> TwoOf(vs, false)
    ensures |vs| - CountV4(vs) >= 1 <==> OneOf(vs, true)
    ensures |vs| - CountV4(vs) >= 2 <==> TwoOf(vs, true)
    decreases |vs|
  {
    hide IsV4, IsV6Set;
    if vs != [] {
      CountFamilies(vs[..|vs| - 1]);
      OneMore(vs, false);
      OneMore(vs, true);
      hide OneOf, TwoOf;
    }
  }

  /** No address lies in two sets. */
  ghost predicate NoneSharedBetween(cs: seq<Conf>, es: seq<Conf>) {
    forall k, l, a :: 0 <= k < |cs| && 0 <= l < |es| && Between(cs[k], a) ==> !Between(es[l], a)
  }

  lemma SetsOverlapMeans(cs: seq<Conf>, es: seq<Conf>)
    requires AllCanon(cs) && AllCanon(es) && NoBroadcastStart(cs) && NoBroadcastStart(es)
    ensures SetsOverlap(Canonical(cs), Canonical(es)) <==> !NoneSharedBetween(cs, es)
  {
    hide Canon, BroadcastStart, Between, Overlaps;
    forall k, l | 0 <= k < |cs| && 0 <= l < |es|
      ensures Overlaps(Canonical(cs)[k], Canonical(es)[l]) <==> exists a: Addr :: Between(cs[k], a) && Between(es[l], a)
    {
      OverlapMeans(cs[k], es[l]);
    }
  }

  /**
   * Without the broadcast case a configuration is accepted exactly if it has a set, every set is
   * acceptable by itself, an old version names at most one set of each family, and no address lies in
   * two sets.
   */
  lemma ConfigOkExact(vs: seq<seq<Conf>>, legacy: bool)
    requires forall i :: 0 <= i < |vs| ==> NoBroadcastStart(vs[i])
    ensures ConfigOk(vs, legacy) <==>
              && vs != []
              && (forall i :: 0 <= i < |vs| ==>
                    vs[i] != [] && RangesFit(vs[i]) && OneFamilyOf(vs[i]) && NoneShared(vs[i]))
              && (legacy ==> !TwoOf(vs, false) && !TwoOf(vs, true))
              && forall i, j :: 0 <= i < j < |vs| ==> NoneSharedBetween(vs[i], vs[j])
  {
    hide SetOk, NoBroadcastStart, RangesFit, OneFamilyOf, NoneShared, NoneSharedBetween, SetsOverlap, CountV4, TwoOf;
    forall i | 0 <= i < |vs|
      ensures SetOk(vs[i]) <==> vs[i] != [] && RangesFit(vs[i]) && OneFamilyOf(vs[i]) && NoneShared(vs[i])
    {
      SetOkExact(vs[i]);
    }
    if AllSetsOk(vs) {
      forall i | 0 <= i < |vs| ensures IsV4(vs[i]) <==> !IsV6Set(vs[i]) { FamilyAgrees(vs[i]); }
      CountFamilies(vs);
      forall i, j | 0 <= i < j < |vs|
        ensures SetsOverlap(Canonical(vs[i]), Canonical(vs[j])) <==> !NoneSharedBetween(vs[i], vs[j])
      {
        AcceptedCanon(vs[i]);
        AcceptedCanon(vs[j]);
        SetsOverlapMeans(vs[i], vs[j]);
      }
    }
  }

  lemma AcceptedCanon(cs: seq<Conf>)
    requires SetOk(cs)
    ensures AllCanon(cs)
  {
  }

  /** An old-style single range with a subnet goes before the configured sets, runtime sets before both. */
  function Combined<T>(runtime: seq<T>, single: Option<T>, configured: seq<T>): seq<T> {
    runtime + (if single.Some? then [single.value] else []) + configured
  }

  /** A single range counts only if it has a subnet. */
  function Old(single: Option<Conf>): Option<seq<Conf>> {
    if single.Some? && single.value.subnet != Nil then Some([single.value]) else None
  }

  ghost predicate NoneTwice(sets: seq<array<Conf>>) {
    forall i, j :: 0 <= i < j < |sets| ==> sets[i] != sets[j]
  }

  method LoadIPAMConfig(ipArgs: seq<NetIP>, runtime: seq<array<Conf>>, single: Option<Conf>,
                        configured: seq<array<Conf>>, legacy: bool)
    returns (ok: bool, sets: seq<array<Conf>>)
    requires NoneTwice(runtime + configured)
    modifies runtime, configured
    ensures var vs := Combined(old(Contents(runtime)), Old(single), old(Contents(configured)));
            && (ok <==> (forall x :: x in ipArgs ==> x.IP?) && ConfigOk(vs, legacy))
            && (ok ==> |sets| == |vs| && forall i :: 0 <= i < |vs| ==> sets[i][..] == Canonical(vs[i]))
    ensures var extra := if single.Some? && single.value.subnet != Nil then 1 else 0;
            ok ==>
              && |sets| == |runtime| + extra + |configured|
              && (forall i :: 0 <= i < |runtime| ==> sets[i][..] == Canonical(old(runtime[i][..])))
              && (extra == 1 ==> sets[|runtime|][..] == Canonical([single.value]))
              && (forall i :: 0 <= i < |configured| ==>
                    sets[|runtime| + extra + i][..] == Canonical(old(configured[i][..])))
  {
    hide ConfigOk, NoneTwice, Old, Combined;
    ok := AllReadable(ipArgs);
    if !ok {
      return false, [];
    }
    ghost var before, after := Contents(runtime), Contents(configured);
    ok, sets := LoadSets(runtime, single, configured, legacy);
    Positions(before, single, after, Combined(before, Old(single), after));
  }

  /** All but the requested addresses. */
  method LoadSets(runtime: seq<array<Conf>>, single: Option<Conf>, configured: seq<array<Conf>>, legacy: bool)
    returns (ok: bool, sets: seq<array<Conf>>)
    requires NoneTwice(runtime + configured)
    modifies runtime, configured
    ensures var vs := Combined(old(Contents(runtime)), Old(single), old(Contents(configured)));
            && (ok <==> ConfigOk(vs, legacy))
            && (ok ==> |sets| == |vs| && forall i :: 0 <= i < |vs| ==> sets[i][..] == Canonical(vs[i]))
  {
    hide ConfigOk, NoneTwice, Old, Combined;
    sets := Prepend(runtime, single, configured);
    assert forall i :: 0 <= i < |sets| ==> sets[i] in runtime || sets[i] in configured || fresh(sets[i]);
    ok := Validate(sets, legacy);
  }

  /** The requested addresses that come with the configuration. */
  method AllReadable(ipArgs: seq<NetIP>) returns (ok: bool)
    ensures ok <==> forall x :: x in ipArgs ==> x.IP?
  {
    for i := 0 to |ipArgs|
      invariant forall j :: 0 <= j < i ==> ipArgs[j].IP?
    {
      if !ipArgs[i].IP? {
        return false;
      }
    }
    ok := true;
  }

  /** Runtime sets first, then the single range, then the configured sets, each in order. */
  lemma Positions(runtime: seq<seq<Conf>>, single: Option<Conf>, configured: seq<seq<Conf>>, vs: seq<seq<Conf>>)
    requires vs == Combined(runtime, Old(single), configured)
    ensures var extra := if single.Some? && single.value.subnet != Nil then 1 else 0;
            && |vs| == |runtime| + extra + |configured|
            && (forall i :: 0 <= i < |runtime| ==> vs[i] == runtime[i])
            && (extra == 1 ==> vs[|runtime|] == [single.value])
            && (forall i :: 0 <= i < |configured| ==> vs[|runtime| + extra + i] == configured[i])
  {
  }

  method Prepend(runtime: seq<array<Conf>>, single: Option<Conf>, configured: seq<array<Conf>>)
      returns (sets: seq<array<Conf>>)
    requires NoneTwice(runtime + configured)
    ensures NoneTwice(sets) && Contents(sets) == Combined(Contents(runtime), Old(single), Contents(configured))
    ensures forall s :: s in sets ==> s in runtime || s in configured || fresh(s)
  {
    sets := configured;
    if single.Some? && single.value.subnet != Nil {
      var oldStyle := new Conf[1](_ => single.value);
      assert oldStyle[..] == [single.value];
      sets := [oldStyle] + sets;
      MiddleNew(runtime, oldStyle, configured);
    }
    hide NoneTwice;
    sets := runtime + sets;
  }

  lemma MiddleNew(front: seq<array<Conf>>, s: array<Conf>, back: seq<array<Conf>>)
    requires NoneTwice(front + back) && s !in front && s !in back
    ensures NoneTwice(front + ([s] + back))
  {
    var all := front + ([s] + back);
    assert forall i :: 0 <= i < |front| ==> (front + back)[i] == front[i] == all[i];
    assert forall i :: 0 <= i < |back| ==> (front + back)[|front| + i] == back[i] == all[|front| + 1 + i];
  }

  method Validate(sets: seq<array<Conf>>, legacy: bool) returns (ok: bool)
    requires NoneTwice(sets)
    modifies sets
    ensures ok <==> ConfigOk(old(Contents(sets)), legacy)
    ensures ok ==> forall i :: 0 <= i < |sets| ==> sets[i][..] == Canonical(old(Contents(sets))[i])
  {
    hide AllSetsOk, NoSetsOverlap, CountV4, Canonical;
    ghost var vs := Contents(sets);
    if |sets| == 0 {
      return false;
    }
    var numV4, numV6;
    ok, numV4, numV6 := FillInAll(sets);
    if !ok {
      return false;
    }
    if (numV4 > 1 || numV6 > 1) && legacy {
      return false;
    }
    ok := UnrelatedSets(vs, Contents(sets));
  }

  /** No set overlaps a later one; `ds` are the sets of `vs` filled in. */
  method UnrelatedSets(ghost vs: seq<seq<Conf>>, ds: seq<seq<Conf>>) returns (ok: bool)
    requires |ds| == |vs| && forall k :: 0 <= k < |vs| ==> ds[k] == Canonical(vs[k])
    ensures ok <==> NoSetsOverlap(vs)
  {
    hide SetsOverlap, Canonical;
    for i := 0 to |ds|
      invariant forall k, j :: 0 <= k < i && k < j < |ds| ==> !SetsOverlap(ds[k], ds[j])
    {
      for j := i + 1 to |ds|
        invariant forall l :: i < l < j ==> !SetsOverlap(ds[i], ds[l])
      {
        var overlap := CheckOverlap(ds[i], ds[j]);
        if overlap {
          assert SetsOverlap(Canonical(vs[i]), Canonical(vs[j]));
          return false;
        }
      }
    }
    ok := true;
  }

  /** Canonicalize every set and count the families. */
  method FillInAll(sets: seq<array<Conf>>) returns (ok: bool, numV4: nat, numV6: nat)
    requires NoneTwice(sets)
    modifies sets
    ensures ok <==> AllSetsOk(old(Contents(sets)))
    ensures ok ==> forall i :: 0 <= i < |sets| ==> sets[i][..] == Canonical(old(Contents(sets))[i])
    ensures ok ==> numV4 == CountV4(old(Contents(sets))) && numV4 + numV6 == |sets|
  {
    hide SetOk, IsV4;
    ghost var vs := Contents(sets);
    numV4, numV6 := 0, 0;
    for i := 0 to |sets|
      invariant forall j :: 0 <= j < i ==> SetOk(vs[j]) && sets[j][..] == Canonical(vs[j])
      invariant forall j :: i <= j < |sets| ==> sets[j][..] == vs[j]
      invariant numV4 == CountV4(vs[..i]) && numV4 + numV6 == i
    {
      ok := CanonicalizeSet(sets[i]);
      if !ok {
        return false, numV4, numV6;
      }
      assert vs[..i + 1][..i] == vs[..i];
      FirstFamily(vs[i]);
      if !sets[i][0].start.a.v6 {
        numV4 := numV4 + 1;
      } else {
        numV6 := numV6 + 1;
      }
    }
    assert vs[..|vs|] == vs;
    ok := true;
  }

  lemma FirstFamily(cs: seq<Conf>)
    requires SetOk(cs)
    ensures cs != [] && Canonical(cs)[0].start.IP? && (IsV4(cs) <==> !Canonical(cs)[0].start.a.v6)
  {
    hide Canon;
    assert SameFamily(Canonical(cs)[0], Canonical(cs)[0]);
  }

  /** The allocators a server would have, one per accepted set, if each kept its own. */
  ghost predicate AreAllocs(vs: seq<seq<Conf>>, allocs: seq<Alloc>)
    requires forall i, k :: 0 <= i < |vs| && 0 <= k < |vs[i]| ==> Filled(Canonical(vs[i])[k])
  {
    |allocs| == |vs| && forall i :: 0 <= i < |vs| ==> allocs[i].rs == ToRanges(Canonical(vs[i]))
  }

  /** An accepted configuration without the broadcast case gives well-formed sets that share no address. */
  lemma AcceptedDisjoint(vs: seq<seq<Conf>>, legacy: bool, allocs: seq<Alloc>)
    requires ConfigOk(vs, legacy) && forall i :: 0 <= i < |vs| ==> NoBroadcastStart(vs[i])
    ensures forall i, k :: 0 <= i < |vs| && 0 <= k < |vs[i]| ==> Filled(Canonical(vs[i])[k])
    ensures AreAllocs(vs, allocs) ==> Disjoint(allocs) && forall i :: 0 <= i < |allocs| ==> WellFormed(allocs[i].rs)
  {
    hide SetOk, Canonical, ToRanges, WellFormed, Filled, InSet, SetsOverlap, NoBroadcastStart, Contains, CountV4;
    forall i | 0 <= i < |vs|
      ensures forall k :: 0 <= k < |vs[i]| ==> Filled(Canonical(vs[i])[k])
      ensures WellFormed(ToRanges(Canonical(vs[i])))
    {
      AcceptedWellFormed(vs[i]);
    }
    if AreAllocs(vs, allocs) {
      forall i, j, a: Addr | 0 <= i < j < |vs| && InSet(allocs[i].rs, a) ensures !InSet(allocs[j].rs, a) {
        SetsApart(vs[i], vs[j], a);
      }
    }
  }

  lemma SetsApart(cs: seq<Conf>, es: seq<Conf>, a: Addr)
    requires SetOk(cs) && SetOk(es) && !SetsOverlap(Canonical(cs), Canonical(es))
    ensures forall k :: 0 <= k < |cs| ==> Filled(Canonical(cs)[k])
    ensures forall k :: 0 <= k < |es| ==> Filled(Canonical(es)[k])
    ensures !(InSet(ToRanges(Canonical(cs)), a) && InSet(ToRanges(Canonical(es)), a))
  {
    AcceptedWellFormed(cs);
    AcceptedWellFormed(es);
    hide SetOk, Contains, Filled, Overlaps, InSet, Canon, WellFormed;
    forall i, j | 0 <= i < |cs| && 0 <= j < |es|
      ensures !(Contains(Canonical(cs)[i], IP(a)) && Contains(Canonical(es)[j], IP(a)))
    {
      assert !Overlaps(Canonical(cs)[i], Canonical(es)[j]);
      SeparateAny(Canonical(cs)[i], Canonical(es)[j], a);
    }
  }

  lemma SeparateAny(c: Conf, d: Conf, a: Addr)
    requires Filled(c) && Filled(d) && !Overlaps(c, d)
    ensures !(Contains(c, IP(a)) && Contains(d, IP(a)))
  {
    ContainsExact(c, a);
    ContainsExact(d, a);
    if SameFamily(c, d) { SeparateRanges(c, d, a); }
    hide Filled, Overlaps, Contains;
  }
}
