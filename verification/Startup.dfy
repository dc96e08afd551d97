/**
 * From a configuration that LoadIPAMConfig accepts (pkg/ipametcd/backend/allocator/config.go) to the
 * server that NewIpamServer builds from it (pkg/daemon/handler.go).
 */
module Startup {
  import opened Addrs
  import opened Keyspace
  import opened RangeWalk
  import opened AddRelation
  import opened Daemon
  import opened SharedSets
  import opened Ranges
  import opened RangeSets

  /** A server over well-formed sets is ready to serve, and all its allocators share the last set. */
  lemma BuiltServes(server: IpamServer, ranges: seq<seq<Range>>)
    requires Built(server, ranges) && forall i :: 0 <= i < |ranges| ==> WellFormed(ranges[i])
    requires CodecOk(server.store.nm) && SlashedKeys(server.store.kv)
    ensures server.Valid()
    ensures ranges != [] ==> Shared(server.Sets(), ranges[|ranges| - 1])
  {
    BuiltIds(server, ranges);
  }

  /** So it serves disjoint sets, one for each allocator, exactly if there is at most one. */
  lemma BuiltDisjoint(server: IpamServer, ranges: seq<seq<Range>>)
    requires Built(server, ranges) && forall i :: 0 <= i < |ranges| ==> WellFormed(ranges[i])
    ensures Disjoint(server.Sets()) <==> |ranges| <= 1
  {
    var sets := server.Sets();
    if |ranges| > 1 {
      var rs := ranges[|ranges| - 1];
      var a: Addr := RawAddr(rs[0].v6, rs[0].lo);
      assert InRange(rs[0], a);
      assert sets[0].rs == rs == sets[1].rs && InSet(rs, a);
    }
  }

  /** The sets as the configuration names them. */
  ghost predicate Configured(vs: seq<seq<Conf>>, ranges: seq<seq<Range>>)
    requires forall i, k :: 0 <= i < |vs| && 0 <= k < |vs[i]| ==> Filled(Canonical(vs[i])[k])
  {
    |ranges| == |vs| && forall i :: 0 <= i < |vs| ==> ranges[i] == ToRanges(Canonical(vs[i]))
  }

  /**
   * The server built from an accepted configuration without the broadcast case is ready to serve,
   * but serves only its last set, from all allocators: the configured sets are disjoint, those
   * served are not, unless there is one.
   */
  lemma AcceptedServer(vs: seq<seq<Conf>>, legacy: bool, ranges: seq<seq<Range>>, server: IpamServer)
    requires ConfigOk(vs, legacy) && forall i :: 0 <= i < |vs| ==> NoBroadcastStart(vs[i])
    requires CodecOk(server.store.nm) && SlashedKeys(server.store.kv) && Built(server, ranges)
    ensures forall i, k :: 0 <= i < |vs| && 0 <= k < |vs[i]| ==> Filled(Canonical(vs[i])[k])
    ensures Configured(vs, ranges) ==>
              && server.Valid() && Shared(server.Sets(), ranges[|ranges| - 1])
              && (Disjoint(server.Sets()) <==> |vs| == 1)
              && forall i :: 0 <= i < |vs| ==> ServesAll(ranges[i], vs[i])
  {
    hide ConfigOk, NoBroadcastStart, ToRanges, Canonical, CodecOk, SlashedKeys, Built, WellFormed, Filled, ServesAll;
    var allocs := seq(|vs|, i requires 0 <= i < |vs| => Alloc(if i < |ranges| then ranges[i] else [], ""));
    AcceptedDisjoint(vs, legacy, allocs);
    NotEmpty(vs, legacy);
    if Configured(vs, ranges) {
      forall i | 0 <= i < |ranges| ensures WellFormed(ranges[i]) { assert allocs[i].rs == ranges[i]; }
      BuiltServes(server, ranges);
      BuiltDisjoint(server, ranges);
      forall i | 0 <= i < |vs| ensures ServesAll(ranges[i], vs[i]) { SetServes(vs, legacy, i); }
    }
  }

  /** Each range has the bounds, the gateway and the prefix length that were configured, or their defaults. */
  ghost predicate ServesAll(rs: seq<Range>, cs: seq<Conf>) {
    |rs| == |cs| && forall k :: 0 <= k < |cs| ==> Serves(rs[k], cs[k])
  }

  lemma SetServes(vs: seq<seq<Conf>>, legacy: bool, i: nat)
    requires ConfigOk(vs, legacy) && i < |vs|
    ensures forall k :: 0 <= k < |vs[i]| ==> Filled(Canonical(vs[i])[k])
    ensures ServesAll(ToRanges(Canonical(vs[i])), vs[i])
  {
    hide Canon, Serves, Filled, CountV4;
    assert SetOk(vs[i]);
    forall k | 0 <= k < |vs[i]| ensures Filled(Canonical(vs[i])[k]) && Serves(ToRange(Canonical(vs[i])[k]), vs[i][k]) {
      ToRangeServes(vs[i][k]);
    }
  }

  lemma NotEmpty(vs: seq<seq<Conf>>, legacy: bool)
    requires ConfigOk(vs, legacy)
    ensures vs != []
  {
  }
}
