/**
 * Any number of daemons over one shared store and one cluster-wide lock: every etcd request of Get
 * (pkg/ipametcd/backend/allocator/allocator.go) and of the store (pkg/ipametcd/backend/etcd/
 * backend.go) is a step of its own. The two maps are what the flat keyspace encodes.
 */
module Interleaving {
  import opened Addrs
  import opened OwnerText
  import opened Keyspace
  import opened RangeWalk
  import opened RoundRobin
  import opened RangeIterator
  import opened Allocators

  /** The shared store. */
  datatype Db = Db(owners: map<Addr, string>, last: map<string, Addr>)

  /** One call to Get, or to Release. */
  datatype Call =
    | GetCall(rs: seq<Range>, rid: string, id: string, ifname: string, requested: Option<Addr>)
    | ReleaseCall(id: string, ifname: string)

  /** A finished call and its result: the address granted, or the one freed. */
  datatype Done = Done(call: Call, addr: Option<Addr>)

  /** Where a daemon stands. All states but Idle lie between Lock and Unlock. */
  datatype Proc =
    | Idle
    | Locked(call: Call)
    | Probing(call: Call, lap: seq<Addr>, closes: bool, m: nat)
    | Reserving(call: Call, a: Addr)
    | Recording(call: Call, a: Addr)
    | Deleting(call: Call, a: Addr)
    | Leaving(done: Done)

  /** `log` records the finished calls in the order of their unlocks. */
  datatype Sys = Sys(db: Db, lock: Option<nat>, procs: seq<Proc>, log: seq<Done>)

  ghost function TakenIn(db: Db): iset<Addr> {
    iset a | a in db.owners
  }

  function LastIn(db: Db, rid: string): Option<Addr> {
    if rid in db.last then Some(db.last[rid]) else None
  }

  /** An address a release may take: its value names the interface, or is an old one and no value does. */
  ghost predicate Deletable(db: Db, a: Addr, id: string, ifname: string)
    ensures Deletable(db, a, id, ifname) ==> a in db.owners && Matches(db.owners[a], id, ifname)
  {
    && a in db.owners
    && (Trim(db.owners[a]) == Owner(id, ifname)
        || (Trim(db.owners[a]) == Trim(id) && forall b :: b in db.owners ==> Trim(db.owners[b]) != Owner(id, ifname)))
  }

  // ------------------------------------------------------------------
  // Steps

  ghost predicate WellFormedCall(call: Call) {
    call.GetCall? ==> WellFormed(call.rs)
  }

  /** The addresses a Get will try, in order: the requested one if it may be used at all, or one lap. */
  ghost function Candidates(call: Call, db: Db): seq<Addr>
    requires call.GetCall? && WellFormed(call.rs)
  {
    match call.requested
    case Some(a) => if Allocatable(call.rs, a, iset{}) then [a] else []
    case None => Lap(call.rs, StartAfter(call.rs, LastIn(db, call.rid)), iset{})
  }

  ghost function CanClose(call: Call, db: Db): bool
    requires call.GetCall? && WellFormed(call.rs)
  {
    call.requested.Some? || Closes(call.rs, LastIn(db, call.rid))
  }

  /** One request by daemon `p`. */
  ghost predicate StepOf(s: Sys, p: nat, s': Sys)
    requires p < |s.procs|
  {
    match s.procs[p]
    case Idle =>
      && s.lock.None?
      && exists call :: WellFormedCall(call) && s' == s.(lock := Some(p), procs := s.procs[p := Locked(call)])
    case Locked(call) =>
      if call.GetCall? then
        && WellFormed(call.rs)
        && s' == s.(procs := s.procs[p := Probing(call, Candidates(call, s.db), CanClose(call, s.db), 0)])
      else
        || ((forall a :: a in s.db.owners ==> !Matches(s.db.owners[a], call.id, call.ifname))
            && s' == s.(procs := s.procs[p := Leaving(Done(call, None))]))
        || exists a :: Deletable(s.db, a, call.id, call.ifname) && s' == s.(procs := s.procs[p := Deleting(call, a)])
    case Probing(call, lap, closes, m) =>
      if m < |lap| then
        s' == s.(procs := s.procs[p := if lap[m] in s.db.owners then Probing(call, lap, closes, m + 1)
                                       else Reserving(call, lap[m])])
      else
        s' == s.(procs := s.procs[p := if closes then Leaving(Done(call, None)) else Probing(call, lap, closes, 0)])
    case Reserving(call, a) =>
      && call.GetCall?
      && s' == s.(db := s.db.(owners := s.db.owners[a := Owner(call.id, call.ifname)]),
                  procs := s.procs[p := Recording(call, a)])
    case Recording(call, a) =>
      && call.GetCall?
      && s' == s.(db := s.db.(last := s.db.last[call.rid := a]), procs := s.procs[p := Leaving(Done(call, Some(a)))])
    case Deleting(call, a) =>
      s' == s.(db := s.db.(owners := s.db.owners - {a}), procs := s.procs[p := Leaving(Done(call, Some(a)))])
    case Leaving(done) =>
      s' == s.(lock := None, procs := s.procs[p := Idle], log := s.log + [done])
  }

  ghost predicate Step(s: Sys, s': Sys) {
    exists p :: 0 <= p < |s.procs| && StepOf(s, p, s')
  }

  ghost predicate Initial(s: Sys) {
    s.lock.None? && s.log == [] && forall p :: 0 <= p < |s.procs| ==> s.procs[p] == Idle
  }

  /** A run: each state follows from the one before by one request of one daemon. */
  ghost predicate IsRun(run: seq<Sys>) {
    && run != [] && Initial(run[0])
    && forall i :: 0 <= i < |run| - 1 ==> Step(run[i], run[i + 1])
  }

  // ------------------------------------------------------------------
  // The calls as single steps

  /** What a call may return when it runs alone on `db`. */
  ghost predicate Legal(db: Db, done: Done) {
    match done.call
    case GetCall(rs, rid, _, _, requested) =>
      && WellFormed(rs)
      && done.addr == (match requested
                       case Some(a) => if Allocatable(rs, a, TakenIn(db)) then Some(a) else None
                       case None => NextGrant(rs, LastIn(db, rid), TakenIn(db)))
    case ReleaseCall(id, ifname) =>
      match done.addr
      case Some(a) => Deletable(db, a, id, ifname)
      case None => forall a :: a in db.owners ==> !Matches(db.owners[a], id, ifname)
  }

  function Effect(db: Db, done: Done): Db {
    if done.addr.None? then db
    else
      var a := done.addr.value;
      match done.call
      case GetCall(_, rid, id, ifname, _) => Db(db.owners[a := Owner(id, ifname)], db.last[rid := a])
      case ReleaseCall(_, _) => db.(owners := db.owners - {a})
  }

  function Replay(db: Db, log: seq<Done>): Db
    decreases |log|
  {
    if log == [] then db else Effect(Replay(db, log[..|log| - 1]), log[|log| - 1])
  }

  ghost predicate LegalLog(db: Db, log: seq<Done>) {
    forall i :: 0 <= i < |log| ==> Legal(Replay(db, log[..i]), log[i])
  }

  // ------------------------------------------------------------------
  // The invariant

  /** How far the daemon inside the lock has got, over the store `base` it found. */
  ghost predicate Inside(base: Db, db: Db, proc: Proc) {
    match proc
    case Idle => false
    case Locked(call) => db == base && WellFormedCall(call)
    case Probing(call, lap, closes, m) =>
      && db == base && call.GetCall? && WellFormed(call.rs)
      && lap == Candidates(call, base) && closes == CanClose(call, base)
      && m <= |lap| && forall j :: 0 <= j < m ==> lap[j] in db.owners
    case Reserving(call, a) =>
      db == base && call.GetCall? && Legal(base, Done(call, Some(a))) && a !in base.owners
    case Recording(call, a) =>
      && call.GetCall? && Legal(base, Done(call, Some(a))) && a !in base.owners
      && db == base.(owners := base.owners[a := Owner(call.id, call.ifname)])
    case Deleting(call, a) =>
      db == base && call.ReleaseCall? && Legal(base, Done(call, Some(a)))
    case Leaving(done) =>
      Legal(base, done) && db == Effect(base, done)
  }

  ghost predicate Inv(start: Db, s: Sys) {
    && LegalLog(start, s.log)
    && (forall p :: 0 <= p < |s.procs| ==> (s.procs[p] != Idle <==> s.lock == Some(p)))
    && match s.lock
       case None => s.db == Replay(start, s.log)
       case Some(p) => p < |s.procs| && Inside(Replay(start, s.log), s.db, s.procs[p])
  }

  lemma InitialInv(s: Sys)
    requires Initial(s)
    ensures Inv(s.db, s)
  {
  }

  // ------------------------------------------------------------------
  // Probing candidates one by one finds what Get promises

  lemma {:induction false} SeenCut(rs: seq<Range>, p: Pos, k: nat, m: nat) returns (j: nat)
    requires WellFormed(rs) && IsPos(rs, p) && m < |Seen(rs, p, k, iset{})|
    ensures 0 < j <= k && Seen(rs, p, j, iset{}) == Seen(rs, p, k, iset{})[..m + 1]
    ensures Seen(rs, p, j - 1, iset{}) == Seen(rs, p, k, iset{})[..m]
    decreases k
  {
    hide WellFormed, Next, Walk, AddrAt, Keep;
    var s, t := Seen(rs, p, k - 1, iset{}), Seen(rs, p, k, iset{});
    if m < |s| {
      j := SeenCut(rs, p, k - 1, m);
      assert t[..m + 1] == s[..m + 1] && t[..m] == s[..m];
    } else {
      j := k;
      assert t[..m + 1] == t && t[..m] == s;
    }
  }

  /** The first candidate that is not taken is the next grant; if all are taken there is none. */
  lemma FirstCandidate(rs: seq<Range>, last: Option<Addr>, taken: iset<Addr>, m: nat)
    requires WellFormed(rs)
    requires var lap := FreeLap(rs, last, iset{});
             m <= |lap| && forall j :: 0 <= j < m ==> lap[j] in taken
    ensures var lap := FreeLap(rs, last, iset{});
            && (m == |lap| ==> NextGrant(rs, last, taken) == None)
            && (m < |lap| && lap[m] !in taken ==> NextGrant(rs, last, taken) == Some(lap[m]))
  {
    hide WellFormed, StartAfter, Seen, IsPos, Total;
    var p, t, lap := StartAfter(rs, last), Total(rs), FreeLap(rs, last, iset{});
    if m == |lap| {
      assert forall a :: a in lap ==> a in taken;
      TurnTaken(rs, p, t, taken);
    } else if lap[m] !in taken {
      var j := SeenCut(rs, p, t, m);
      assert lap[..m + 1] == lap[..m] + [lap[m]];
      FirstFree(rs, p, j - 1, j, lap[m], taken);
    }
  }

  lemma ProbeResult(call: Call, db: Db, m: nat)
    requires call.GetCall? && WellFormed(call.rs)
    requires m <= |Candidates(call, db)| && forall j :: 0 <= j < m ==> Candidates(call, db)[j] in db.owners
    ensures m == |Candidates(call, db)| ==> Legal(db, Done(call, None))
    ensures m < |Candidates(call, db)| && Candidates(call, db)[m] !in db.owners ==>
              Legal(db, Done(call, Some(Candidates(call, db)[m])))
  {
    hide WellFormed, Lap, NextGrant, StartAfter;
    if call.requested.None? {
      FirstCandidate(call.rs, LastIn(db, call.rid), TakenIn(db), m);
    } else {
      var a := call.requested.value;
      assert Allocatable(call.rs, a, TakenIn(db)) <==> Allocatable(call.rs, a, iset{}) && a !in db.owners;
      if Allocatable(call.rs, a, iset{}) {
        assert Candidates(call, db) == [a];
        assert m == 1 ==> Candidates(call, db)[0] in db.owners;
      }
      hide Allocatable;
    }
  }

  // ------------------------------------------------------------------
  // Every step keeps the invariant

  /** A request inside the lock, other than the unlock. */
  lemma InsideStep(start: Db, s: Sys, p: nat, s': Sys)
    requires Inv(start, s) && p < |s.procs| && StepOf(s, p, s')
    requires !s.procs[p].Idle? && !s.procs[p].Leaving?
    ensures Inside(Replay(start, s.log), s'.db, s'.procs[p])
    ensures s' == s.(db := s'.db, procs := s.procs[p := s'.procs[p]]) && !s'.procs[p].Idle?
  {
    hide WellFormed, Candidates, CanClose, Matches, Deletable, Owner, Allocatable, NextGrant, LegalLog;
    var base := Replay(start, s.log);
    hide Replay;
    match s.procs[p]
    case Probing(call, lap, closes, m) => ProbeResult(call, base, m);
    case _ =>
  }

  lemma StepKeeps(start: Db, s: Sys, p: nat, s': Sys)
    requires Inv(start, s) && p < |s.procs| && StepOf(s, p, s')
    ensures Inv(start, s')
  {
    if s.procs[p].Idle? {
      hide WellFormed, Replay, LegalLog;
    } else if s.procs[p].Leaving? {
      hide Legal, Effect;
      var done := s.procs[p].done;
      assert s'.log[..|s.log|] == s.log;
      assert forall i :: 0 <= i < |s.log| ==> s'.log[..i] == s.log[..i] && s'.log[i] == s.log[i];
    } else {
      InsideStep(start, s, p, s');
      hide StepOf, Inside, LegalLog, Replay;
    }
  }

  lemma {:induction false} RunInv(run: seq<Sys>, i: nat)
    requires IsRun(run) && i < |run|
    ensures Inv(run[0].db, run[i])
    decreases i
  {
    hide Inv, StepOf;
    if i == 0 {
      InitialInv(run[0]);
    } else {
      RunInv(run, i - 1);
      assert Step(run[i - 1], run[i]);
      var p :| 0 <= p < |run[i - 1].procs| && StepOf(run[i - 1], p, run[i]);
      StepKeeps(run[0].db, run[i - 1], p, run[i]);
    }
  }

  // ------------------------------------------------------------------
  // What follows for every run

  /** A daemon about to put an owner finds none there. */
  lemma PutFindsNothing(run: seq<Sys>, i: nat, p: nat)
    requires IsRun(run) && i < |run| && p < |run[i].procs| && run[i].procs[p].Reserving?
    ensures run[i].procs[p].a !in run[i].db.owners
  {
    RunInv(run, i);
    hide IsRun, Legal, LegalLog, Replay;
  }

  /** No reservation is ever overwritten. */
  lemma NoOverwrite(run: seq<Sys>, i: nat, a: Addr)
    requires IsRun(run) && i + 1 < |run| && a in run[i].db.owners
    ensures a in run[i + 1].db.owners ==> run[i + 1].db.owners[a] == run[i].db.owners[a]
  {
    RunInv(run, i);
    var s, s' := run[i], run[i + 1];
    assert Step(s, s');
    var p :| 0 <= p < |s.procs| && StepOf(s, p, s');
    hide Legal, Replay, LegalLog, Candidates, CanClose, Matches, Deletable, Owner, IsRun, WellFormed;
  }

  /**
   * Atomicity: whenever the lock is free, the store is what the finished calls leave when they run
   * one after the other in the order of their unlocks, each returning what it returns alone.
   */
  lemma Serializable(run: seq<Sys>, i: nat)
    requires IsRun(run) && i < |run|
    ensures LegalLog(run[0].db, run[i].log)
    ensures run[i].lock.None? ==> run[i].db == Replay(run[0].db, run[i].log)
  {
    RunInv(run, i);
  }

  ghost predicate Grants(done: Done, a: Addr) {
    done.call.GetCall? && done.addr == Some(a)
  }

  ghost predicate Frees(done: Done, a: Addr) {
    done.call.ReleaseCall? && done.addr == Some(a)
  }

  /** An address stays reserved until a call frees it. */
  lemma {:induction false} StaysReserved(db: Db, log: seq<Done>, i: nat, j: nat, a: Addr)
    requires i < j <= |log| && Grants(log[i], a)
    requires forall k :: i < k < j ==> !Frees(log[k], a)
    ensures a in Replay(db, log[..j]).owners
    decreases j
  {
    var pre := log[..j];
    assert pre[..j - 1] == log[..j - 1] && pre[j - 1] == log[j - 1];
    if i + 1 < j {
      StaysReserved(db, log, i, j - 1, a);
      assert !Frees(log[j - 1], a);
    }
    hide Owner;
  }

  /** Two successful Gets never return the same address without a release of it in between. */
  lemma NoDoubleAllocation(run: seq<Sys>, n: nat, i: nat, j: nat, a: Addr)
    requires IsRun(run) && n < |run|
    requires i < j < |run[n].log| && Grants(run[n].log[i], a) && Grants(run[n].log[j], a)
    ensures exists k :: i < k < j && Frees(run[n].log[k], a)
  {
    hide IsRun, Allocatable, Replay;
    var db, log := run[0].db, run[n].log;
    Serializable(run, n);
    if forall k :: i < k < j ==> !Frees(log[k], a) {
      StaysReserved(db, log, i, j, a);
      assert Legal(Replay(db, log[..j]), log[j]);
      GrantedFree(Replay(db, log[..j]), log[j], a);
    }
  }

  lemma GrantedFree(db: Db, done: Done, a: Addr)
    requires Legal(db, done) && Grants(done, a)
    ensures a !in db.owners
  {
    hide WellFormed;
    if done.call.requested.None? {
      NextGrantNearest(done.call.rs, LastIn(db, done.call.rid), TakenIn(db));
      assert a !in TakenIn(db);
    } else {
      assert a !in TakenIn(db);
    }
  }

  ghost function HolderOf(done: Done): Holder {
    Holder(done.call.id, done.call.ifname)
  }

  /** Until a call frees it, an address keeps the owner it was granted to. */
  lemma {:induction false} KeepsOwner(db: Db, log: seq<Done>, i: nat, j: nat, a: Addr)
    requires LegalLog(db, log) && i < j <= |log| && Grants(log[i], a)
    requires forall k :: i < k < j ==> !Frees(log[k], a)
    ensures var owners := Replay(db, log[..j]).owners;
            a in owners && owners[a] == Owner(log[i].call.id, log[i].call.ifname)
    decreases j
  {
    hide Owner, Legal;
    var pre := log[..j];
    assert pre[..j - 1] == log[..j - 1] && pre[j - 1] == log[j - 1];
    assert Legal(Replay(db, log[..j - 1]), log[j - 1]);
    if i + 1 < j {
      KeepsOwner(db, log, i, j - 1, a);
      assert !Frees(log[j - 1], a);
      if Grants(log[j - 1], a) { GrantedFree(Replay(db, log[..j - 1]), log[j - 1], a); }
    }
    hide Replay, LegalLog;
  }

  lemma {:induction false} FirstFreed(log: seq<Done>, i: nat, k: nat, a: Addr) returns (f: nat)
    requires i < k < |log| && Frees(log[k], a)
    ensures i < f <= k && Frees(log[f], a) && forall l :: i < l < f ==> !Frees(log[l], a)
    decreases k
  {
    if l: nat :| i < l < k && Frees(log[l], a) {
      f := FirstFreed(log, i, l, a);
    } else {
      f := k;
    }
  }

  /**
   * Two Gets that return the same address have a release in between that was called for the
   * container the address was granted to: no other container's release takes it away.
   */
  lemma FreedByItsHolder(run: seq<Sys>, n: nat, i: nat, j: nat, a: Addr)
    requires IsRun(run) && n < |run|
    requires i < j < |run[n].log| && Grants(run[n].log[i], a) && Grants(run[n].log[j], a)
    requires CleanId(run[n].log[i].call.id)
    requires forall k :: i < k < j && run[n].log[k].call.ReleaseCall? ==> OneLine(Trim(run[n].log[k].call.id))
    ensures exists k :: i < k < j && Frees(run[n].log[k], a)
              && Finds(run[n].log[k].call.id, run[n].log[k].call.ifname, HolderOf(run[n].log[i]))
  {
    hide IsRun, Finds, CleanId, OneLine, Legal, Deletable, Matches;
    var db, log := run[0].db, run[n].log;
    NoDoubleAllocation(run, n, i, j, a);
    var l :| i < l < j && Frees(log[l], a);
    var k := FirstFreed(log, i, l, a);
    Serializable(run, n);
    KeepsOwner(db, log, i, k, a);
    assert Legal(Replay(db, log[..k]), log[k]);
    FreedMatches(Replay(db, log[..k]), log[k], a);
    FindsExact(log[k].call.id, log[k].call.ifname, HolderOf(log[i]));
    hide Replay, LegalLog;
  }

  lemma FreedMatches(db: Db, done: Done, a: Addr)
    requires Legal(db, done) && Frees(done, a)
    ensures a in db.owners && Matches(db.owners[a], done.call.id, done.call.ifname)
  {
    hide Deletable, Matches, WellFormed;
  }

  // ------------------------------------------------------------------
  // A search that cannot end blocks everybody

  /** Daemon `p` holds the lock and probes a lap that cannot close and is wholly taken; the others wait. */
  ghost predicate Trapped(s: Sys, p: nat) {
    && p < |s.procs| && s.lock == Some(p)
    && (forall q :: 0 <= q < |s.procs| && q != p ==> s.procs[q] == Idle)
    && match s.procs[p]
       case Probing(_, lap, closes, m) => !closes && m <= |lap| && forall a :: a in lap ==> a in s.db.owners
       case _ => false
  }

  lemma TrappedStep(s: Sys, p: nat, s': Sys)
    requires Trapped(s, p) && Step(s, s')
    ensures Trapped(s', p) && s'.db == s.db && s'.log == s.log
  {
    var q :| 0 <= q < |s.procs| && StepOf(s, q, s');
    hide WellFormedCall, Candidates, CanClose, Deletable, Owner;
    assert q == p;
    var lap, m := s.procs[p].lap, s.procs[p].m;
    assert m < |lap| ==> lap[m] in lap;
  }

  /** Then no later state of the run frees the lock, changes the store or finishes a call. */
  lemma {:induction false} TrappedForEver(run: seq<Sys>, i: nat, j: nat, p: nat)
    requires IsRun(run) && i <= j < |run| && Trapped(run[i], p)
    ensures Trapped(run[j], p) && run[j].lock == Some(p) && run[j].db == run[i].db && run[j].log == run[i].log
    decreases j
  {
    hide Trapped, Step;
    if i < j {
      TrappedForEver(run, i, j - 1, p);
      assert Step(run[j - 1], run[j]);
      TrappedStep(run[j - 1], p, run[j]);
    }
    TrappedLock(run[j], p);
  }

  lemma TrappedLock(s: Sys, p: nat)
    requires Trapped(s, p)
    ensures s.lock == Some(p)
  {
  }

  /**
   * A Get without a requested address walks into this trap exactly if its looped-back test cannot
   * fire and nothing is allocatable.
   */
  lemma TrapExact(run: seq<Sys>, i: nat, p: nat)
    requires IsRun(run) && i + 1 < |run| && p < |run[i].procs| && StepOf(run[i], p, run[i + 1])
    requires run[i].procs[p].Locked? && run[i].procs[p].call.GetCall? && run[i].procs[p].call.requested.None?
    ensures var call, db := run[i].procs[p].call, run[i].db;
            && WellFormed(call.rs)
            && (Trapped(run[i + 1], p) <==>
                  !Closes(call.rs, LastIn(db, call.rid)) && forall a :: !Allocatable(call.rs, a, TakenIn(db)))
  {
    hide IsRun, Inside, LegalLog, Replay, WellFormed, Closes, Allocatable, Lap, StartAfter;
    RunInv(run, i);
    var call, db := run[i].procs[p].call, run[i].db;
    AllTaken(call, db);
  }

  lemma AllTaken(call: Call, db: Db)
    requires call.GetCall? && call.requested.None? && WellFormed(call.rs)
    ensures (forall a :: a in Candidates(call, db) ==> a in db.owners)
            <==> forall a :: !Allocatable(call.rs, a, TakenIn(db))
  {
    hide WellFormed, Lap, StartAfter, InRange;
    var p := StartAfter(call.rs, LastIn(db, call.rid));
    forall a ensures a in Candidates(call, db) <==> Allocatable(call.rs, a, iset{}) { LapHas(call.rs, p, iset{}, a); }
    assert forall a :: Allocatable(call.rs, a, TakenIn(db)) <==> Allocatable(call.rs, a, iset{}) && a !in db.owners;
  }

  // ------------------------------------------------------------------
  // Without the lock

  /** The same steps when a daemon goes on although its lock call failed. */
  ghost predicate LooseStep(s: Sys, p: nat, s': Sys)
    requires p < |s.procs|
  {
    StepOf(if s.procs[p].Idle? then s.(lock := None) else s, p, s')
  }

  ghost predicate LooseNext(s: Sys, s': Sys) {
    exists p :: 0 <= p < |s.procs| && LooseStep(s, p, s')
  }

  ghost predicate LooseRun(run: seq<Sys>) {
    && run != [] && Initial(run[0])
    && forall i :: 0 <= i < |run| - 1 ==> LooseNext(run[i], run[i + 1])
  }

  ghost predicate RunsTo(run: seq<Sys>, start: Db, s: Sys) {
    LooseRun(run) && run[0].db == start && run[|run| - 1] == s
  }

  lemma Then(run: seq<Sys>, start: Db, s: Sys, p: nat, s': Sys) returns (longer: seq<Sys>)
    requires RunsTo(run, start, s) && p < |s.procs| && LooseStep(s, p, s')
    ensures RunsTo(longer, start, s') && longer == run + [s']
  {
    hide LooseStep;
    longer := run + [s'];
  }

  /** A Get for one address, with nobody asking whether the lock is held. */
  ghost predicate Wants(call: Call, a: Addr, db: Db) {
    call.GetCall? && WellFormed(call.rs) && call.requested == Some(a) && Allocatable(call.rs, a, TakenIn(db))
  }

  /** One daemon up to its put. */
  lemma UpToPut(run: seq<Sys>, start: Db, s: Sys, p: nat, call: Call, a: Addr) returns (longer: seq<Sys>, s': Sys)
    requires RunsTo(run, start, s) && p < |s.procs| && s.procs[p] == Idle && s.db == start && Wants(call, a, start)
    ensures s' == s.(lock := Some(p), procs := s.procs[p := Reserving(call, a)]) && RunsTo(longer, start, s')
  {
    hide RunsTo, WellFormed, Candidates, CanClose, Allocatable;
    var s1 := s.(lock := Some(p), procs := s.procs[p := Locked(call)]);
    assert WellFormedCall(call);
    longer := Then(run, start, s, p, s1);
    var closes := CanClose(call, start);
    OneCandidate(call, a, start);
    var s2 := s1.(procs := s1.procs[p := Probing(call, [a], closes, 0)]);
    longer := Then(longer, start, s1, p, s2);
    s' := s2.(procs := s2.procs[p := Reserving(call, a)]);
    longer := Then(longer, start, s2, p, s');
  }

  lemma OneCandidate(call: Call, a: Addr, db: Db)
    requires Wants(call, a, db)
    ensures Candidates(call, db) == [a] && a !in db.owners
  {
    hide WellFormed;
    assert a !in TakenIn(db);
    assert Allocatable(call.rs, a, iset{});
  }

  /** The rest of the call: two puts and the unlock. */
  lemma FromPut(run: seq<Sys>, start: Db, s: Sys, p: nat, call: Call, a: Addr) returns (longer: seq<Sys>, s': Sys)
    requires RunsTo(run, start, s) && p < |s.procs| && s.procs[p] == Reserving(call, a) && call.GetCall?
    ensures RunsTo(longer, start, s') && |longer| == |run| + 3 && longer[..|run|] == run
    ensures s'.log == s.log + [Done(call, Some(a))] && s'.procs == s.procs[p := Idle]
    ensures longer[|run|].db.owners == s.db.owners[a := Owner(call.id, call.ifname)] == s'.db.owners
  {
    hide RunsTo, Owner;
    var done := Done(call, Some(a));
    var s1 := s.(db := s.db.(owners := s.db.owners[a := Owner(call.id, call.ifname)]),
                 procs := s.procs[p := Recording(call, a)]);
    longer := Then(run, start, s, p, s1);
    var s2 := s1.(db := s1.db.(last := s1.db.last[call.rid := a]), procs := s1.procs[p := Leaving(done)]);
    longer := Then(longer, start, s1, p, s2);
    s' := s2.(lock := None, procs := s2.procs[p := Idle], log := s2.log + [done]);
    longer := Then(longer, start, s2, p, s');
  }

  /**
   * The lock is what prevents it: if daemons go on when their lock call fails, there is a run from
   * any store in which two Gets return the same address, and the second put replaces the owner.
   */
  lemma WithoutLock(start: Db, a: Addr, c0: Call, c1: Call) returns (run: seq<Sys>, i: nat)
    requires Wants(c0, a, start) && Wants(c1, a, start)
    ensures LooseRun(run) && run[0].db == start && i + 1 < |run|
    ensures run[|run| - 1].log == [Done(c0, Some(a)), Done(c1, Some(a))]
    ensures a in run[i].db.owners && run[i].db.owners[a] == Owner(c0.id, c0.ifname)
    ensures a in run[i + 1].db.owners && run[i + 1].db.owners[a] == Owner(c1.id, c1.ifname)
  {
    hide LooseStep, Owner;
    var s := Sys(start, None, [Idle, Idle], []);
    run := [s];
    assert RunsTo(run, start, s);
    hide LooseRun;
    run, s := UpToPut(run, start, s, 0, c0, a);
    run, s := UpToPut(run, start, s, 1, c1, a);
    run, s := FromPut(run, start, s, 0, c0, a);
    i := |run| - 1;
    var first := run;
    run, s := FromPut(run, start, s, 1, c1, a);
    assert run[i] == first[i];
  }

  // ------------------------------------------------------------------
  // The flat keyspace underneath

  ghost predicate Decodes(nm: Naming, kv: Keys, db: Db) {
    Encodes(nm, kv, db.owners, db.last)
  }

  /** The put or delete a daemon is about to send, on the flat keyspace. */
  function Request(nm: Naming, kv: Keys, proc: Proc): Keys {
    match proc
    case Reserving(GetCall(_, _, id, ifname, _), a) => kv[KeyOf(nm, a) := Owner(id, ifname)]
    case Recording(GetCall(_, rid, _, _, _), a) => kv[LastKey(nm, rid) := nm.text(a)]
    case Deleting(_, a) => kv - {KeyOf(nm, a)}
    case _ => kv
  }

  /** Request by request, the flat keyspace stays an encoding of the two maps. */
  lemma RequestDecodes(nm: Naming, kv: Keys, s: Sys, p: nat, s': Sys)
    requires CodecOk(nm) && Decodes(nm, kv, s.db) && p < |s.procs| && StepOf(s, p, s')
    ensures Decodes(nm, Request(nm, kv, s.procs[p]), s'.db)
  {
    hide CodecOk, Encodes, Owner, KeyOf, LastKey, WellFormed, Candidates, CanClose, Deletable;
    match s.procs[p]
    case Reserving(call, a) => OwnerPutEncodes(nm, kv, s.db.owners, s.db.last, Owner(call.id, call.ifname), a);
    case Recording(call, a) => LastPutEncodes(nm, kv, s.db.owners, s.db.last, a, call.rid);
    case Deleting(call, a) => DropEncodes(nm, kv, s.db.owners, s.db.last, a);
    case _ =>
  }

  /** A finished call has done to the keyspace what the store's own operations do. */
  lemma EffectDecodes(nm: Naming, kv: Keys, db: Db, call: Call, a: Addr)
    requires CodecOk(nm) && Decodes(nm, kv, db)
    ensures var kv' := if call.GetCall? then ReserveIn(nm, kv, call.id, call.ifname, a, call.rid)
                       else kv - {KeyOf(nm, a)};
            Decodes(nm, kv', Effect(db, Done(call, Some(a))))
  {
    hide CodecOk, Encodes, Owner, KeyOf, LastKey, ReserveIn;
    if call.GetCall? {
      ReserveEncodes(nm, kv, db.owners, db.last, call.id, call.ifname, a, call.rid);
    } else {
      DropEncodes(nm, kv, db.owners, db.last, a);
    }
  }

  /** What a Get may return on the two maps is what the allocator chooses on the keyspace. */
  lemma LegalIsChoice(nm: Naming, kv: Keys, db: Db, call: Call, addr: Option<Addr>)
    requires CodecOk(nm) && Decodes(nm, kv, db) && call.GetCall? && WellFormed(call.rs)
    ensures Legal(db, Done(call, addr)) <==> addr == Choice(call.rs, nm, kv, call.rid, call.requested)
  {
    hide CodecOk, KeyOf, LastKey, WellFormed, Allocatable, NextGrant;
    assert TakenIn(db) == Taken(nm, kv);
    if call.rid in db.last { ParsesBack(nm, db.last[call.rid]); }
    assert LastIn(db, call.rid) == LastOf(nm, kv, call.rid);
  }

  /** What a release may free on the two maps is what the store deletes from the keyspace. */
  lemma LegalIsForemost(nm: Naming, kv: Keys, db: Db, id: string, ifname: string, a: Addr)
    requires CodecOk(nm) && Decodes(nm, kv, db) && OwnKeysOnly(nm, kv) && nm.parse(Trim(id)).None?
    ensures Legal(db, Done(ReleaseCall(id, ifname), Some(a))) <==> KeyOf(nm, a) in Foremost(nm, kv, id, ifname)
    ensures Legal(db, Done(ReleaseCall(id, ifname), None)) <==> Owned(nm, kv, id, ifname) == {}
  {
    hide CodecOk, KeyOf, LastKey, Owner, Trim, OwnKeysOnly, Encodes, Matching;
    MatchingIs(nm, kv, db, Owner(id, ifname));
    MatchingIs(nm, kv, db, Trim(id));
    forall k | k in Owned(nm, kv, id, ifname) ensures exists b :: b in db.owners && k == KeyOf(nm, b) {
      var b := ReleaseEncodes(nm, kv, db.owners, db.last, id, ifname, k);
    }
  }

  lemma MatchingIs(nm: Naming, kv: Keys, db: Db, m: string)
    requires Decodes(nm, kv, db)
    ensures forall b: Addr :: KeyOf(nm, b) in Matching(nm, kv, m) <==> b in db.owners && Trim(db.owners[b]) == m
  {
    forall b: Addr ensures Listed(nm, KeyOf(nm, b)) { KeysSlashed(nm, b, ""); }
    hide KeyOf, LastKey, Trim, Listed;
  }
}
