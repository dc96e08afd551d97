/** Which MAC address a caller of pkg/ipam/subnet.go is given, and what a refused request leaves behind. */
module SubnetMacs {
  import opened Ipv4
  import opened RangeLists
  import opened SubnetState
  import opened SubnetMaps

  predicate HasMac(st: State, pod: Pod, mac: Mac) {
    pod in st.podToMac && st.podToMac[pod] == mac
  }

  /** The requests for an address, with their replies. */
  predicate Asks(op: Op) {
    op.GetRandom? || op.GetStatic?
  }

  function ReplyOf(st: State, op: Op): Reply
    requires Asks(op)
  {
    if op.GetRandom? then RandomAddress(st, op.pod, op.gen).1
    else StaticAddress(st, op.pod, op.ip, op.mac, op.gen).1
  }

  /**
   * What a caller can check: a pod with an address also has a MAC, and a static request that names
   * no MAC does not find one entered for the pod named "", unless it is the MAC of its own pod.
   */
  predicate OwnMac(st: State, op: Op)
    requires Asks(op)
  {
    match op
    case GetRandom(pod, _) => pod in st.podToIP ==> pod in st.podToMac
    case GetStatic(pod, _, mac, _) => mac == "" && "" in st.podToMac ==> HasMac(st, pod, st.podToMac[""])
  }

  /** The MAC that comes with a granted address is the one entered for the pod exactly under this condition. */
  lemma MacReply(st: State, op: Op)
    requires Asks(op) && ReplyOf(st, op).Granted?
    ensures HasMac(Step(st, op), op.pod, ReplyOf(st, op).mac) <==> OwnMac(st, op)
  {
    hide StaticAddress, RandomAddress;
    if op.GetRandom? { RandomMacReply(st, op.pod, op.gen); } else { StaticMacReply(st, op); }
  }

  lemma RandomMacReply(st: State, pod: Pod, gen: Mac)
    requires RandomAddress(st, pod, gen).1.Granted?
    ensures HasMac(RandomAddress(st, pod, gen).0, pod, RandomAddress(st, pod, gen).1.mac)
            <==> (pod in st.podToIP ==> pod in st.podToMac)
  {
    hide TakeFirst;
  }

  lemma StaticMacReply(st: State, op: Op)
    requires op.GetStatic? && StaticAddress(st, op.pod, op.ip, op.mac, op.gen).1.Granted?
    ensures var (st', reply) := StaticAddress(st, op.pod, op.ip, op.mac, op.gen);
            HasMac(st', op.pod, reply.mac) <==>
                (op.mac == "" && "" in st.podToMac ==> HasMac(st, op.pod, st.podToMac[""]))
  {
    hide Assign, InCidr;
    var (st1, m, ok) := RequestMac(st, op.pod, op.mac, op.gen);
    AssignMac(st1, op.pod, op.ip, m);
  }

  lemma AssignMac(st: State, pod: Pod, ip: IP, mac: Mac)
    ensures var (st', reply) := Assign(st, pod, ip, mac); SameMacs(st, st') && (reply.Granted? ==> reply.mac == mac)
  {
    hide Has, SplitList;
  }

  /** With a MAC entered for the pod named "", all static requests that name none are given that one. */
  lemma OneMacForAll(st: State, op1: Op, op2: Op)
    requires op1.GetStatic? && op2.GetStatic? && op1.mac == op2.mac == "" && "" in st.podToMac
    requires op1.pod != op2.pod && ReplyOf(st, op1).Granted? && ReplyOf(Step(st, op1), op2).Granted?
    ensures ReplyOf(st, op1).mac == ReplyOf(Step(st, op1), op2).mac == st.podToMac[""]
  {
    hide Has, SplitList, InCidr;
  }

  /** Nothing but one pair of entries in the MAC maps changes. */
  predicate Enters(st: State, st': State, pod: Pod, mac: Mac) {
    st' == st.(podToMac := st.podToMac[pod := mac], macToPod := st.macToPod[mac := pod])
  }

  /**
   * The two MAC requests: a pod keeps the MAC it has and is else given the generated one; a named MAC
   * is refused without effect exactly if it is in use. What is given is entered both ways.
   */
  lemma MacCalls(st: State, pod: Pod, mac: Mac, gen: Mac)
    ensures var (st', m) := RandomMac(st, pod, gen);
            HasMac(st', pod, m) && if pod in st.podToMac then st' == st else m == gen && Enters(st, st', pod, m)
    ensures var (st', ok) := StaticMac(st, pod, mac);
            && (ok <==> mac !in st.macToPod)
            && (ok ==> HasMac(st', pod, mac) && Enters(st, st', pod, mac)) && (!ok ==> st' == st)
  {
  }

  /** No MAC is entered before the request is refused. */
  predicate EntersNoMac(st: State, op: Op)
    requires op.GetStatic?
  {
    !InCidr(st, op.ip) || if op.mac == "" then "" in st.podToMac || op.pod in st.podToMac else op.mac in st.macToPod
  }

  /** A refused static request changes nothing exactly if it is refused before a MAC is entered. */
  lemma RefusedExact(st: State, op: Op)
    requires op.GetStatic? && ReplyOf(st, op).Failed?
    ensures Step(st, op) == st <==> EntersNoMac(st, op)
    ensures SameAddresses(st, Step(st, op))
    ensures op.mac != "" && InCidr(st, op.ip) ==> op.mac in Step(st, op).macToPod
  {
    hide Has, SplitList, InCidr;
    if !EntersNoMac(st, op) {
      assert op.mac == "" ==> op.pod in Step(st, op).podToMac;
      assert op.mac != "" ==> op.mac in Step(st, op).macToPod;
    }
  }

  /** Only a release by a pod that has an address and this MAC takes it out of use. */
  predicate DropsMac(st: State, op: Op, mac: Mac) {
    op.Release? && op.pod in st.podToIP && HasMac(st, op.pod, mac)
  }

  lemma MacStays(st: State, op: Op, mac: Mac)
    requires mac in st.macToPod
    ensures mac in Step(st, op).macToPod <==> !DropsMac(st, op, mac)
  {
    hide Step, InCidr;
    StepMacs(st, op);
  }

  ghost predicate KeepsMac(st: State, ops: seq<Op>, mac: Mac) {
    forall k :: 0 <= k < |ops| ==> !DropsMac(Run(st, ops[..k]), ops[k], mac)
  }

  lemma {:induction false} MacInUse(st: State, ops: seq<Op>, mac: Mac)
    requires mac in st.macToPod && KeepsMac(st, ops, mac)
    ensures mac in Run(st, ops).macToPod
    decreases |ops|
  {
    hide Step, DropsMac;
    if ops != [] {
      var init := ops[..|ops| - 1];
      assert forall k :: 0 <= k < |init| ==> init[k] == ops[k] && init[..k] == ops[..k];
      assert !DropsMac(Run(st, ops[..|ops| - 1]), ops[|ops| - 1], mac);
      MacInUse(st, init, mac);
      MacStays(Run(st, init), ops[|ops| - 1], mac);
    }
  }

  /**
   * After a refusal the MAC that was named stays in use over every run that does not drop it, and
   * every static request that names it is refused without effect, the same pod's retry included.
   */
  lemma RetryRefused(st: State, op: Op, ops: seq<Op>, again: Op)
    requires op.GetStatic? && op.mac != "" && InCidr(st, op.ip) && ReplyOf(st, op).Failed?
    requires KeepsMac(Step(st, op), ops, op.mac)
    requires again.GetStatic? && again.mac == op.mac
    ensures var end := Run(Step(st, op), ops);
            && ReplyOf(end, again) == Failed(if InCidr(end, again.ip) then Conflict else OutOfRange)
            && Step(end, again) == end
  {
    RefusedExact(st, op);
    MacInUse(Step(st, op), ops, op.mac);
    var end := Run(Step(st, op), ops);
    hide Run, KeepsMac, Assign, InCidr;
    assert again.mac in end.macToPod;
  }
}
