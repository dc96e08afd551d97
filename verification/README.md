# Two address allocators, modelled and proved in Dafny

The repository hands out network addresses in two independent ways, and this project models both.

* `pkg/ipam` keeps a subnet's free addresses as a sorted list of inclusive ranges over 32-bit
  numbers, next to four maps between pods, addresses and MAC addresses. Range objects are shared
  between the old and the new list and are overwritten in place.
* `pkg/ipametcd` with `pkg/daemon` walks round-robin over sets of address ranges and records
  reservations as keys of a shared store, under a lock. The daemon's `Add` serves several range
  sets in one request and rolls back when one of them refuses.

The code that works in place is modelled in place: `IPRange`, `Subnet`, `RangeIter`, `Store`,
`IPAllocator` and `IpamServer` are classes, and range configurations are rewritten in arrays. Each
method is proved against a function of the old state, and the theorems are about that function.
Pure code is functions and lemmas. Loops of the source are loops with invariants here, except
that listing a key prefix is a map comprehension; `RangeIter.Next` recurses over gateways as the
source does.

| files | what they hold |
|---|---|
| `Bits`, `Ipv4` | prefix masks as bit operations, wrapping 32-bit arithmetic |
| `RangeLists`, `PoolSplit`, `PoolRepeats` | free lists as values: split, merge, subtraction, canonical form, repeated exclusions |
| `IPRanges`, `RangeBuild`, `Subnets` | the same on heap objects |
| `SubnetState`, `SubnetMaps`, `SubnetReplies`, `SubnetMacs`, `SubnetLost`, `SubnetRuns` | runs of a subnet: conservation, canonical form, the four maps, the addresses and MACs callers are given |
| `Addrs`, `NetBytes`, `Ranges`, `RangeSets` | configured ranges and sets, and what validation gives |
| `RangeWalk`, `RoundRobin`, `RangeIterator` | the cyclic walk, fairness, and the iterator that performs it |
| `OwnerText`, `Keyspace` | owner text and the flat keyspace |
| `Allocators`, `CrashLoop` | `Get` and `Release`, and repeated rounds of the two |
| `AddRelation`, `Rollback`, `Daemon`, `RequestTexts`, `SharedSets`, `Startup` | `Add`, `Del`, rollback by counting, the outcome of `Add`, the server as it is built |
| `Interleaving` | any number of daemons on one store and one lock |

## Surprises in the code

The model follows the code. Each item names the lemmas that say exactly when it shows; the last two
are remarks.

* The "looped back" test of `Next` remembers the range of the last reserved address, not the range
  in which the walk starts. With two or more ranges and a last address that ends its range it
  never fires, and `Get` on an exhausted set does not return: `ClosesExact`, `GetNeverEnds`,
  `StuckExample`. It keeps the lock, so no daemon does anything any more: `TrapExact`, `TrappedForEver`.
* `splitRange` adds one where it should subtract one when a reserved range reaches the end of a
  free one: `SplitRangeExact`, `PoolWithStraddle`, `PoolExact`, `FreshExact`. Addresses excluded more than
  once change the condition: `RepeatsExact`, `FreshRepeats`, with `RepeatsHelp` and `RepairHelps` as witnesses.
* Taking the last address of a longer free range leaves an empty range that starts one above its
  end. A later request can be served from it: `SplitDenotes`, `SplitAtEmpty`, `TakeEmpty`, `StepExact`,
  `CanonicalStep`. On a new /30 three requests are enough to be given the broadcast address: `BroadcastHandedOut`.
* A static request by a pod that holds another address, or for another MAC, leaves a stale reverse
  entry: `AddressMapsStep`, `MacMapsStep`. The pod's first address is then held by nobody,
  and no safe step frees it or binds it again: `RegrantLoses`, `LostForEver`.
* A static request without a MAC looks up the MAC of the pod named "" first and then hands that one
  to every pod: `MacReply`, `OneMacForAll`, `SameMacReached`.
* A static request enters its MAC before it looks at the address. If it is then refused the MAC stays
  in use, and every request that names it conflicts, the same pod's retry included: `RefusedExact`,
  `RetryRefused`.
* An IPv4 range that starts on the broadcast address and has no end comes out inside out:
  `CanonExact`, `BroadcastEscapes`.
* `GetByID` parses the full key as an address and always answers nothing, so the duplicate test of
  `Get` never fires: `Store.GetByID`, `KeyIsNoAddress`.
* Listing compares the network prefix without a closing slash, so a release reaches the keys of a
  network whose name extends this one: `ListedExact`, `CrossNetworkExact`, `OwnKeysExact`, with
  `CrossNetwork` as a witness.
* One release deletes one key. Rolling back works by counting allocators: `RollbackCount`.
* A stored owner text that ends in white space is compared after trimming and never matches, so it
  is neither released nor rolled back: `RecognisedExact`, `RollbackLeaks`, `AllOrNothing`.
* A reservation stored with a blank interface name is freed by a release for any interface of its
  container, and one whose interface name ends in space by a release for the trimmed name: `FindsExact`.
  A line break in an id lets releases find other containers' reservations: `MatchesExact`, with
  `LineBreakFinds` as a witness. What was stored under a blank id is found by others: `BlankIdFound`.
* A release whose id is address text deletes the last-reserved entry that holds this address:
  `LastOwnedExact`.
* `NewIpamServer` gives all allocators the address of one loop variable: all share the last set.
  `OwnSetOnlyIfOne`, `SharedVerdict`, `AcceptedServer`.
* A request that names no address is split into one empty text, which no set takes, so it always
  fails: `EmptyRequestFails`.
* `Get` and `Release` discard the error of a failed lock call and go on. What the lock prevents is shown
  by `WithoutLock`.
* The comment on `Release` says it clears all addresses of the container; it clears one. And
  `cmd/kubeovsd/main.go:213-233` hands NewIpamServer a range set that nothing has canonicalized.

## Model

| member | source | states |
|---|---|---|
| Bits.AndPrefix | pkg/ipam/util.go:63 | anding with a word of leading ones is rounding down to the aligned block, for every word size and prefix |
| Bits.OrSuffix | pkg/ipam/util.go:79 | or-ing the host bits gives the last number of the aligned block |
| Bits.MultipleFloor | pkg/ipametcd/backend/allocator/range.go:45-48 | masking leaves the multiples of the block size alone |
| Bits.FloorBlock | pkg/ipametcd/backend/allocator/range.go:107 | the numbers masked to a network address are exactly the block of 2^k numbers from it on |
| Ipv4.BytesRoundTrip | pkg/ipam/util.go:32-42 | a 32-bit number survives the trip through four bytes |
| Ipv4.Uint32RoundTrip | pkg/ipam/util.go:32-42 | four bytes survive the trip through a 32-bit number |
| Ipv4.BytesOrder | pkg/ipam/util.go:32-42 | the first byte weighs most: the numbers are ordered as their bytes are |
| Ipv4.AddExact | pkg/ipam/ip.go:12-21 | addition goes on from 0 behind the highest address, and subtraction undoes it |
| Ipv4.HostPool | pkg/ipam/util.go:57-84 | for prefixes up to /30 the pool is the block without its first and last address; neither the plus one nor the minus one wraps |
| Ipv4.HostPoolTooSmall | pkg/ipam/util.go:57-84 | what the same arithmetic gives for /31 (an empty range) and /32 (turned inside out, wrapping at the ends) |
| RangeLists.CanonicalUnique | pkg/ipam/ip.go:84-96 | two coalesced lists with the same addresses are the same list |
| RangeLists.SplitSucceeds | pkg/ipam/util.go:112-144 | the split reports success exactly for a listed address or the start of an empty range, and otherwise returns the list unchanged |
| RangeLists.SplitDenotes | pkg/ipam/util.go:112-144 | on a separated list, possibly with empty ranges, the split removes exactly that address, and leaves an empty range just above it exactly when it was the last of a longer range |
| RangeLists.SplitAtEmpty | pkg/ipam/util.go:126-130 | a split at the start of an empty range reports success for an address that is not listed and breaks the list |
| RangeLists.SplitWraps | pkg/ipam/util.go:132-137 | at the highest address of all the upper piece wraps round and covers everything |
| RangeLists.MergeDenotes | pkg/ipam/util.go:147-187 | merging an absent address adds exactly that address, keeps the list separated, and absorbs exactly the empty ranges that start at it or just above it |
| RangeLists.MergeCoalesced | pkg/ipam/util.go:147-187 | merging keeps the canonical form |
| RangeLists.SplitThenMerge | pkg/ipam/util.go:112-187 | taking an address below 2^32-1 out of a coalesced list and merging it back gives the identical list |
| RangeLists.MergeAllOrder | pkg/ipam/util.go:147-187 | merging a set of addresses gives the same list in whatever order they come |
| RangeLists.RunsDenote | pkg/ipam/ip.go:98-132 | the ranges built from a sorted list, duplicates allowed, hold exactly its addresses |
| RangeLists.RunsCoalesced | pkg/ipam/ip.go:98-132 | without duplicates the ranges are maximal runs |
| RangeLists.RunsAreMerges | pkg/ipam/ip.go:98-132 | building the ranges equals merging the addresses one by one, in any order, into the empty list |
| PoolSplit.SplitRangeExact | pkg/ipam/util.go:86-110 | the split of one range by another is the set difference exactly when the reserved range does not start inside the free one and reach its end; what it is otherwise |
| PoolSplit.SubtractAllDenotes | pkg/ipam/subnet.go:49-59 | any number of reserved ranges that straddle no free range are subtracted exactly, and the list stays canonical |
| PoolSplit.PoolWithStraddle | pkg/ipam/util.go:102-105 | with runs of different addresses, a reserved run that straddles the end of the pool leaves its first address and the one after it free, whatever the other runs are; if the run starts at the end of the pool the second one is just outside the pool |
| PoolRepeats.RunsLinked | pkg/ipam/ip.go:98-132 | the runs of any sorted list: one may start on the last address of the one before, never just above it |
| PoolRepeats.RepeatsExact | pkg/ipam/subnet.go:49-59 | repetitions allowed, the pool minus the runs is exact if and only if the first run that reaches the last host starts at or outside the pool's start, or on a repeated address, or is the last host alone, repeated, with the address above it excluded too |
| PoolRepeats.FreshRepeats | pkg/ipam/subnet.go:22-46 | for every list of excluded addresses a new subnet up to /30 has the hosts minus the excluded ones free exactly under that condition, which holds if the last host is not excluded or all are; its books balance exactly under it or if the last host alone is excluded more than once and the broadcast address is not the highest of all |
| PoolRepeats.RepeatsHelp | pkg/ipam/subnet.go:49-59 | with a repetition the pool can come out right although the last host is excluded and others are not |
| PoolRepeats.RepairHelps | pkg/ipam/subnet.go:49-59 | so it can with the last host alone three times and the address above it |
| IPRanges.ListContains | pkg/ipam/ip.go:88-96 | the search finds an address exactly when some range of the list holds it |
| IPRanges.SplitIPRangeList | pkg/ipam/util.go:112-144 | the loop with its flag computes the split; nothing is overwritten, kept ranges are the same objects and the others are new |
| IPRanges.MergeIPRangeList | pkg/ipam/util.go:147-187 | false exactly for a listed address; else the merged list, built from the old objects and new ones, no object twice; only End fields of objects of the list are written |
| IPRanges.FuseOne | pkg/ipam/util.go:174-183 | the in-place write of the merge: the End of the last kept object, and no other |
| RangeBuild.GetIPRangeList | pkg/ipam/ip.go:99-132 | the caller's list is left as a sorted permutation, and the new objects are its runs |
| RangeBuild.SplitRangeObj | pkg/ipam/util.go:86-110 | the split on objects: the old object when nothing overlaps, otherwise new ones |
| RangeBuild.SubtractReserves | pkg/ipam/subnet.go:49-59 | the two nested loops compute the subtraction, and no object stands in the result twice |
| SubnetState.RandomExact | pkg/ipam/subnet.go:85-110 | a random request keeps the books exactly when the free list does not start with an empty range |
| SubnetState.StaticExact | pkg/ipam/subnet.go:113-155 | a static request keeps the books exactly when it does not reach the free list at the start of an empty range |
| SubnetState.ReleaseKeeps | pkg/ipam/subnet.go:158-185 | a release always keeps the books |
| SubnetState.TakeEmpty | pkg/ipam/subnet.go:97-104 | being served from an empty range breaks the books |
| SubnetState.StepExact | pkg/ipam/subnet.go:62-185 | for every operation the books stay balanced if and only if a condition that the caller can check before the call holds |
| SubnetState.RunKeeps | pkg/ipam/subnet.go:62-185 | conservation over every safe run: free and held addresses are disjoint, free and held-but-not-reserved together are the initial pool |
| SubnetState.CanonicalStep | pkg/ipam/subnet.go:62-185 | the free list stays canonical exactly when the step is not a static request, inside the subnet and with no MAC in use, for the last address of a longer free range |
| SubnetState.NoTailIsSafe | pkg/ipam/subnet.go:62-185 | a run without such a request is safe throughout and the list is canonical at its end |
| SubnetState.AllBackRestores | pkg/ipam/subnet.go:62-185 | after any safe run, empty ranges or not, once only reserved addresses are held the free list is the initial one range by range |
| SubnetReplies.RandomReply | pkg/ipam/subnet.go:85-110 | in every state with balanced books and no empty range at the head, a pod without an address is granted the lowest pool address that no pod holds, and refused exactly when there is none; the MAC is the one entered for the pod or else the generated one |
| SubnetReplies.StaticReply | pkg/ipam/subnet.go:113-155 | for every safe request: exactly when it is granted, with which MAC, and which of the three errors it gets otherwise, in terms of the initial pool, the holders and the MACs in use |
| SubnetMacs.MacReply | pkg/ipam/subnet.go:85-155 | the MAC that comes with a granted address is the pod's own entry exactly under a condition on the state and the request |
| SubnetMacs.OneMacForAll | pkg/ipam/subnet.go:121-123 | with a MAC entered for the pod named "" all static requests without a MAC are given that one |
| SubnetMacs.RefusedExact | pkg/ipam/subnet.go:113-155 | a refused static request changes nothing exactly when it enters no MAC first; it never changes addresses |
| SubnetMacs.MacStays | pkg/ipam/subnet.go:62-185 | a MAC goes out of use exactly by a release of a pod that holds an address and that MAC |
| SubnetMacs.RetryRefused | pkg/ipam/subnet.go:113-155 | after a refusal, over every run without such a release, each static request that names the MAC is refused without effect |
| SubnetReplies.OutOfRangeExact | pkg/ipam/subnet.go:117-119 | in every run from a new subnet a static request is refused as out of range exactly if its address lies outside the prefix block, and then nothing changes |
| SubnetMacs.MacCalls | pkg/ipam/subnet.go:62-82 | what the two MAC requests return, when the second is refused, and that nothing but one pair of entries changes |
| SubnetReplies.HeldOnce | pkg/ipam/subnet.go:62-185 | after any safe run no two pods hold one address and no held address is free |
| SubnetMaps.AddressMapsStep | pkg/ipam/subnet.go:85-185 | PodToIP and IPToPod stay inverse exactly when the step is not a static request, inside the subnet and with no MAC in use, by a pod that holds an address for another that is free or reserved and unheld |
| SubnetLost.RegrantLoses | pkg/ipam/subnet.go:147-150 | the second grant leaves the first address entered for the pod and held by nobody |
| SubnetLost.LostForEver | pkg/ipam/subnet.go:62-185 | over every safe run such an address stays entered for that pod, held by nobody and not free |
| SubnetRuns.BroadcastHandedOut | pkg/ipam/subnet.go:85-155 | on a new /30 a static request for the last host and two random ones hand out the broadcast address |
| SubnetRuns.SameMacReached | pkg/ipam/subnet.go:121-123 | on a new /30 with a MAC for the pod named "" two pods are given that one MAC |
| SubnetMaps.MacMapsStep | pkg/ipam/subnet.go:62-185 | PodToMac and MacToPod stay inverse exactly when no generated MAC is in use and no pod that has a MAC is given another |
| SubnetMaps.RunMaps | pkg/ipam/subnet.go:62-185 | all four maps stay pairwise inverse over every safe run without these two events |
| SubnetMaps.CidrIsBlock | pkg/ipam/subnet.go:117 | the containment test accepts exactly the addresses of the prefix block |
| SubnetMaps.FreshExact | pkg/ipam/subnet.go:22-46 | if no address is excluded twice, a new subnet up to /30 has the hosts minus the excluded addresses free, and balanced books, exactly when its last host is not excluded or all hosts are |
| Subnets.Subnet.constructor | pkg/ipam/subnet.go:22-46 | builds the state the theorems start from; the caller's list is left sorted |
| Subnets.Subnet.GetRandomMac | pkg/ipam/subnet.go:62-72 | refines the MAC step: an existing MAC is returned, otherwise the generated one is entered in both maps |
| Subnets.Subnet.GetStaticMac | pkg/ipam/subnet.go:75-82 | refines the MAC step: conflict exactly for a MAC in use |
| Subnets.Subnet.GetRandomAddress | pkg/ipam/subnet.go:85-110 | refines the random step with the Start of the first object moved in place; no object becomes shared |
| Subnets.Subnet.GetStaticAddress | pkg/ipam/subnet.go:113-155 | refines the static step, errors and the MAC entered before a later error included |
| Subnets.Subnet.ReleaseAddress | pkg/ipam/subnet.go:158-185 | refines the release step and returns what the pod held |
| NetBytes.OrBytesValue | pkg/ipametcd/backend/allocator/range.go:164-166 | or-ing byte by byte is or-ing the numbers, for any length |
| NetBytes.OrMaskValue | pkg/ipametcd/backend/allocator/range.go:164-166 | the bytes or-ed with the complemented mask are the last number of the prefix block |
| NetBytes.DecrementValue | pkg/ipametcd/backend/allocator/range.go:167-169 | the byte decrement never borrows in a block of at least four addresses, so it subtracts one |
| NetBytes.LastIPBytes | pkg/ipametcd/backend/allocator/range.go:162-172 | the loop builds the or-ed bytes, with byte 3 decremented in wrapping arithmetic for IPv4 |
| Ranges.LastIP | pkg/ipametcd/backend/allocator/range.go:162-172 | the bytes stand for the last address of the subnet, the broadcast address left out for IPv4 |
| Ranges.CanonicalizeAt | pkg/ipametcd/backend/allocator/range.go:28-89 | the field-by-field method computes the canonical form in place, on failure too, and touches no other range |
| Ranges.InNetExact | pkg/ipametcd/backend/allocator/range.go:100-110 | the network test accepts exactly one aligned block (section 3.1 of RFC 4632) |
| Ranges.AcceptExact | pkg/ipametcd/backend/allocator/range.go:28-89 | accepted is exactly a subnet on a multiple of its block size with at least two host bits and a mask of its family, a readable gateway, and bounds inside the block and in order |
| Ranges.CanonExact | pkg/ipametcd/backend/allocator/range.go:28-89 | an accepted range is filled in inside its block; what was given is kept, a missing gateway or start is the address after the network address, a missing end the last of the block or the one before it for IPv4; the start is not above the end exactly outside the broadcast case |
| Ranges.BetweenExact | pkg/ipametcd/backend/allocator/range.go:92-130 | after that a range contains exactly the addresses between its given or default bounds |
| Ranges.ToRangeServes | pkg/ipametcd/backend/allocator/range.go:28-89 | what the walk is given has the configured bounds, gateway and prefix length, or their defaults |
| Ranges.CanonKeeps | pkg/ipametcd/backend/allocator/range.go:28-89 | accepted or refused, the subnet and what was given are kept, and defaults are filled in as far as the test that refuses |
| Ranges.CanonIdempotent | pkg/ipametcd/backend/allocator/range.go:28-89 | canonicalizing again changes nothing, and is accepted exactly outside the broadcast case |
| Ranges.ContainsExact | pkg/ipametcd/backend/allocator/range.go:92-130 | on a filled range containment is lying between the two ends |
| Ranges.OverlapsExact | pkg/ipametcd/backend/allocator/range.go:133-143 | on canonical ranges the four-endpoint test is symmetric and true exactly when some address lies in both |
| Ranges.BroadcastEscapes | pkg/ipametcd/backend/allocator/range.go:62-86 | the inverted range contains nothing; the cursor of the iterator, entering it in any set, never meets its end, and every address it visits after the first lies outside the subnet |
| RangeWalk.CursorNext | pkg/ipametcd/backend/allocator/allocator.go:204-214 | on well-formed sets the cursor rule is the step to the next position in cyclic order |
| RangeIterator.RangeIter.Move | pkg/ipametcd/backend/allocator/allocator.go:204-214 | the fields follow the cursor rule on sets of any form |
| RangeSets.CanonicalizeSet | pkg/ipametcd/backend/allocator/range_set.go:61-91 | accepts exactly non-empty sets of acceptable, one-family, pairwise non-overlapping ranges, and leaves the canonical ranges in place |
| RangeSets.SetOkExact | pkg/ipametcd/backend/allocator/range_set.go:61-91 | without the broadcast case a set is accepted exactly if it is not empty, each range fits, all are of one family, and no address lies in two of them |
| RangeSets.UniqueRange | pkg/ipametcd/backend/allocator/range_set.go:33-45 | in an accepted set an address lies in at most one range, inverted ranges included |
| RangeSets.AcceptedWellFormed | pkg/ipametcd/backend/allocator/range_set.go:61-91 | an accepted set is well formed for the walk exactly when no range is the broadcast case, and holds the same addresses |
| RangeSets.CheckOverlap | pkg/ipametcd/backend/allocator/range_set.go:48-57 | the nested search finds exactly an overlapping pair |
| RangeSets.LoadIPAMConfig | pkg/ipametcd/backend/allocator/config.go:101-155 | what is accepted; and the sets, canonical: the runtime sets in order, then the single range exactly if it is given with a subnet, then the configured sets in order |
| RangeSets.ConfigOkExact | pkg/ipametcd/backend/allocator/config.go:119-155 | without the broadcast case a configuration is accepted exactly if it has a set, every set is acceptable by itself, an old version names at most one set of each family, and no address lies in two sets |
| RangeSets.AcceptedDisjoint | pkg/ipametcd/backend/allocator/config.go:107-155 | an accepted configuration without the broadcast case gives well-formed range sets that share no address, as the walk and Add need |
| RangeWalk.OrdOrder | pkg/ipametcd/backend/allocator/allocator.go:204-214 | the rank of a position follows the order of the ranges, and within a range that of the numbers |
| RangeWalk.FullTurn | pkg/ipametcd/backend/allocator/allocator.go:204-214 | the walk returns to its start after as many steps as the set has addresses |
| RangeWalk.LapHas | pkg/ipametcd/backend/allocator/allocator.go:190-228 | a lap from any start meets exactly the addresses that are not their own range's gateway and not taken |
| RangeWalk.LapOrder | pkg/ipametcd/backend/allocator/allocator.go:190-228 | it meets each of them once, in order of their distance from the start |
| RoundRobin.NextGrantNearest | pkg/ipametcd/backend/allocator/allocator.go:145-186 | a grant exists exactly when an address is allocatable, and it is the nearest one after the last reserved address |
| RoundRobin.StartRank | pkg/ipametcd/backend/allocator/allocator.go:155-184 | the walk starts at rank 0, or one rank behind the last reserved address, cyclically |
| RoundRobin.GrantLeast | pkg/ipametcd/backend/allocator/allocator.go:180-201 | with no last address in the set the grant is the allocatable address of least rank |
| RoundRobin.GrantAfter | pkg/ipametcd/backend/allocator/allocator.go:155-179 | with one it is the nearest allocatable address behind it, itself coming last |
| RoundRobin.Rotate | pkg/ipametcd/backend/allocator/allocator.go:145-149 | resuming after the first address of a lap moves it to the end of the lap |
| RoundRobin.Fairness | pkg/ipametcd/backend/allocator/allocator.go:145-149 | with k allocatable addresses the first k rounds grant each of them once in cyclic order, and then the grants repeat with period k |
| RoundRobin.NoEarlyRepeat | pkg/ipametcd/backend/allocator/allocator.go:145-149 | no address comes again before the whole set has been run through |
| RangeIterator.ClosesExact | pkg/ipametcd/backend/allocator/allocator.go:169-220 | the looped-back test can fire exactly for one range, for no usable last address, or for a last address that ends no range |
| RangeIterator.RangeIter.constructor | pkg/ipametcd/backend/allocator/allocator.go:151-185 | the iterator starts just after the last reserved address, or at the first range |
| RangeIterator.RangeIter.Next | pkg/ipametcd/backend/allocator/allocator.go:190-228 | each call returns the next address of the walk that is no gateway, with its mask and gateway; nil exactly when a closing walk has listed its lap; gateway recursion ends |
| RangeIterator.Enumerate | pkg/ipametcd/backend/allocator/allocator_test.go:78-112 | calling Next until nil lists exactly one lap |
| RangeIterator.EnumerateOn | pkg/ipametcd/backend/allocator/allocator.go:206-220 | a walk that cannot close answers every call and goes on listing what it passes |
| RangeIterator.SeenPeriod | pkg/ipametcd/backend/allocator/allocator.go:206-220 | what it lists repeats lap by lap, so every address is still visited each lap |
| OwnerText.TrimExact | pkg/ipametcd/backend/etcd/backend.go:145 | trimming cuts white space at both ends and nothing else |
| OwnerText.RecognisedExact | pkg/ipametcd/backend/etcd/backend.go:139-169 | a stored owner text is matched again on release exactly when the interface name is blank, or the id is not blank and the interface name does not end in white space |
| OwnerText.OwnerInjective | pkg/ipametcd/backend/etcd/backend.go:80 | stored owner texts differ for different containers and interfaces when the ids hold no line break |
| OwnerText.MatchesExact | pkg/ipametcd/backend/etcd/backend.go:139-169 | trimming and the fallback included, a release by any id finds what was stored under an id that is not blank exactly if it is for that container, and for that interface up to trailing space or no interface was stored, or if one of the two ids spells out the stored value as far as a line break |
| OwnerText.FindsExact | pkg/ipametcd/backend/etcd/backend.go:139-169 | without line breaks in the two ids only the first alternative remains |
| OwnerText.FindsOwn | pkg/ipametcd/backend/etcd/backend.go:139-169 | with interface names that do not end in space that is the very same container and interface |
| OwnerText.BlankIdFound | pkg/ipametcd/backend/etcd/backend.go:139-169 | what is stored under a blank id is found by any container of the interface's name |
| OwnerText.LineBreakFinds | pkg/ipametcd/backend/etcd/backend.go:139-169 | a witness: an id that spells out another owner text finds it |
| Keyspace.KeysApart | pkg/ipametcd/backend/etcd/backend.go:69-97 | address keys are one to one, last-reserved keys are one to one, and no key is both |
| Keyspace.KeyReads | pkg/ipametcd/backend/etcd/backend.go:69-97 | behind the prefix and a slash an address key reads as its address, and a last-reserved key as its name and the range id |
| Keyspace.KeyIsNoAddress | pkg/ipametcd/backend/etcd/backend.go:185-189 | a full key never parses as an address |
| Keyspace.Store.Reserve | pkg/ipametcd/backend/etcd/backend.go:69-91 | refuses exactly a reserved address and then writes nothing; otherwise writes that owner and this range's last address |
| Keyspace.Store.LastReservedIP | pkg/ipametcd/backend/etcd/backend.go:94-101 | returns what the entry of this range parses to |
| Keyspace.Store.Release | pkg/ipametcd/backend/etcd/backend.go:103-105 | deletes exactly the key of that address |
| Keyspace.Store.ReleaseByKey | pkg/ipametcd/backend/etcd/backend.go:139-155 | deletes one key whose trimmed value matches, if there is one, whichever the listing yields first |
| Keyspace.Store.ReleaseByID | pkg/ipametcd/backend/etcd/backend.go:159-170 | deletes exactly one key of the container, one with the interface name if there is any and an old value otherwise, or nothing if there is none |
| Keyspace.Store.GetByID | pkg/ipametcd/backend/etcd/backend.go:173-194 | answers nothing |
| Keyspace.ReserveEncodes | pkg/ipametcd/backend/etcd/backend.go:69-101 | on a keyspace that encodes owners and last addresses, a reservation updates exactly the two decoded entries |
| Keyspace.OwnerPutEncodes | pkg/ipametcd/backend/etcd/backend.go:80 | the put of the owner alone keeps the encoding |
| Keyspace.LastPutEncodes | pkg/ipametcd/backend/etcd/backend.go:85-86 | so does the put of the last address |
| Keyspace.DropEncodes | pkg/ipametcd/backend/etcd/backend.go:103-105 | a release by address removes exactly the decoded owner |
| Keyspace.ReleaseEncodes | pkg/ipametcd/backend/etcd/backend.go:139-170 | a release by id removes the decoded owner of one matching address and no last-reserved entry, if the id is not address text and the listing holds this network only |
| Keyspace.OwnedExact | pkg/ipametcd/backend/etcd/backend.go:139-170 | what a release may delete is exactly what its own container holds, by the condition above: nothing of another container, and no last-reserved entry |
| Keyspace.ReleaseFreesOwn | pkg/ipametcd/backend/etcd/backend.go:159-170 | so the freed address belongs to the releasing container and all others keep their owners |
| Keyspace.LastIsNoOwner | pkg/ipametcd/backend/etcd/backend.go:84-86 | a stored last address is taken for an owner text exactly by a release whose id is that address text |
| Keyspace.LastOwnedExact | pkg/ipametcd/backend/etcd/backend.go:139-170 | so a release can delete a last-reserved entry exactly if its id is the address stored there |
| Keyspace.OwnedReserve | pkg/ipametcd/backend/etcd/backend.go:69-91 | a reservation adds its key to what the container owns exactly when its owner text is recognised |
| Keyspace.ListedExact | pkg/ipametcd/backend/etcd/backend.go:55 | listing one network returns a key of another exactly if the other name starts with this one |
| Keyspace.CrossNetworkExact | pkg/ipametcd/backend/etcd/backend.go:139-153 | a release in one network reaches a reservation of another exactly if the name extends and the container matches |
| Keyspace.OwnKeysExact | pkg/ipametcd/backend/etcd/backend.go:139-153 | a network lists only its own keys exactly if no other network in the store has a name that extends its own |
| Keyspace.CrossNetwork | pkg/ipametcd/backend/etcd/backend.go:139-153 | a witness: a release in network net deletes a key of network net1 |
| Allocators.IPAllocator.GetIter | pkg/ipametcd/backend/allocator/allocator.go:150-186 | the iterator resumes after the stored last address if it lies in the set, else at the first range |
| Allocators.IPAllocator.Get | pkg/ipametcd/backend/allocator/allocator.go:44-121 | succeeds exactly when the requested address, or any, is allocatable; grants that address or the first in cyclic order, with the prefix length and gateway of its range; writes its key and this range's last entry only; a refusal writes nothing and names its reason |
| Allocators.IPAllocator.Release | pkg/ipametcd/backend/allocator/allocator.go:123-129 | deletes one key of the container if it owns any |
| Allocators.ChoiceNearest | pkg/ipametcd/backend/allocator/allocator.go:87-106 | what Get grants is allocatable and nearest after the last reserved address; it refuses only if nothing is allocatable |
| Allocators.ChoiceMeans | pkg/ipametcd/backend/allocator/allocator.go:51-106 | what is granted lies in a range that does not have it as gateway and its key was not in the store; a refusal means the requested address, or every address, is none such |
| Allocators.RefusalMeans | pkg/ipametcd/backend/allocator/allocator.go:56-110 | what each reason for a refusal says of the address, the gateways and the store |
| Allocators.GetNeverEnds | pkg/ipametcd/backend/allocator/allocator.go:91-105 | when the end condition fails there are several ranges, the last address ends one, and everything the walk passes, for any number of steps, is taken |
| Allocators.OnlyGateways | pkg/ipametcd/backend/allocator/allocator.go:216-225 | on a set of gateways alone the walk passes nothing for any number of steps, so a call to Next that cannot close recurses for ever |
| Allocators.StuckExample | pkg/ipametcd/backend/allocator/allocator.go:206-220 | two full ranges on which this happens |
| CrashLoop.Rounds | pkg/ipametcd/backend/allocator/allocator_test.go:234-248 | a container that repeats Get and Release is granted what the round-robin specification says, and no address twice among as many rounds as addresses are free |
| AddRelation.Verdict | pkg/daemon/handler.go:98-143 | with disjoint sets, a finished loop has succeeded exactly when the request was satisfiable before the call, whatever order the request map yields |
| AddRelation.RequestedGranted | pkg/daemon/handler.go:108-133 | success means every requested address was granted, each by the allocator that picked it |
| Rollback.RollbackCount | pkg/daemon/handler.go:120-122 | the container owns afterwards what it owned plus what was granted minus one key per allocator, never less than nothing |
| Rollback.RollbackRestores | pkg/daemon/handler.go:120-122 | a container that owned nothing owns nothing, and all other keys except last-reserved entries are as before |
| Rollback.RollbackSpares | pkg/daemon/handler.go:108-143 | whatever the container owned before, a key it does not own survives the call and its rollback unchanged |
| Rollback.OthersKeep | pkg/daemon/handler.go:108-184 | every reservation held by another container, or another interface by the condition above, keeps its owner through a failed Add and through Del |
| Rollback.RollbackLeaks | pkg/daemon/handler.go:120-122 | if its owner text is not recognised every granted address stays reserved |
| Rollback.AllOrNothing | pkg/daemon/handler.go:108-143 | a failed Add of a container that owned nothing leaves the reservations as they were if and only if nothing was granted or the owner text is recognised, stated on id and interface name |
| RequestTexts.SplitJoins | pkg/daemon/handler.go:98 | the pieces of a request text hold no comma and join to the text |
| RequestTexts.JoinSplits | pkg/daemon/handler.go:98 | no other pieces do |
| RequestTexts.AsksForPieces | pkg/daemon/handler.go:98-106 | the requests are exactly the pieces, each with the address it parses to if it does |
| RequestTexts.AsksFor | pkg/daemon/handler.go:98-106 | the comma-joined texts of addresses ask for exactly these addresses |
| RequestTexts.AllGranted | pkg/daemon/handler.go:98-143 | a successful Add for such a text has granted every address it names |
| Daemon.Pick | pkg/daemon/handler.go:110-116 | some remaining request that lies in the set, or none exactly if there is none |
| Daemon.UnparsedFails | pkg/daemon/handler.go:102-143 | a request with a text that is no address always fails |
| Daemon.EmptyRequestFails | pkg/daemon/handler.go:98-143 | a request that names no address always fails |
| Daemon.IdleMaySearch | pkg/daemon/handler.go:109-118 | an allocator is left without a request only if earlier allocators can take every text that fits its set |
| Daemon.SettlesAfter | pkg/daemon/handler.go:108-129 | a grant by another allocator costs the search of this one at most one free address, and none if the sets share no address |
| Daemon.DisjointSearches | pkg/daemon/handler.go:108-129 | with disjoint sets it is enough that each search ends before the call |
| Daemon.IpamServer.Add | pkg/daemon/handler.go:90-158 | the loop over the allocators, the two failure paths with their rollback, the unreadable resolver file that returns without one, and one configuration per allocator on success |
| Daemon.IpamServer.Del | pkg/daemon/handler.go:161-184 | deletes as many keys of the container as there are allocators, or all if it owns fewer |
| Daemon.ItoaReads | pkg/ipametcd/backend/allocator/allocator.go:39 | the range id is the decimal text of the index, without a leading zero |
| Daemon.ItoaInjective | pkg/ipametcd/backend/allocator/allocator.go:35-41 | allocators of one server track their last address under different ids |
| Daemon.NewIpamServer | pkg/daemon/handler.go:42-49 | every allocator is left with the last range set; over well-formed sets the server is ready to serve |
| Startup.BuiltDisjoint | pkg/daemon/handler.go:42-49 | its allocators serve disjoint sets exactly if there is at most one |
| Startup.AcceptedServer | pkg/daemon/handler.go:32-50 | built from an accepted configuration without the broadcast case it is ready to serve, and serves only the last set; its ranges have the configured bounds, gateways and prefix lengths |
| Daemon.OwnSetOnlyIfOne | pkg/daemon/handler.go:42-49 | with disjoint sets each allocator serves its own set exactly when there is at most one |
| SharedSets.GrantsDiffer | pkg/daemon/handler.go:108-129 | allocators that share a set grant different addresses, each free at the start |
| SharedSets.SharedVerdict | pkg/daemon/handler.go:42-49 | for the server as it is built, a finished Add has succeeded exactly when all texts name different allocatable addresses of the shared set, no more than allocators, and the set has an allocatable address for every allocator |
| Interleaving.StepKeeps | pkg/ipametcd/backend/etcd/backend.go:69-170 | every request of every daemon, lock and unlock included, keeps the invariant |
| Interleaving.RunInv | pkg/ipametcd/backend/allocator/allocator.go:44-129 | it holds in every state of every run of any number of daemons |
| Interleaving.PutFindsNothing | pkg/ipametcd/backend/etcd/backend.go:72-82 | a daemon about to put an owner finds none there, though its get was a separate request |
| Interleaving.NoOverwrite | pkg/ipametcd/backend/etcd/backend.go:69-91 | no step of any run replaces the owner of a reserved address |
| Interleaving.Serializable | pkg/ipametcd/backend/allocator/allocator.go:44-129 | whenever the lock is free the store is what the finished calls leave one after the other, each returning what it returns when it runs alone |
| Interleaving.NoDoubleAllocation | pkg/ipametcd/backend/allocator/allocator.go:44-129 | between two Gets that return the same address some release has freed it |
| Interleaving.FreedByItsHolder | pkg/ipametcd/backend/allocator/allocator.go:44-129 | and that release was called for the container the address was granted to, if its id is a proper one |
| Interleaving.RequestDecodes | pkg/ipametcd/backend/etcd/backend.go:69-170 | put by put and delete by delete, the flat keyspace stays an encoding of the two maps of the run |
| Interleaving.EffectDecodes | pkg/ipametcd/backend/etcd/backend.go:69-105 | a finished call has done to the flat keyspace what the store's own operation does |
| Interleaving.LegalIsChoice | pkg/ipametcd/backend/allocator/allocator.go:44-121 | what a Get may return in a run is what the allocator chooses on the flat keyspace |
| Interleaving.LegalIsForemost | pkg/ipametcd/backend/etcd/backend.go:139-170 | what a release may free in a run is what the store deletes from the flat keyspace |
| Interleaving.FirstCandidate | pkg/ipametcd/backend/allocator/allocator.go:91-105 | probing the lap one by one finds the same address as the specification of Get |
| Interleaving.TrapExact | pkg/ipametcd/backend/allocator/allocator.go:206-220 | a Get without a requested address runs into an endless search exactly if the looped-back test cannot fire and nothing is allocatable |
| Interleaving.TrappedForEver | pkg/ipametcd/backend/allocator/allocator.go:91-105 | from then on no state of the run frees the lock, changes the store or finishes a call |
| Interleaving.WithoutLock | pkg/ipametcd/backend/allocator/allocator.go:45 | if daemons go on without the lock, from every store there is a run in which two Gets return the same address and the second put replaces the owner |

## Left out

- RangeSets.SetOkExact: is about ranges without the broadcast case; `UniqueRange` holds for all.
- RangeSets.ConfigOkExact: is about ranges without the broadcast case, too.
- Allocators.IPAllocator.Get: requires that its search can end (`Ends`). In the remaining case the source loops for ever, which `GetNeverEnds` proves; Dafny methods here all terminate.
- Daemon.IpamServer.Add: requires the same (`SearchesEnd`) of the allocators that may be left without a requested address, counting the earlier allocators of the same call whose sets share an address with this one. The abandoned reply keeps its reservations, as the source does.
- RangeIterator.RangeIter.Next: requires, for a walk that cannot close, that some address is not a gateway; otherwise the source recurses for ever, as `OnlyGateways` shows.
- PoolSplit.PoolWithStraddle: is about lists in which no address is excluded twice. For others `RepeatsExact` decides when the pool is exact; what else is free when it is not is stated without repetitions only.
- SubnetMaps.FreshExact: is about lists without repetitions; `FreshRepeats` is the general case, with both conditions on the runs.
- OwnerText.FindsExact: is the case of ids without a line break; `MatchesExact` is about all stored ids that are not blank and `BlankIdFound` about the others.
- Ranges.BroadcastEscapes: follows the cursor; the looped-back test and the gateway test of the iterator are modelled on well-formed sets only.
- CrashLoop.Rounds: is about a container that owns nothing at the start and whose owner text is recognised; with an unrecognised text nothing is ever released.
- Interleaving.RunInv: works on the decoded maps rather than on the flat keyspace. `RequestDecodes`, `LegalIsChoice` and `LegalIsForemost` connect the two, under their conditions. It assumes a mutually exclusive lock, one request at a time per lock session, lock calls that succeed, and no lease that expires inside the section.
- RangeBuild.GetIPRangeList: the library sort is a plain selection sort here; only its result matters.
- Ranges.CanonicalizeAt: a mask that is not a run of leading ones is one value whose size is (0, 0), as the library reports it. With that size the range is refused before its bytes matter.
- Addresses are numbers, not text. Printing and parsing are parameters of `Naming` with the two laws in `CodecOk`: printed addresses parse back, and only address characters parse. For `pkg/ipam` canonical text is assumed where the source compares strings.
- IPv4-mapped IPv6 text, and the length in bytes of what the library's next-address function returns at the ends of the address space.
- IPv6 in `pkg/ipam` (the source handles IPv4 only), and unparsable CIDR or address text there.
- Errors of the etcd client, its sessions and leases, and `pkg/ipametcd/backend/etcd/lock.go`.
- HTTP, JSON, the unix socket, `parseResolvConf` (a parameter says whether it fails), logging and error texts.
- Random MAC generation (`pkg/ipam/util.go:189-226`): the generated address is a parameter.
- Go mutexes: the methods of `Subnet` are atomic.
- `Check` with `FindByID`, `ContainAddress`, `GetPodAddress`: lookups that change nothing.
- `pkg/ipametcd/backend/testing/fake_store.go`: a test double with other release semantics.
- `cmd/cni`, `cmd/kubeovsd` and `pkg/controller`: system calls and stubs without an algorithm.
