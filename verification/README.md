# Egress IP address management, verified

This project models the reconcile cycle of the egress-IP operator and proves what it guarantees. One cycle

1. reads the namespaces that refer to an EgressIPAM resource, and gives each one without addresses the next free
   address of every CIDR block (`Namespaces`, `Assignment`, `Allocation`);
2. places all addresses of the namespaces on the ready nodes, keeping what is already in place and giving the rest to
   the least loaded nodes by a bucket queue (`Scheduler`, `Buckets`, `Rounds`, `NodeAssignment`);
3. brings the cloud instances to that schedule in two phases of concurrent calls (`Instances`; `Azure` for the list
   form), and then the hostsubnets (`HostSubnets`).

`Reconcile` puts the parts together in the order of the program and says exactly how a cycle ends. `Observed` says it again
in terms of labels, conditions, annotations, hostsubnets and instances alone, and `Notation` says what the texts of
addresses and annotations mean, so that a definition which the program and its specification have in common is compared
with what it is to mean. `Given` is about the
addresses that cycles give away, `Sharing` about what the namespaces have in common, and `Fixpoint` about the cycle after
one that succeeded. `NamespaceRuns` and `NodeRuns` are about cycles that succeed or stop anywhere, between changes of the
cluster.

The reference definitions against which the program is proved are separate from it: `FreeLists` (the ascending list of
unused addresses of a block), `Placement` (what a placement has to be), `Balance` (loads and levels), and the state
machine of `Instances`. `PlacementTheorems` derives everything from `Placement` alone.

## How the program is modelled

* An address is a number below 2^32, a block (`Cidr`) is the address as it is written and a prefix length (section 3.1
  of RFC 4632). `Words` has the bit operations bit by bit. All prefix lengths from 0 to 32 are covered: network sizes
  and additions to addresses are taken modulo 2^32.
* Maps are iterated and sets are listed in arbitrary order, by choosing an element that satisfies a condition, so every
  contract covers all orders.
* Annotations are text. `Text` has splitting, joining, and dotted-quad notation as the Go library reads it since
  version 1.17 (no leading zeros). `AddressText` shows that text and address correspond one to one; from there on
  hostsubnets carry addresses.
* Whether an update or a cloud call goes through is an input. A cloud call that fails may have been carried out in
  part. A call for an instance is one atomic step. On AWS a node without surplus or missing addresses has no call, on
  Azure its interface is written all the same.
* `hide` statements in proofs only keep definitions from the solver that the proof does not need.

What the program relies on, and the model therefore requires: the resource is valid and its blocks do not overlap;
infrastructure addresses are in their blocks; a selected hostsubnet lists an address once; every selected node has an
instance on a cloud platform. Two hostsubnets may have the same address, as a cycle can leave it
(`NodeRuns.CycleKeepsHosts`); then the scheduler keeps it on both (`OnceIff`). A block need not be written with its first
address, but then that address can be given away (`NetworkAddressProtected`).

Four findings, each with the exact condition:

* The first address of a block is protected in every cycle only when the block is written with it
  (`NetworkAddressProtected`); otherwise `NetworkAddressGiven` has a cluster in which a namespace gets it.
* An annotation with more addresses than blocks does not protect the extra ones: the addresses in annotations are kept
  exactly when every extra one is used otherwise (`ExtraNotProtected`). `ExtraGiven` says when one is given to another
  namespace, `ExtraGivenAway` has a case.
* An instance that is left out of the schedule makes the two phases unsafe exactly when it holds an address that another
  one is to have (`SafeIffCovered`), which can be seen before the cycle (`CoveredIff`). A ready node that belongs to no
  block is such a case (`LeftOutUnsafe`).
* Rejected hostsubnet updates leave an address on two nodes exactly when a rejected node still has an address that is on
  another one by now (`PartialUpdate`). Some rejections do so exactly when a wanted address is on a hostsubnet whose node
  is not ready (`SafeFromRejections`).

## Model

| member | source | states |
|---|---|---|
| Words.AndMask | controllers/egressipam/ipam.go:28-33 | masking a word with a netmask rounds it down to a multiple of the block size, for every mask |
| Words.OrNotMask | controllers/egressipam/ipam.go:33 | the complemented netmask OR an address of a block is the last address of that block, for every mask |
| Words.SameBlock | controllers/egressipam/namespace.go:108 | two numbers have the same network part exactly when one is within the block of the other |
| Words.BlockFits | controllers/egressipam/ipam.go:142 | a block contains its written address and does not leave the word |
| Words.RoundDownIsMultiple | controllers/egressipam/ipam.go:28-33 | blocks start at multiples of their size |
| Addresses.Cidr.SamePrefix | controllers/egressipam/namespace.go:108 | a block of prefix p has 2^32 / 2^p addresses, those with the same quotient by that size as the written one |
| Addresses.Cidr.MaskDecides | controllers/egressipam/namespace.go:108 | membership decided by masks is membership in the interval from the first to the last address |
| Addresses.Cidr.BroadcastIsLast | controllers/egressipam/ipam.go:27-34 | the computed broadcast address is the greatest address of the block (section 3.2.1.3 of RFC 1122) |
| Text.SplitJoin | controllers/egressipam/ipam.go:89 | splitting at the separator undoes joining, for pieces without separator |
| Text.JoinSplit | controllers/egressipam/namespace.go:100 | joining undoes splitting, for every text |
| Text.AddressText | controllers/egressipam/ipam.go:105-109 | a text is read as an address exactly when it is the text written for it, so sets of texts are sets of addresses |
| Text.AnnotationRoundTrip | controllers/egressipam/ipam.go:84-89 | the annotation written for a list of addresses is read back address by address, in order |
| Notation.AddressMeans | controllers/egressipam/egressipam_controller.go:407-408 | four decimal numbers below 256 joined by dots are read as their value in base 256, the first the highest |
| Notation.OnlyNumerals | controllers/egressipam/egressipam_controller.go:408-412 | no other text is read as an address |
| Notation.WrittenMeans | controllers/egressipam/ipam.go:84-89 | every address is written as such numbers |
| Notation.PositionsMean | controllers/egressipam/namespace.go:100 | the positions of an annotation are the pieces between commas |
| Notation.TenDotOne | controllers/egressipam/ipam.go:84-89 | two addresses as they are read and written |
| FreeLists.FreeElements | controllers/egressipam/ipam.go:142-152 | the reference list is strictly increasing and has exactly the unused addresses of the block |
| FreeLists.FreeTail | controllers/egressipam/ipam.go:128-129 | once its head is used, the reference list is its tail |
| FreeLists.FreeCount | controllers/egressipam/ipam.go:142-144 | free and used addresses of a block add up to its size |
| Slices.Append | controllers/egressipam/ipam.go:148 | append works in place while there is room and on a copy otherwise; the result is the concatenation |
| Slices.InsertAt | controllers/egressipam/ipam.go:148 | the insertion by two overlapping appends is right whatever the capacity of the slice |
| Allocation.TracksBounds | controllers/egressipam/ipam.go:142-149 | an ascending list of addresses of a block that ends with the last one is never ahead of the block and not longer than it |
| Allocation.GapExists | controllers/egressipam/ipam.go:145-153 | pigeonhole: such a list has a gap exactly when it is shorter than the block |
| Allocation.NoGapOutcome | controllers/egressipam/ipam.go:153 | the search never falls off the end of a list the controller builds |
| Allocation.GapFilled | controllers/egressipam/ipam.go:146-150 | filling the first gap keeps the list ascending, in its block, and adds just that address |
| Allocation.GetNextAvailableIP | controllers/egressipam/ipam.go:135-154 | gives the least free address and the list with it, or reports exhaustion exactly when nothing is free; for any list, the result is the first gap |
| Allocation.UsedAddresses.GetNextAvailableIPs | controllers/egressipam/ipam.go:118-133 | succeeds exactly when no block is exhausted; then every block gives its least free address, whatever the order of blocks |
| Namespaces.GetReferringNamespaces | controllers/egressipam/namespace.go:65-88 | exactly the referring namespaces, split by whether they have addresses, each once in its list |
| Namespaces.SortIPsByCIDR | controllers/egressipam/namespace.go:93-118 | succeeds exactly when every annotation has a readable address of the right block at each position; otherwise reports the first problem; a position that is missing is an index error |
| Namespaces.ReadAllElements | controllers/egressipam/namespace.go:98-116 | an address counts as used in a block exactly when a namespace has it at a position of that block |
| Assignment.AddNetworkAddresses | controllers/egressipam/ipam.go:27-35 | adds the written and the last address of every block |
| Assignment.GetNodesIPsByCIDR | controllers/egressipam/node.go:137-152 | the host addresses within each block; fails exactly when a node has no hostsubnet |
| Assignment.RemoveDuplicates | controllers/egressipam/ipam.go:100-114 | the same addresses, each once, in any order |
| Assignment.SortIPs | controllers/egressipam/ipam.go:156-174 | the same addresses, strictly increasing |
| Assignment.CollectUsed | controllers/egressipam/ipam.go:19-75 | the allocator starts from the ascending list of exactly the used addresses, with the last address of the block among them; fails exactly when something cannot be read |
| Assignment.AssignIPsToNamespaces | controllers/egressipam/ipam.go:19-98 | the namespaces served are a prefix of the list; number j gets the j-th free address of every block as of the start; what stops the loop and what is stored then |
| Assignment.Capacity | controllers/egressipam/ipam.go:66-97 | with all updates accepted, k namespaces are served exactly when every block has k addresses beside the used ones |
| Assignment.AddAwsReserved | controllers/egressipam/aws/aws.go:60-76 | the three addresses after the written one are added for every reported block |
| Assignment.AwsReservedAre | controllers/egressipam/aws/aws.go:70-74 | these are the written address plus 1, 2 and 3 in 32-bit arithmetic |
| Assignment.AwsReservedInBlock | controllers/egressipam/aws/aws.go:73 | they are in the block, as the gap search needs, exactly when the block does not end before (or is the whole space) |
| Assignment.AwsReservedCanonical | controllers/egressipam/aws/aws.go:73 | for a block written with its first address that means a prefix length of at most 30 |
| Loading.IsValid | controllers/egressipam/egressipam_controller.go:295-321 | valid exactly when every reserved address can be read and is in its own block |
| Loading.LoadLabels | controllers/egressipam/egressipam_controller.go:403-405 | a label value selects the block of the last entry with it |
| Loading.LastDecides | controllers/egressipam/egressipam_controller.go:405 | the block selected is that of the last entry with the label value, and there is none only when no entry has it |
| Loading.LoadReserved | controllers/egressipam/egressipam_controller.go:403-423 | the reserved addresses by block, of the last entry that lists the block; fails exactly when one cannot be read |
| Loading.ReservedForEntry | controllers/egressipam/egressipam_controller.go:403-420 | for blocks listed once, those are the addresses of the entry |
| Loading.ReservedElements | controllers/egressipam/egressipam_controller.go:407-419 | the reserved addresses are exactly those that the listed texts denote |
| Loading.IsCondition | controllers/egressipam/node.go:128-135 | whether the condition is present with that status |
| Loading.SelectNodesByCIDR | controllers/egressipam/egressipam_controller.go:525-534 | a node is listed under a block exactly when the selector matches it and the last entry with its label value has the block; each once |
| Loading.OneBlockPerNode | controllers/egressipam/egressipam_controller.go:525-534 | so a node is in at most one block, and only selected nodes are |
| Loading.GetAssignedIPsByNode | controllers/egressipam/node.go:117-126 | the addresses of the selected hostsubnets whose nodes are ready |
| Buckets.GetMinKey | controllers/egressipam/ipam.go:321-333 | the least key of a nonempty bucket, -1 when all are empty |
| Buckets.BuildQueue | controllers/egressipam/ipam.go:270-275 | each ready node is in exactly one bucket, once, and its key is the length of its list |
| Buckets.QueueMove | controllers/egressipam/ipam.go:292-299 | moving the head of a bucket to the next one keeps that, with the longer list |
| Buckets.PlaceOne | controllers/egressipam/ipam.go:285-299 | the address goes to a least loaded node of the block; fails exactly when the block has no ready node |
| Scheduler.CarriedByBlock | controllers/egressipam/ipam.go:195-209 | for each block the addresses carried by nodes |
| Scheduler.WantedByBlock | controllers/egressipam/ipam.go:211-231 | for each block the readable addresses of the namespaces, at any position |
| Scheduler.DiffAndKeep | controllers/egressipam/ipam.go:233-243 | what is wanted but not carried, and what is both, each address once |
| Scheduler.KeepOnNodes | controllers/egressipam/ipam.go:246-258 | each node keeps exactly those of its addresses that are to be kept, once |
| Rounds.PlaceBlock | controllers/egressipam/ipam.go:282-300 | every address of the block goes to one of its nodes; lists only grow; who received one ends at most one above the others; the queue stays right |
| Rounds.PlacedStep | controllers/egressipam/ipam.go:281-301 | handling one block keeps what was done for the others, although the lists of nodes are shared |
| Rounds.PlaceBlocks | controllers/egressipam/ipam.go:280-301 | the same for all blocks in any order, with every queue right at the end; stops exactly when a block with something to place has no ready node |
| NodeAssignment.FillNodes | controllers/egressipam/ipam.go:303-316 | the two resets to empty add nodes without addresses and erase nothing |
| NodeAssignment.AssignIPsToNodes | controllers/egressipam/ipam.go:177-319 | fails exactly when some block has an address to place and no ready node; otherwise the result is a placement: kept addresses stay where they are, also on two nodes, missing ones are on ready nodes of their block, each once, balanced, and the nodes that appear are as they should be |
| Balance.LeastOver | controllers/egressipam/ipam.go:281-301 | a balanced distribution has the least load above every level at once |
| Balance.Confluence | controllers/egressipam/ipam.go:281-301 | two balanced distributions of the same total have the same loads up to order |
| PlacementTheorems.ExactlyTheWanted | controllers/egressipam/ipam.go:187-318 | the addresses on nodes are exactly those of the namespaces within the blocks |
| PlacementTheorems.WhereItIs | controllers/egressipam/ipam.go:246-301 | an address on a node is there once and the node is ready; one that was carried is on exactly the nodes that carried it; any other is on one node, of its own block |
| PlacementTheorems.OnceIff | controllers/egressipam/ipam.go:246-258 | every address is on one node only exactly when no wanted one was carried by two ready nodes |
| PlacementTheorems.SumOfLoads | controllers/egressipam/ipam.go:295-299 | the loads of nodes add up to what is kept and what is new |
| PlacementTheorems.BlockAddresses | controllers/egressipam/ipam.go:281-301 | what is new on the nodes of a block is what the block has to place |
| PlacementTheorems.PlacementBalanced | controllers/egressipam/ipam.go:281-301 | on the nodes of a block, one that received an address ends at most one above any other, for all initial loads |
| PlacementTheorems.MinMaxOptimal | controllers/egressipam/ipam.go:268-301 | no way to place the same addresses under the same rules has a smaller maximum load, or less load above any level |
| PlacementTheorems.LoadProfileConfluence | controllers/egressipam/ipam.go:268-301 | the loads of the nodes of a block are the same up to order for every order of iteration and every choice among equals |
| PlacementTheorems.NothingToPlace | controllers/egressipam/ipam.go:233-258 | when every wanted address is carried, each node ends with just what it keeps |
| Instances.InvStep | controllers/egressipam/aws/aws.go:132-220 | what every step of the two phases keeps, with calls failing or carried out in part, to the end of a failed run too |
| Instances.NoDisruption | controllers/egressipam/aws/aws.go:132-220 | in every interleaving, whatever fails, an instance always has the addresses it had and is to have, and none that it neither had nor is to have |
| Instances.NeverTwice | controllers/egressipam/aws/aws.go:80-93 | in every interleaving, whatever fails, no address is ever on two instances |
| Instances.AssignsFreeAddresses | controllers/egressipam/aws/aws.go:178-220 | an assign call names only addresses that no instance holds at that moment |
| Instances.Converges | controllers/egressipam/aws/aws.go:139-192 | although both phases compute from what was read first, success leaves each node of the schedule with its target and the others alone |
| Instances.SafeIffCovered | controllers/egressipam/aws/aws.go:135-146 | safety in all interleavings holds exactly when no instance outside the schedule holds an address of the schedule |
| Instances.WaitIsNeeded | controllers/egressipam/aws/aws.go:169-175 | without the drain between the phases safety would hold exactly for schedules in which no address moves |
| Instances.CloudInstances.RunPhase | controllers/egressipam/aws/aws.go:132-175 | one phase of the program is a run of the state machine that ends with all results in; what it leaves, and that it succeeds exactly when every call made is carried out |
| Instances.CloudInstances.ReconcileInstanceSecondaryIPs | controllers/egressipam/aws/aws.go:80-93 | every execution of the program is a run of the state machine to its end; success exactly when no call that is made is broken, and the instances in each case |
| Instances.BothGoIff | controllers/egressipam/aws/aws.go:147-166 | the calls made are those of nodes with something to take away, then with something to add, and on Azure of every node |
| Instances.EndOf | controllers/egressipam/aws/aws.go:147-214 | what a node ends with: broken calls leave or fail to bring some addresses, and nothing is added after a broken removal |
| Instances.AllCarriedOut | controllers/egressipam/aws/aws.go:80-93 | when all calls are carried out each node has its target |
| Instances.NothingToChange | controllers/egressipam/aws/aws.go:147-166 | when every node has its target nothing changes whatever becomes of the calls, and on AWS nothing fails |
| Azure.RemoveUnNeeded | controllers/egressipam/azure/azure.go:400-422 | the configurations whose address is not a surplus secondary one, in order |
| Azure.AddNeeded | controllers/egressipam/azure/azure.go:469-504 | the configurations followed by one new secondary one for each missing address |
| Azure.NamesDiffer | controllers/egressipam/azure/azure.go:486 | the new configurations have names of their own |
| Azure.NothingLost | controllers/egressipam/azure/azure.go:400-504 | no primary, address-less or wanted configuration is lost, and new ones are secondary ones of the target |
| Azure.EndsAtTarget | controllers/egressipam/azure/azure.go:400-504 | at the end the addresses of configurations that are not primary are those of the target |
| Azure.SameAsSets | controllers/egressipam/azure/azure.go:379-526 | both phases on lists are the set steps of the protocol, and the secondary addresses end as the target |
| Azure.OthersKept | controllers/egressipam/azure/azure.go:411-421 | primary and address-less configurations survive in order exactly when no surplus address is also that of a primary one; distinct addresses guarantee it |
| Azure.DistinctKept | controllers/egressipam/azure/azure.go:483-502 | distinct addresses stay distinct exactly when the target avoids those of primary configurations |
| HostSubnets.ReconcileHSAssignedIPs | controllers/egressipam/hostsubnet.go:109-134 | exactly the accepted updates of selected hostsubnets that differ are made; success exactly when none was rejected |
| HostSubnets.PartialUpdate | controllers/egressipam/hostsubnet.go:112-133 | after rejected updates an address is on one selected hostsubnet only exactly when no rejected node still has one that is to be elsewhere |
| Reconcile.ServedLookup | controllers/egressipam/ipam.go:77-97 | each namespace after serving: with its share if it was served, otherwise as before |
| Reconcile.FinallyAssigned | controllers/egressipam/egressipam_controller.go:186-194 | after serving, the scheduler's list has the addresses of all referring namespaces |
| Reconcile.InputWellFormed | controllers/egressipam/egressipam_controller.go:507-536 | the scheduler's precondition follows from how its input is loaded |
| Reconcile.SelectedAreServed | controllers/egressipam/ipam.go:303-316 | when every selected node belongs to a block no instance is left out of the schedule |
| Reconcile.CoveredIff | controllers/egressipam/aws/aws.go:135-146 | the condition for the safety of the two phases, from the input of the cycle: no instance that will be left out holds a wanted address |
| Reconcile.LeftOutUnsafe | controllers/egressipam/ipam.go:268-316 | a case in which the schedule leaves out an instance and the two phases put an address on two |
| Reconcile.WriteSchedule | controllers/egressipam/egressipam_controller.go:221-233 | instances first, hostsubnets only after all calls went through; the state and the error in each case |
| Reconcile.WrittenInFull | controllers/egressipam/egressipam_controller.go:221-233 | when nothing fails the schedule is on instances and hostsubnets |
| Reconcile.ReadResource | controllers/egressipam/egressipam_controller.go:403-423 | a cycle reads the reserved addresses of every entry of the resource |
| Reconcile.InstancesSafe | controllers/egressipam/aws/aws.go:80-93 | whatever fails in writing a schedule that has each address once, no address gets onto two instances, provided no instance outside the schedule holds one of its addresses |
| Reconcile.InstancesKeep | controllers/egressipam/aws/aws.go:80-93 | and each instance keeps the addresses it had and is to have |
| Reconcile.ProcessReconcileContext | controllers/egressipam/egressipam_controller.go:179-245 | the whole cycle, for each way it can end: the namespaces are served from the start state; nothing else is touched before all are served; a block without ready node stops it exactly when it has something to place; otherwise a placement is written, up to the first failed call and all but the rejected updates; each error has its cause |
| Reconcile.Succeeded | controllers/egressipam/egressipam_controller.go:179-245 | after a success the placement of all addresses is on hostsubnets and instances |
| Reconcile.SucceedsIff | controllers/egressipam/egressipam_controller.go:179-245 | a cycle succeeds exactly when everything can be read, every block has room, no block is without ready node, and no update or call fails |
| Given.GivenIsUnused | controllers/egressipam/ipam.go:77-79 | an address given away is in its block and not among the used ones |
| Given.InOrder | controllers/egressipam/ipam.go:77-97 | namespaces served one after the other get ascending, so different, addresses |
| Given.NonePassedOver | controllers/egressipam/ipam.go:145-151 | no usable address is passed over |
| Given.GrantedCarries | controllers/egressipam/ipam.go:77-89 | a served namespace has exactly its share at the positions of the blocks |
| Given.UsedIffProtected | controllers/egressipam/ipam.go:19-64 | what the allocator counts as used is what namespaces, resource, nodes and infrastructure say |
| Given.NewAddressesAvoid | controllers/egressipam/ipam.go:19-98 | every annotation that a cycle changes gets one address of each block, which is not the last, not the written one, no reserved text of the resource, not of a node, not of the infrastructure and not of a namespace |
| Given.NetworkAddressProtected | controllers/egressipam/ipam.go:28-34 | the first address of a block is free in no cycle exactly when the block is written with it |
| Given.FirstAddressFirst | controllers/egressipam/ipam.go:145-151 | when it is not used for anything it is the first to be given away |
| Given.NetworkAddressGiven | controllers/egressipam/ipam.go:28-34 | a cluster in which the first namespace served gets it |
| Given.PositionProtected | controllers/egressipam/namespace.go:101-114 | the address at the position of a block counts as used in it |
| Given.KeptIffUsed | controllers/egressipam/namespace.go:93-118 | no address in an annotation is given away exactly when each counts as used in its block |
| Given.ExtraNotProtected | controllers/egressipam/namespace.go:92-114 | for accepted annotations that is so exactly when every address after the positions of the blocks is used otherwise |
| Given.ExactAnnotationsKept | controllers/egressipam/namespace.go:92-114 | annotations with one address per block are safe |
| Given.ServedHas | controllers/egressipam/ipam.go:77-97 | after a cycle each served namespace has, of each block, its number of the addresses that were free at the start, and no other |
| Given.ExtraGiven | controllers/egressipam/namespace.go:92-114 | in a cycle the holder of an extra address keeps it, and another namespace gets it exactly when its place in the order of the free addresses has come |
| Given.ExtraGivenAway | controllers/egressipam/namespace.go:92-114 | a case in which the next namespace gets an extra address |
| Sharing.GrantedFits | controllers/egressipam/namespace.go:99-113 | the parser accepts what was written for a namespace, and there is nothing after the positions of the blocks |
| Sharing.StaysReadable | controllers/egressipam/namespace.go:93-118 | a cycle leaves no annotation that the next one would refuse |
| Sharing.CycleKeepsNoSharing | controllers/egressipam/ipam.go:19-98 | a cycle, stopped after any number of namespaces, never makes two namespaces share an address |
| Sharing.NothingInCommon | controllers/egressipam/namespace.go:101-113 | for annotations as the program writes them and disjoint blocks, not sharing means no common address at any positions |
| Fixpoint.EverybodyServed | controllers/egressipam/egressipam_controller.go:186-194 | after a successful cycle every referring namespace has addresses |
| Fixpoint.NextReadable | controllers/egressipam/namespace.go:93-118 | the next cycle can read everything |
| Fixpoint.NothingLeftToPlace | controllers/egressipam/ipam.go:233-258 | it finds every wanted address carried, where it was put, so no block stops it |
| Fixpoint.WritesNothing | controllers/egressipam/hostsubnet.go:109-134 | writing a schedule that is in place changes nothing, and only a call that changes nothing can fail |
| Fixpoint.SecondCycle | controllers/egressipam/egressipam_controller.go:179-233 | in an unchanged cluster any cycle after a successful one serves nobody, places nothing and leaves everything as it is, even if every update would be rejected; it cannot fail but for the netnamespaces and, on Azure, calls that change nothing |
| Observed.OnlyOursServed | controllers/egressipam/namespace.go:75-83 | a cycle changes a namespace only by giving addresses to one whose annotation names the resource and that has none |
| Observed.EveryAddressServed | controllers/egressipam/egressipam_controller.go:179-233 | after a success every address that a namespace of the resource has in a block is on the hostsubnet of a ready node matched by the selector, and on AWS and Azure on its instance |
| Observed.NothingElseServed | controllers/egressipam/egressipam_controller.go:179-233 | and nothing else is on such hostsubnets; what was not there before is on a node whose label selects the block of the address |
| Observed.InstanceOf | controllers/egressipam/egressipam_controller.go:221 | after a success on AWS and Azure each instance of the schedule has what the schedule says; on bare metal none changes |
| Observed.ReadableIff | controllers/egressipam/namespace.go:93-118 | everything can be read exactly when every node has a hostsubnet and every annotation an address of the right block at each position |
| Observed.RoomIff | controllers/egressipam/ipam.go:66-97 | there is room exactly when every block has as many addresses that are not protected as namespaces wait |
| Observed.StuckMeans | controllers/egressipam/ipam.go:281-290 | a block stops the schedule exactly when a wanted address of it is on no ready hostsubnet and no ready matched node has its label |
| Observed.SucceedsWhen | controllers/egressipam/egressipam_controller.go:179-245 | when exactly a cycle succeeds, in terms of annotations, labels, conditions, hostsubnets, instances and the calls and updates that go through |
| Observed.FailsBecause | controllers/egressipam/egressipam_controller.go:186-233 | each way to fail has its cause |
| Observed.FailureTouches | controllers/egressipam/egressipam_controller.go:186-233 | which failures touch hostsubnets and instances |
| Observed.HostAfter | controllers/egressipam/hostsubnet.go:116-120 | what writing the schedule changes in a hostsubnet, and when |
| Observed.InstanceAfter | controllers/egressipam/aws/aws.go:132-220 | what an instance has after the schedule was written, whatever failed |
| NamespaceRuns.CycleHappens | controllers/egressipam/egressipam_controller.go:179-245 | every cycle, however it ends, is an event of the runs |
| NamespaceRuns.NeverShared | controllers/egressipam/egressipam_controller.go:179-194 | over every run of cycles that serve any number of namespaces, creations, deletions, outside annotations and opt-outs, with anything happening to hostsubnets, nodes and instances, no two namespaces ever share |
| NamespaceRuns.NeverInCommon | controllers/egressipam/egressipam_controller.go:179-194 | when outside annotations have one address per block, no two namespaces ever have an address in common and no annotation is ever refused |
| NodeRuns.WriteKeepsHosts | controllers/egressipam/hostsubnet.go:109-134 | writing a schedule leaves every address on one selected hostsubnet exactly when no rejected update does harm |
| NodeRuns.SafeFromRejections | controllers/egressipam/hostsubnet.go:109-134 | whatever is rejected, no address is on two selected hostsubnets exactly when no wanted one was on a hostsubnet whose node is not ready |
| NodeRuns.CycleKeepsHosts | controllers/egressipam/hostsubnet.go:109-134 | the same as WriteKeepsHosts for a whole cycle with any outcome |
| NodeRuns.CycleKeepsInstances | controllers/egressipam/aws/aws.go:80-93 | whatever fails in a cycle, no address gets onto two instances, provided no kept address is on two hostsubnets and no instance that is left out holds a wanted one |
| NodeRuns.NeverOnTwoNodes | controllers/egressipam/egressipam_controller.go:179-233 | over every run, no address is ever on two selected hostsubnets or on two instances, provided no instance that is left out holds a wanted address, and, in cycles in which an address has to move from a node that is not ready, no rejected update does harm |

## Left out

- Clients, credentials, authorizers, and the discovery of machine sets, subnets and instances: what they return is an input.
- The addresses that the cloud reports as used: an input, because the AWS version answers a failed lookup with an empty map.
- The path for a single block on bare metal, after the namespaces are served: there the block is written to the hostsubnets and the network chooses the addresses. Serving is the same, so NamespaceRuns is about those cycles too.
- Netnamespaces: only that the cycle stops when their update fails.
- Clean-up on deletion of the resource, event handlers, predicates, finalizers, status, metrics and logging.
- The namespace controller, except as the event of opting out.
- Emptying the list of egress CIDRs of a hostsubnet, which goes with writing its addresses.
- IPv6, and IPv4 addresses in IPv6 notation: the text of an address is dotted-quad.
- Subnets and load-balancer pools of Azure configurations, and instances with a second network interface.
- The library `ipmath` is not part of the repository: its network size and its addition are taken to be 32-bit arithmetic.
- Concurrent changes during a cycle: what a cycle reads is the state at its start.
- NamespaceRuns.NeverShared: sharing means the same address at positions of the same block, because addresses at other positions are not read as used (Given.ExtraNotProtected); NamespaceRuns.NeverInCommon is about all positions.
- NodeRuns.NeverOnTwoNodes: the selector picks the same nodes throughout the run, because a node that is no longer selected keeps its addresses.
- Instances.CloudInstances.ReconcileInstanceSecondaryIPs: calls are atomic, so that two calls overlap only by the order in which they take effect.
