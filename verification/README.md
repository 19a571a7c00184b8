# Verified models of INET's self-contained algorithms

A Dafny 4.11 project that models the algorithmic core of the INET framework and proves what that core is for.
`dafny verify dfyconfig.toml` checks all of it.

| files | what they model | the main results |
|---|---|---|
| `IntervalTreeShapes`, `IntervalTreeQuery`, `IntervalTree` | the interval tree: a red-black tree of nodes with parent links, two sentinels and a maximum in every node | insert and delete change exactly one node and keep every invariant, the height is logarithmic, a query is the naive filter |
| `DhcpMessages`, `DhcpServer`, `DhcpClient`, `DhcpNetwork`, `DhcpLeaseEnd`, `DhcpRebinding`, `DhcpProgress`, `DhcpRenewal` | DHCP client and server, and any number of clients on a network that loses, duplicates and reorders messages | in every run no address is in use twice, no handler fails, no client is stuck, nothing is refused, and a client can be configured exactly as long as there is an address for it; requests and answers by their fields |
| `ShortestPaths`, `Topology`, `TopologyPath` | a graph with mirrored link lists that is changed in place; both shortest-path searches | distances are minima over all ways, routes lead to the target, the lists stay mirrored |
| `MachoStates`, `Macho` | the hierarchical state machine engine | entries and exits are well nested and exact for every transition, histories and boxes are right, transitions end |
| `Patterns`, `PatternMatcher`, `PatternTexts`, `PatternForm`, `PatternGlob`, `PatternSet`, `PatternPart` | the glob tokenizer and matcher | a line matches if and only if it splits into pieces for the elements, shortcuts included; texts and elements correspond; wildcards, sets and substring mode mean what the header says |
| `TwosComplement`, `LongDivision`, `Int128`, `Int128Text` | 128-bit integers in two words | every operation is exact modulo 2^128, division truncates, text is a numeral in every radix and read back |
| `ReassemblyBuffer` | reassembly of fragments | complete exactly when every block has arrived, in any order |
| `Units`, `RealPower`, `ScalingFactor`, `Conversion`, `ConversionLaws` | the algebra of units | convertible means of the same dimension; conversion is multiplication by the ratio of scaling factors, round-trips and composes |
| `Bits`, `BitVector`, `ShortBitVector`, `BitVectorAgreement` | two classes for vectors of bits | both agree, and the parallel bit count is the counting loop |
| `Powers`, `Wrappers` | powers of two; a value that may be missing | |

Objects that the program updates are classes here, with the same fields; their methods are proved against functions
and relations on values, about which the lemmas speak. A red-black tree in the heap is described by a ghost value of
type `Tree`, and a place inside it by a `Path` from there to the top.

## Findings

Where the code does not do what its documentation or its callers expect, the model keeps the code, and a lemma gives
the exact condition or the input.

- `IntervalTree::query` with the smallest time as the low end can lose intervals: `nil` then counts as a left subtree
  that reaches far enough, and the right subtree is not looked at (`LostAtMinimum`). The exact condition is `Complete`.
- The pointer to the top that `deleteFixup` reads once can become stale by a rotation; it is then a node whose colour
  ends the loop in time, and the result is right (`Anchored` says when, `DeleteFixup` that it always is).
- The lease timer of the DHCP client never goes off: T2 comes first, and REBINDING cancels it
  (`LeaseTimerNeverFires`). RFC 2131, section 4.4.5, wants a client to stop using an address when the lease is over.
  In BOUND and RENEWING it does not outlive the lease (`LeaseNotOutlived`), but a client that gets no answer starts over
  without a lease timer and with its address, for as long as one likes (`KeepsAddressPastLease`). REBINDING is reached
  only with a response time at least as long as from T1 to T2, and then the lease can be outlived there too
  (`RebindingExactly`), but not by much (`RebindingIsBounded`).
- As long as the server does not restart, it never refuses a request, so no client ever gives up an address
  (`NothingIsRefused`, `KeepsAddressWithoutLease`).
- An offer without an address moves the client to REQUESTING although its log says it stays in SELECTING. There it asks
  for the address of an earlier lease; if there is none, it uses a lease that does not exist, which is the error
  `NoLease` here (`OfferMovesOn` says exactly when).
- A discovery with a requested address would take a leased address away (`HolderKeepsAddress` says exactly when); the
  client never sends one (`RunKeepsInv`).
- The check of the server that a rebooting client is on the same network compares the address with itself, so that a
  client whose address is on record is never refused (`RebootIsNeverRefused`).
- A backslash before the bracket of a numeric range does not take away its meaning, contrary to `PatternMatcher.h`; it
  does for every other character (`BackslashEscapes`, and `EscapedTextMeansItself` for whole texts).
- `Int128::div` returns the quotient 0 for the dividend -2^127 and never ends for the divisor -2^127; `toString`
  writes -2^127 as `-0`; `set` takes the letter one past the last digit for a digit, except in the radix 8;
  `operator<` is not the order of numbers for some pairs of negative numbers (`LessIsLess`); assigning a negative native
  integer gives a positive number (`AssignInt64`). `Div`, `LeastDivisorNeverEnds`, `TextDenotes` and `LetterPastRadix`
  say exactly when.
- `ShortBitVector::operator==` ignores the size (`EqualsIsRight`, with `ZeroEqualsTwoZeros` for an example).
- In `ReassemblyBuffer` the branches for a fragment in front of `main` are dead for blocks that are not empty (`Merge`).
- `fixed_power<N, D, 4, 0>::pow` in `Units.h` returns a reference to a local value. The model lets anything but zero
  come out of it (`FixedPowerIsPower`); which conversions that spoils is exactly `RoundTripsExactly`.

## Assumptions

- Interval tree: the order of keys is the only thing asked of stored intervals; exactness of a query also needs
  low <= high in each. A new node's links point to itself until it is linked, where the program has null pointers.
- DHCP: transaction ids are fresh; a (re)start of a client and its start timer are one event; all clients use one
  response timeout; the lease time is positive and neither the server nor the pool has the address 0.0.0.0; the server
  does not restart. Messages are delivered to anybody, so that the filter by transaction id alone is what counts.
- Topology: weights are exact real numbers or infinite; what the program asserts of weights, and only where it looks
  at them, is a precondition of the weighted search: nodes from which the target can be reached have no negative
  weight, usable links into them a positive one.
- Macho: `init` goes only to proper substates, as `Macho.cc` asserts; entries, exits and inits ask for no events;
  otherwise user code is arbitrary and may change its mind at every call.
- PatternMatcher: case-sensitive mode; characters are compared as signed bytes; numbers are unbounded.
- Int128: conversion to a signed word wraps around, as two's complement machines do. Bitwise operations on words are
  written as arithmetic on the numbers the words stand for.
- ReassemblyBuffer: fragments are blocks of one partition of the datagram, as a comment in the program says.
- Units: exact real numbers and fractions that can be divided by. `std::pow` with a fraction is the real power of a
  positive number; that every positive number has all its powers, and that a fractional power is taken of a positive
  factor, is assumed only to show that something comes out and that a conversion fails, and not for whole exponents.

## Model

| member | source | states |
|---|---|---|
| `IntervalTrees.IntervalTree.constructor` | inet/src/inet/common/IntervalTree.cc:57-76 | an empty tree: both sentinels linked as the operations expect, nothing stored, the query stack reset |
| `IntervalTrees.IntervalTree.LeftRotate` | inet/src/inet/common/IntervalTree.cc:115-137 | every link, colour and maximum of the nodes touched after a left rotation, from their state before; all other fields stay |
| `IntervalTrees.IntervalTree.LeftRotateAt` | inet/src/inet/common/IntervalTree.cc:115-137 | the heap holds the rotated tree at the same place, with exact maxima below it |
| `IntervalTrees.IntervalTree.RightRotate` | inet/src/inet/common/IntervalTree.cc:139-160 | the mirror image of LeftRotate |
| `IntervalTrees.IntervalTree.RightRotateAt` | inet/src/inet/common/IntervalTree.cc:139-160 | the mirror image of LeftRotateAt |
| `IntervalTreeShapes.RotatedLeftOrder` | inet/src/inet/common/IntervalTree.cc:115-137 | a left rotation keeps the in-order sequence of nodes |
| `IntervalTreeShapes.RotatedLeftMax` | inet/src/inet/common/IntervalTree.cc:131-136 | after a left rotation every maximum is exact, if it was before |
| `IntervalTrees.IntervalTree.RecursiveInsert` | inet/src/inet/common/IntervalTree.cc:163-184 | links a new node as a leaf at the only place that keeps the keys sorted: behind all keys that are not greater |
| `IntervalTrees.IntervalTree.FixupMaxHigh` | inet/src/inet/common/IntervalTree.cc:186-193 | every ancestor of a changed node gets the exact maximum of its subtree |
| `IntervalTrees.IntervalTree.Insert` | inet/src/inet/common/IntervalTree.cc:195-256 | adds exactly one node, for the given interval, behind those with an equal key; order, colours, black heights, parent links and maxima all hold again |
| `IntervalTrees.IntervalTree.InsertFixup` | inet/src/inet/common/IntervalTree.cc:206-254 | recolouring and rotating turn a tree with one red node below a red node into a proper red-black tree with the same in-order sequence |
| `IntervalTrees.IntervalTree.InsertFixupLeft` | inet/src/inet/common/IntervalTree.cc:209-230 | one round of the loop on the left side: the fault moves up two levels or is gone |
| `IntervalTrees.IntervalTree.InsertFixupRight` | inet/src/inet/common/IntervalTree.cc:231-252 | the mirror image of InsertFixupLeft |
| `IntervalTreeShapes.RecolorStep` | inet/src/inet/common/IntervalTree.cc:212-218 | recolouring moves the one red-red fault two levels up and keeps the order |
| `IntervalTreeShapes.RotateStepRight` | inet/src/inet/common/IntervalTree.cc:226-228 | painting and a rotation to the right remove the fault and keep black heights, maxima and order |
| `IntervalTreeShapes.RotateStepLeft` | inet/src/inet/common/IntervalTree.cc:248-250 | the mirror image of RotateStepRight |
| `IntervalTrees.IntervalTree.GetMinimum` | inet/src/inet/common/IntervalTree.cc:258-263 | the first node of a subtree in order |
| `IntervalTrees.IntervalTree.GetMaximum` | inet/src/inet/common/IntervalTree.cc:265-270 | the last node of a subtree in order |
| `IntervalTrees.IntervalTree.GetSuccessor` | inet/src/inet/common/IntervalTree.cc:272-288 | the next node in order, the root sentinel after the last one |
| `IntervalTrees.IntervalTree.GetPredecessor` | inet/src/inet/common/IntervalTree.cc:290-306 | the previous node in order, nil before the first one |
| `IntervalTrees.IntervalTree.DeleteFixup` | inet/src/inet/common/IntervalTree.cc:345-416 | from a tree that lacks one black node on one path to a proper red-black tree with the same in-order sequence, although the pointer to the top is read once and rotations move the top |
| `IntervalTrees.IntervalTree.DeleteFixupLeft` | inet/src/inet/common/IntervalTree.cc:352-382 | one round on the left side, in all four cases of the sibling: the missing black moves up or is made good, and the cached top stays usable |
| `IntervalTrees.IntervalTree.DeleteFixupRight` | inet/src/inet/common/IntervalTree.cc:383-413 | the mirror image of DeleteFixupLeft |
| `IntervalTreeShapes.RedSiblingStepLeft` | inet/src/inet/common/IntervalTree.cc:355-361 | a red sibling is rotated away: the missing black stays where it is, below a red node |
| `IntervalTreeShapes.BlackSiblingStepLeft` | inet/src/inet/common/IntervalTree.cc:362-366 | a black sibling with black children is painted: the missing black moves one level up |
| `IntervalTreeShapes.TurnOutStepLeft` | inet/src/inet/common/IntervalTree.cc:369-375 | the red child of the sibling is turned outward |
| `IntervalTreeShapes.ResolveStepLeft` | inet/src/inet/common/IntervalTree.cc:376-380 | the last rotation makes good the missing black: the whole tree is proper |
| `IntervalTreeShapes.DeficitResolved` | inet/src/inet/common/IntervalTree.cc:415-415 | painting a red node, or the top, black makes good the missing black |
| `IntervalTrees.IntervalTree.SpliceOut` | inet/src/inet/common/IntervalTree.cc:449-465 | takes a node with at most one child out of its place; the child hangs there, and nil knows its parent if there is no child |
| `IntervalTrees.IntervalTree.ReplaceNode` | inet/src/inet/common/IntervalTree.cc:469-480 | a node taken out elsewhere takes the place of the deleted one, with all links of its neighbours |
| `IntervalTreeShapes.MovedDeficit` | inet/src/inet/common/IntervalTree.cc:443-500 | when the successor replaces the deleted node, the tree lacks a black node exactly if the successor was black |
| `IntervalTreeShapes.RemovedOrder` | inet/src/inet/common/IntervalTree.cc:443-500 | without the deleted node the in-order sequence is sorted and otherwise the same |
| `IntervalTrees.IntervalTree.Remove` | inet/src/inet/common/IntervalTree.cc:443-500 | both ways of deleting a node end in a proper red-black tree without exactly that node |
| `IntervalTrees.IntervalTree.DeleteNode` | inet/src/inet/common/IntervalTree.cc:443-500 | removes exactly the given node from the in-order sequence; every invariant holds again; returns its interval |
| `IntervalTrees.IntervalTree.Search` | inet/src/inet/common/IntervalTree.cc:425-441 | finds a node that stores the very interval object, nil if and only if there is none |
| `IntervalTrees.IntervalTree.DeleteInterval` | inet/src/inet/common/IntervalTree.cc:418-423 | removes one node that stores the interval, or changes nothing if none does |
| `IntervalTrees.IntervalTree.HeightIsLogarithmic` | inet/src/inet/common/IntervalTree.cc:195-256 | in every state 2^height <= (n + 1)^2, that is, the height is at most 2 log2(n + 1) |
| `IntervalTrees.IntervalTree.Query` | inet/src/inet/common/IntervalTree.cc:515-562 | the result of the walk with the explicit stack is that of the recursive pruned search; the stack is reset, the tree unchanged |
| `IntervalTrees.IntervalTree.Step` | inet/src/inet/common/IntervalTree.cc:529-561 | one round of the walk: what is reported and what is still to be reported add up to the same sequence, and the remaining work shrinks |
| `IntervalTrees.IntervalTree.QueryAnswer` | inet/src/inet/common/IntervalTree.cc:515-562 | for a low end above the smallest time, the answer is the naive filter over all nodes, each overlapping node exactly once; for a query that runs forwards, overlapping is having a time in common |
| `IntervalTreeQueries.OverlapIsSharedTime` | inet/src/inet/common/IntervalTree.cc:502-513 | for intervals that run forwards, the test for overlap is that some time lies in both, ends included |
| `IntervalTreeQueries.FoundExactly` | inet/src/inet/common/IntervalTree.cc:515-562 | the pruned search equals the naive filter if and only if no right subtree below a missing left child hides an answer, which only the smallest low end allows |
| `IntervalTreeQueries.VainLeft` | inet/src/inet/common/IntervalTree.cc:530-559 | a left subtree that reaches up to the low end and has no hit proves that the right subtree has none |
| `IntervalTreeQueries.FoundIsSubsequence` | inet/src/inet/common/IntervalTree.cc:515-562 | whatever the query, nothing is reported that does not overlap, nor more often than it is stored |
| `IntervalTreeQueries.LostAtMinimum` | inet/src/inet/common/IntervalTree.cc:530-559 | a concrete tree for which a query from the smallest time loses an overlapping interval |
| `DhcpServers.DHCPServer.GetLeaseByMac` | inet/src/inet/applications/dhcp/DHCPServer.cc:442-455 | the lease of a MAC address with the lowest address, nothing if and only if there is none |
| `DhcpServers.DHCPServer.GetAvailableLease` | inet/src/inet/applications/dhcp/DHCPServer.cc:457-494 | the first address of the pool that is not leased, or the address asked for; makes a record only where one is missing or, for an address asked for, leased |
| `DhcpServers.DHCPServer.ProcessDHCPMessage` | inet/src/inet/applications/dhcp/DHCPServer.cc:152-281 | the new table and the reply are those of the relation ServerStep, for every message in every state |
| `DhcpServers.DHCPServer.HandleDiscover` | inet/src/inet/applications/dhcp/DHCPServer.cc:170-194 | the answer to a discovery: the old lease again, or a new one, or silence when the pool is used up |
| `DhcpServers.DHCPServer.HandleRequest` | inet/src/inet/applications/dhcp/DHCPServer.cc:195-269 | the three kinds of request told apart: selecting, rebooting, renewing |
| `DhcpServers.DHCPServer.SendAck` | inet/src/inet/applications/dhcp/DHCPServer.cc:311-374 | confirms a lease under the transaction id of the request |
| `DhcpServers.HolderKeepsAddress` | inet/src/inet/applications/dhcp/DHCPServer.cc:462-473 | a leased address keeps its holder if and only if the message is not a discovery by a client without a lease that asks for this address |
| `DhcpServers.ServerIsSound` | inet/src/inet/applications/dhcp/DHCPServer.cc:152-281 | without such discoveries: no lease is ever lost, no client has two, and what is offered or acknowledged is on record for the client in the reply |
| `DhcpServers.RebootIsNeverRefused` | inet/src/inet/applications/dhcp/DHCPServer.cc:225-241 | a rebooting client is answered if and only if the address it asks for has a record, and then always with an acknowledgement: the network check compares the address with itself |
| `DhcpClients.DHCPClient.HandleTimer` | inet/src/inet/applications/dhcp/DHCPClient.cc:216-268 | new state, timers and messages for every timer in every state, or the exception |
| `DhcpClients.DHCPClient.HandleDHCPMessage` | inet/src/inet/applications/dhcp/DHCPClient.cc:393-498 | new state, lease, address, timers and messages for every message in every state |
| `DhcpClients.DHCPClient.SendRequest` | inet/src/inet/applications/dhcp/DHCPClient.cc:520-575 | which fields a request carries in which state (RFC 2131, section 4.3.6), and the error outside those states |
| `DhcpClients.DHCPClient.RecordOffer` | inet/src/inet/applications/dhcp/DHCPClient.cc:270-288 | an offer with an address becomes the lease, one without is dropped |
| `DhcpClients.DHCPClient.BindLease` | inet/src/inet/applications/dhcp/DHCPClient.cc:315-356 | the address is configured and the lease timer runs |
| `DhcpClients.DHCPClient.HandleAck` | inet/src/inet/applications/dhcp/DHCPClient.cc:630-637 | an acknowledgement makes a lease: BOUND, the address configured, T1, T2 and the lease timer running for the granted times; an exception without a lease |
| `DhcpClients.MessageFails` | inet/src/inet/applications/dhcp/DHCPClient.cc:393-498 | the messages that end in an exception are exactly an offer without an address and an acknowledgement, to a client without a lease |
| `DhcpClients.OfferMovesOn` | inet/src/inet/applications/dhcp/DHCPClient.cc:413-421 | an offer, even one without an address, moves the client to REQUESTING; it fails if and only if there is no address in the offer and no earlier lease; otherwise an offer without an address makes it ask for the earlier one |
| `DhcpClients.DHCPClient.UnbindLease` | inet/src/inet/applications/dhcp/DHCPClient.cc:358-370 | all timers stop and the address is given up |
| `DhcpClients.DHCPClient.InitClient` | inet/src/inet/applications/dhcp/DHCPClient.cc:372-384 | discovery starts over; the address stays configured |
| `DhcpClients.DHCPClient.InitRebootedClient` | inet/src/inet/applications/dhcp/DHCPClient.cc:386-391 | a client that knows a lease asks for it again |
| `DhcpClients.DHCPClient.ScheduleTimerTO` | inet/src/inet/applications/dhcp/DHCPClient.cc:639-645 | one response timer at a time |
| `DhcpNetworks.RunKeepsInv` | inet/src/inet/applications/dhcp/DHCPServer.cc:152-281 | in every run of N clients and a server over a network that loses, duplicates and reorders: leases, messages under way and tables agree in every state |
| `DhcpNetworks.NoAddressUsedTwice` | inet/src/inet/applications/dhcp/DHCPClient.cc:315-356 | in every state of every run two clients with the same configured address have the same MAC address (RFC 2131, section 1.6) |
| `DhcpNetworks.NoEventFails` | inet/src/inet/applications/dhcp/DHCPClient.cc:216-268 | in every reachable state every possible event is handled without an exception: "T2 occurred in wrong state" and "Invalid state" are unreachable |
| `DhcpNetworks.NeverStuck` | inet/src/inet/applications/dhcp/DHCPClient.cc:216-268 | in every reachable state exactly the timers that the state needs run, and a started client always has one (RFC 2131, section 4.4.5) |
| `DhcpNetworks.LeaseTimerNeverFires` | inet/src/inet/applications/dhcp/DHCPClient.cc:256-265 | in every reachable state the lease timer is not the next to go off: T2 comes first and cancels it |
| `DhcpNetworks.AddressInUse` | inet/src/inet/applications/dhcp/DHCPClient.cc:315-356 | a configured address is on the record of the server for this client; the lease timer runs exactly in BOUND and RENEWING |
| `DhcpLeaseEnds.NothingIsRefused` | inet/src/inet/applications/dhcp/DHCPServer.cc:152-281 | in every run each request in response to an offer is for an address on record for the sender, and the server never sends a refusal |
| `DhcpLeaseEnds.KeepsAddressWithoutLease` | inet/src/inet/applications/dhcp/DHCPClient.cc:216-268 | in every run an address that a client uses is never given up or changed, by no timer and no message |
| `DhcpLeaseEnds.LeaseNotOutlived` | inet/src/inet/applications/dhcp/DHCPClient.cc:315-356 | in every reachable state in BOUND or RENEWING the granted end of the lease is not past (RFC 2131, section 4.4.5) |
| `DhcpLeaseEnds.NoTimerOverdue` | inet/src/inet/applications/dhcp/DHCPClient.cc:216-268 | in every reachable state no timer is overdue |
| `DhcpLeaseEnds.KeepsAddressPastLease` | inet/src/inet/applications/dhcp/DHCPClient.cc:372-384 | for any time, there is a run in which a client is bound once, hears nothing more, and still uses the address after that time and after the granted end, if and only if the pool is not empty |
| `DhcpRebinding.RebindingExactly` | inet/src/inet/applications/dhcp/DHCPClient.cc:245-254 | a client gets to REBINDING in some run if and only if the pool is not empty and the response time is not shorter than from T1 to T2, and under the same condition it can use its address there after the granted end |
| `DhcpRebinding.RebindingIsBounded` | inet/src/inet/applications/dhcp/DHCPClient.cc:245-254 | in REBINDING the granted end is outlived by at most the response time less the time from T2 to that end |
| `DhcpRebinding.RunKeepsSpaces` | inet/src/inet/applications/dhcp/DHCPClient.cc:630-659 | in every reachable state T1, T2, the end of the lease and the response timer are as far apart as the lease time says |
| `DhcpProgress.CanBindExactly` | inet/src/inet/applications/dhcp/DHCPServer.cc:442-494 | from every reachable state in which a client looks for a server, some continuation ends with it in BOUND if and only if an address is on record for it or one of the pool is free |
| `DhcpProgress.DiscoveryIsSent` | inet/src/inet/applications/dhcp/DHCPClient.cc:372-384 | the discovery of a client that looks for a server is on the network, in every reachable state |
| `DhcpProgress.RecordsLast` | inet/src/inet/applications/dhcp/DHCPServer.cc:442-494 | in every run a record stays for the client it was made for |
| `DhcpRenewals.RenewalIsAnswered` | inet/src/inet/applications/dhcp/DHCPServer.cc:249-267 | a request to extend a lease is always answered: with an acknowledgement, all of whose fields are given, if and only if the address in it is on record; then only the transaction id of that record changes; otherwise with a refusal, and nothing changes |
| `DhcpRenewals.SelectionIsAnswered` | inet/src/inet/applications/dhcp/DHCPServer.cc:199-223 | a request in response to an offer is always answered: with an acknowledgement if and only if the address in it is on record for the client |
| `DhcpRenewals.RebootIsAnswered` | inet/src/inet/applications/dhcp/DHCPServer.cc:225-247 | a request to verify an address is acknowledged if there is a record of the address, and gets no answer otherwise |
| `DhcpRenewals.LeaseIsOffered` | inet/src/inet/applications/dhcp/DHCPServer.cc:189-194 | a client that has a lease is offered just that, whatever it asks for |
| `DhcpRenewals.FreeAddressIsOffered` | inet/src/inet/applications/dhcp/DHCPServer.cc:173-188 | a client without a lease is offered the first address of the pool that is not on record, which is then on record for it, and gets no answer if and only if there is none |
| `DhcpRenewals.WishIsGranted` | inet/src/inet/applications/dhcp/DHCPServer.cc:173-188 | a client without a lease that asks for an address is offered that address, whoever had it |
| `DhcpRenewals.OthersAreIgnored` | inet/src/inet/applications/dhcp/DHCPServer.cc:270-275 | any other message changes nothing at the server and gets no answer |
| `DhcpRenewals.RequestIsSent` | inet/src/inet/applications/dhcp/DHCPClient.cc:520-575 | in every reachable state each client in REQUESTING, REBOOTING, RENEWING or REBINDING has sent a request with its own transaction id and address, and with the fields that RFC 2131, section 4.3.6, asks for in that state |
| `DhcpRenewals.AcknowledgementBinds` | inet/src/inet/applications/dhcp/DHCPClient.cc:423-488 | an awaited message brings a client with a lease to BOUND if and only if it is an acknowledgement and the client is in one of the four states; then the address of the lease is configured, nothing is sent, and the three timers run for the times in the message |
| `DhcpRenewals.RefusalStartsOver` | inet/src/inet/applications/dhcp/DHCPClient.cc:430-488 | an awaited refusal makes a client look for a server again, without timers of a lease, and without its address if it was REBOOTING, RENEWING or REBINDING |
| `DhcpRenewals.OfferIsTaken` | inet/src/inet/applications/dhcp/DHCPClient.cc:413-421 | an offer of an address makes a client in SELECTING ask the server for it |
| `DhcpRenewals.OthersAreDropped` | inet/src/inet/applications/dhcp/DHCPClient.cc:393-498 | everything else that arrives changes nothing |
| `DhcpRenewals.StartResumes` | inet/src/inet/applications/dhcp/DHCPClient.cc:220-230 | a start makes a client ask for the lease it knows, or look for a server if it knows none |
| `DhcpRenewals.SilenceStartsOver` | inet/src/inet/applications/dhcp/DHCPClient.cc:231-238 | a client that gets no response looks for a server, with the address and the lease it has |
| `DhcpRenewals.RenewalTimersAsk` | inet/src/inet/applications/dhcp/DHCPClient.cc:239-254 | T1 in BOUND and T2 in RENEWING make a client ask for its lease, in the way of RENEWING and REBINDING, and keep its address |
| `DhcpRenewals.LeaseEndStartsOver` | inet/src/inet/applications/dhcp/DHCPClient.cc:260-265 | the end of a lease makes a client look for a server without its address |
| `DhcpRenewals.AddressIsLeased` | inet/src/inet/applications/dhcp/DHCPClient.cc:315-356 | in every reachable state a client in BOUND, RENEWING or REBINDING uses the address of its lease |
| `DhcpRenewals.WaitingBindsAtOnce` | inet/src/inet/applications/dhcp/DHCPClient.cc:423-488 | from every reachable state in which a client waits for an acknowledgement, one step of the server and one of the client, with the clock standing still, end in BOUND with the address of its lease, which is the same if it renews or rebinds, and for a whole lease time from then on |
| `DhcpNetworks.FourMessagesBind` | inet/src/inet/applications/dhcp/DHCPClient.cc:393-498 | discover, offer, request and acknowledgement end in BOUND with the address on record for the client |
| `DhcpNetworks.MessageIsOrderly` | inet/src/inet/applications/dhcp/DHCPClient.cc:393-498 | handling any sound message keeps the client in order and sends only sound requests in its name |
| `DhcpNetworks.TimerIsOrderly` | inet/src/inet/applications/dhcp/DHCPClient.cc:216-268 | the same for any timer that is due |
| `DhcpNetworks.AnswerIsSound` | inet/src/inet/applications/dhcp/DHCPServer.cc:152-281 | the answer to a sound request is sound and goes to the client that asked |
| `Topologies.Topology.LowerBound` | inet/src/inet/common/Topology.cc:366-367 | the boundary between the nodes with a smaller key and the others, by halving |
| `Topologies.Topology.GetNodeFor` | inet/src/inet/common/Topology.cc:363-370 | finds a node with the module ID if and only if there is one |
| `Topologies.Topology.AddNode` | inet/src/inet/common/Topology.cc:250-263 | a node is inserted where the order by module ID holds again, those without an ID at the end |
| `Topologies.Topology.AddLink` | inet/src/inet/common/Topology.cc:291-308 | a new or reconnected link stands once in the lists of exactly its two ends, gate IDs survive where the end stays, all other links are as before |
| `Topologies.Topology.Unlink` | inet/src/inet/common/Topology.cc:294-297 | takes a link that is in the graph out of both lists |
| `Topologies.Topology.DeleteLink` | inet/src/inet/common/Topology.cc:333-338 | the link leaves both lists, nothing else changes |
| `Topologies.Topology.UnlinkFromSourceNode` | inet/src/inet/common/Topology.cc:340-346 | the outgoing lists mirror all links but the one taken out |
| `Topologies.Topology.UnlinkFromDestNode` | inet/src/inet/common/Topology.cc:348-354 | the incoming lists mirror all links but the one taken out |
| `Topologies.Topology.DropOutLinks` | inet/src/inet/common/Topology.cc:267-273 | all links that start from a node leave the graph, self-loops too |
| `Topologies.Topology.DropInLinks` | inet/src/inet/common/Topology.cc:275-281 | all links that lead to a node leave the graph |
| `Topologies.Topology.DeleteNode` | inet/src/inet/common/Topology.cc:265-289 | exactly the node and the links at it are gone; lists and order hold again |
| `Topologies.Topology.CalculateWeightedSingleShortestPathsTo` | inet/src/inet/common/Topology.cc:412-469 | each distance is the minimum over all ways of enabled links and nodes of link weights plus weights of nodes between; infinite exactly when no way is finite; each outPath starts a shortest way; an error without a target |
| `Topologies.Topology.CalculateUnweightedSingleShortestPathsTo` | inet/src/inet/common/Topology.cc:372-410 | the same with every link counted as one: breadth-first search finds the least number of links |
| `Topologies.Topology.TryLink` | inet/src/inet/common/Topology.cc:438-466 | one incoming link: afterwards no way over it is shorter than the one known, and the search stays sound |
| `Topologies.Topology.TryHop` | inet/src/inet/common/Topology.cc:394-408 | the same for a search that counts links |
| `Topologies.Topology.Settle` | inet/src/inet/common/Topology.cc:430-467 | one node leaves the queue for good, so the loop ends |
| `Topologies.Topology.Shorten` | inet/src/inet/common/Topology.cc:453-465 | a node with a shorter way moves to its place in the sorted queue |
| `Topologies.Topology.FindPlace` | inet/src/inet/common/Topology.cc:460-463 | the place in front of the first node that is farther away |
| `Topologies.Topology.RouteLeadsToTarget` | inet/src/inet/common/Topology.cc:430-468 | following outPath from a reached node ends at the target, and the costs add up to its distance |
| `Topologies.Topology.NearRouteLeadsToTarget` | inet/src/inet/common/Topology.cc:430-468 | the same for the weighted search, over all links |
| `TopologyPaths.LeastWeights` | inet/src/inet/common/Topology.cc:412-469 | in terms of the fields of nodes and links: the distance of a node is the least sum of the weights of the links of a path of enabled links and nodes to the target and of the nodes it comes to, the target excepted; finite if and only if some path has a finite sum |
| `TopologyPaths.LeastLinks` | inet/src/inet/common/Topology.cc:372-410 | in terms of the fields: the distance is the least number of links of such a path |
| `TopologyPaths.FirstLinkLeadsOn` | inet/src/inet/common/Topology.cc:394-408 | the link to take is enabled, starts from the node and leads to a nearer one, by its weight and that of the node it leads to, or by one; only the target and nodes that are not reached have none |
| `ShortestPaths.FoundDistances` | inet/src/inet/common/Topology.cc:412-469 | a finished search has the minimum cost over all ways for every node |
| `ShortestPaths.NoShorterWay` | inet/src/inet/common/Topology.cc:412-469 | no way at all costs less than the distance found |
| `ShortestPaths.FollowedIsWay` | inet/src/inet/common/Topology.cc:412-469 | the first links known lead to the target at exactly the distance found |
| `ShortestPaths.FoundFirstLink` | inet/src/inet/common/Topology.cc:455-457 | a node has an outPath exactly if it is reached and not the target; crossing it strictly lowers the distance by its cost |
| `ShortestPaths.NeverImprovedAgain` | inet/src/inet/common/Topology.cc:453-455 | a node that has left the queue is never improved, and an improved node is in the queue if and only if its distance is finite, as the comment there says |
| `ShortestPaths.NearDistance` | inet/src/inet/common/Topology.cc:430-449 | links to nodes from which the target cannot be reached at a finite cost, which are never looked at, change no distance |
| `ShortestPaths.TakenOnce` | inet/src/inet/common/Topology.cc:430-432 | no more nodes leave the queue than there are |
| `ShortestPaths.PoppedIsSound` | inet/src/inet/common/Topology.cc:430-432 | taking the first node from the queue keeps the search sound: nothing left in it is nearer |
| `ShortestPaths.ImprovedIsSound` | inet/src/inet/common/Topology.cc:453-465 | an improvement keeps the search sound |
| `ShortestPaths.ImprovedStaysRelaxed` | inet/src/inet/common/Topology.cc:453-465 | an improvement spoils no link that was already seen to |
| `ShortestPaths.FirstMet` | inet/src/inet/common/Topology.cc:403-407 | in a search that counts links, the place of a node met for the first time is the end of the queue |
| `ShortestPaths.MetAgain` | inet/src/inet/common/Topology.cc:403-403 | and a node met again already has a way as short |
| `MachoStates.StateInstance.IsChild` | inet/src/inet/common/Macho.h:787-790 | true exactly for the state itself and its superstates |
| `MachoStates.ExitsMeetEntries` | inet/src/inet/common/Macho.cc:139-173 | the exits of a transition end at the state where its entries start: the deepest proper superstate of the target that contains the source |
| `MachoStates.ExitsToFacts` | inet/src/inet/common/Macho.cc:156-173 | that state is a proper superstate of the target, contains the source, and is the deepest such |
| `MachoStates.ExitsToRoot` | inet/src/inet/common/Macho.cc:268-278 | on the way to the root everything is exited |
| `Machos.Machine.Exits` | inet/src/inet/common/Macho.cc:156-173 | exactly the exit calls from the state up to that superstate, innermost first, each of the innermost entered state; boxes of exited states are gone unless persistent |
| `Machos.Machine.Entries` | inet/src/inet/common/Macho.cc:139-154 | exactly the entry calls down to the target, outermost first, each into the innermost entered state; every entered state has a box |
| `Machos.Machine.Leave` | inet/src/inet/common/Macho.cc:163-169 | one exit: the call, and the box with it unless it persists or is the placeholder of a state without data; exactly the boxes that should be there are |
| `Machos.Machine.Arrive` | inet/src/inet/common/Macho.cc:147-152 | one entry: the box, and the call; exactly the boxes that should be there are |
| `Machos.Machine.SaveHistories` | inet/src/inet/common/Macho.cc:357-359 | every superstate of the state left keeps the history of its kind, all others keep theirs |
| `Machos.Machine.SetHistorySuper` | inet/src/inet/common/Macho.h:732-737 | the superstates are told from the parent up |
| `Machos.Machine.SaveHistory` | inet/src/inet/common/Macho.h:273-295 | a state keeps the direct substate or the state left, by its kind, and passes the news on to the superstates that keep one |
| `Machos.HistoryIsBelow` | inet/src/inet/common/Macho.h:273-295 | after any run a history is a proper substate, and a direct one where the state keeps a shallow history |
| `Machos.Machine.HistoryBelow` | inet/src/inet/common/Macho.h:273-295 | the same for the history a state holds now |
| `Machos.Machine.ClearHistory` | inet/src/inet/common/Macho.h:2111-2116 | the history of one state is forgotten |
| `Machos.Machine.ClearHistoryDeep` | inet/src/inet/common/Macho.cc:299-306 | the histories of a state and all its substates are forgotten, no others |
| `Machos.Machine.RunInit` | inet/src/inet/common/Macho.cc:175-187 | goes on to the history if that is asked for and there is one, else calls init and does what it asks; either way only further down; the history is forgotten |
| `Machos.Machine.Move` | inet/src/inet/common/Macho.cc:354-371 | a transition keeps the history of what is left, and its calls are exactly the exits up to the meeting point and the entries down; entered states, boxes and histories are right again |
| `Machos.Machine.Transit` | inet/src/inet/common/Macho.cc:345-386 | one transition with its init leaves the end of the run the same and asks only for something deeper |
| `Machos.Machine.RunTransitions` | inet/src/inet/common/Macho.cc:345-394 | the loop over transitions ends because each one goes deeper; its calls, histories and last state are exactly those of the transition asked for and of those that histories and init actions ask for in turn |
| `Machos.Machine.Followed` | inet/src/inet/common/Macho.cc:345-394 | whatever is asked for, these transitions end in the target or below it |
| `Machos.Machine.ReturnsToHistory` | inet/src/inet/common/Macho.h:63-66 | a transition to the history of a state goes on, without its init, to the substate that it keeps, a direct one if the history is shallow, and ends there or below; without a history it is a transition to the state |
| `Machos.LeftLastBelow` | inet/src/inet/common/Macho.h:273-295 | the substate kept is the one that was left last below the state, or the direct substate it was in, until it is cleared or initialised or left below again |
| `Machos.Machine.NextIsBelow` | inet/src/inet/common/Macho.cc:384-387 | a history or an init action asks for a proper substate only |
| `Machos.Machine.RattleOn` | inet/src/inet/common/Macho.cc:339-403 | run to completion: every stop follows from the one before by the answer to its event, in calls, histories and state, and the machine rests, with nothing pending, unless the limit of events is reached |
| `Machos.Machine.Answer` | inet/src/inet/common/Macho.cc:396-401 | the event is taken, handled in the current state, and what its handler asks for is done |
| `Machos.Machine.RunsAgree` | inet/src/inet/common/Macho.cc:339-403 | runs from the same start agree as far as both go, so that the limit only cuts a run short |
| `Machos.Machine.SettledIsTheEnd` | inet/src/inet/common/Macho.cc:343-402 | if the events run out, a run that has not been cut short by a smaller limit ends exactly there, as the loop without a limit does |
| `Machos.Machine.Start` | inet/src/inet/common/Macho.cc:248-256 | exactly the transitions from the root to the start state and on, ending there or below it |
| `Machos.Machine.Dispatch` | inet/src/inet/common/Macho.h:1908-1917 | one event handled, and run to completion: exactly the run that the event starts |
| `Machos.Machine.Shutdown` | inet/src/inet/common/Macho.cc:268-278 | the exits of all the states entered and nothing else of the user; well nested over the whole life of the machine; the boxes left are exactly the persistent ones, and the placeholders, of the states ever entered |
| `Machos.Machine.FollowedToRoot` | inet/src/inet/common/Macho.cc:268-278 | a transition to the root only exits, all the way up |
| `PatternMatchers.PatternMatcher.SetPattern` | inet/src/inet/common/PatternMatcher.cc:49-110 | the pattern is the one that the grammar in Compiled gives for the text; an unclosed brace is an error |
| `PatternMatchers.PatternMatcher.Tokenize` | inet/src/inet/common/PatternMatcher.cc:55-95 | the elements of the text, every literal, set and range read as the grammar says |
| `PatternMatchers.PatternMatcher.ParseLiteralString` | inet/src/inet/common/PatternMatcher.cc:148-162 | a literal up to a special character, or up to and with a bracket that starts a range |
| `PatternMatchers.PatternMatcher.ParseSet` | inet/src/inet/common/PatternMatcher.cc:112-146 | the pairs of a set; an error without a closing brace |
| `PatternMatchers.PatternMatcher.ParseNumRange` | inet/src/inet/common/PatternMatcher.cc:164-191 | both ends of a range, or nothing |
| `PatternMatchers.PatternMatcher.IsInSet` | inet/src/inet/common/PatternMatcher.cc:245-256 | true exactly if some pair encloses the character |
| `PatternMatchers.PatternMatcher.DoMatch` | inet/src/inet/common/PatternMatcher.cc:258-356 | true exactly if the line can be cut into pieces for the elements from k on, shortcuts included |
| `PatternMatchers.PatternMatcher.SkipChars` | inet/src/inet/common/PatternMatcher.cc:326-344 | some rest of the line matches what follows a "*" or "**" |
| `PatternMatchers.PatternMatcher.Matches` | inet/src/inet/common/PatternMatcher.cc:358-382 | true exactly if the line splits into pieces that match the elements in order, with the check of the last two characters |
| `Patterns.AcceptsIffSplits` | inet/src/inet/common/PatternMatcher.cc:258-356 | cutting off pieces from the left finds a split exactly when there is one |
| `Patterns.LastAnySeq` | inet/src/inet/common/PatternMatcher.cc:321-322 | a final "**" takes any rest |
| `Patterns.LastAnySeqLiteral` | inet/src/inet/common/PatternMatcher.cc:323-324 | a final "**" and literal take exactly the rests that end with the literal |
| `Patterns.NumRangeStep` | inet/src/inet/common/PatternMatcher.cc:307-315 | a range takes all digits there are or does not match |
| `Patterns.SeqStep` | inet/src/inet/common/PatternMatcher.cc:326-344 | "**" and "*" match nothing or one more character, "*" no dot |
| `PatternMatchers.LastTwo` | inet/src/inet/common/PatternMatcher.cc:366-378 | lines turned away by their last two characters do not match |
| `PatternTexts.PlainTextMeansItself` | inet/src/inet/common/PatternMatcher.cc:410-415 | a text without wildcards matches itself alone, or in substring mode the lines in which it occurs |
| `PatternTexts.EscapedTextMeansItself` | inet/src/inet/common/PatternMatcher.h:44-44 | with a backslash before every character every text is matched literally |
| `PatternTexts.BackslashEscapes` | inet/src/inet/common/PatternMatcher.cc:148-162 | a backslash makes the next character part of the literal if and only if that is not the bracket of a range of numbers |
| `PatternTexts.BackslashBeforeRange` | inet/src/inet/common/PatternMatcher.cc:148-162 | a backslash before the bracket of a range has no effect |
| `PatternTexts.StaysInComponents` | inet/src/inet/common/PatternMatcher.h:46-53 | in dotted mode elements other than "**" and sets match only paths with as many dots as their literals have |
| `PatternForms.TextsReadAsNormalForms` | inet/src/inet/common/PatternMatcher.cc:49-110 | the lists of elements that pattern texts are read as are exactly those in normal form: no empty or adjacent literals, no asterisk after a single one, proper sets and ranges |
| `PatternForms.PrintedReadsBack` | inet/src/inet/common/PatternMatcher.cc:49-110 | a text written for any list of elements in normal form, with all wildcards, sets and ranges in any combination, is read as that list |
| `PatternForms.TokensAreNormal` | inet/src/inet/common/PatternMatcher.cc:49-110 | every text that is read without an error is read as a list in normal form |
| `PatternForms.PrintedMatches` | inet/src/inet/common/PatternMatcher.cc:49-110 | and matches exactly the lines that the elements match |
| `PatternForms.SetReadsBack` | inet/src/inet/common/PatternMatcher.cc:112-146 | a set is read as its pairs, with a closing brace as the first character or not |
| `PatternForms.RangeReadsBack` | inet/src/inet/common/PatternMatcher.cc:164-191 | a range of numbers, in braces or in brackets, is read as its ends, open or not |
| `PatternForms.BracketRangeReadsBack` | inet/src/inet/common/PatternMatcher.cc:64-69 | a range in brackets after a literal is read as the literal with the opening bracket, the range, and what the closing bracket starts |
| `PatternForms.BracketRangeMatches` | inet/src/inet/common/PatternMatcher.h:43-43 | and the pattern matches the text with a number of the range in brackets behind it, and nothing else |
| `PatternSets.SetMatches` | inet/src/inet/common/PatternMatcher.h:60-68 | a set matches exactly one character that is between its braces or in one of the ranges there, whatever singles and ranges it is made of, with a closing brace in front or not |
| `PatternSets.NegatedSetMatches` | inet/src/inet/common/PatternMatcher.h:60-68 | a negated set matches exactly one character that is not |
| `PatternGlobs.BareTextGlobs` | inet/src/inet/common/PatternMatcher.h:36-54 | in both modes a text without escapes, braces and ranges in brackets matches exactly the lines that its characters say: "?" one character, "*" any run, "**" any run with dots too, every other character itself; told by a recursion on the characters |
| `PatternParts.WidenedMatchesSomewhere` | inet/src/inet/common/PatternMatcher.cc:98-106 | in substring mode a line matches if and only if something in it, followed by what follows there, matches the elements |
| `PatternParts.SubstringModeIsPartMatch` | inet/src/inet/common/PatternMatcher.h:55-57 | for patterns without ranges of numbers: if and only if some part of the line matches the whole pattern |
| `PatternParts.BareTextGlobsPart` | inet/src/inet/common/PatternMatcher.h:36-57 | in both modes a text without escapes, braces and ranges in brackets matches in substring mode exactly the lines of which some part is what its characters say |
| `PatternParts.RangeTakesAllDigits` | inet/src/inet/common/PatternMatcher.cc:307-315 | with a range that can fail: it takes all digits there are |
| `PatternGlobs.SimpleTextStaysInComponents` | inet/src/inet/common/PatternMatcher.h:46-53 | in dotted mode a pattern text without "**", brackets, braces and backslashes matches only lines with exactly as many dots as it has itself |
| `TwosComplement.LessIsLess` | inet/src/inet/common/int128.cc:382-392 | the comparison is that of the numbers if and only if not both are negative with equal high words and low words on different sides of 2^63 |
| `Int128s.Int128.Negated` | inet/src/inet/common/int128.cc:162-168 | the negative number, modulo 2^128 |
| `Int128s.Int128.AddAssign` | inet/src/inet/common/int128.cc:204-214 | the sum, modulo 2^128, also when both operands are one object |
| `Int128s.Int128.SubAssign` | inet/src/inet/common/int128.h:128-131 | the difference, modulo 2^128 |
| `Int128s.Int128.ShrAssign` | inet/src/inet/common/int128.cc:321-350 | the floor of the number over 2^n, for every n |
| `Int128s.Int128.ShlAssign` | inet/src/inet/common/int128.cc:352-380 | the number times 2^n, modulo 2^128, for every n |
| `Int128s.Int128.TestBit` | inet/src/inet/common/int128.cc:291-300 | the n-th binary digit, the sign from 128 on |
| `Int128s.Int128.SetBit` | inet/src/inet/common/int128.cc:302-319 | adds or takes away 2^n if the bit changes |
| `Int128s.Int128.MulAssign` | inet/src/inet/common/int128.cc:216-237 | the product, modulo 2^128, for all operands |
| `Int128s.ShiftedSumIsProduct` | inet/src/inet/common/int128.cc:230-235 | the shifts for all 128 bits of a multiplier add up to the product, for negative ones too |
| `Int128s.Int128.Div` | inet/src/inet/common/int128.cc:239-289 | truncated signed division for a divisor other than 0 and -2^127, if and only if the dividend is not -2^127 |
| `Int128s.Int128.FindStart` | inet/src/inet/common/int128.cc:259-265 | the bit index may go below zero only after the last bit, and comes back |
| `Int128s.Int128.Finish` | inet/src/inet/common/int128.cc:267-279 | the remaining bits: dividend = quotient * divisor + rest, 0 <= rest < divisor |
| `Int128s.Int128.DivAssign` | inet/src/inet/common/int128.h:133-138 | the quotient replaces the dividend; 0 does for the dividend -2^127 |
| `Int128s.Int128.ModAssign` | inet/src/inet/common/int128.h:140-144 | the rest replaces the dividend, which is also the out-parameter; the dividend -2^127 stays |
| `LongDivision.Pulled` | inet/src/inet/common/int128.cc:268-274 | shifting in one more bit keeps the relation between prefix, quotient and rest, without overflow |
| `LongDivision.Subtracted` | inet/src/inet/common/int128.cc:276-279 | taking off the divisor and setting the bit keep it |
| `LongDivision.SignsRestored` | inet/src/inet/common/int128.cc:281-285 | signs put back make it truncated division |
| `LongDivision.TruncatedIsUnique` | inet/src/inet/common/int128.cc:239-289 | there is only one truncated division |
| `Int128s.LeastDivisorNeverEnds` | inet/src/inet/common/int128.cc:267-279 | for the divisor -2^127 the rest is not less than the divisor after any number of rounds, so neither loop ends through it |
| `Int128s.Int128.FromInt64` | inet/src/inet/common/int128.h:71-74 | a construction from a native integer keeps its value |
| `Int128s.Int128.AssignInt64` | inet/src/inet/common/int128.h:89-89 | an assigned native integer keeps its value exactly if it is not negative |
| `Int128Texts.ToString` | inet/src/inet/common/int128.cc:37-62 | the text in the given radix |
| `Int128Texts.Set` | inet/src/inet/common/int128.cc:64-109 | the number that the text denotes, modulo 2^128 |
| `Int128Texts.TextDenotes` | inet/src/inet/common/int128.cc:37-109 | reading the decimal text gives the number back, if and only if it is not -2^127 |
| `Int128Texts.RoundTrip` | inet/src/inet/common/int128.cc:37-109 | the same for the two operations one after the other |
| `Int128Texts.DigitsDenote` | inet/src/inet/common/int128.cc:52-56 | in every radix from 2 to 37 the digits written are a numeral for the number, each less than the radix, without a zero in front |
| `Int128Texts.TextIsNumeral` | inet/src/inet/common/int128.cc:37-62 | the text of a number is such a numeral for its magnitude, behind its sign |
| `Int128Texts.NumeralIsRead` | inet/src/inet/common/int128.cc:64-109 | a numeral with letters of either case, behind a sign and the mark of its radix 8, 10 or 16, is read as the number it denotes |
| `Int128Texts.LetterPastRadix` | inet/src/inet/common/int128.cc:91-99 | exactly which characters are read as digits, and as what: those less than the radix and, except in the radix 8, the letter one past the last, in both cases: "1a" is read as 20 |
| `ReassemblyBuffers.ReassemblyBuffer.constructor` | inet/src/inet/common/ReassemblyBuffer.cc:27-32 | nothing received |
| `ReassemblyBuffers.ReassemblyBuffer.AddFragment` | inet/src/inet/common/ReassemblyBuffer.cc:39-45 | true if and only if every block has been received; main is the longest run of received blocks from offset 0; then the total length is that of the datagram |
| `ReassemblyBuffers.ReassemblyBuffer.Merge` | inet/src/inet/common/ReassemblyBuffer.cc:47-77 | one more block, new or a duplicate, is accounted for |
| `ReassemblyBuffers.ReassemblyBuffer.MergeFragments` | inet/src/inet/common/ReassemblyBuffer.cc:79-116 | ends, and leaves nothing aside that connects |
| `ReassemblyBuffers.ReassemblyBuffer.MergePass` | inet/src/inet/common/ReassemblyBuffer.cc:84-114 | a pass that removes nothing leaves nothing that connects; any other makes the list shorter |
| `ReassemblyBuffers.ReassemblyBuffer.MainIsLongestRun` | inet/src/inet/common/ReassemblyBuffer.cc:39-45 | main ends at the first block that is missing |
| `ReassemblyBuffers.Reassemble` | inet/src/inet/common/ReassemblyBuffer.cc:39-45 | for any sequence of arrivals, in any order and with duplicates: complete with the first arrival after which no block is missing |
| `Units.CountIsExponent` | inet/src/inet/common/Units.h:389-440 | the fraction counted for a base unit is its exponent |
| `Units.ConvertibleIffSameDimension` | inet/src/inet/common/Units.h:444-491 | units are convertible exactly if all base units, mentioned or not, have the same exponents in both |
| `Units.ConvertibleIsEquivalence` | inet/src/inet/common/Units.h:486-491 | convertibility is reflexive, symmetric and transitive |
| `RealPowers.FixedPowerIsPower` | inet/src/inet/common/Units.h:496-568 | for a whole exponent, written out or not, the result is the power and nothing else if and only if the exponent is not 4 |
| `ScalingFactors.FactorIsUnique` | inet/src/inet/common/Units.h:570-618 | a unit whose factor does not go through a power of 4 has exactly one scaling factor |
| `ScalingFactors.FactorsDiffer` | inet/src/inet/common/Units.h:532-540 | any other unit may have scaling factors of different size |
| `Conversions.RoundTripsExactly` | inet/src/inet/common/Units.h:281-385 | there and back is the same value for all values, whatever is read from dead storage, if and only if the conversion asks for no factor that goes through a power of 4 |
| `Conversions.SomethingComesOut` | inet/src/inet/common/Units.h:281-385 | every conversion has a result |
| `Conversions.ConvertIsThroughBase` | inet/src/inet/common/Units.h:281-385 | however scale, translate, pow and compose are nested, with whole exponents or not, converting is going down to the core of the unit, from core to core by the scaling factors, and up again |
| `ConversionLaws.ConvertIsRatio` | inet/src/inet/common/Units.h:281-385 | between units without offsets a conversion gives the value times the ratio of the scaling factors and nothing else |
| `ConversionLaws.DifferencesScale` | inet/src/inet/common/Units.h:281-385 | with offsets too, differences of values are multiplied by that ratio |
| `ConversionLaws.ScaledConverts` | inet/src/inet/common/Units.h:342-362 | one layer of scaling: from unit * num / den to the unit, v * den / num; back, v * num / den |
| `ConversionLaws.TranslatedConverts` | inet/src/inet/common/Units.h:364-384 | one layer of translation: from unit + num / den to the unit, v - num / den; back, v + num / den |
| `ConversionLaws.ScaleMovesOut` | inet/src/inet/common/Units.h:578-597 | a scaled unit in a product converts to the scaled product with no change of value, for either factor |
| `ConversionLaws.PowerIsProduct` | inet/src/inet/common/Units.h:600-608 | a whole power other than the 4th converts to the repeated product with no change of value |
| `ConversionLaws.PowersCancel` | inet/src/inet/common/Units.h:600-608 | a power and the opposite power in a product cancel out |
| `ConversionLaws.RootIsUndone` | inet/src/inet/common/Units.h:600-608 | the n-th power of the n-th root converts to the unit with no change of value |
| `Conversions.ConvertRoundTrip` | inet/src/inet/common/Units.h:281-385 | there and back is the same value and no other |
| `Conversions.ConvertComposes` | inet/src/inet/common/Units.h:281-385 | a detour over a third unit comes to the same as the direct conversion and to nothing else |
| `Conversions.EqualIsEquivalence` | inet/src/inet/common/Units.h:168-172 | equality of values in different units is an equivalence: it does not matter which side is converted |
| `Bits.ParallelCountIsOnes` | inet/src/inet/common/ShortBitVector.h:113-115 | the parallel count is the number of bits set, for every word |
| `Bits.ParallelDistance` | inet/src/inet/common/ShortBitVector.h:106-116 | and so the Hamming distance of two vectors |
| `Bits.ValueOfBits` | inet/src/inet/common/ShortBitVector.h:48-48 | a word without other bits is the number its bits denote |
| `BitVectors.BitVector.SetBit` | inet/src/inet/common/BitVector.cc:61-72 | the vector with the bit set, filled up with zeros beyond its old end |
| `BitVectors.BitVector.AppendBit` | inet/src/inet/common/BitVector.cc:106-109 | one more bit at the end |
| `BitVectors.BitVector.ToggleBit` | inet/src/inet/common/BitVector.cc:74-80 | one bit turned over, an error beyond the end |
| `BitVectors.BitVector.GetBit` | inet/src/inet/common/BitVector.cc:82-88 | the bit at a position, an error beyond the end |
| `BitVectors.BitVector.ToDecimal` | inet/src/inet/common/BitVector.cc:150-161 | the number the bits denote, modulo 2^32 |
| `BitVectors.BitVector.ReverseToDecimal` | inet/src/inet/common/BitVector.cc:162-173 | the number they denote in reverse order, modulo 2^32 |
| `BitVectors.BitVector.ComputeHammingDistance` | inet/src/inet/common/BitVector.cc:175-184 | in how many places two vectors differ, an error for different sizes |
| `BitVectors.BitVector.Equals` | inet/src/inet/common/BitVector.cc:194-202 | true exactly for the same bits |
| `BitVectors.BitVector.CopyFrom` | inet/src/inet/common/BitVector.cc:209-215 | the bits of the other vector |
| `ShortBitVectors.ShortBitVector.SetBit` | inet/src/inet/common/ShortBitVector.h:79-91 | as for the long vector, an error beyond 32 bits |
| `ShortBitVectors.ShortBitVector.AppendBit` | inet/src/inet/common/ShortBitVector.h:66-66 | one more bit at the end, an error beyond 32 bits |
| `ShortBitVectors.ShortBitVector.ToggleBit` | inet/src/inet/common/ShortBitVector.h:93-100 | as for the long vector |
| `ShortBitVectors.ShortBitVector.GetBit` | inet/src/inet/common/ShortBitVector.h:70-77 | as for the long vector |
| `ShortBitVectors.ShortBitVector.ToDecimal` | inet/src/inet/common/ShortBitVector.h:48-48 | the number the bits denote |
| `ShortBitVectors.ShortBitVector.ReverseToDecimal` | inet/src/inet/common/ShortBitVector.h:50-60 | the number they denote in reverse order |
| `ShortBitVectors.ShortBitVector.ComputeHammingDistance` | inet/src/inet/common/ShortBitVector.h:106-116 | in how many places two vectors differ, an error for different sizes |
| `ShortBitVectors.ShortBitVector.EqualsIsRight` | inet/src/inet/common/ShortBitVector.h:126-126 | comparing the words is comparing the vectors if and only if the sizes are the same or the numbers denoted differ |
| `ShortBitVectors.ShortBitVector.ZeroEqualsTwoZeros` | inet/src/inet/common/ShortBitVector.h:126-126 | one zero and two zeros count as equal |
| `BitVectorAgreement.Build` | inet/src/inet/common/ShortBitVector.h:66-100 | after the same appends, sets and toggles within 32 bits both classes hold the same bits |
| `BitVectorAgreement.SameBit` | inet/src/inet/common/ShortBitVector.h:70-77 | then both have the same size and the same bit, or the same error, at every position |
| `BitVectorAgreement.ReadDecimals` | inet/src/inet/common/ShortBitVector.h:48-48 | then both give the same number |
| `BitVectorAgreement.ReadReversed` | inet/src/inet/common/ShortBitVector.h:50-60 | the same number in reverse order |
| `BitVectorAgreement.ReadDistance` | inet/src/inet/common/ShortBitVector.h:106-116 | and the same Hamming distance |

## Left out

- Simulation kernel: module setup, gates, signals, display strings, logging, sockets, parameters and lifecycle
  operations; only message arrivals and timers remain.
- DHCP: server restart, association signals, interface selection, header constants, options other than addresses and
  times, DECLINE (never sent).
- IntervalTrees.IntervalTree.Query: the query stack is a growing sequence, so its reallocation is not modelled.
- IntervalTrees.IntervalTree.DeleteNode: the memory of deleted nodes and the ownership of intervals are not modelled;
  the interval of the deleted node is returned.
- Interval tree: printing and destruction.
- Topology: extraction from a network, links given by gates, rounding of floating-point numbers.
- Macho: template registration, snapshots, parameterised initializers, deprecated state boxes, aliases that adapt to a
  history, and the reuse of the memory of boxes. All states exist from the start, where the program makes them on
  first use.
- Machos.Machine.RattleOn: stops after a given number of events, since handlers that post events for ever keep the
  original loop going for ever. `SettledIsTheEnd` says that the limit plays no part in a run that ends.
- Machos.Machine.Dispatch: has the same limit.
- Conversions.MayConvert: a stale factor of zero, by which nothing can be divided, is left out, and so are fractional
  powers of negative numbers, which are not real.
- PatternMatcher: case-insensitive mode, `patternPrefixMatches`, and what is read after a trailing backslash, which is
  an error value here.
- Int128: floating-point conversions, increments and decrements, bitwise operators between numbers.
- Int128s.Int128.Div: asks for a divisor other than -2^127, for which the loop does not end.
- ReassemblyBuffer: overlapping fragments that are not blocks of one partition. The vector of fragments is empty where
  the program has none yet.
- Units: display, specialised conversions by users, arithmetic of values.
- BitVector: construction from numbers and text, whole bytes, output. ShortBitVector: construction with given bits and
  the shift operators, which can leave bits beyond the size.
