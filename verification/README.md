# The forwarding plane of gouter, verified

gouter is a user-space IP and MPLS router written in Go. This project models what one of its
routers does with a packet, what drives its tables, and what becomes of a packet that crosses
several routers, and proves the properties the router exists for.

| file | what it holds |
|---|---|
| Bytes.dfy | bytes, Go slices as windows on shared arrays, big-endian values |
| Netip.dfy | addresses and prefixes as net/netip has them, and what a prefix holds, bit by bit |
| Fib.dfy, LongestMatch.dfy | the route table, its exchange sort, and longest prefix match |
| Nexthop.dfy | the next-hop resolver, for every order in which Go may visit its map |
| Label.dfy, LabelStack.dfy | the label codec and the operations on label stacks |
| Lfib.dfy | the label table and the lock-free label allocator with its interleavings |
| Checksum.dfy, IpHeader.dfy | the Internet checksum and the rewriting of IP headers |
| Forwarding.dfy | one router and one packet, as a function of the router's tables |
| Router.dfy | the router object, working in place on shared buffers; it refines Forwarding |
| Stacks.dfy | label stacks inside one router: unwinding, crashes, what may be emitted |
| Delivery.dfy | where packets end up: transports, NICs, drops, and the bytes that leave or stay |
| Determinism.dfy | what a router does depends on the meaning of its tables, not on any order |
| Paths.dfy | chains of routers: label-switched paths, the bound on a packet's life, and its delivery |
| Speaker.dfy | the BGP best-path events that fill the tables |

The data structures the Go code updates in place are classes here: the FIB is an array with a
length, sorted by exchanges; the router rewrites TTL, checksum and labels in the packet's own
buffer, of which a popped payload is a window. Each method is proved against a function, and the
properties are lemmas about those functions. `outputs` records the InjectInbound and Write calls;
`isLocal` and `nicForAddr` are arbitrary functions, as they are function fields in the source.

Particularities of the code that the model keeps, some of them at odds with the standards:

- Every entry the router writes has S set and TTL 64, whatever its place in the stack; section 2.1
  of RFC 3032 sets S only at the bottom, so a written stack conforms exactly when it has at most
  one entry (`LabelStack.BottomMarkedExactly`). No outcome depends on the traffic class, S or TTL
  of an arriving entry (`Stacks.OnlyLabelsAreRead`).
- The type of a popped payload is guessed from its first nibble, so an inner label whose top four
  bits are 4 or 6 is taken for an IP packet (`Stacks.UnwindsExactly`).
- A hop count of 0 wraps to 255 and the packet lives on (`Paths.BoundedLifetime`). The bound
  counts TTL checks on the IP packet; swaps write TTL 64 and read none, so a loop of labels never
  ends by itself (`Paths.LabelLoopNeverExpires`).
- The checksum covers 20 bytes whatever the header length (`IpHeader.OptionsVerifyExactly`); the
  accumulator would hold up to 131074 (`Checksum.NoOverflowExactly`).
- A bad IPv4 checksum is repaired instead of carried along (`IpHeader.IncrementalExactly`).
- A swap entry without out labels is an index panic (`Stacks.CrashExactly`). A push route
  sends bare IP marked as MPLS exactly when it has no labels (`Paths.EmptyPushMislabels`); only an
  SR policy without segments installs one (`Speaker.EmptyPushExactly`).
- Route equality is on unmasked prefixes, so the order of insertion decides a lookup, exactly for
  the addresses with tied entries (`LongestMatch.InsertionOrderExactly`).
- Goroutines that overshoot the label space together can be given one label; it happens exactly
  when a store rewinds a counter in use and an add follows (`LabelAllocation.GivenTwiceExactly`).
- An SR policy's IPv6 endpoint is cut to its first four bytes and routed as IPv4: two endpoints
  share a route exactly when those bytes agree (`Speaker.EndpointsCollideExactly`).

## Model

| member | source | states |
|---|---|---|
| Paths.PathIsTransparent | internal/router/router.go:189-305 | a label-switched path of any length and stack depth hands its last router exactly the IP packet the first one would have sent without labels |
| Paths.PathDelivers | internal/router/router.go:132-305 | over such a path a packet for the last router is injected into the NIC of its address, as the packet the first router would have sent without labels |
| Paths.DeliveredExactly | internal/router/router.go:132-187 | through routers that forward everything to the one that owns the address, a packet is injected if and only if it has a hop left for each router before the owner; it arrives as the packet forwarded that many times |
| Paths.ForwardedTimesBytes | internal/router/router.go:166-178 | forwarded n times, n not 0, a packet has n less in byte 8 (IPv4) or 7 (IPv6), modulo 256, an IPv4 header that verifies, and every other byte as it was |
| Paths.EgressExposesExactly | internal/router/router.go:206-213 | the egress exposes that packet if and only if no inner label looks like IP |
| Paths.Transit | internal/router/router.go:215-229 | any number of transit swaps change the top label and nothing else |
| Paths.Ingress | internal/router/router.go:260-305 | a push route and the same route made plain send the same aged packet to the same transport, with and without the stack |
| Paths.BoundedLifetime | internal/router/router.go:166-186 | along any chain with any sound tables, n labels deep, a packet passes at most t-1 TTL checks, t being byte 8 (IPv4) or 7 (IPv6) of the IP packet under its labels, and 255 if t is 0 |
| Paths.BoundIsReached | internal/router/router.go:166-186 | routers that forward everything let exactly that many checks pass |
| Paths.StepKeepsStack | internal/router/router.go:189-244 | one router turns a stack of entries over an IP packet into another, the inner hop count less by one exactly when the packet was exposed and passed the TTL check |
| Paths.EmptyPushMislabels | internal/router/router.go:291-303 | what a push route writes is marked MPLS, and is the bare IP packet if and only if the route has no labels |
| Paths.LabelLoopNeverExpires | internal/router/router.go:215-229 | routers that swap a label to itself pass a packet on unchanged, however many there are |
| Delivery.RouteSends | internal/router/router.go:180-305 | a packet in transit leaves aged, under its route's labels, by the route's transport, else an owner of a longest match of the next hop, else the transport of a longest match of the resolver's FIB, and by the transport of arrival only if those give no name |
| Delivery.LocalDelivery | internal/router/router.go:157-164 | a packet for the router, below any number of popped labels, is injected unchanged into the NIC of its address if there is one, whatever its hop count |
| Delivery.LocalRouteInjects | internal/router/router.go:268-279 | a local route injects the aged packet into the NIC it names, else that of its next hop, else that of the transport of arrival |
| Delivery.LastHopDrops | internal/router/router.go:166-170 | a packet for elsewhere whose hop count is 1 is dropped |
| Delivery.NoRouteDrops | internal/router/router.go:180-184 | a packet in transit whose destination no route holds is dropped |
| Delivery.UnknownLabelDrops | internal/router/router.go:189-204 | a labelled packet is dropped if it holds no entry or its label is unknown |
| Delivery.WritesGoToOwnTransports | internal/router/router.go:220-302 | whatever is written goes to a transport the router has, with the transport of arrival kept |
| Delivery.V6Leaves | internal/router/router.go:147-178 | an IPv6 packet leaves only if byte 7 is not 1, with byte 7 one less and every other byte as it was |
| Delivery.V4Leaves | internal/router/router.go:141-178 | an IPv4 packet leaves only if byte 8 is not 1, with byte 8 one less, a header that verifies, and every byte but 8, 10 and 11 as it was |
| Delivery.BufferUntouched | internal/router/router.go:132-164 | a packet that is not IP or is the router's own stays as it is in its buffer |
| Delivery.BufferV6 | internal/router/router.go:166-170 | any other IPv6 packet is left with byte 7 one less, even when it goes no further |
| Delivery.BufferV4 | internal/router/router.go:166-178 | any other IPv4 packet is left with byte 8 one less, and a renewed checksum only if it lives |
| Delivery.BufferShowsOutput | internal/router/router.go:206-229 | but for a push entry of the label table, what leaves is what the buffer shows past the popped entries, under labels a route pushed in new storage |
| Delivery.LabelledUntouched | internal/router/router.go:189-244 | a labelled packet that is dropped, panics or is pushed over stays as it is in its buffer |
| Stacks.Unwind | internal/router/router.go:206-213 | a stack of any depth whose labels are all popped, none below the first looking like IP, is handled as its payload |
| Stacks.UnwindsExactly | internal/router/router.go:246-258 | among stacks of popped labels, the payload is exposed if and only if no inner label looks like IP |
| Stacks.StuckAtIpLabel | internal/router/router.go:250-253 | at the first inner label that looks like IP the rest of the stack goes to the IP handler |
| Stacks.UnwindThenSwap | internal/router/router.go:206-229 | pops followed by a swap write the inner packet with the new label |
| Stacks.SwapIsPushExactly | internal/router/router.go:215-242 | a swap entry and a push entry with the same out labels send the same packet if and only if there is one label |
| Stacks.PushReplacesTop | internal/router/router.go:231-242 | what a push entry writes pops to its out labels and then the payload under the old top label |
| Stacks.CrashExactly | internal/router/router.go:215-219 | the router panics exactly on packets whose first label not popped has a swap entry without out labels |
| Stacks.EmittedShape | internal/router/router.go:114-305 | the one packet that may leave is a stack of written entries over a suffix of the input, changed at most in hop count and IPv4 checksum |
| Stacks.ExposedIsSuffix | internal/router/router.go:206-213 | the recursion of the handlers ends after at most len/4 pops, on the suffix those pops leave |
| Stacks.ProcessExposed | internal/router/router.go:114-244 | handling a packet has the outcome of handling what its pops expose |
| Stacks.ResidueBelowPops | internal/router/router.go:206-213 | the buffer keeps the popped entries unchanged and shows below them what the exposed packet leaves |
| Stacks.OnlyLabelsAreRead | internal/router/router.go:194-244 | of the entries popped and the entry that decides, class, S and TTL change no outcome |
| Stacks.PassesForIpExactly | internal/router/router.go:132-155 | a labelled packet passes for an IP packet if and only if its top label looks like IP and it is long enough |
| Stacks.GuessExactly | internal/router/router.go:246-258 | the guess is MPLS if and only if four bytes are there and the first nibble is neither 4 nor 6 |
| Stacks.DetectPushed | internal/router/router.go:246-258 | the type guess is right about a pushed entry exactly when its label does not look like IP |
| Determinism.MeaningDecides | internal/router/router.go:114-305 | tables with equal meaning (same masked routes in any list order, any map visiting order, one owner for each next hop the resolver is asked for) give every packet the same outcome |
| Forwarding.DestinationExactly | internal/router/router.go:139-155 | two packets are routed by one destination exactly when their version and destination bytes agree |
| Forwarding.DestinationValue | internal/router/router.go:141-151 | the destination has bytes 16 to 19 of an IPv4 packet, or 24 to 39 of an IPv6 packet, most significant first |
| Router.Router.HandlePacket | internal/router/router.go:114-130 | in place, on shared storage and with at most one output, does what the specification says, changes only the packet's window, and terminates |
| Router.Router.HandleMPLSPacket | internal/router/router.go:189-244 | the label cases: outputs, panic and the bytes left in the buffer |
| Router.Router.HandleIPPacket | internal/router/router.go:132-187 | the IP case: outputs and the bytes left in the buffer |
| Router.Router.AgeInPlace | internal/router/router.go:166-178 | the TTL and checksum bytes written in place, and whether the packet lives |
| Router.Router.ForwardByFIB | internal/router/router.go:260-305 | delivery, forwarding and label push with the transport fallbacks |
| IpHeader.ForwardedV6 | internal/router/router.go:166-178 | forwarding an IPv6 packet takes one off byte 7, modulo 256, and changes nothing else |
| IpHeader.ForwardedV4 | internal/router/router.go:166-178 | forwarding an IPv4 packet takes one off byte 8, modulo 256, makes the first 20 bytes verify by bytes 10 and 11, and changes nothing else |
| IpHeader.VerifiesByWords | internal/router/router.go:307-319 | a 20-byte header verifies if and only if its ten 16-bit words add up to a non-zero multiple of 65535 |
| IpHeader.IncrementalExactly | internal/router/router.go:166-178 | the recomputed checksum equals Equation 3 of section 3 of RFC 1624 if and only if the header verified on arrival |
| IpHeader.RefreshedVerifies | internal/router/router.go:171-177 | after the rewrite the first 20 bytes verify |
| IpHeader.OptionsVerifyExactly | internal/router/router.go:174-176 | a longer header verifies if and only if its options sum to a ones' complement zero |
| Checksum.Checksum | internal/router/router.go:307-319 | the two loops compute the complement of the wrapped ones' complement sum |
| Checksum.NoOverflowExactly | internal/router/router.go:308-314 | all byte strings of a length fit the 32-bit sum if and only if the length is at most 131074; the one caller passes 20 bytes |
| Checksum.NoOverflow | internal/router/router.go:308-314 | up to 131074 bytes the checksum is the complement of the true ones' complement sum |
| Checksum.OverflowAt131075 | internal/router/router.go:308-314 | one byte more, all ones, gives a wrong checksum |
| Checksum.FoldCarries | internal/router/router.go:315-317 | the fold loop yields the residue modulo 65535, with 65535 for non-zero multiples, in at most two rounds |
| Checksum.OddPadding | internal/router/router.go:312-314 | an odd input counts as the same input followed by a zero byte |
| Fib.FIB.Add | internal/router/fib.go:35-48 | replaces or appends and sorts, leaving one determined list, in order, whose table is updated at one prefix |
| Fib.FIB.Remove | internal/router/fib.go:50-60 | shifts the first entry of the prefix out, leaving one determined list, and removes the prefix from the table |
| Fib.FIB.HasExact | internal/router/fib.go:62-72 | is map lookup |
| Fib.FIB.Lookup | internal/router/fib.go:74-89 | the full scan returns the first match in list order, and it is a longest match of the table |
| Fib.FIB.Sort | internal/router/fib.go:99-107 | leaves the list the exchange sort defines, equal lengths included: the same entries in order of falling length |
| Fib.SortedStaysExactly | internal/router/fib.go:99-107 | the exchange sort leaves a list as it is if and only if it is in order |
| Fib.ExchangeSorts | internal/router/fib.go:99-107 | the list it defines is a permutation in order of falling length |
| LongestMatch.RunRefinesMap | internal/router/fib.go:35-107 | after any run of Add and Remove with masked prefixes the list is one entry per prefix of the replayed map, and a lookup is its only longest match |
| LongestMatch.LookupExactly | internal/router/fib.go:74-89 | with masked prefixes a lookup finds an entry if and only if its interval of addresses holds the address and no listed prefix with such an interval is longer |
| LongestMatch.LookupMissesExactly | internal/router/fib.go:74-89 | it misses if and only if no listed interval holds the address |
| LongestMatch.Perform | internal/router/fib.go:35-60 | a run of Add and Remove calls on a FIB leaves the list of that run |
| LongestMatch.LookupIgnoresOrder | internal/router/fib.go:74-107 | with masked prefixes two lists of one table answer every lookup alike |
| LongestMatch.InsertionOrderExactly | internal/router/fib.go:35-107 | without masking, two orders of adding the same entries answer an address differently if and only if it has tied entries |
| LongestMatch.EveryKeptListIsReached | internal/router/fib.go:35-48 | every ordered list without repeated prefixes is reached by adding its entries in order |
| LongestMatch.OrderMattersExactly | internal/router/fib.go:74-107 | some other list of the same table answers an address differently if and only if it has tied entries |
| LongestMatch.AddIsLocal | internal/router/fib.go:35-48 | an added route changes lookups only inside its prefix and only where no longer prefix covers the address |
| LongestMatch.RemoveFallsBack | internal/router/fib.go:50-60 | a removed prefix hands its addresses to the next longest one and changes no other lookup |
| LongestMatch.SameEffectExactly | internal/router/fib.go:35-60 | two runs always leave the same table if and only if they agree on the last update of every prefix |
| LongestMatch.LastUpdateWins | internal/router/fib.go:35-60 | after any run a prefix holds what its last update says |
| Netip.ContainsExactly | internal/router/fib.go:81-82 | a valid prefix holds an address if and only if it has no zone, is of the prefix's family and agrees with it in the first bits |
| Netip.MaskedContainsExactly | internal/router/fib.go:81-82 | a masked prefix holds the 2^(width - bits) addresses from its own on, and no others |
| Netip.MaskedExactly | internal/router/fib.go:81-82 | a prefix is masked if and only if its own address is the first it holds |
| Netip.BigEndianBytes | internal/router/router.go:145-151 | the value of an address has the bytes it is read from, in order |
| Netip.MaskedUnique | internal/router/fib.go:81-82 | two masked prefixes of one length that hold a common address are equal |
| Nexthop.NexthopResolver.Resolve | internal/router/nexthop.go:27-47 | the nested search and the FIB fallback, for any given visiting order |
| Nexthop.NexthopResolver.ResolveTransport | internal/router/nexthop.go:49-63 | the first-match search and the FIB fallback, for any given visiting order |
| Nexthop.ResolveIsLongest | internal/router/nexthop.go:27-47 | in every order the answer owns a longest match over all transports, and the FIB is consulted exactly when no prefix holds the address |
| Nexthop.ResolveOrderExactly | internal/router/nexthop.go:27-47 | the answer depends on the visiting order exactly when two transports own a longest match |
| Delivery.ResolveTransportAnswers | internal/router/nexthop.go:49-63 | a transport that holds the address, and the address as direct next hop; else transport and next hop of a longest match of the FIB; else nothing |
| Delivery.ResolveFallsBack | internal/router/nexthop.go:42-46 | when no transport prefix holds the address, the answer is the transport of a longest match of the FIB, or not found |
| Nexthop.FoundAgrees | internal/router/nexthop.go:27-63 | the two searches agree on found, in all orders |
| Nexthop.NamesAgreeExactly | internal/router/nexthop.go:27-63 | they agree on the name in all orders if and only if at most one transport holds the address |
| Label.ParseEncoded | internal/mpls/label.go:20-46 | decoding an encoded entry for every argument; a label above 20 bits becomes 0xFFFFF, and a large traffic class spills into the label |
| Label.EntryLayout | internal/mpls/label.go:20-30 | read as one 32-bit word, an entry is label, traffic class, S and TTL in 20, 3, 1 and 8 bits, as section 2.1 of RFC 3032 has it |
| Label.RoundTripExactly | internal/mpls/label.go:20-46 | the fields survive if and only if the label has 20 bits and the traffic class 3 |
| Label.EncodeParsed | internal/mpls/label.go:20-46 | every 4-byte word is the encoding of its own fields |
| LabelStack.PopPushedAll | internal/mpls/label.go:56-86 | popping undoes pushing at any depth, labels clamped to 20 bits |
| LabelStack.PushPoppedExactly | internal/mpls/label.go:56-70 | pushing a popped label back restores the packet exactly when its entry had class 0, S set and TTL 64 |
| LabelStack.SwapLabel | internal/mpls/label.go:72-79 | swapping in place leaves what pop then push give, and touches nothing past the entry |
| LabelStack.PushLabels | internal/mpls/label.go:81-86 | the loop builds the stack with the first label on top, in new storage |
| LabelStack.BottomMarkedExactly | internal/mpls/label.go:56-86 | a written stack sets S on its last entry only if and only if it has at most one entry |
| LabelStack.WrittenEntry | internal/mpls/label.go:56-86 | every written entry carries its clamped label, class 0, S set and TTL 64 |
| LabelStack.TopNibble | internal/mpls/label.go:32-46 | the first nibble of a written entry is the top nibble of its label |
| LabelAllocation.LabelAllocator.Allocate | internal/mpls/lfib.go:84-97 | alone, the next label in turn after at most two rounds |
| LabelAllocation.NthLabel | internal/mpls/lfib.go:80-97 | the n-th call returns 17 + n mod 1048559 |
| LabelAllocation.WindowIsPermutation | internal/mpls/lfib.go:80-97 | any 1048559 consecutive calls hand out each label from 17 on exactly once |
| LabelAllocation.RunSafe | internal/mpls/lfib.go:84-97 | in every interleaving the counter exceeds the label space by at most the number of goroutines that overshot |
| LabelAllocation.LabelsInRange | internal/mpls/lfib.go:84-97 | every label returned is in [17, LabelMax] and the 32-bit cast loses nothing |
| LabelAllocation.LabelsIncrease | internal/mpls/lfib.go:86-96 | labels returned with no store in between strictly increase |
| LabelAllocation.GivenTwiceExactly | internal/mpls/lfib.go:84-97 | in every interleaving a label is given twice, with no wrap between, if and only if some store finds a counter in use and an add follows it |
| LabelAllocation.RepeatRewinds | internal/mpls/lfib.go:86-96 | such a repetition has a rewinding store between its two adds |
| LabelAllocation.RewindRepeats | internal/mpls/lfib.go:86-96 | after a rewinding store the next add returns label 17 once more |
| LabelAllocation.RepeatNeedsStore | internal/mpls/lfib.go:86-96 | any repetition, a wrap included, has a store between |
| LabelAllocation.RacersShareLabel | internal/mpls/lfib.go:86-91 | an interleaving of two goroutines in which one label is returned twice |
| Speaker.Speaker.Watch | internal/bgp/speaker.go:157-159 | a list of events, one call of the callback each, leaves the tables of all their paths in order |
| Speaker.Speaker.HandleBestPath | internal/bgp/speaker.go:291-303 | the paths of an event, in order, each applied to the tables the earlier ones left |
| Speaker.Speaker.HandleUnicastPath | internal/bgp/speaker.go:305-325 | a unicast path adds or removes its route |
| Speaker.Speaker.HandleLabeledPath | internal/bgp/speaker.go:327-358 | a labelled path adds or removes a push route, or a local label |
| Speaker.Speaker.HandleSRPolicy | internal/bgp/speaker.go:360-392 | a policy adds or removes a push route to its endpoint |
| Speaker.LastPathDecides | internal/bgp/speaker.go:291-392 | after any paths a prefix holds exactly the entry (prefix, next hop, transport then resolved, action and labels of the family) of the last path that writes it, or nothing after a withdrawal |
| Speaker.UntouchedPrefix | internal/bgp/speaker.go:291-392 | a prefix no path writes or withdraws keeps its entry |
| Speaker.TargetExactly | internal/bgp/speaker.go:305-392 | which paths write or withdraw a prefix: not those without NLRI, next hop or labels, nor a label announced as this router's own |
| Speaker.LabelsExactly | internal/bgp/speaker.go:341-348 | after any paths a label is popped if some path announced it as this router's own, and is as before otherwise |
| Speaker.BgpLabelsNeverCrash | internal/bgp/speaker.go:341-348 | a router whose labels come from BGP alone never panics and never sends by its label table |
| Speaker.PathOrderIsInvisible | internal/bgp/speaker.go:291-392 | runs of paths that agree prefix by prefix leave FIBs that answer every lookup alike, if the resolver ignores the FIB and prefixes are masked |
| Speaker.FlattenedInOrder | internal/bgp/speaker.go:157-159 | the paths of every event come after those of the earlier events and before those of the later |
| Speaker.PolicyTarget | internal/bgp/speaker.go:360-375 | a policy's route has a masked /32 prefix, which holds the IPv4 address of the endpoint's first four bytes and no other |
| Speaker.PolicyAnswersOneAddress | internal/bgp/speaker.go:360-392 | with masked prefixes a policy changes the lookup of that address only: to its push route, or after a withdrawal to the longest match among the other prefixes |
| Speaker.EmptyPushExactly | internal/bgp/speaker.go:360-392 | the only path that installs a push route without labels is an SR policy without segments |
| Speaker.EndpointsCollideExactly | internal/bgp/speaker.go:365-375 | two policy endpoints name one route if and only if their first four bytes agree |
| Speaker.LaterPolicyOverwrites | internal/bgp/speaker.go:360-392 | of two policies in turn the first one's route survives if and only if those bytes differ or the segments are equal |

## Left out

- Fib.FIB.Lookup: returns the entry, not a pointer into the slice, so a caller cannot change the table through it.
- Fib.FIB.Add: grows the array to a capacity of its own choice; Go's growth policy is not part of this model.
- Speaker.Speaker.HandleBestPath: takes paths with NLRI, next hop and segments already extracted, and a next-hop resolver that is one function of address and routes; a resolver whose answer varies between two calls with the same routes, as Go's map order may make it, is not covered.
- Router.Router.HandlePacket: asks that the packet buffer is not a FIB array, which holds in Go by their types.
- Packet processors other than NullProcessor: an arbitrary one could lengthen packets.
- Nil packet data: dropped by the source, as the empty slice is here.
- Locks, channels and concurrent use of the FIB, LFIB and router: each operation is one step; only the label allocator is interleaved.
- Links between routers keep type and bytes; a WireGuard link marks all it delivers as IP (internal/wg/transport.go:74-79) and so does not carry label-switched paths (`Stacks.PassesForIpExactly` says what an IP handler takes for IP).
- Failing InjectInbound and Write calls: the source only logs the error.
- Addresses are bounded natural numbers with a family; parsing and printing are not modelled.
- A router ID that does not parse: the source panics in netip.MustParseAddr.
- Packet types, label operations and route actions outside the declared constants: the source ignores them.
- GoBGP sessions, filters, path export, BGP-LS, routeCount and logging.
- Netstack, WireGuard, UDP transport, configuration, HTTP pages and command wiring.
- The label table's List, its Allocate (a call of the allocator) and the no-op Release.
