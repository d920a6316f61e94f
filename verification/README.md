# The virtual switch between TUN devices and VXLAN listeners

This project models the part of virtual-vxlan that sits between a TUN device and a VXLAN socket, and proves what it
keeps and what it computes. `dafny verify dfyconfig.toml` checks all of it.

Five pieces are modelled.

* **ARP.** `ArpTable` is the table with every operation on it and its reading as a finite map; `ArpProtocol` the packets
  and their effect; `Resolver` one interface's engine as a state machine, with one step for each section the program runs
  under a lock (waiter channels, three tries, background refreshers, the reply handler); `Exchange` what it asks, answers
  and returns; `Handout` when the handing out of a reply ends, `Refreshing` how many refreshers an address has; `Network`
  any number of interfaces joined by a wire that loses, duplicates and reorders, `Resolution` a run of it on which an
  address is resolved; `ArpWire` the layers as bytes, and what they do to the interface that receives them.
* **Addresses and lookups.** `Bits` and `Addresses`: source choice, directed broadcast, multicast mapping. `Forwarding`:
  endpoint choice, gateway choice, the MAC and route tables; `Flushing` when the flush of permanent routes ends.
* **Configuration.** `Registry` and `Reconcile` are listeners, interfaces, ApplyConfig and SaveConfig on values.
  `ReconcileProofs`, `Contents`, `Idempotence`, `AppliedTwice`, `SaveRoundTrip` and `Settling` prove what applying,
  applying again and saving achieve, `Returning` when applying returns at all, `Inputs` holds the inputs on which they
  fail, `Runs` proves what every history keeps.
* **The program's own objects.** `Switch` holds the classes `Interface`, `Listener` and `App`, updated in place as the
  program does; `ConfigApply` is ApplyConfig and SaveConfig on them. Each method is tied to the value model by its
  contract, and each that edits an interface to the edit of the registry's histories that it is. `Lifecycle` is the life of a listener's interfaces under any interleaving of closes and state changes, which
  `Lives` ties to the objects; `Device` is the reconciliation of a device's address list.
* **Encapsulation.** `Wire` is IPv4 and the Internet checksum (RFC 791, RFC 1071), `Parsing` the parser that decodes layer
  after layer (IPv6 of RFC 8200 among them), `Tunnel` the serialization buffer, the VXLAN (RFC 7348), Ethernet and ARP
  (RFC 826) layers and what a listener receives, `Passage` which packets come out as they went in, `Delivery` the way from
  device to device.

## Where the code and its comments differ

The model follows the code; each difference is stated as a result.

* The expiry job drops an entry as long as now lies *before* its expiry plus the grace period, so it drops fresh entries
  and keeps stale ones (interface.go:878-880): `ArpTable.SweepDropsFreshEntry`, `ArpTable.SweepMeetsIntentIffAllStatic`.
* A request for the up state falls through to down (interface.go:203-207): `Lifecycle.RequestHonouredIff`.
* Closing a listener twice closes a closed channel, which is a panic (listener.go:176), while an interface's Close may be
  called any number of times: `Lifecycle.PanicsIffListenerClosedTwice`.
* The mark that an entry is being refreshed is set on a copy (interface.go:780), so it is never seen, and a look at an
  expired entry starts a refresher whatever is in flight: `Refreshing.InFlightAfter`, `Refreshing.AtMostOneSurvivesIff`,
  `Refreshing.TwoRefreshersAreReachable`.
* The handler hands a reply out on unbuffered channels with the tables locked for reading (interface.go:980-987). It gets to
  the end only when no waiter in line has given up or has nobody to ask; otherwise it stands there for ever and holds up
  every writer: `Handout.HandOutCompletesIff`, `Handout.WedgedForEver`, `Handout.BlockedForEver`,
  `Handout.WedgeIsReachable`, `Handout.NobodyToAskWedges`.
* The flush of permanent routes asks for the lock it holds (config.go:400, interface.go:438), so as written it ends exactly
  when there is nothing to flush: `Flushing.LockedEndsIff`. With a lock that its holder can take again it ends exactly when
  the device gives up every permanent route: `Flushing.EndsIff`. `Returning.ReturnsIff` lifts this to ApplyConfig,
  `Returning.AgainReturnsIff` says when a configuration that holds can be applied once more, and
  `Inputs.ConfiguredRouteHangs` gives an input. The other results on ApplyConfig say what it leaves when it returns.
* That flush removes by destination and gateway, so a transient route standing before a permanent twin goes in its stead
  (config.go:400-412, interface.go:449-456): `Forwarding.FlushIsExactIffUnshadowed`.
* A permanent listener that is configured under another name, or not at all, takes its transient interfaces with it,
  mentioned or not (config.go:242-251, listener.go:193-195): `ReconcileProofs.BystandersStayIff`, `Inputs.BystanderIsLost`.
* Applying a configuration twice is not always applying it once: `Idempotence.AppliesTwiceIff` and
  `AppliedTwice.AppliesTwiceForeseen` give the exact condition, after the first application and before it;
  `Inputs.RenamedListenerIsRemade`, `Inputs.RenamedInterfaceIsRemade` and `Inputs.ShadowedRouteIsLost` give inputs.
* A configured empty address list leaves addresses alone (config.go:336): `Contents.AddressesTakeHoldIff`,
  `Inputs.AddressIsNotCleared`.
* The error for a duplicate MAC entry is dropped, so an entry that was transient stays transient and is not saved
  (config.go:396): `Contents.PairIsPermanentIff`, `Inputs.ConfiguredPairIsNotSaved`.
* The serializer writes a computed checksum of zero as 0x0000, never 0xFFFF, so a packet that carries 0xFFFF is altered:
  `Wire.VerifiedSurvivesIff`, `Wire.AllOnesChecksumIsAltered`.
* The parsers go on into a payload that is an IP packet itself. The sender's overwrites the header it has (interface.go:1118,
  interface.go:1139), so of an unfragmented packet with protocol 4 or 94 only what is inside is sent; the listener's
  (listener.go:226, listener.go:257-266) hands over every layer, so one with protocol 41 arrives together with what is
  inside, or not at all. `Passage.PassesIff` gives the exact condition, `Passage.OuterIsLost` and `Passage.SixInFourArrives`
  what happens instead, `Passage.InnerArrivesInstead`, `Passage.InnerArrivesToo` and `Passage.NothingArrives` inputs.
* The parser keeps only the IPv4 options up to the one that ends the list, and the serializer fills up with zeros, so other
  padding is altered or lost: `Wire.ReencodingIsIdentityIff`, `Wire.OptionsNotKept`.
* A configured MTU that the tunnel cannot carry is capped by the device's next MTU event (interface.go:1069-1074), and
  then saved capped: `Settling.SaveAfterEventsIff`.
* A hop-by-hop header is taken out of an IPv6 packet without the announced length being reckoned anew, so padding behind
  the packet comes in at its end: `Parsing.HopByHopIsTakenOut`.
* Frames are padded to 60 bytes, so a small packet needs more than its length plus 50 bytes:
  `Tunnel.OuterDatagramFitsIff`.

## Model

| member | source | states |
|---|---|---|
| `Sequences.DeleteRestarting` | config.go:345-355 | for every predicate the scan, delete, break and rescan loop ends, and leaves exactly the entries that fail the predicate, in order |
| `Bits.BitIsShift` | interface.go:758 | the values the loop ORs in are the shifts the program writes |
| `Bits.SetHostBits` | interface.go:755-759 | the byte-wise loop ORs every octet with its part of the mask of the n lowest bits |
| `Bits.HostMaskIsPowerMinusOne` | interface.go:752-759 | the mask so built is 2^n - 1, from no host bits to 32 |
| `Bits.OctetsAreDigits` | interface.go:703-711 | the octets of an address are the digits of its number to the base 256, most significant first |
| `Bits.DirectedBroadcast` | interface.go:752-759 | the loop as a whole computes the address OR the host mask |
| `Addresses.ContainsIffInRun` | interface.go:735 | an IPv4 prefix with n host bits contains exactly the addresses at most 2^n - 1 above its first |
| `Addresses.RunStartsAligned` | interface.go:735 | and the first is a multiple of 2^n |
| `Addresses.HostMask64Doubles` | interface.go:735 | in IPv6, where each half has its mask, a run has one address without host bits and twice as many with each further one |
| `Addresses.ContainsIffInRun6` | interface.go:735 | an IPv6 prefix contains exactly the addresses whose upper half is in that run, whatever the lower, or, with fewer than 64 host bits, those with the same upper half and the lower in the run |
| `Addresses.ContainsNoOtherFamily` | interface.go:735 | and neither contains an address of the other family |
| `Addresses.IsDirectedBroadcast` | interface.go:751-764 | the test holds exactly of the directed broadcast of an IPv4 prefix |
| `Addresses.BroadcastIsMember` | interface.go:751-764 | that address lies in the prefix |
| `Addresses.BroadcastIsGreatest` | interface.go:751-764 | and no member of the prefix is greater |
| `Addresses.BroadcastIsCommon` | interface.go:751-764 | all addresses of one prefix give the same broadcast address |
| `Addresses.ChooseSource` | interface.go:732-743 | the loop picks the first prefix containing the target, else the last of its family, else none |
| `Addresses.FirstCoveringIsPicked` | interface.go:732-738 | that is the prefix at the first position whose range the target is in |
| `Addresses.LastOfFamilyIsPicked` | interface.go:739-742 | and where there is none, the one at the last position of its family |
| `Addresses.PickSourceSound` | interface.go:728-744 | a choice exists exactly when some prefix is of the family, is one of ours, and contains the target as soon as any does |
| `Addresses.MulticastRange4` | interface.go:699 | the groups of IPv4 are 224.0.0.0 to 239.255.255.255 |
| `Addresses.MulticastRange6` | interface.go:699 | those of IPv6 all addresses from ff00:: on, and the IPv4 groups written as IPv6 addresses |
| `Addresses.Multicast4MacIs` | interface.go:700-713 | an IPv4 group has the six bytes 01:00:5E and its low 23 bits as a number, most significant byte first |
| `Addresses.Multicast6MacIs` | interface.go:714-726 | an IPv6 group has 33:33 and its low 32 bits |
| `Addresses.Multicast4SharesMac` | interface.go:699-715 | two IPv4 groups share an Ethernet address exactly when their low 23 bits agree |
| `Addresses.ExactlyThirtyTwoGroupsFold` | interface.go:699-715 | the groups sharing one are exactly 32, one for each value of the five bits that are dropped |
| `Addresses.Multicast6SharesMac` | interface.go:716-726 | two IPv6 groups share one exactly when their last four octets agree |
| `Addresses.MulticastFamiliesApart` | interface.go:699-726 | no IPv4 group shares one with an IPv6 group |
| `ArpTable.ApplyRefines` | interface.go:483-594 | every operation keeps one entry per address and six-byte hardware addresses, and equals its update of the finite map |
| `ArpTable.RunRefinesMap` | interface.go:483-594 | over every history the slice is that map |
| `ArpTable.EntryIsLastWrite` | interface.go:492-520 | what an entry says is what the latest write of its address said; its expiry is zero exactly when that write was a static add |
| `ArpTable.ExpiryIsBounded` | interface.go:565-593 | with a clock that never runs backwards no expiry lies more than 60 seconds ahead |
| `ArpTable.SurvivesSweepIff` | interface.go:878-883 | an entry survives the job exactly when it is static or its expiry lies 120 seconds in the past |
| `ArpTable.SweepDropsFreshEntry` | interface.go:878-883 | the job removes an entry learnt at this very second |
| `ArpTable.SweepMeetsIntentIffAllStatic` | interface.go:878-883 | the job does what its comment says exactly on tables in which every entry is static |
| `Forwarding.AddThenRemoveRestores` | interface.go:307-356 | pairs stay unique, and adding a new pair then removing it restores the table, entry for entry |
| `Forwarding.GetDestinationFor` | interface.go:373-403 | the loop and the draws compute the specified choice |
| `Forwarding.DestinationIsDirectElseController` | interface.go:373-403 | whatever is drawn: a direct match if there is one, else a controller, else nothing |
| `Forwarding.EveryDirectMatchIsDrawn` | interface.go:391-394 | every direct match is drawn by some roll |
| `Forwarding.EveryControllerIsDrawn` | interface.go:396-400 | and where there is none, every default endpoint is |
| `Forwarding.GetGateway` | interface.go:468-480 | the pass that overwrites on a strictly smaller metric computes the gateway of the best route |
| `Forwarding.GatewayIsOfFirstLeast` | interface.go:468-480 | which is that of the first least-metric route containing the address |
| `Forwarding.NoGatewayIffNoRoute` | interface.go:468-480 | and there is none exactly when no such route has a metric below the largest integer |
| `Forwarding.FlushPermanentRoutes` | config.go:400-412 | the loop ends and leaves the routes without a permanent twin at or after them |
| `Forwarding.FlushLeavesNoPermanent` | config.go:400-412 | no permanent route survives |
| `Forwarding.FlushIsExactIffUnshadowed` | config.go:400-412 | the transient routes all survive exactly when none is shadowed |
| `Flushing.EndsIff` | config.go:400-412 | with a device that may refuse and a lock that may or may not be given twice, the flush ends exactly when every permanent route can be removed |
| `Flushing.LockedEndsIff` | config.go:400-412 | with the program's lock, exactly when no route is permanent |
| `Flushing.EndsFlushed` | config.go:400-412 | whenever it ends, what is left is the flushed table, whatever was refused on the way |
| `Device.SetIPAddresses` | tun/tun_linux.go:275-297 | the loops with their shrinking work list make the specified calls, in order, up to the first that fails |
| `Device.SetAddressesSucceedsIff` | tun/tun_linux.go:275-297 | they succeed exactly for a request without duplicates and when as many calls go through as there are addresses in one list only, and then make exactly that many |
| `Device.SetAddressesIsUseful` | tun/tun_linux.go:275-297 | however far they get, an address in both lists is never touched and every call that took effect was wanted |
| `Device.ReaddressedIsRequested` | tun/tun_linux.go:275-297 | after success the device holds exactly the requested set |
| `Device.ExecKeepsDistinct` | tun/tun_linux.go:275-297 | no outcome lists an address twice |
| `ArpProtocol.RequestShape` | interface.go:822-838 | both protocol addresses of a request have the declared length exactly when some prefix is of the target's family, and the source is then one of ours |
| `ArpProtocol.LearnTwice` | interface.go:918-938 | answering for several prefixes with the same address teaches the sender once |
| `Resolver.NextKeepsInv` | interface.go:598-683 | every step keeps the engine's invariant: waiters, tries, heard replies, hand-out |
| `Resolver.InvHolds` | interface.go:687-858 | so it holds in every reachable state |
| `Resolver.WaitersAreRunsInFlight` | interface.go:788-804 | the channels registered for an address are exactly those of its resolutions and refreshes in flight, in the order they came |
| `Resolver.AtMostThreeRequests` | interface.go:840-857 | no run sends more than three requests |
| `Resolver.ResolvedWasReplied` | interface.go:961-987 | a hardware address returned after a table miss comes from a reply for that address sent to our hardware address |
| `Exchange.TargetIs` | interface.go:688-693 | what is looked up for a destination is the gateway of the first least-metric route containing it, or itself where there is none |
| `Exchange.DirectAnswerIs` | interface.go:699-765 | an address is answered without a lookup exactly when it is a group, or the broadcast of the first of our prefixes that contains it, which is answered with six bytes of ones |
| `Exchange.RequestsAsk` | interface.go:812-838 | along every behaviour, what a run sends is an Ethernet request from our hardware address to the zero one, asking for the address the run is for, which an earlier step chose for a destination, from the best of our own addresses |
| `Exchange.RequestGoesOutIff` | interface.go:840-844 | and it is sent exactly when some prefix of ours is of the family |
| `Exchange.RepliesAnswer` | interface.go:908-962 | a received packet is answered exactly when it is a request for one of our addresses whose sender parses and can be reached, once for each prefix with that address, each time from our hardware address and the address asked for to the sender's |
| `Exchange.LearntIff` | interface.go:903-978 | exactly such a request, or a reply to our hardware address whose sender parses, changes the table: the sender's binding is there for 60 seconds and no other changes |
| `Exchange.OneExchange` | interface.go:812-989 | whatever states they are in, an owner that knows an endpoint for the sender answers its request, and every answer makes the sender learn the owner's hardware address for the address asked for and hand it out next |
| `Exchange.HitIsReturned` | interface.go:767-786 | a lookup that finds an entry returns its hardware address, and asks for a refresher exactly when it has expired |
| `Exchange.HandedIsReturned` | interface.go:846-848 | along every behaviour, what a resolution is handed is what it returns, and is the answer for its own address |
| `Exchange.GivesUpAfterThree` | interface.go:806-857 | along every behaviour, a run that goes without an answer has sent exactly three requests, or none after finding that there is nobody to ask |
| `Exchange.DeletersHaveAsked` | interface.go:655-683 | along every behaviour a run about to delete an entry is a refresher that has sent three requests |
| `Exchange.UnansweredRefreshersDelete` | interface.go:655-683 | and every refresher that leaves without an answer after asking has deleted its own |
| `Exchange.ExhaustedDeletes` | interface.go:670-682 | a refresher without an answer deletes the entry of its address and no other |
| `Handout.HandOutCompletesIff` | interface.go:980-987 | from every state that the invariant allows, some run ends the hand-out exactly when no waiter still in line has given up, or is about to for want of anybody to ask |
| `Handout.WedgedForEver` | interface.go:980-987 | once such a waiter is in line, the hand-out never ends on any run, and the table and the waiters never change again |
| `Handout.BlockedForEver` | interface.go:980-987 | while it is first in line, no other waiter is served either |
| `Handout.WedgeIsReachable` | interface.go:840-857 | a run of three requests whose reply comes in just before the last timeout ends there |
| `Handout.NobodyToAskWedges` | interface.go:806-810 | so does one whose reply comes in before it finds that it has no endpoint to ask |
| `Refreshing.InFlightAfter` | interface.go:771-786 | over every step: a look at an expired entry adds a refresher for its address, whatever is in flight; a refresher that leaves takes itself off; nothing else changes their number |
| `Refreshing.AtMostOneSurvivesIff` | interface.go:776-782 | where there was at most one refresher there still is after a look exactly when the entry is not expired or there was none |
| `Refreshing.SourcedHolds` | interface.go:781 | in every reachable state the refreshers counted so are all there are |
| `Refreshing.TwoRefreshersAreReachable` | interface.go:776-782 | learn an address, let it expire and look twice: two refreshers run for it |
| `Network.NetworkTruth` | interface.go:556-594 | in every reachable state of every sound network, every binding, every sender pair on the wire and every resolved address is the owner's true hardware address |
| `Network.TablesAgree` | interface.go:903-989 | any two interfaces that both know an address agree on it |
| `Network.ResolvedFrameReachesOnlyOwner` | interface.go:992-1001 | a frame addressed to what was resolved is accepted by the owner of the address alone |
| `Resolution.ResolutionIsReachable` | interface.go:687-858 | on every network in which one interface carries an address and another has a prefix of its family, some run ends with the other having returned the first one's hardware address, after asking and once more from its table, and the first having learnt the other's |
| `ArpWire.SliceRoundTrip` | interface.go:826 | the slice of an address reads as the address |
| `ArpWire.AddressRoundTrip` | interface.go:910 | and a slice that reads as an address is its slice |
| `ArpWire.RequestReads` | interface.go:820-838 | the layer built for a request reads as that request |
| `ArpWire.ReplyReads` | interface.go:946-956 | the layer built for a reply reads as that reply |
| `ArpWire.RequestIsWholeIff` | interface.go:820-838 | the serializer takes a request exactly when some prefix of ours is of the target's family |
| `ArpWire.ArpArrives` | listener.go:256-259 | a datagram with an ARP layer is handled by the interface with its VNI as the packet it reads as, and by no other, and nothing is written to a device |
| `ArpWire.RequestOnTheWire` | interface.go:820-962 | the request of an interface, serialized and received, teaches the owner of the address who asked and makes it answer |
| `ArpWire.ReplyOnTheWire` | interface.go:938-978 | and the reply, serialized and received, teaches the first one the owner's hardware address |
| `Wire.VerifiesIff` | interface.go:1027-1033 | any header verifies by RFC 1071 exactly when it stores the computed checksum, or all ones where that is zero |
| `Wire.DecodePadded` | interface.go:1135-1140 | decoding a consistent packet yields its fields, whatever padding follows it, and fails exactly when its options do not parse |
| `Wire.ZeroLengthTakesAll` | interface.go:1117-1139 | a total length of zero stands for whatever there is |
| `Wire.ReencodingIsIdentityIff` | interface.go:1158-1172 | parsing and serializing a consistent packet changes nothing exactly when its options are kept and its stored checksum is the computed one |
| `Wire.EncodedIsExact` | interface.go:1158-1172 | and whatever it changes, the result is a consistent packet with an exact checksum and kept options, which decodes as the packet did |
| `Wire.OptionsNotKept` | interface.go:1158-1172 | a word of padding too many is dropped, padding other than zeros is zeroed, an option that announces no data is an error |
| `Wire.VerifiedSurvivesIff` | interface.go:1165-1172 | among packets whose checksum verifies, exactly when the options are kept and the checksum is not 0xFFFF |
| `Wire.AllOnesChecksumIsAltered` | interface.go:1165-1172 | there is such a packet: consistent, verified, and altered |
| `Tunnel.SerializeBuffer.PrependBytes` | masquerade.go:29-32 | makes room in front of what is there |
| `Tunnel.SerializeBuffer.Copy` | masquerade.go:35 | overwrites the first bytes and nothing else |
| `Tunnel.SerializeBuffer.SerializeMasquerade` | masquerade.go:21-37 | an empty payload is refused and changes nothing, any other is put in front |
| `Tunnel.SendLayers` | interface.go:1017-1042 | layers are written from the last to the first behind a VXLAN header, and what is there at a failure is sent |
| `Tunnel.VxlanHeaderIs` | interface.go:1019-1022 | the VXLAN header has the flag that the VNI is valid and no other, the VNI in its place and the reserved bytes zero |
| `Tunnel.DatagramIs` | interface.go:1024-1035 | behind it come destination, source, type, body, and zeros up to the smallest frame |
| `Tunnel.PacketSentAs` | interface.go:1160-1174 | an IPv4 packet goes behind type 0x0800 |
| `Tunnel.ArpSentAs` | interface.go:812-838 | an ARP layer behind 0x0806, field by field as in RFC 826 |
| `Tunnel.ShortIsIgnored` | listener.go:240 | a datagram of at most 38 bytes is ignored, and a longer one with a frame of another type is not |
| `Parsing.ParseExtends` | listener.go:226-245 | what the parser has decoded stays decoded and in front of what follows, and every decoded kind has its variable set |
| `Parsing.ParseWithin` | listener.go:226-245 | no packet that it finds is longer than what it was found in |
| `Parsing.PlainSixDecodes` | listener.go:226-245 | an IPv6 packet of the announced length without a hop-by-hop header decodes to itself, whatever padding follows |
| `Parsing.HopByHopIsTakenOut` | listener.go:226-245 | with one, the header is taken out and as many bytes of the padding come in at the end |
| `Passage.PassesIff` | interface.go:1135-1175 | a consistent packet comes back with its VNI, Ethernet addresses and bytes, and nothing else does, exactly when its checksum is the computed one, its options are kept, and it is a fragment or its protocol is none of 4, 41 and 94 |
| `Passage.PlainIff` | interface.go:1117-1139 | which a packet is exactly when its flags and offset say fragment or its protocol is none of 4, 41 and 94 |
| `Passage.PlainArrives` | interface.go:1135-1175 | a fragment or a packet with another protocol arrives, alone, as it is serialized |
| `Passage.OuterIsLost` | interface.go:1117-1139 | an unfragmented packet with protocol 4 or 94 is sent exactly as its payload would be |
| `Passage.SixInFourArrives` | listener.go:257-266 | one with protocol 41 is lost when its payload does not decode as IPv6, and is otherwise followed by the packet inside |
| `Passage.Addressed` | interface.go:1158-1174 | whatever arrives of a packet has the VNI and the addresses it was sent with |
| `Passage.InnerArrivesInstead` | interface.go:1135-1174 | a consistent packet with protocol 4, in whose stead the one inside arrives |
| `Passage.InnerArrivesToo` | listener.go:257-266 | a consistent packet with protocol 41, after which the one inside arrives |
| `Passage.NothingArrives` | listener.go:245-248 | and one of which nothing arrives |
| `Tunnel.ArpRoundTrip` | interface.go:812-838 | so does an ARP packet, padding and all |
| `Tunnel.OuterDatagramFitsIff` | interface.go:110-113 | the outer datagram fits the maximum exactly when the packet is at most that less 50 and the maximum admits a padded frame |
| `Tunnel.EmptyPayloadSendsNothing` | masquerade.go:23-26 | a packet without payload is sent as an empty datagram, which no listener decodes |
| `Delivery.DeliveryIsExclusive` | listener.go:254-270 | a frame changes, makes write or makes answer at most one interface of its listener, the one at the position of its VNI |
| `Runs.ReachableDelivery` | listener.go:254-270 | so it is, changes, writes and replies, on every listener of every registry that any history leads to |
| `Delivery.EndToEnd` | interface.go:992-1001 | a consistent packet sent through the tunnel is written unchanged and alone to the interface with its VNI and hardware address exactly when its checksum is the computed one, its options are kept, and it is a fragment or its protocol is none of 4, 41 and 94; and whatever it is, nothing is written to any other |
| `Delivery.SixArrives` | interface.go:1004-1013 | an IPv6 packet received in a frame is written unchanged and alone to the interface with its VNI and hardware address and nowhere else, unless it has a hop-by-hop header or carries another IP packet |
| `Delivery.DefaultMtuIsLargest` | interface.go:110-113 | an MTU left to the listener asks for exactly the packets that fit the tunnel, any other is asked for as it is |
| `Delivery.EventMtuIsCapped` | interface.go:1060-1076 | after an MTU event the reader takes exactly the packets that the device takes and that fit the tunnel |
| `Registry.EditKeepsInterface` | interface.go:275-458 | every operation on an interface keeps its tables sound and its identity |
| `Registry.NewListenerKeepsValid` | listener.go:50-60 | a new listener leaves addresses and names unique |
| `Registry.NewInterfaceKeepsValid` | interface.go:86-97 | a new interface leaves VNIs unique on its listener, and is permanent only on a permanent one |
| `Registry.AddedListener` | listener.go:42-143 | a listener is refused exactly for a taken address or name or one that cannot be bound, and otherwise stands at the end as asked for |
| `Registry.AddedInterface` | interface.go:79-163 | an interface is refused exactly for a transient listener, a taken VNI or name or a device that cannot be made, and otherwise stands at the end with the identity and MTU asked for and empty tables |
| `Registry.RouteIsEntered` | interface.go:406-433 | a route is entered exactly when the kernel takes it, with metric 256 where none is given |
| `ReconcileProofs.PruneAt` | config.go:196-261 | after the removals, what is at an address is the pruned listener that was there |
| `ReconcileProofs.ApplyListenersEffect` | config.go:265-427 | how applying changes every listener: asked-for VNIs become permanent, the others and their order stay, names come from what was there or the configuration |
| `ReconcileProofs.Reconciles` | config.go:192-431 | from every valid registry a successful application leaves the permanent listeners and interfaces exactly those configured, the transient listeners not mentioned as they are and in order, and likewise the transient interfaces not mentioned on listeners that survive the removals |
| `ReconcileProofs.BystandersStayIff` | config.go:242-251 | at any address the transient interfaces not mentioned stay exactly when their listener survives the removals or there are none |
| `Inputs.BystanderIsLost` | config.go:242-251 | a permanent listener configured under another name takes one with it |
| `Contents.ConfigurationTakesHold` | config.go:265-427 | after it every configured interface has the configured hardware address, MTU (when the device takes it), ARP entries, routes and pairs and no other permanent entries; which pairs are permanent, and when the addresses are exactly those configured, told from the registry before |
| `Contents.SizesTakeHold` | config.go:267-290 | after it every configured listener is there and permanent, under its old name if one was kept, and has the configured largest message, unless that is at most one byte and a listener was kept, whose size then stays |
| `Contents.PairIsPermanentIff` | config.go:370-397 | a configured pair is permanent after configuring exactly when there was no transient entry for it |
| `Inputs.ConfiguredPairIsNotSaved` | config.go:396 | with one, applying changes nothing and what is saved lacks the pair |
| `Contents.AddressesTakeHoldIff` | config.go:335-340 | the device has exactly the configured addresses after configuring exactly when there are some or it had none |
| `Inputs.AddressIsNotCleared` | config.go:336 | an empty list clears nothing |
| `Idempotence.AppliesTwiceIff` | config.go:192-431 | applying again succeeds and changes nothing exactly when, after the first time, configured things bear their configured names and no transient route on them is shadowed |
| `AppliedTwice.AppliesTwiceForeseen` | config.go:192-431 | the same told before the first application: exactly when whatever transient listener or interface the configuration meets bears the configured name, and no route that the flush keeps goes where an accepted configured one goes |
| `Idempotence.ConfigureAgain` | config.go:315-426 | configuring an interface that is as configured changes at most its routes, and those exactly when one is shadowed |
| `Idempotence.SetAddressesTwice` | interface.go:290-299 | setting the same addresses again changes nothing and cannot fail |
| `Inputs.RenamedListenerIsRemade` | config.go:204-212 | a transient listener at a configured address under another name is kept the first time and remade the second |
| `Inputs.RenamedInterfaceIsRemade` | config.go:219-238 | so is a transient interface with a configured VNI |
| `Inputs.ShadowedRouteIsLost` | config.go:400-412 | a transient route to a configured destination and gateway survives the first application and not the second |
| `Returning.ReturnsIff` | config.go:265-427 | whether it applies or fails, ApplyConfig returns exactly when on every interface that stands where it gets to configuring one, every permanent route can be removed |
| `Returning.AppliedReturnsIff` | config.go:265-427 | for a configuration that applies, that is on every interface that stands where it configures one |
| `Returning.StartReturns` | config.go:399-412 | so a program just started always returns from its first application |
| `Returning.AgainReturnsIff` | config.go:399-412 | and with the program's lock a configuration that holds is applied once more exactly when it asks for no route that the kernel took |
| `Inputs.ConfiguredRouteHangs` | config.go:399-412 | an interface with one configured route, on which it never returns |
| `SaveRoundTrip.SaveAfterApply` | config.go:435-543 | applying a canonical configuration where nothing is permanent and nothing in the way succeeds, and saving gives it back, order included |
| `SaveRoundTrip.SaveAfterStart` | config.go:435-543 | in particular from the empty registry of a program just started |
| `Settling.SaveAfterEventsIff` | interface.go:1052-1076 | saving after applying and any number of MTU events gives the configuration back exactly when every configured MTU is at most the listener's maximum less 50 |
| `SaveRoundTrip.SaveAfterRestart` | config.go:435-543 | what is saved from a valid registry is canonical, and restarting from it and saving again saves the same |
| `Runs.RegistryInvariant` | listener.go:50-60 | over every history of adds, closes, edits and applications: unique addresses, names, VNIs and device names, permanent only on permanent, sound tables |
| `Runs.ReachableRestarts` | config.go:435-543 | every reachable registry whose permanent MTUs are set saves what a restart from it saves |
| `Lifecycle.PanicsIffListenerClosedTwice` | listener.go:176 | over every interleaving of closes, state changes and starts on a listener, a channel is closed twice exactly when the listener is; the interfaces' channels never are |
| `Lifecycle.SoundThroughout` | interface.go:247-272 | all along nothing is listed twice, an interface is listed until its Close takes it off, and its channel is closed exactly when its Close is over |
| `Lifecycle.RemovedAtMostOnce` | interface.go:260-268 | over every history an interface leaves the list once if it is off the list at the end, and never otherwise |
| `Lifecycle.OrderIsKept` | interface.go:260-268 | what is listed at two moments stands in the same order at both |
| `Lifecycle.ClosedIffCloseCalled` | interface.go:247-254 | an interface is closed exactly when Close was called on it |
| `Lifecycle.ClosedIsForEver` | interface.go:191-199 | once closed, nothing changes any more |
| `Lifecycle.RequestHonouredIff` | interface.go:191-210 | a state request is honoured exactly when it asks for down before the close, or for closed after it |
| `Lives.Close` | interface.go:247-272 | on the objects, Close is the three steps of that life run through |
| `Lives.ChangeState` | interface.go:191-210 | and the switch is its state change |
| `Lives.CloseInterfaces` | listener.go:193-195 | and the closing loop closes from the front until none is listed |
| `Lives.ClosedFrontsShape` | listener.go:193-195 | which leaves every interface that was listed closed, and every other as it was |
| `Switch.Interface.constructor` | interface.go:134-152 | a new interface is down, open and empty |
| `Switch.Interface.AddStaticARPEntry` | interface.go:483-521 | the scan with its early exit, in-place refresh and removal is the static add |
| `Switch.Interface.AddOrUpdateARP` | interface.go:556-594 | likewise the learning of a binding |
| `Switch.Interface.RemoveARPEntry` | interface.go:524-546 | the address loses its entry, and an error is reported exactly when it had none |
| `Switch.Interface.ExpireARP` | interface.go:868-888 | one run of the job is the sweep of the table |
| `Switch.Interface.FlushARPTable` | interface.go:896-900 | the table is empty |
| `Switch.Interface.ChooseTarget` | interface.go:687-765 | the address to resolve, the answer known from the address alone and the source of a request |
| `Switch.Interface.Consult` | interface.go:767-804 | an entry that is there answers and asks for a refresher exactly when expired; otherwise the channel joins the waiters at the end |
| `Switch.Interface.Leave` | interface.go:796-804 | only the caller's channel goes, and the others keep their order |
| `Switch.Interface.HandleARP` | interface.go:903-989 | what is learnt, the replies sent with their endpoints, and the waiters handed the answer |
| `Switch.WokenAreInFlight` | interface.go:980-987 | those waiters are the runs in flight for the sender of a reply to us, and those that the engine hands it to |
| `Switch.Interface.AddMACEntry` | interface.go:307-331 | a new pair goes to the end, a pair that is there is an error and changes nothing |
| `Switch.Interface.RemoveMACEntry` | interface.go:334-356 | the pair goes, and an error is reported exactly when it was not there |
| `Switch.Interface.FlushMACTable` | interface.go:366-370 | the table is empty |
| `Switch.Interface.AddStaticRoute` | interface.go:406-433 | the route with its default metric is entered exactly when the device takes it |
| `Switch.Interface.RemoveStaticRoute` | interface.go:436-458 | the first match goes, whatever its permanence, exactly when the device gave it up |
| `Switch.Interface.SetMTU` | interface.go:223-229 | only the device's MTU changes, to what the device makes of the requested one, or of the listener's maximum less 50 for one of at most one, and not at all when the device refuses |
| `Switch.Interface.UpdateMTU` | interface.go:1052-1080 | the reader's MTU follows the device's, capped by the listener's maximum |
| `Switch.Interface.SetIPAddresses` | interface.go:290-299 | the program's addresses change only when the device took them all |
| `Switch.Interface.HandleIPv4` | interface.go:992-1001 | a packet is written exactly when its frame is for our hardware address |
| `Switch.Interface.HandleIPv6` | interface.go:1004-1013 | and so is an IPv6 packet |
| `Switch.Interface.ForwardIPv4` | interface.go:1131-1175 | the innermost header that parses is the one whose destination is resolved and which is sent, wrapped in our VNI and addresses, to the endpoint chosen for its hardware address; nothing is sent when a header does not parse or the resolution fails |
| `Switch.Interface.Handle` | listener.go:256-266 | the loop over the decoded layers of a frame with our VNI: the effect, the packets written in order, the replies with their endpoints and the waiters |
| `Switch.Interface.ChangeState` | interface.go:191-210 | the switch with its fall-through |
| `Switch.Interface.Close` | interface.go:247-272 | the first time the interface leaves its listener and closes an open channel, later times nothing happens |
| `Switch.Interface.Configure` | config.go:315-426 | one interface's configuration in place is the configuration of its value, success and all |
| `Switch.Interface.ReplaceARP` | config.go:342-368 | the ARP flush and the adds that follow |
| `Switch.Interface.ReplaceMACs` | config.go:370-397 | the MAC flush and the adds that follow |
| `Switch.Interface.ReplaceRoutes` | config.go:399-425 | the route flush and the adds that follow |
| `Switch.Listener.SetMaxMessageSize` | listener.go:153-163 | the field takes every size above one, and any other is ignored |
| `Switch.Listener.Receive` | listener.go:212-270 | every interface is served the frame as its VNI and hardware address demand, at most one is affected, and the replies and woken waiters are those of the one with the VNI |
| `Switch.Listener.Close` | listener.go:166-199 | the listener leaves the list, its interfaces are all closed from the front, nothing else changes, and the registry stays valid |
| `Switch.Listener.CloseInterfaces` | listener.go:193-195 | the loop ends, with no interface left and every one closed |
| `Switch.App.NewListener` | listener.go:42-143 | a listener is added at the end, or refused, exactly as specified |
| `Switch.App.NewInterface` | interface.go:79-163 | an interface is added at the end of its listener, or refused, exactly as specified |
| `ConfigApply.FindUnconfigured` | config.go:200-245 | the nested scans find exactly the permanent listeners, and interfaces of listeners that stay, that are not configured |
| `ConfigApply.CloseUnconfigured` | config.go:196-261 | closing them leaves the pruned registry |
| `ConfigApply.TakeListener` | config.go:267-290 | the listener with the address is made permanent and sized, or one is started |
| `ConfigApply.ApplyInterface` | config.go:292-426 | one configured interface, taken or created, then configured |
| `ConfigApply.ApplyListener` | config.go:265-427 | one configured listener, then its interfaces up to the first that fails |
| `ConfigApply.ApplyConfig` | config.go:192-431 | the whole of it, on the program's objects, has the outcome of the reconciler on their value |
| `ConfigApply.SaveConfig` | config.go:435-518 | the appending loops compute the projection of the permanent state |
| `ConfigApply.SaveInterfaceConfig` | config.go:455-508 | one interface's part of it |

## Left out

- Sockets, TUN reads and writes, netlink and ioctl calls themselves: a call succeeds or fails as the `Host` parameter
  says; it is the same for the whole of one application.
- gRPC handlers, command line, service management, updater, log configuration, file paths and the YAML encoding.
- Parsing and printing of MACs, IPs and CIDRs, and the error returns of ApplyConfig for strings that do not parse;
  configurations hold parsed values, and listener addresses are in the form the program prints.
- Outbound IPv6 (interface.go:1177-1240), whose parser starts at the wrong layer.
- The packet library (go.mod:9) is not part of this model: its parser and its formats are written out in `Parsing`, `Wire`
  and `Tunnel`. Behind an IPv6 hop-by-hop header the program's append moves the payload in the read buffer
  (interface.go:1011); packets are values here.
- The UDP port of endpoints, always the listener's.
- Equality of IPv4 and IPv4-in-IPv6 endpoints in the MAC table.
- Random numbers: a draw is a parameter, a random hardware address a function of the device name.
- A device that the operating system names differently from what was asked for, and devices that cannot report their MTU.
- The hand-off of a new MTU or message size to a reader's buffer (interface.go:1083-1085, listener.go:160-162), whose
  order is not guaranteed; the event loop's other events.
- The promiscuous mode and the wait for a network interface when a listener starts (listener.go:66-111).
- A failed listing of the kernel's addresses (tun/tun_linux.go:275), which the program ignores.
- Aliased slices handed out by the table getters, and data races of the Go memory model: a section under a lock is one
  atomic step.
- Progress of senders that block on a channel, beyond `Handout.HandOutCompletesIff`.
- Forwarding.FlushPermanentRoutes: takes every removal as succeeding and the lock as given twice; `Flushing.EndsIff` says
  exactly when the loop ends otherwise.
- Switch.Interface.ReplaceRoutes: takes the flush to end, likewise, and so do the methods of `ConfigApply` that use it;
  `Returning.ReturnsIff` says exactly when it does.
- Switch.Listener.Receive: the byte slices of an ARP layer are read by a parameter, `parse`, of which nothing is asked;
  `ArpWire.ReadArp` is the program's, and `ArpWire.ArpArrives` says what a layer then does.
- Lifecycle.SoundThroughout: the closing loop of a listener reads the list without its lock (listener.go:193); the history
  takes each of its rounds as a Close of whatever interface.
- Network.NetworkTruth: assumes that hardware addresses and prefixes stay as they are while the network runs.
- Runs.RegistryInvariant: received frames enter a history as the learning they cause, an edit of the ARP table.
- SaveRoundTrip.SaveAfterApply: takes a device to list its addresses in the order they were added, while the kernel lists
  IPv4 before IPv6; asks the host for everything the configuration needs, and the configuration for MTUs
  above one and metrics other than zero, which stand for defaults and are saved as what they became.
