# BACnet router, capture and transfer tools: a verified model

This project models the behaviour of several programs of a BACnet protocol stack in Dafny and proves properties of
them over all inputs, all runs and all reachable states. `dafny verify dfyconfig.toml` checks everything.

- **Simple routers** (`apps/router-mstp`, and `apps/router-ipv6`, which has the same logic over another second port).
  `RoutingTable` gives the two-level router table as a value and the first-learned-wins route map that it refines.
  `NpduCodec` is the network-layer header of section 6.2.2 of ANSI/ASHRAE 135. `Forwarding` says what one received NPDU
  does: the table afterwards and the NPDUs handed to the data links. `Router` is the program in its own form, heap-linked
  lists of ports and learned networks and the handlers that walk and grow them, every method proved against
  `RoutingTable` and `Forwarding`, from received octets to sent ones. `Internetwork` puts any number of such routers on any networks, with frames delayed,
  lost, duplicated and reordered at will, and proves that following next hops never loops and always ends at a router
  attached to the destination.
- **Threaded router** (`apps/router`). `SharedMessages` is the main loop and the port threads, passing reference-counted
  messages through queues, in every interleaving. `PortTable` is its routing table, whose rule is "first port in the list
  wins", and its search for a free network number.
- **MS/TP capture** (`apps/mstpcap`). `Statistics` proves the frame-by-frame counters and timing maxima equal to their
  definitions over the whole trace. `Capture` is the file writer and reader. `CaptureScan` joins them: scanning a capture
  file gives the statistics that were kept while it was captured, if and only if every good frame fitted the receive
  buffer.
- **Device object** (`apps/piface`). `ObjectList`: the virtual concatenated object list and the object names.
- **Who-Is tool** (`apps/whois`). `WhoIs`: the table of answers with its duplicate flags.
- **File tools** (`apps/readfile`, `apps/writefile`). `FileTransfer`: chunked reading and writing.

## Reading the model

State that the programs change in place is a class (`Router.Router`, `Router.PortNode`, `PortTable.Ports`,
`Statistics.Monitor`, `Capture.CaptureFile`, `ObjectList.Device`, `WhoIs.AddressTable`, `FileTransfer.Reader`), and their
loops are loops. Fixed-width integers are written out: network numbers are 16 bits, hop counts and reference counts 8
bits, counters 32 bits, each with its wrap-around. Concurrency is a state machine whose events may come in any order.
Data links, clocks, sockets and message queues are parameters or events.

Six results say where the code stops keeping a promise, and exactly when:

- A shared message is safe in every run if and only if there are at most 256 ports, because the count is one octet
  (`SharedMessages.SafeExactlyUpTo256`).
- A relayed APDU carries its origin's address if and only if that address has octets to write
  (`Forwarding.RelayKeepsOrigin`, with a concrete failure in `Forwarding.BroadcastMacLosesOrigin`).
- Captured frames read back as they were on the wire if and only if every good frame fits the receive buffer and every
  frame with a bad data CRC fills it exactly (`Capture.FramesComeBack`). A longer good frame is cut off
  (`Capture.LongFrameCut`); a bad one is written with one stale octet too many, because the receive index has counted its
  first CRC octet (`Capture.BadFrameGrows`).
- Scanning a capture gives the frames that were counted while it was captured, in order, if and only if every good frame
  fitted the receive buffer, whatever bad frames there were (`CaptureScan.ScanGivesLiveTrace`). A longer good frame is
  counted live, but what is stored of it fails its CRC (`CaptureScan.LongFrameNotScanned`).
- A unicast with a known DNET and hops left goes out exactly once if and only if the selected link has someone to send it
  to; for a device on an attached BACnet/IP network, if its DADR is empty or has six octets
  (`Forwarding.UnicastTransmission`, `Forwarding.RefusedUnicast`).
- When writing a file to a server ends without an error, the server's file is the local one if and only if either the
  whole file was written and the old file was no longer, or the short last chunk could not be sent and was already there,
  in an old file of the same length (`FileTransfer.CompleteIff`). The loop takes the end of the local file as its own end
  before it knows whether the short chunk can be sent (`FileTransfer.ShortChunkLost`), and does not truncate
  (`FileTransfer.OldOctetsRemain`).

The reader of a capture goes by the data CRC alone when there is data, so a damaged header passes; the model does the same.

Where the documentation and the code differ, the model follows the code. The comment on the Who-Is-Router-To-Network
handler says that SNET and SADR are added or kept when a router asks on; the code asks without a source. The comment on
global broadcasts says that they are discarded when the hop count reaches zero; the code does not look at it.

## Model

| member | source | states |
|---|---|---|
| `Bacnet.NetListRoundTrip` | apps/router-mstp/main.c:388-405 | The list of network numbers that a router encodes decodes to the same list |
| `Bacnet.NetListRoundTripBack` | apps/router-mstp/main.c:666-671 | A list of whole 16-bit numbers that a router decodes encodes to the same octets |
| `RoutingTable.AddDnetRefinesLearn` | apps/router-mstp/main.c:228-282 | For every table, adding a route is one step of an abstract map in which the first learned route wins and all others are framed |
| `RoutingTable.AddPortRefinesAttach` | apps/router-mstp/main.c:180-219 | For every table, adding a port attaches an unknown network in that map and changes nothing else |
| `RoutingTable.PortAdded` | apps/router-mstp/main.c:200-217 | An added port has its number and MAC and has learned nothing, the lookup finds it attached, and the rows before stay |
| `RoutingTable.FindHits` | apps/router-mstp/main.c:118-148 | A lookup answers from a cell of the two-level structure that holds the number, and fails only if no cell does |
| `RoutingTable.FindCell` | apps/router-mstp/main.c:118-148 | In a table without repeats the lookup finds exactly the row, and the next-hop MAC, of the cell that holds the number |
| `RoutingTable.ApplyGrows` | apps/router-mstp/main.c:180-282 | An addition keeps every known route, and if it changes the table it makes exactly one more network known |
| `RoutingTable.HistoryKeepsRoutes` | apps/router-mstp/main.c:180-282 | Over every sequence of additions the network numbers stay pairwise distinct, known routes never change, and at most 65536 additions ever change the table |
| `NpduCodec.HeaderRoundTrip` | src/bacnet/npdu.c:344-502 | Decoding an encoded header gives back its fields, less what the encoding drops, whatever follows, however much may be read, and whatever the caller's source address held; a held network number 0xFFFF stays when SNET is absent |
| `NpduCodec.HeaderSurvivesWire` | src/bacnet/npdu.c:129-226 | A header survives encoding and decoding unchanged if and only if it has no source without octets (other than what the decoder leaves), no hop count without DNET and no vendor on a standard message |
| `NpduCodec.EncodeOnWire` | src/bacnet/npdu.c:129-226 | What the encoding drops makes no difference to the octets |
| `Forwarding.HeaderExamples` | src/bacnet/npdu.c:129-226 | The octets of an APDU with destination and source, and of a vendor's network message |
| `Forwarding.RouterMessageOctets` | apps/router-mstp/main.c:360-407 | The octets of an I-Am-Router-To-Network for one network and for a table, and of a Who-Is-Router-To-Network |
| `Forwarding.ReceivePdu` | apps/router-mstp/main.c:937-991 | Handling the octets of an NPDU, with anything behind them in the receive buffer, is handling the NPDU as it is decoded |
| `Forwarding.CutApduDropped` | apps/router-mstp/main.c:959-960 | An APDU whose packet ends inside its header is dropped |
| `Forwarding.WireTransparent` | apps/router-mstp/main.c:937-991 | What one router sends as octets the next handles as the NPDU that was sent |
| `Forwarding.SendsAreOnWire` | apps/router-mstp/main.c:851-903 | Every NPDU that a router sends is as its octets will be decoded |
| `Forwarding.Dropped` | apps/router-mstp/main.c:946-984 | Another version, a control message for one remote network, a remote APDU with at most one hop left and a broadcast confirmed request (first octet below 16) do nothing at all |
| `Forwarding.FaultIff` | apps/router-mstp/main.c:905-918 | For every NPDU, the program goes wrong exactly on an I-Am list with an odd octet and on a unicast with hops left for an unknown network |
| `Forwarding.UnknownRejected` | apps/router-mstp/main.c:748-760 | An unknown message type is rejected with reason 3 to the station that sent it; known types without a handler are ignored |
| `Forwarding.InitTableAcknowledged` | apps/router-mstp/main.c:718-747 | Initialize-Routing-Table teaches the first listed network through the sender and is answered with one broadcast of all ports: how many, and for each its network, its number and no more |
| `Forwarding.AdvertisedIffAnswered` | apps/router-mstp/main.c:594-628 | For every nonzero network: it is in the list advertised on a port exactly when asking there is answered with I-Am, exactly when it is reached through another port; no repeats; known through the port means silence, unknown means asking on every other port |
| `Forwarding.WhoIsAllAnswered` | apps/router-mstp/main.c:624-626 | A Who-Is without a network is answered with one broadcast I-Am on the network it came from, which lists, once each, exactly the networks not reached through that network |
| `Forwarding.WhoIsOneAnswered` | apps/router-mstp/main.c:605-623 | One that names a network is answered with one broadcast I-Am for it, with silence, or with the same question once on each other attached network |
| `Forwarding.AdvertisedIffElsewhere` | apps/router-mstp/main.c:388-403 | The advertised list holds exactly the known networks not reached through the port it goes out on |
| `Forwarding.AdvertisedOnce` | apps/router-mstp/main.c:388-403 | The advertised list has no repeats |
| `Forwarding.LearnAllRoutes` | apps/router-mstp/main.c:663-677 | After an I-Am list every listed network is known, known routes are untouched, new ones are listed and go through the arrival port to the sender |
| `Forwarding.AdvertiseThenLearn` | apps/router-mstp/main.c:360-407 | The same end to end: router B handles the octets that router A announced |
| `Forwarding.CopyCount` | apps/router-mstp/main.c:834-904 | A global broadcast leaves once on every port but the one of arrival, a unicast with a known DNET once on the port that the table selects if it has hops left, a local NPDU nowhere |
| `Forwarding.LinkCount` | apps/router-mstp/main.c:327-348 | For every pair of network numbers, how many of a sequence of sends go out on each data link: of those for its own number and those for number 0, the ones that it has someone to send to |
| `Forwarding.TransmissionCount` | apps/router-mstp/main.c:834-904 | On the wires, with nonzero distinct numbers: a global broadcast once, to everyone, on each attached link but the one of arrival; a unicast with a known DNET once, on the link that the table selects, if that has someone to send it to; a local NPDU nowhere |
| `Forwarding.UnicastTransmission` | src/bacnet/basic/bbmd/h_bbmd.c:576-620 | Whom that unicast is addressed to: the device, the next router or everyone; and that nothing goes out when BACnet/IP is given an address of another length |
| `Forwarding.RefusedUnicast` | src/bacnet/basic/bbmd/h_bbmd.c:611-617 | A concrete unicast that the router hands to its BACnet/IP link, which sends nothing |
| `Forwarding.LinkPerPort` | apps/router-mstp/main.c:327-348 | A port's number selects its own data link alone if and only if the two numbers are nonzero and distinct |
| `Forwarding.RelayLowersHop` | apps/router-mstp/main.c:959-984 | A relayed unicast came with a hop count above 1 and leaves with exactly one less, or without DNET |
| `Forwarding.UnicastHopBound` | apps/router-mstp/main.c:866-904 | Through any routers, a unicast with hop count h is relayed at most h - 1 times |
| `Forwarding.RelayKeepsOrigin` | apps/router-mstp/main.c:772-799 | Every relayed copy carries the origin's network and MAC if and only if that MAC has octets |
| `Forwarding.RelayCarries` | apps/router-mstp/main.c:834-904 | Every relayed copy has the received APDU octet for octet, its version, priority and reply flag; a broadcast stays one, a unicast goes to the device without DNET or to the next router's MAC, and a hop count that is sent is one less |
| `Forwarding.BroadcastMacLosesOrigin` | apps/router-mstp/main.c:789-796 | A concrete frame, from an empty MAC on network 1 to a device on network 2, whose one relayed copy has no SNET/SADR |
| `Forwarding.RelayLearnsWayBack` | apps/router-mstp/main.c:779-788 | Whoever relays then has a route to the origin's network: the one it had, else through the arrival port to the previous hop; no other route changes |
| `Forwarding.SourceIdentity` | apps/router-mstp/main.c:772-799 | Along every chain of relays through any routers with any tables, SNET/SADR are the sending device's network number and MAC and the APDU is its own octet for octet, and every router on the way is left with a route to that network, the one it had or through the arrival port to the previous hop |
| `Router.PortNode.Append` | apps/router-mstp/main.c:245-281 | Hangs a node at the end of a port's linked list, which then holds the old routes and the new one |
| `Router.PortNode.EncodeList` | apps/router-mstp/main.c:394-400 | Walks a port's list into the octets of its network numbers |
| `Router.LinkPort` | apps/router-mstp/main.c:195-206 | Hanging a node behind the last port adds exactly one row to the represented table |
| `Router.LinkDnet` | apps/router-mstp/main.c:245-281 | Hanging a node behind a port's list adds exactly one route to that row |
| `Router.Router.DnetFind` | apps/router-mstp/main.c:118-148 | The pointer walk finds the port, and the MAC of the next router, that the table lookup gives |
| `Router.Router.PortFind` | apps/router-mstp/main.c:150-172 | Finds a port if and only if the number is attached, with that port's MAC |
| `Router.Router.PortAdd` | apps/router-mstp/main.c:180-219 | Keeps the structure valid and turns the represented table into that with the port added |
| `Router.Router.DnetAdd` | apps/router-mstp/main.c:228-282 | Keeps the structure valid and turns the represented table into that with the route added, first learned wins |
| `Router.Router.FullList` | apps/router-mstp/main.c:388-403 | The nested walk encodes exactly the advertised list |
| `Router.Router.SendIAmRouterToNetwork` | apps/router-mstp/main.c:360-407 | Sends one announcement: of the one network, or of the whole advertised list for 0 |
| `Router.Router.SendToOthers` | apps/router-mstp/main.c:856-863 | Sends one copy on every port but one, in table order |
| `Router.Router.WhoIsRouterToNetworkHandler` | apps/router-mstp/main.c:594-628 | Sends exactly the answer that the table calls for and changes nothing |
| `Router.Router.IAmRouterToNetworkHandler` | apps/router-mstp/main.c:663-677 | Learns every whole number of the payload in order, and faults on an odd octet |
| `Router.Router.AckList` | apps/router-mstp/main.c:443-468 | Counts the ports in 8 bits and encodes an entry for each |
| `Router.Router.InitializeRoutingTableHandler` | apps/router-mstp/main.c:718-747 | Learns the first listed network, however many are listed, and acknowledges to the arrival number narrowed to 8 bits |
| `Router.Router.NetworkControlHandler` | apps/router-mstp/main.c:645-762 | Table and sends are those of the value-level handler, rejecting unknown messages |
| `Router.Router.RoutedSrcAddress` | apps/router-mstp/main.c:772-799 | Stamps or keeps the source and learns the way back |
| `Router.Router.RoutedApduHandler` | apps/router-mstp/main.c:820-920 | Table, sends and the fault of the unknown-route branch are those of the value-level relay |
| `Router.Router.RoutingNpduHandler` | apps/router-mstp/main.c:937-991 | The whole handler refines the value-level one |
| `Router.Router.ReceivePacket` | apps/router-mstp/main.c:937-991 | The same from the octets of a receive buffer, including headers that extend beyond the packet |
| `Internetwork.HandleLearns` | apps/router-mstp/main.c:937-991 | A router learns from a frame only what the frame claims, as reached through the frame's sender, and keeps its ports and routes |
| `Internetwork.HandleClaims` | apps/router-mstp/main.c:937-991 | A router claims only networks that it knows by then |
| `Internetwork.SendsOnOwnPorts` | apps/router-mstp/main.c:937-991 | A router sends on its own ports, except for the narrowed number of a routing-table acknowledgement |
| `Internetwork.StepInv` | apps/router-mstp/main.c:937-991 | Every delivery, start-up announcement and injected frame keeps: claims are honest, and a next hop knew the network earlier |
| `Internetwork.ReachableInv` | apps/router-mstp/main.c:937-991 | That holds in every reachable state of every internetwork |
| `Internetwork.LoopFreedom` | apps/router-mstp/main.c:228-282 | In every reachable state, for every network, no chain of next hops visits a router twice, and from every router that knows the network a chain ends at a router attached to it |
| `Internetwork.NewsTravels` | apps/router-mstp/main.c:1156-1158 | From every reachable state: once a router has received the start-up announcement of a router that it shares a network with, it knows every network reached otherwise than through that network, through the announcer if it did not know it before |
| `Internetwork.SendsTravel` | apps/router-mstp/main.c:937-991 | Whatever a router sends on one of its ports is on that network afterwards, and no other router has changed |
| `Internetwork.ChainToAttached` | apps/router-mstp/main.c:228-282 | Builds the chain of next hops from a router that knows a network down to one attached to it |
| `Internetwork.OneNextHop` | apps/router-mstp/main.c:228-282 | The router that a next hop names is unique |
| `SharedMessages.StepInv` | apps/router/msgqueue.c:83-103 | Every step of the main loop or a port thread keeps: the count is what is left to give back modulo 256, pointers and holders match, and a message is freed exactly when all have given it back |
| `SharedMessages.ReachableInv` | apps/router/main.c:149-180 | That holds after every interleaving |
| `SharedMessages.NeverFreedInUse` | apps/router/ipmodule.c:84-97 | A message that a port has queued or is sending, or has yet to get, is not freed; none is freed twice; it is freed exactly when it has recipients and all are done |
| `SharedMessages.NothingLost` | apps/router/network_layer.c:335-343 | When all ports run and all sends succeed, no recipient is left out |
| `SharedMessages.FreedExactlyOnce` | apps/router/mstpmodule.c:113-128 | Then a message with recipients has been freed once if and only if nobody holds it or has yet to get it |
| `SharedMessages.RecipientsExact` | apps/router/main.c:159-180 | In every run, a message to one port is for that port alone, a global broadcast for every port but its origin, a network message for all; no other port ever has it |
| `SharedMessages.EveryRecipientServed` | apps/router/main.c:168-180 | When all ports run and all sends succeed, once the main loop is done with a message every port that it is for has it or has given it back |
| `SharedMessages.LostOnlyIfFinished` | apps/router/main.c:171-176 | When all sends succeed, a recipient goes without only if it has finished and the message was not for it alone |
| `SharedMessages.FinishedIsSkipped` | apps/router/network_layer.c:336-340 | A port that has finished is queued nothing more but messages for it alone |
| `SharedMessages.FirstInFirstOut` | apps/router/msgqueue.c:50-72 | In every interleaving each port sends its messages in the order in which the main loop formed them |
| `SharedMessages.PlanSize` | apps/router/main.c:159-180 | The counts that the main loop writes, 1, one below the number of ports, or that number, are the numbers of recipients |
| `SharedMessages.TooManyRecipients` | apps/router/network_layer.c:335-343 | With more than 256 ports there is a run in which a message is freed before the last port has got it |
| `SharedMessages.SafeExactlyUpTo256` | apps/router/msgqueue.c:95-103 | No run with n ports frees a message in use, if and only if n is at most 256 |
| `PortTable.FindDnetIsFirst` | apps/router/portthread.c:48-80 | The lookup gives the first port in the list that is attached to or has learned the network, and nothing if there is none |
| `PortTable.FindDnetGives` | apps/router/portthread.c:48-80 | A broadcast goes to the head of the list; else the answer says whether the port is attached to the network and, if not, with which MAC it learned it |
| `PortTable.AddToReroutes` | apps/router/portthread.c:82-111 | Adding a network to a port re-routes it exactly when no port up to that one knew it, and touches no other route |
| `PortTable.AddAllReroutes` | apps/router/network_layer.c:85-96 | The same for a whole I-Am list |
| `PortTable.RoutesMoveEarlier` | apps/router/portthread.c:48-111 | Over every sequence of additions reachable networks stay so, the port for a network never moves later, each change moves it earlier, and the next hop is fixed while the port is |
| `PortTable.RouteChangesBounded` | apps/router/portthread.c:82-111 | A known route changes at most one time fewer than there are ports |
| `PortTable.RouteChangesAttained` | apps/router/portthread.c:82-111 | Some sequence of additions makes as many changes as there are ports before the current one |
| `PortTable.ListsStayDistinct` | apps/router/portthread.c:82-111 | No port ever lists a learned network twice |
| `PortTable.FreeNumberSmall` | apps/router/main.c:843-857 | With fewer than 65535 ports the free number is between 1 and one above the number of ports |
| `PortTable.ScanNeverEnds` | apps/router/main.c:843-857 | When all 65536 numbers are taken the scan never ends |
| `PortTable.Ports.FindDnet` | apps/router/portthread.c:48-80 | The nested walk gives the first match |
| `PortTable.Ports.AddDnet` | apps/router/portthread.c:82-111 | Appends the network to the one port unless that port has it |
| `PortTable.Ports.LearnNets` | apps/router/network_layer.c:85-96 | Adds every whole number of the payload to the arrival port |
| `PortTable.Ports.GetNextFreeDnet` | apps/router/main.c:843-857 | Terminates although it starts over, with the first unused number in the order 1 to 65535, then 0; at most one above the number of ports |
| `Statistics.NodeStepSummarises` | apps/mstpcap/main.c:186-318 | For every node and trace, one more frame takes the record of the whole-trace definitions to that of the longer trace: 12 counters, 7 maxima, poll mark and device number |
| `Statistics.IncrementalIsBatch` | apps/mstpcap/main.c:186-318 | After any sequence of frames, every node's statistics kept frame by frame are those defined over the whole trace |
| `Statistics.OccurrencesStep` | apps/mstpcap/main.c:186-318 | One more frame adds one to the set that a counter is the size of exactly when it is of that kind for that node |
| `Statistics.MaximumStep` | apps/mstpcap/main.c:186-318 | Taking the larger value keeps a maximum the attained maximum over the longer trace |
| `Statistics.SenderMeasure` | apps/mstpcap/main.c:207-315 | Each timing, highest polled address and tokens-per-poll value is updated by exactly the frames that its definition says |
| `Statistics.ElapsedIsTime` | apps/mstpcap/main.c:137-146 | The elapsed time is the time that passed, to less than a millisecond, as long as its milliseconds fit 32 bits |
| `Statistics.ElapsedMonotone` | apps/mstpcap/main.c:137-146 | Of two later frames the later one is not measured shorter |
| `Statistics.TimingMaximum` | apps/mstpcap/main.c:212-306 | A node's timing maximum bounds the time before every frame that it is over, and is the time before one of them, to a millisecond, unless it is 0 |
| `Statistics.CountedOnceForSender` | apps/mstpcap/main.c:201-310 | Every frame of a known type counts once, under its type, for its sender and no other node |
| `Statistics.FrameExamples` | apps/mstpcap/main.c:202-308 | Repeated, returned and self-passed tokens, polls and data with their answers, and which node each counts and is timed for |
| `Statistics.PollExample` | apps/mstpcap/main.c:238-246 | Two tokens received between two polls are measured as two, and the first poll measures nothing |
| `Statistics.DeviceExample` | apps/mstpcap/main.c:288-295 | The device number is that of the node's own last I-Am |
| `Statistics.TokensConserved` | apps/mstpcap/main.c:202-207 | Over any stretch of any trace, all nodes together pass as many tokens as they receive |
| `Statistics.ReportedTokensConserved` | apps/mstpcap/main.c:202-207 | The reported counters sum to the same modulo 2^32, and exactly for fewer than 2^32 frames |
| `Statistics.ClearedSummarises` | apps/mstpcap/main.c:390-399 | Cleared records are the definitions over the empty stretch from here on |
| `Statistics.Monitor.Count` | apps/mstpcap/main.c:201-310 | The in-place updates of the sender's and receiver's records are one step of every node's record |
| `Statistics.Monitor.CountToken` | apps/mstpcap/main.c:202-237 | So for a token, whose sender and receiver may be the same |
| `Statistics.Monitor.CountPoll` | apps/mstpcap/main.c:238-259 | So for a poll for a master |
| `Statistics.Monitor.CountReply` | apps/mstpcap/main.c:260-308 | So for a reply to a poll or a postponed reply |
| `Statistics.Monitor.CountTest` | apps/mstpcap/main.c:269-274 | So for a test request or response |
| `Statistics.Monitor.CountData` | apps/mstpcap/main.c:275-296 | So for data, expecting a reply or not |
| `Statistics.Monitor.Packet` | apps/mstpcap/main.c:186-318 | Keeps all 256 records and the old frame equal to their whole-trace definitions |
| `Statistics.Monitor.Clear` | apps/mstpcap/main.c:390-399 | The records start over; what is remembered of the last frame does not |
| `Capture.HeaderFields` | apps/mstpcap/main.c:654-724 | The fields compared are those of the written header exactly when the octets are, up to the snap length |
| `Capture.RecordRoundTrip` | apps/mstpcap/main.c:726-832 | A written record reads back with all its fields, data and CRC octets, leaving the stream at the next record, exactly when the buffer can hold some of the data there is |
| `Capture.RecordLayout` | apps/mstpcap/main.c:605-650 | Both packet lengths count the octets that follow, and the frame header has preamble, type, addresses and the data length, high octet first |
| `Capture.FileOctets` | apps/mstpcap/main.c:548-583 | Numbers are little-endian, and the 24 octets of the global header |
| `Capture.FileRoundTrip` | apps/mstpcap/main.c:585-651 | Every sequence of records as the writer stores them reads back, and as a prefix only if some buffer has size 0, which the program never sets |
| `Capture.CaptureRoundTrip` | apps/mstpcap/main.c:548-583 | A written file's header is accepted and the scan gives the records written |
| `Capture.FramesComeBack` | apps/mstpcap/main.c:606-625 | Any sequence of frames received into one buffer and captured reads back with its own lengths, data and CRC octets if and only if each good frame fits the buffer and each bad one fills it exactly |
| `Capture.FrameBuffered` | src/bacnet/datalink/mstp.c:508-550 | What the receive machine leaves of one frame is the frame's own record if and only if that is so |
| `Capture.LongFrameCut` | apps/mstpcap/main.c:614-619 | A concrete good frame, longer than the buffer, that comes back cut off |
| `Capture.BadFrameGrows` | apps/mstpcap/main.c:606-610 | A concrete frame with a bad data CRC that comes back with a stale octet |
| `Capture.DataComesBackWhole` | apps/mstpcap/main.c:606-625 | The length read back is the frame's own if and only if the data fits the buffer; the data are the buffer's |
| `Capture.CaptureFile.WriteGlobalHeader` | apps/mstpcap/main.c:548-583 | The file is the global header |
| `Capture.CaptureFile.WriteReceivedPacket` | apps/mstpcap/main.c:585-651 | Appends exactly the record |
| `Capture.CaptureFile.TestGlobalHeader` | apps/mstpcap/main.c:654-724 | Accepts exactly the written header up to its snap length, and closes the file otherwise |
| `Capture.OwnRecordsFit` | apps/mstpcap/main.c:791-796 | Of a record that the writer wrote, the reader puts no more into the receive buffer than fits |
| `Capture.CaptureFile.ReadReceivedPacket` | apps/mstpcap/main.c:726-845 | Reads the record at the current position, whether it is valid by its CRCs, and how many octets go into the receive buffer, and moves to the next; a short read closes the file |
| `Capture.CaptureFile.Scan` | apps/mstpcap/main.c:1015-1033 | Gives all records of an accepted file and none of another |
| `CaptureScan.Scan` | apps/mstpcap/main.c:1015-1033 | The scan adds exactly the valid records of an accepted file to the statistics, keeps them equal to their definitions, and counts the others |
| `CaptureScan.ScanRecord` | apps/mstpcap/main.c:834-839 | One record goes into the statistics exactly if it is valid |
| `CaptureScan.ScanGivesWholeFrames` | apps/mstpcap/main.c:834-839 | Scanning any capture, of good and bad frames of any length, gives the good frames that fit the buffer, in order, with time stamps narrowed to 32 bits, and counts all others as invalid |
| `CaptureScan.ScanGivesLiveTrace` | apps/mstpcap/main.c:596-604 | For every such sequence: the frames scanned are those counted live if and only if every good frame fits the buffer, and only then are as many invalid frames found as there were bad ones |
| `CaptureScan.LongFrameNotScanned` | apps/mstpcap/main.c:601-604 | A concrete good frame, longer than the buffer, that is counted live and not when scanned |
| `CaptureScan.LongFrameMissed` | apps/mstpcap/main.c:601-604 | So the statistics differ: one data frame live, none when scanned |
| `CaptureScan.FrameScanned` | apps/mstpcap/main.c:834-839 | The same frame with room for it is scanned as it was sent |
| `CaptureScan.ElapsedNarrowed` | apps/mstpcap/main.c:137-146 | Narrowing time stamps changes no elapsed time |
| `CaptureScan.ScannedEqualsLive` | apps/mstpcap/main.c:596-604 | When every good frame fits, the statistics scanned from a capture file are, for every node, those kept while it was captured, whatever bad frames there were between |
| `ObjectList.ListCount` | apps/piface/device.c:620-635 | The length of the concatenated list, modulo 2^32 |
| `ObjectList.ListIdentifier` | apps/piface/device.c:647-694 | Indices 1 to N give the concatenation in order, every other index fails, without underflow |
| `ObjectList.ReadObjectList` | apps/piface/device.c:981-1028 | Gives the length, one element or the whole list, or the error, and how many octets are written; all stay within a buffer of 5 octets or more, and the whole read within a smaller one only if the list is empty |
| `ObjectList.ElementReadBack` | apps/piface/device.c:1016-1026 | A reader of the octets of one element, tag 12 with a 10-bit type and a 22-bit instance, finds that object of the table |
| `ObjectList.ListReadBack` | apps/piface/device.c:990-1015 | A reader of the octets of the whole list finds the objects of the table, all and in order, as many as index 0 says |
| `ObjectList.IdReadBack` | src/bacnet/bacdcode.c:1078-1124 | An encoded identifier reads back with its type and the lower 22 bits of its instance |
| `ObjectList.PropertyOctets` | src/bacnet/bacdcode.c:1078-1124 | The octets of the identifier of device 1234 and of the length 300 |
| `ObjectList.UnsignedReadBack` | src/bacnet/bacdcode.c:1735-1796 | The octets for index 0 are a tag with the length of the number and the number, in as few octets as hold it |
| `ObjectList.EncodeUnsignedInjective` | src/bacnet/bacdcode.c:1735-1796 | The octets for index 0 are those of that length and no other |
| `ObjectList.IteratorFollowed` | apps/piface/device.c:670-680 | An iterator that enumerates a group's objects from all ones is followed to the k-th |
| `ObjectList.ReadWholeList` | apps/piface/device.c:990-1015 | Gives all identifiers in order if there is at most one or they are shorter than the buffer, else aborts |
| `ObjectList.ViewsAgree` | apps/piface/device.c:981-1028 | A successful whole read is the single reads up to the length read; that length is the number of objects if and only if it fits 32 bits, and the next index is then refused |
| `ObjectList.FindFunctions` | apps/piface/device.c:109-124 | The first group of a type, and none exactly when no group is of the type |
| `ObjectList.FoundGroup` | apps/piface/device.c:109-124 | The same from any position of the table on |
| `ObjectList.OnlyDeviceRenamed` | apps/piface/device.c:402-413 | The device answers to its own name, which makes no difference to the name of any other object |
| `ObjectList.RenameKeepsDistinct` | apps/piface/device.c:1198-1219 | A write of the device's name keeps all names pairwise distinct |
| `ObjectList.NamesStayDistinct` | apps/piface/device.c:1198-1219 | So does every sequence of writes, and the revision advances, modulo 2^32, once for each real change |
| `ObjectList.Device.ValidObjectName` | apps/piface/device.c:705-738 | The first object in the list with that name, and none if and only if no object has it; with 2^32 - 1 objects only when there is a match, since the index cannot pass the last |
| `ObjectList.Device.WriteName` | apps/piface/device.c:1198-1219 | Refuses a name that another object has, accepts any other valid one, which then names the device, and advances the revision exactly on a real change |
| `ObjectList.Device.SetObjectName` | apps/piface/device.c:402-413 | Sets the name and advances the revision exactly when the name differs |
| `WhoIs.AddressSame` | src/bacnet/bacaddr.c:60-100 | True exactly for the same network, the same octets in use of the remote address and, locally, of the MAC |
| `WhoIs.SameOctets` | src/bacnet/bacaddr.c:60-100 | Octet by octet: at most seven of each in use, the MAC on the local network alone, nothing beyond the lengths |
| `WhoIs.SeenInFirsts` | apps/whois/main.c:94-120 | A device and address is matched by an entry exactly when it has arrived |
| `WhoIs.FirstsDistinct` | apps/whois/main.c:94-120 | No two entries are the same device at the same address |
| `WhoIs.EachOnce` | apps/whois/main.c:94-120 | For every arrival there is exactly one entry |
| `WhoIs.FirstsInOrder` | apps/whois/main.c:81-120 | The entries are in order of first arrival, each as it arrived then |
| `WhoIs.AddressTable.Add` | apps/whois/main.c:81-120 | After any arrivals the table is the first arrivals in order, each flagged exactly when another entry has its device number, although flags are set before an early return |
| `FileTransfer.ChunkExtends` | apps/writefile/main.c:268-292 | A chunk written where the copy ends extends it without gap or overlap |
| `FileTransfer.RunEnds` | apps/writefile/main.c:256-298 | Every run from any chunk on: it ends without error exactly when the request for the short chunk is made and does not fail; the chunks acknowledged are then all, less that one if it could not be sent, and the server's file is the local one up to there |
| `FileTransfer.CompleteIff` | apps/writefile/main.c:256-298 | For every file, chunk size, old server file and outcomes: a run without error leaves the local file on the server if and only if all was written over a file no longer, or the unsent short chunk was there already |
| `FileTransfer.ShortChunkLost` | apps/writefile/main.c:271-292 | A concrete run that ends without error and has lost the end of the file |
| `FileTransfer.OldOctetsRemain` | apps/writefile/main.c:288-290 | A concrete run that ends without error and leaves old octets behind the file |
| `FileTransfer.ShortChunk` | apps/writefile/main.c:271-274 | The short last chunk is empty exactly for a whole number of chunks |
| `FileTransfer.WriteFile` | apps/writefile/main.c:256-298 | The loop itself, against any outcomes: all of the above of its results |
| `FileTransfer.SendChunk` | apps/writefile/main.c:256-292 | One pass through the loop |
| `FileTransfer.StoredExtends` | apps/readfile/main.c:105-160 | A first acknowledgement extends the local prefix of the remote file by its data |
| `FileTransfer.StoredAgain` | apps/readfile/main.c:105-160 | The same acknowledgement again changes nothing |
| `FileTransfer.Reader.AckHandler` | apps/readfile/main.c:105-175 | The local file is a prefix of the remote one and equal to it at end of file; a repeated acknowledgement changes nothing; a first one shortens what remains or ends the file |
| `FileTransfer.Reader.SendRequest` | apps/readfile/main.c:364-377 | Asks from the end of what is there |
| `FileTransfer.ReadFile` | apps/readfile/main.c:343-383 | Against any honest server and any replies, unsent, unusable, answered once or repeatedly, or failing: the loop completes exactly when an answer with the end of the file arrives before a failure; then the copy is the file, and else a prefix or what was there |
| `FileTransfer.CompletesInFull` | src/bacnet/basic/object/bacfile.c:418-450 | With a server that answers in full that is exactly when as many requests are answered as the file has chunks |
| `FileTransfer.CompletesInPart` | apps/readfile/main.c:365-377 | However a server answers, one answered request more than the file has octets is enough |
| `FileTransfer.AnswersAreHonest` | src/bacnet/basic/object/bacfile.c:418-450 | The answers of the model are honest: octets of the file, at least one while there are any, and a mark only at the end |
| `FileTransfer.HonestIsAnswer` | apps/readfile/main.c:119-166 | They are all honest acknowledgements |
| `FileTransfer.AllAnswered` | apps/readfile/main.c:365-377 | If every request is answered, as many answers as requests arrive |
| `FileTransfer.AnswerIs` | src/bacnet/basic/object/bacfile.c:415-450 | Request k is answered with chunk k, marked as the end exactly when that is the short one |

## Left out

- Router.Router.RoutingNpduHandler: requires the arrival network to be one of the router's own ports, as it always is in the main loop; otherwise the program sends an uninitialised source address.
- Router.Router.RoutedApduHandler: after the unknown-route branch has learned the way back the program uses a null port; the model stops there and reports a fault, so nothing is claimed about delivery.
- Router.Router.IAmRouterToNetworkHandler: on an odd number of octets the program's loop never ends and reads on through memory; the model learns the whole numbers and reports a fault, beyond which nothing is claimed.
- Router.Router.ReceivePacket: an I-Am-Router-To-Network whose header extends beyond the packet is a fault for the same reason.
- Forwarding.CopyCount: makes no claim about the DNET of a unicast relayed to another router, because the program leaves the network part of that address uninitialised (the model takes it as a parameter).
- Forwarding.UnicastHopBound: speaks of unicast only, because the program does not look at the hop count of a global broadcast.
- Internetwork.LoopFreedom: assumes that a MAC on a network belongs to one router, and that only routers send I-Am-Router-To-Network, routing tables to initialize with, or NPDUs with a source; it allows any router on a network to hear any frame there, and a faulted router to go on.
- SharedMessages.NeverFreedInUse: covers messages that the main loop forms, not those it receives, and is about freeing, not about leaks or concurrent writes to the destination field.
- Capture.RecordRoundTrip: covers records with the full 8-octet frame header; for shorter ones the reader always takes 8.
- Capture.CaptureFile.ReadReceivedPacket: takes the two CRC computations as parameters, and reports the octets that go into the receive buffer without a bound: for a file from elsewhere they may be up to 65535, more than the program's buffer holds, and nothing is claimed beyond that.
- CaptureScan.ScanGivesLiveTrace: assumes a receive buffer with room, as the program has, and that the data CRC passes for what is stored of a frame exactly when that is a whole good frame; the header CRC is assumed in order.
- CaptureScan.ScannedEqualsLive: takes the decoding of an I-Am as a function of the data, without the stale octets that the program reads behind one that is cut short.
- Capture.FramesComeBack: covers frames with a good header that are received to their last octet, not those broken off by a timeout.
- FileTransfer.WriteFile: does not model pad-octet mode or a local file that cannot be opened part-way.
- FileTransfer.Reader.AckHandler: covers acknowledgements for the current request from an unchanged remote file; local writes and seeks are taken to succeed.
- ObjectList.Device.ValidObjectName: requires fewer than 2^32 objects, and a match when there are 2^32 - 1, because the search does not end otherwise.
- ObjectList.Device.WriteName: takes the result of the general string validation as a parameter.
- Statistics.Monitor.Packet: takes the device number of an I-Am as decoded with the frame, by way of a parameter of the scan.
- The transmit buffer is a sequence: its capacity and the octets of MAC arrays beyond their length are not modelled.
- The DNET record, which the program uses both for ports and for learned networks, is two classes.
- The application layer behind the router, its Device object and handlers.
- Header decoding, confirmed-request detection and hop counts of the threaded router; its network messages other than the learning of routes.
- Sockets, serial ports, threads, signals, configuration files and command lines.
- The APDU codecs, the transaction state machine, the address cache and the CRC functions.
- Shutdown and freeing of the tables.
- The remaining command-line tools, which share one bind, send and wait loop.
