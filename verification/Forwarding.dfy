/** What the router does with one received NPDU: the table it has afterwards and the NPDUs it hands to
    its data links. */
module Forwarding {
  import opened Bacnet
  import opened RoutingTable
  import opened NpduCodec

  /** One call of datalink_send_pdu: the attached network, the MAC of the destination address, and the NPDU, whose
      DNET/DADR are those of the destination address too. */
  datatype Send = Send(port: NetNumber, mac: Mac, npdu: Npdu)

  /** The memory that the handlers read without having written it: the network part of `remote_dest`, and the two octets
      that follow the packet in its buffer. Every result holds whatever these are. */
  datatype Uninit = Uninit(dest: NetAddr, next: Octet, afterNext: Octet)

  /** `fault` marks the unknown-route branch, which goes on to use a null port, and an I-Am list with an odd octet at
      the end, whose decode loop never comes to zero and runs on through memory. Nothing is said beyond that point. */
  datatype Outcome = Outcome(table: Table, sends: seq<Send>, fault: bool)

  const WHO_IS_ROUTER: Octet := 0
  const I_AM_ROUTER: Octet := 1
  const REJECT_MESSAGE: Octet := 3
  const INIT_RT_TABLE: Octet := 6
  const INIT_RT_TABLE_ACK: Octet := 7
  const LAST_KNOWN_MESSAGE: Octet := 9
  const UNKNOWN_MESSAGE_TYPE: Octet := 3

  /** The walk of port_find. */
  predicate IsPort(t: Table, snet: NetNumber) {
    exists i :: 0 <= i < |t| && t[i].net == snet
  }

  /** Attached networks other than `snet`, from row i on, in table order. */
  function OtherPorts(t: Table, i: nat, snet: NetNumber): seq<NetNumber>
    requires i <= |t|
    decreases |t| - i
  {
    if i == |t| then []
    else (if t[i].net != snet then [t[i].net] else []) + OtherPorts(t, i + 1, snet)
  }

  function SendEach(ports: seq<NetNumber>, npdu: Npdu): seq<Send> {
    seq(|ports|, k requires 0 <= k < |ports| => Send(ports[k], [], npdu))
  }

  /** The full list that is advertised on `snet`, from row i on. */
  function AdvertisedFrom(t: Table, i: nat, snet: NetNumber): seq<NetNumber>
    requires i <= |t|
    decreases |t| - i
  {
    if i == |t| then []
    else (if t[i].net != snet then [t[i].net] + NetsOf(t[i].dnets) else []) + AdvertisedFrom(t, i + 1, snet)
  }

  function Advertised(t: Table, snet: NetNumber): seq<NetNumber> { AdvertisedFrom(t, 0, snet) }

  function ControlNpdu(messageType: Octet, dest: NetAddr, payload: seq<Octet>): Npdu {
    OnWire(Npdu(1, Control(messageType, 0), false, 0, dest, NO_ADDR, 255, payload))
  }

  const EVERYWHERE := NetAddr(BROADCAST_NETWORK, [])

  function IAm(snet: NetNumber, nets: seq<NetNumber>): Send {
    Send(snet, [], ControlNpdu(I_AM_ROUTER, EVERYWHERE, EncodeNets(nets)))
  }

  function Announce(t: Table, snet: NetNumber, net: NetNumber): Send {
    IAm(snet, if net != 0 then [net] else Advertised(t, snet))
  }

  function WhoIsNpdu(net: NetNumber): Npdu {
    ControlNpdu(WHO_IS_ROUTER, EVERYWHERE, if net != 0 then Encode16(net) else [])
  }

  function AnswerWhoIs(t: Table, snet: NetNumber, payload: seq<Octet>): seq<Send> {
    if |payload| < 2 then [Announce(t, snet, 0)]
    else
      var net := Decode16(payload[0], payload[1]);
      match Find(t, net)
      case NotFound => SendEach(OtherPorts(t, 0, snet), WhoIsNpdu(net))
      case _ => if t[Find(t, net).index].net != snet then [Announce(t, snet, net)] else []
  }

  function LearnAll(t: Table, snet: NetNumber, from: Mac, nets: seq<NetNumber>): Table
    decreases |nets|
  {
    if nets == [] then t else LearnAll(AddDnet(t, snet, nets[0], from), snet, from, nets[1..])
  }

  /** The octet that the handlers find at position i of a payload. */
  function OctetAt(payload: seq<Octet>, uninit: Uninit, i: nat): Octet {
    if i < |payload| then payload[i] else if i == |payload| then uninit.next else uninit.afterNext
  }

  /** The port entries of an Initialize-Routing-Table-Ack, from row i on: network number, an 8-bit port number, and no
      port information. */
  function AckEntries(t: Table, i: nat): seq<Octet>
    requires i <= |t|
    decreases |t| - i
  {
    if i == |t| then [] else Encode16(t[i].net) + [(i + 1) % 256, 0] + AckEntries(t, i + 1)
  }

  function AckPayload(t: Table): seq<Octet> {
    [|t| % 256] + if |t| % 256 > 0 then AckEntries(t, 0) else []
  }

  /** The acknowledgement goes to the arrival network's number narrowed to 8 bits. */
  function RoutingTableAck(t: Table, snet: NetNumber): Send {
    Send(snet % 256, [], ControlNpdu(INIT_RT_TABLE_ACK, EVERYWHERE, AckPayload(t)))
  }

  /** A list with entries teaches its first network only: every pass decodes the first entry again. */
  function HandleInitTable(t: Table, snet: NetNumber, from: Mac, payload: seq<Octet>, uninit: Uninit): Outcome {
    if payload == [] then Outcome(t, [], false)
    else
      var t' := if payload[0] == 0 then t
                else AddDnet(t, snet, Decode16(OctetAt(payload, uninit, 1), OctetAt(payload, uninit, 2)), from);
      Outcome(t', [RoutingTableAck(t', snet)], false)
  }

  function WholeNumbers(payload: seq<Octet>): (s: seq<Octet>)
    ensures |s| % 2 == 0
  {
    payload[..|payload| / 2 * 2]
  }

  function HandleControl(t: Table, snet: NetNumber, from: Mac, npdu: Npdu, uninit: Uninit): Outcome
    requires npdu.kind.Control?
  {
    var m := npdu.kind.messageType;
    if m == WHO_IS_ROUTER then Outcome(t, AnswerWhoIs(t, snet, npdu.payload), false)
    else if m == I_AM_ROUTER then
      Outcome(LearnAll(t, snet, from, DecodeNets(WholeNumbers(npdu.payload))), [], |npdu.payload| % 2 != 0)
    else if m == INIT_RT_TABLE then HandleInitTable(t, snet, from, npdu.payload, uninit)
    else if m <= LAST_KNOWN_MESSAGE then Outcome(t, [], false)
    else
      var reject := Send(snet, from, ControlNpdu(REJECT_MESSAGE, npdu.src, [UNKNOWN_MESSAGE_TYPE]));
      Outcome(t, [reject], false)
  }

  /** The source that a relayed NPDU carries, and the table after learning the way back to it. */
  function RoutedSource(t: Table, snet: NetNumber, from: Mac, src: NetAddr): (Table, NetAddr) {
    if src.net != 0 then (AddDnet(t, snet, src.net, from), src) else (t, NetAddr(snet, from))
  }

  /** hop_count-- on a uint8_t. */
  function DecrementHop(h: Octet): Octet { (h + 255) % 256 }

  function RouteApdu(t: Table, snet: NetNumber, from: Mac, npdu: Npdu, uninit: Uninit): Outcome {
    var (t', src) := RoutedSource(t, snet, from, npdu.src);
    var out := npdu.(src := src, hopCount := DecrementHop(npdu.hopCount));
    if npdu.dest.net == BROADCAST_NETWORK then
      Outcome(t', SendEach(OtherPorts(t, 0, snet), OnWire(out.(dest := EVERYWHERE))), false)
    else
      match Find(t, npdu.dest.net)
      case Direct(i) => Outcome(t', [Send(t[i].net, npdu.dest.adr, OnWire(out.(dest := NO_ADDR)))], false)
      case Via(i, mac) =>
        Outcome(t', [Send(t[i].net, mac, OnWire(out.(dest := uninit.dest)))], false)
      case NotFound => if npdu.dest.net != 0 then Outcome(t', [], true) else Outcome(t, [], false)
  }

  predicate ForEveryRouter(dest: NetAddr) { dest.net == 0 || dest.net == BROADCAST_NETWORK }

  predicate ConfirmedRequest(npdu: Npdu, uninit: Uninit) {
    OctetAt(npdu.payload, uninit, 0) / 16 == 0
  }

  function Handle(t: Table, snet: NetNumber, from: Mac, npdu: Npdu, uninit: Uninit): Outcome {
    var nothing := Outcome(t, [], false);
    if npdu.version != 1 then nothing
    else if npdu.kind.Control? then
      if ForEveryRouter(npdu.dest) then HandleControl(t, snet, from, npdu, uninit) else nothing
    else if !ForEveryRouter(npdu.dest) && npdu.hopCount <= 1 then nothing
    else if npdu.dest.net == BROADCAST_NETWORK && ConfirmedRequest(npdu, uninit) then nothing
    else RouteApdu(t, snet, from, npdu, uninit)
  }

  // ---------------------------------------------------------------------------------
  // What is dropped, rejected or acknowledged
  // ---------------------------------------------------------------------------------

  /** Another version, a control message for one remote network, an APDU for one remote network with at most one hop
      left, and a global broadcast of a confirmed request: nothing is sent and nothing is learned. */
  lemma Dropped(t: Table, snet: NetNumber, from: Mac, npdu: Npdu, uninit: Uninit)
    requires
      || npdu.version != 1
      || (npdu.kind.Control? && 0 < npdu.dest.net < 0xFFFF)
      || (npdu.kind.Apdu? && 0 < npdu.dest.net < 0xFFFF && npdu.hopCount < 2)
      || (npdu.kind.Apdu? && npdu.dest.net == 0xFFFF && npdu.payload != [] && npdu.payload[0] < 16)
    ensures Handle(t, snet, from, npdu, uninit) == Outcome(t, [], false)
  {
  }

  /** Where the program goes wrong, for every NPDU: a list of networks with an odd octet, and a unicast with hops left
      for a network that the table does not know. */
  lemma FaultIff(t: Table, snet: NetNumber, from: Mac, npdu: Npdu, uninit: Uninit)
    ensures Handle(t, snet, from, npdu, uninit).fault <==>
            && npdu.version == 1
            && if npdu.kind.Control? then
                 (npdu.dest.net == 0 || npdu.dest.net == 0xFFFF) && npdu.kind.messageType == 1 &&
                   |npdu.payload| % 2 == 1
               else 0 < npdu.dest.net < 0xFFFF && npdu.hopCount > 1 && npdu.dest.net !in Routes(t)
  {
  }

  /** A message of a type that the program does not know is rejected, to the station that sent it, with reason 3; the
      known types without a handler are ignored. */
  lemma UnknownRejected(t: Table, snet: NetNumber, from: Mac, npdu: Npdu, uninit: Uninit)
    requires npdu.version == 1 && npdu.kind.Control? && (npdu.dest.net == 0 || npdu.dest.net == 0xFFFF)
    ensures var r := Handle(t, snet, from, npdu, uninit);
            && (npdu.kind.messageType >= 10 ==>
                  && r.table == t && |r.sends| == 1 && r.sends[0].port == snet && r.sends[0].mac == from
                  && r.sends[0].npdu.kind == Control(3, 0) && r.sends[0].npdu.payload == [3]
                  && r.sends[0].npdu.dest == (if npdu.src.net != 0 then npdu.src else NetAddr(0, [])))
            && (npdu.kind.messageType in {2, 3, 4, 5, 7, 8, 9} ==> r == Outcome(t, [], false))
  {
  }

  lemma {:induction false} AckEntryAt(t: Table, i: nat, j: nat)
    requires i <= j < |t|
    ensures var s, at := AckEntries(t, i), 4 * (j - i);
            && |s| == 4 * (|t| - i) && Decode16(s[at], s[at + 1]) == t[j].net && s[at + 2] == (j + 1) % 256
            && s[at + 3] == 0
    decreases |t| - i
  {
    if i < j {
      AckEntryAt(t, i + 1, j);
    } else if i + 1 < |t| {
      AckEntryAt(t, i + 1, i + 1);
    }
  }

  /** Initialize-Routing-Table with at least one whole entry, or none: the first network listed is learned, through the
      sender, unless there are no entries, and a table of all ports is broadcast: how many there are, and for each its
      network, its number counted from one, and no further information. */
  lemma InitTableAcknowledged(t: Table, snet: NetNumber, from: Mac, npdu: Npdu, uninit: Uninit)
    requires npdu.version == 1 && npdu.kind.Control? && npdu.kind.messageType == 6
    requires npdu.dest.net == 0 || npdu.dest.net == 0xFFFF
    requires npdu.payload != [] && (npdu.payload[0] == 0 || |npdu.payload| >= 3)
    ensures var r := Handle(t, snet, from, npdu, uninit);
            && !r.fault && |r.sends| == 1 && Broadcasts(r.sends[0], snet % 256, 7)
            && (npdu.payload[0] == 0 ==> r.table == t)
            && (npdu.payload[0] != 0 ==>
                  r.table == AddDnet(t, snet, Decode16(npdu.payload[1], npdu.payload[2]), from))
            && TableListed(t, r.sends[0].npdu.payload)
  {
    var r := Handle(t, snet, from, npdu, uninit);
    SameAck(t, r.table);
    AckListsTable(t);
  }

  predicate TableListed(t: Table, payload: seq<Octet>) {
    && payload != [] && payload[0] == |t| % 256
    && (|t| % 256 != 0 ==>
          |payload| == 1 + 4 * |t| &&
          forall i :: 0 <= i < |t| ==>
            Decode16(payload[1 + 4 * i], payload[2 + 4 * i]) == t[i].net
            && payload[3 + 4 * i] == (i + 1) % 256 && payload[4 + 4 * i] == 0)
  }

  lemma AckListsTable(t: Table)
    ensures TableListed(t, AckPayload(t))
  {
    var payload := AckPayload(t);
    if |t| % 256 != 0 {
      AckEntryAt(t, 0, 0);
      forall i | 0 <= i < |t|
        ensures Decode16(payload[1 + 4 * i], payload[2 + 4 * i]) == t[i].net
        ensures payload[3 + 4 * i] == (i + 1) % 256 && payload[4 + 4 * i] == 0
      {
        AckEntryAt(t, 0, i);
        assert forall x :: 0 <= x < |AckEntries(t, 0)| ==> payload[1 + x] == AckEntries(t, 0)[x];
      }
    }
  }

  /** Learning a network changes no port and so not the acknowledgement. */
  lemma SameAck(t: Table, t': Table)
    requires |t| == |t'| && forall i :: 0 <= i < |t| ==> t[i].net == t'[i].net
    ensures AckPayload(t) == AckPayload(t')
  {
    SameEntries(t, t', 0);
  }

  lemma {:induction false} SameEntries(t: Table, t': Table, i: nat)
    requires |t| == |t'| && i <= |t| && forall j :: 0 <= j < |t| ==> t[j].net == t'[j].net
    ensures AckEntries(t, i) == AckEntries(t', i)
    decreases |t| - i
  {
    if i < |t| {
      SameEntries(t, t', i + 1);
    }
  }

  // ---------------------------------------------------------------------------------
  // The octets of whole NPDUs
  // ---------------------------------------------------------------------------------

  /** An I-Am-Router-To-Network and a Who-Is-Router-To-Network on the wire. */
  lemma RouterMessageOctets()
    ensures EncodePdu(Announce([], 1, 2).npdu) == [1, 0xA0, 0xFF, 0xFF, 0, 255, 1, 0, 2]
    ensures EncodePdu(Announce([Port(1, [9], []), Port(0x0203, [8], [])], 1, 0).npdu) ==
            [1, 0xA0, 0xFF, 0xFF, 0, 255, 1, 2, 3]
    ensures EncodePdu(WhoIsNpdu(0x0102)) == [1, 0xA0, 0xFF, 0xFF, 0, 255, 0, 1, 2]
  {
    NetListOctets();
    var t := [Port(1, [9], []), Port(0x0203, [8], [])];
    assert AdvertisedFrom(t, 2, 1) == [];
    assert AdvertisedFrom(t, 1, 1) == [0x0203];
    assert Advertised(t, 1) == [0x0203];
    HeaderOctets(Announce([], 1, 2).npdu);
    HeaderOctets(Announce(t, 1, 0).npdu);
    HeaderOctets(WhoIsNpdu(0x0102));
  }

  lemma NetListOctets()
    ensures EncodeNets([2]) == [0, 2] && EncodeNets([0x0203]) == [2, 3]
  {
    assert EncodeNets([]) == [];
    assert [2 as NetNumber][1..] == [] && [0x0203 as NetNumber][1..] == [];
  }

  /** What the header of a broadcast control message of a standard type looks like. */
  lemma HeaderOctets(n: Npdu)
    requires n.version == 1 && n.kind.Control? && n.kind.messageType < 0x80 && !n.expectingReply && n.priority == 0
    requires n.dest == NetAddr(0xFFFF, []) && n.src == NetAddr(0, []) && n.hopCount == 255
    ensures EncodeHeader(n) == [1, 0xA0, 0xFF, 0xFF, 0, 255, n.kind.messageType]
  {
    assert ControlOctet(n) == 0xA0;
    assert EncodeAddr(true, n.dest) == [0xFF, 0xFF, 0];
  }

  /** An APDU with destination and source, and a vendor's network message, on the wire. */
  lemma HeaderExamples()
    ensures EncodePdu(Npdu(1, Apdu, true, 1, NetAddr(0x0102, [9]), NetAddr(3, [4, 5]), 254, [16, 8])) ==
            [1, 0x2D, 1, 2, 1, 9, 0, 3, 2, 4, 5, 254, 16, 8]
    ensures EncodePdu(Npdu(1, Control(0x80, 0x0304), false, 0, NetAddr(0, []), NetAddr(0, []), 0, [7])) ==
            [1, 0x80, 0x80, 3, 4, 7]
  {
  }

  // ---------------------------------------------------------------------------------
  // From received octets to sent octets
  // ---------------------------------------------------------------------------------

  /** The octets behind a packet are what its buffer holds there from before. */
  function Stale(uninit: Uninit, buffer: seq<Octet>, pduLen: nat): Uninit {
    Uninit(uninit.dest, if pduLen < |buffer| then buffer[pduLen] else uninit.next,
           if pduLen + 1 < |buffer| then buffer[pduLen + 1] else uninit.afterNext)
  }

  /** The handler on a receive buffer whose first pduLen octets are the packet. The header is decoded whatever the
      packet's length is. If a control message's header extends beyond the packet, the 16-bit length that is left
      wraps around: the handlers then read on in the buffer, and the I-Am loop out of it. */
  function Receive(t: Table, snet: NetNumber, from: Mac, held: NetAddr, buffer: seq<Octet>, pduLen: nat,
    uninit: Uninit): Outcome
    requires MAX_NPDU + 3 <= |buffer| && pduLen <= |buffer|
  {
    var nothing := Outcome(t, [], false);
    if buffer[0] != 1 then nothing
    else
      match DecodeHeader(buffer, MAX_NPDU, held)
      case None => nothing
      case Some((n, offset)) =>
        if offset <= pduLen then
          Handle(t, snet, from, n.(payload := buffer[offset..pduLen]), Stale(uninit, buffer, pduLen))
        else if n.kind.Apdu? then nothing
        else if n.kind.messageType == I_AM_ROUTER && ForEveryRouter(n.dest) then Outcome(t, [], true)
        else Handle(t, snet, from, n.(payload := buffer[offset..]), uninit)
  }

  /** Receiving the octets of an NPDU, with anything behind them in the buffer, is handling it as it is decoded. */
  lemma ReceivePdu(t: Table, snet: NetNumber, from: Mac, held: NetAddr, n: Npdu, rest: seq<Octet>, uninit: Uninit)
    requires |EncodePdu(n) + rest| >= MAX_NPDU + 3
    ensures var buffer, pduLen := EncodePdu(n) + rest, |EncodePdu(n)|;
            Receive(t, snet, from, held, buffer, pduLen, uninit) ==
            Handle(t, snet, from, Decoded(n, held).(payload := n.payload), Stale(uninit, buffer, pduLen))
  {
    var buffer, header := EncodePdu(n) + rest, EncodeHeader(n);
    assert buffer == header + (n.payload + rest);
    HeaderRoundTrip(n, n.payload + rest, MAX_NPDU, held);
    assert buffer[|header|..|EncodePdu(n)|] == n.payload;
    assert buffer[0] == header[0] == n.version;
  }

  /** An APDU whose packet ends inside its header is dropped. */
  lemma CutApduDropped(
    t: Table, snet: NetNumber, from: Mac, held: NetAddr, n: Npdu, rest: seq<Octet>, cut: nat, uninit: Uninit)
    requires |EncodePdu(n) + rest| >= MAX_NPDU + 3 && n.kind.Apdu? && cut < |EncodeHeader(n)|
    ensures Receive(t, snet, from, held, EncodePdu(n) + rest, cut, uninit) == Outcome(t, [], false)
  {
    assert EncodePdu(n) + rest == EncodeHeader(n) + (n.payload + rest);
    HeaderRoundTrip(n, n.payload + rest, MAX_NPDU, held);
  }

  /** Everything that a router sends is as it will be decoded. */
  lemma SendsAreOnWire(t: Table, snet: NetNumber, from: Mac, npdu: Npdu, uninit: Uninit, k: nat)
    requires k < |Handle(t, snet, from, npdu, uninit).sends|
    ensures var n := Handle(t, snet, from, npdu, uninit).sends[k].npdu; OnWire(n) == n
  {
    if npdu.kind.Apdu? {
      RoutedAreOnWire(t, snet, from, npdu, uninit, k);
    }
  }

  lemma RoutedAreOnWire(t: Table, snet: NetNumber, from: Mac, npdu: Npdu, uninit: Uninit, k: nat)
    requires npdu.kind.Apdu? && k < |RouteApdu(t, snet, from, npdu, uninit).sends|
    ensures var n := RouteApdu(t, snet, from, npdu, uninit).sends[k].npdu; OnWire(n) == n
  {
  }

  /** The wire is transparent: what one router sends as octets, with anything behind them in the receive buffer, the
      next handles as the NPDU that was sent, provided that its data link did not mark the source as a broadcast. */
  lemma WireTransparent(
    a: Table, snetA: NetNumber, fromA: Mac, npdu: Npdu, uninitA: Uninit, k: nat,
    b: Table, snetB: NetNumber, fromB: Mac, held: NetAddr, rest: seq<Octet>, uninitB: Uninit)
    requires k < |Handle(a, snetA, fromA, npdu, uninitA).sends| && held.net != BROADCAST_NETWORK
    requires |EncodePdu(Handle(a, snetA, fromA, npdu, uninitA).sends[k].npdu) + rest| >= MAX_NPDU + 3
    ensures var n := Handle(a, snetA, fromA, npdu, uninitA).sends[k].npdu;
            var buffer := EncodePdu(n) + rest;
            Receive(b, snetB, fromB, held, buffer, |EncodePdu(n)|, uninitB) ==
            Handle(b, snetB, fromB, n, Stale(uninitB, buffer, |EncodePdu(n)|))
  {
    var n := Handle(a, snetA, fromA, npdu, uninitA).sends[k].npdu;
    SendsAreOnWire(a, snetA, fromA, npdu, uninitA, k);
    DecodedOnWire(n, held);
    ReceivePdu(b, snetB, fromB, held, n, rest, uninitB);
  }

  lemma DecodedOnWire(n: Npdu, held: NetAddr)
    requires OnWire(n) == n && held.net != BROADCAST_NETWORK
    ensures Decoded(n, held).(payload := n.payload) == n
  {
  }

  // ---------------------------------------------------------------------------------
  // Advertising agrees with answering
  // ---------------------------------------------------------------------------------

  function Row(t: Table, i: nat): seq<NetNumber>
    requires i < |t|
  {
    [t[i].net] + NetsOf(t[i].dnets)
  }

  lemma RowCells(t: Table, i: nat, n: NetNumber)
    requires i < |t|
    ensures n in Row(t, i) <==> exists k :: Cell(t, i, k) && NetAt(t, i, k) == n
  {
    if n in Row(t, i) {
      var k :| 0 <= k < |Row(t, i)| && Row(t, i)[k] == n;
      assert Cell(t, i, k) && NetAt(t, i, k) == n;
    }
    if k :| Cell(t, i, k) && NetAt(t, i, k) == n {
      assert Row(t, i)[k] == n;
    }
  }

  ghost predicate ElsewhereFrom(t: Table, i: nat, snet: NetNumber, n: NetNumber) {
    exists j, k :: i <= j && Cell(t, j, k) && t[j].net != snet && NetAt(t, j, k) == n
  }

  lemma ElsewhereStep(t: Table, i: nat, snet: NetNumber, n: NetNumber)
    requires i < |t|
    ensures ElsewhereFrom(t, i, snet, n) <==> (t[i].net != snet && n in Row(t, i)) || ElsewhereFrom(t, i + 1, snet, n)
  {
    RowCells(t, i, n);
    if ElsewhereFrom(t, i, snet, n) {
      var j, k :| i <= j && Cell(t, j, k) && t[j].net != snet && NetAt(t, j, k) == n;
      assert j > i ==> ElsewhereFrom(t, i + 1, snet, n);
    }
  }

  lemma {:induction false} AdvertisedCells(t: Table, i: nat, snet: NetNumber, n: NetNumber)
    requires i <= |t|
    ensures n in AdvertisedFrom(t, i, snet) <==> ElsewhereFrom(t, i, snet, n)
    decreases |t| - i
  {
    if i < |t| {
      AdvertisedCells(t, i + 1, snet, n);
      ElsewhereStep(t, i, snet, n);
      var row := if t[i].net != snet then Row(t, i) else [];
      assert AdvertisedFrom(t, i, snet) == row + AdvertisedFrom(t, i + 1, snet);
    }
  }

  lemma {:induction false} AdvertisedOnce(t: Table, i: nat, snet: NetNumber)
    requires i <= |t| && Distinct(t)
    ensures NoRepeats(AdvertisedFrom(t, i, snet))
    decreases |t| - i
  {
    if i < |t| {
      AdvertisedOnce(t, i + 1, snet);
      if t[i].net != snet {
        var head, rest := [t[i].net] + NetsOf(t[i].dnets), AdvertisedFrom(t, i + 1, snet);
        assert forall k :: 0 <= k < |head| ==> Cell(t, i, k) && head[k] == NetAt(t, i, k);
        forall a | 0 <= a < |head| ensures head[a] !in rest {
          AdvertisedCells(t, i + 1, snet, head[a]);
        }
      }
    }
  }

  lemma AdvertisedIffElsewhere(t: Table, snet: NetNumber, n: NetNumber)
    requires Distinct(t)
    ensures n in Advertised(t, snet) <==> Knows(t, n) && t[Find(t, n).index].net != snet
  {
    AdvertisedCells(t, 0, snet, n);
    FindHits(t, 0, n);
    if n in Advertised(t, snet) {
      var j, k :| 0 <= j && Cell(t, j, k) && t[j].net != snet && NetAt(t, j, k) == n;
      FindCell(t, j, k);
    } else if Knows(t, n) {
      var r := Find(t, n);
      if r.Direct? {
        assert Cell(t, r.index, 0) && NetAt(t, r.index, 0) == n;
      } else {
        var k :| Cell(t, r.index, k) && k > 0 && t[r.index].dnets[k - 1] == Route(n, r.mac);
        assert NetAt(t, r.index, k) == n;
      }
    }
  }

  lemma QuestionIsNoAnswer(ports: seq<NetNumber>, snet: NetNumber, n: NetNumber)
    ensures SendEach(ports, WhoIsNpdu(n)) != [IAm(snet, [n])]
  {
    assert IAm(snet, [n]) in [IAm(snet, [n])];
    assert forall s :: s in SendEach(ports, WhoIsNpdu(n)) ==> s.npdu.kind.messageType == WHO_IS_ROUTER;
  }

  /** For every nonzero network: it is in the full list advertised on a port exactly when asking for it on
      that port is answered with I-Am, and that is exactly when it is reached through another port. The list has
      no repeats; a network reached through the port itself gets silence, an unknown one is asked for elsewhere. */
  lemma AdvertisedIffAnswered(t: Table, snet: NetNumber, n: NetNumber)
    requires Distinct(t) && n != 0
    ensures NoRepeats(Advertised(t, snet))
    ensures n in Advertised(t, snet) <==> n in Routes(t) && PortOf(Routes(t), n) != snet
    ensures n in Advertised(t, snet) <==> AnswerWhoIs(t, snet, Encode16(n)) == [IAm(snet, [n])]
    ensures n in Routes(t) && PortOf(Routes(t), n) == snet ==> AnswerWhoIs(t, snet, Encode16(n)) == []
    ensures n !in Routes(t) ==> AnswerWhoIs(t, snet, Encode16(n)) == SendEach(OtherPorts(t, 0, snet), WhoIsNpdu(n))
  {
    AdvertisedOnce(t, 0, snet);
    AdvertisedIffElsewhere(t, snet, n);
    FindDirect(t, 0, n);
    QuestionIsNoAnswer(OtherPorts(t, 0, snet), snet, n);
  }

  /** A control message of the given type that is broadcast on one network, without a source. */
  predicate Broadcasts(s: Send, port: NetNumber, messageType: Octet) {
    && s.port == port && s.mac == []
    && s.npdu.version == 1 && s.npdu.kind == Control(messageType, 0) && s.npdu.dest == NetAddr(0xFFFF, [])
    && s.npdu.src == NetAddr(0, []) && s.npdu.hopCount == 255 && s.npdu.priority == 0 && !s.npdu.expectingReply
  }

  /** What a broadcast I-Am-Router-To-Network or Who-Is-Router-To-Network lists. */
  predicate Lists(s: Send, nets: seq<NetNumber>) {
    |s.npdu.payload| % 2 == 0 && DecodeNets(s.npdu.payload) == nets
  }

  predicate WhoIs(npdu: Npdu) {
    npdu.version == 1 && npdu.kind.Control? && npdu.kind.messageType == 0 &&
      (npdu.dest.net == 0 || npdu.dest.net == 0xFFFF)
  }

  /** A Who-Is-Router-To-Network without a network number is answered with one broadcast I-Am on the network it came
      from, which lists, once each, exactly the networks that are not reached through that network. */
  lemma WhoIsAllAnswered(t: Table, snet: NetNumber, from: Mac, npdu: Npdu, uninit: Uninit)
    requires Distinct(t) && WhoIs(npdu) && |npdu.payload| < 2
    ensures var r := Handle(t, snet, from, npdu, uninit);
            && r.table == t && !r.fault && |r.sends| == 1 && Broadcasts(r.sends[0], snet, 1)
            && exists nets: seq<NetNumber> :: Lists(r.sends[0], nets) && NoRepeats(nets) &&
                 forall n :: n in nets <==> n in Routes(t) && PortOf(Routes(t), n) != snet
  {
    var r, nets := Handle(t, snet, from, npdu, uninit), Advertised(t, snet);
    NetListRoundTrip(nets);
    AdvertisedOnce(t, 0, snet);
    forall n ensures n in nets <==> n in Routes(t) && PortOf(Routes(t), n) != snet {
      AdvertisedIffElsewhere(t, snet, n);
      FindDirect(t, 0, n);
    }
    assert Lists(r.sends[0], nets);
  }

  /** One that names a network: if it is reached through another network, one broadcast I-Am for it; if through the
      one the question came from, silence; if it is unknown, the same question once on each other attached network. */
  lemma WhoIsOneAnswered(t: Table, snet: NetNumber, from: Mac, npdu: Npdu, uninit: Uninit)
    requires Distinct(t) && WhoIs(npdu) && |npdu.payload| >= 2
    ensures var r := Handle(t, snet, from, npdu, uninit);
            var n := Decode16(npdu.payload[0], npdu.payload[1]);
            && r.table == t && !r.fault
            && (n in Routes(t) && PortOf(Routes(t), n) != snet && n != 0 ==>
                  |r.sends| == 1 && Broadcasts(r.sends[0], snet, 1) && Lists(r.sends[0], [n]))
            && (n in Routes(t) && PortOf(Routes(t), n) == snet ==> r.sends == [])
            && (n !in Routes(t) ==>
                  && (forall port :: Copies(r.sends, port) == if port != snet && IsPort(t, port) then 1 else 0)
                  && (forall s :: s in r.sends ==> Broadcasts(s, s.port, 0) && Lists(s, if n != 0 then [n] else [])))
  {
    var n := Decode16(npdu.payload[0], npdu.payload[1]);
    FindDirect(t, 0, n);
    if n in Routes(t) {
      OneListed(snet, n);
    } else {
      QuestionsAsked(t, snet, n);
    }
  }

  lemma OneListed(snet: NetNumber, n: NetNumber)
    ensures Broadcasts(IAm(snet, [n]), snet, 1) && Lists(IAm(snet, [n]), [n])
  {
    NetListRoundTrip([n]);
  }

  lemma QuestionsAsked(t: Table, snet: NetNumber, n: NetNumber)
    requires Distinct(t)
    ensures var sends := SendEach(OtherPorts(t, 0, snet), WhoIsNpdu(n));
            && (forall port :: Copies(sends, port) == if port != snet && IsPort(t, port) then 1 else 0)
            && (forall s :: s in sends ==> Broadcasts(s, s.port, 0) && Lists(s, if n != 0 then [n] else []))
  {
    var sends := SendEach(OtherPorts(t, 0, snet), WhoIsNpdu(n));
    forall port ensures Copies(sends, port) == if port != snet && IsPort(t, port) then 1 else 0 {
      CopiesOfEach(t, 0, snet, WhoIsNpdu(n), port);
    }
    NetListRoundTrip([n]);
    assert EncodeNets([n]) == Encode16(n) by {
      assert [n][1..] == [];
    }
  }

  // ---------------------------------------------------------------------------------
  // Advertise, then learn
  // ---------------------------------------------------------------------------------

  /** After learning a list on an attached port: everything listed is known, what was known is untouched, and
      what is new is listed and goes through that port to the sender. */
  lemma {:induction false} LearnAllRoutes(t: Table, snet: NetNumber, from: Mac, nets: seq<NetNumber>)
    requires snet in Routes(t) && Routes(t)[snet] == Attached
    ensures var m, m' := Routes(t), Routes(LearnAll(t, snet, from, nets));
            && (forall n :: n in m ==> n in m' && m'[n] == m[n])
            && (forall n :: n in nets ==> n in m')
            && (forall n :: n in m' && n !in m ==> n in nets && m'[n] == NextHop(snet, from))
    decreases |nets|
  {
    if nets != [] {
      AddDnetRefinesLearn(t, snet, nets[0], from);
      LearnAllRoutes(AddDnet(t, snet, nets[0], from), snet, from, nets[1..]);
    }
  }

  /** Router B handles the list that router A announced on their common network. */
  lemma AdvertiseThenLearn(a: Table, b: Table, snet: NetNumber, macA: Mac, uninit: Uninit)
    requires snet in Routes(b) && Routes(b)[snet] == Attached
    ensures var npdu := Announce(a, snet, 0).npdu;
            && Handle(b, snet, macA, npdu, uninit).fault == false
            && var b' := Handle(b, snet, macA, npdu, uninit).table;
               var m, m' := Routes(b), Routes(b');
               && (forall n :: n in Advertised(a, snet) ==> n in m')
               && (forall n :: n in m ==> n in m' && m'[n] == m[n])
               && (forall n :: n in m' && n !in m ==> n in Advertised(a, snet) && m'[n] == NextHop(snet, macA))
  {
    NetListRoundTrip(Advertised(a, snet));
    var list := EncodeNets(Advertised(a, snet));
    assert WholeNumbers(list) == list;
    LearnAllRoutes(b, snet, macA, Advertised(a, snet));
  }

  // ---------------------------------------------------------------------------------
  // How many copies leave, and where
  // ---------------------------------------------------------------------------------

  function Copies(sends: seq<Send>, port: NetNumber): nat {
    if sends == [] then 0 else (if sends[0].port == port then 1 else 0) + Copies(sends[1..], port)
  }

  lemma {:induction false} CopiesOfEach(t: Table, i: nat, snet: NetNumber, npdu: Npdu, port: NetNumber)
    requires i <= |t| && Distinct(t)
    ensures Copies(SendEach(OtherPorts(t, i, snet), npdu), port) ==
            if port != snet && exists j :: i <= j < |t| && t[j].net == port then 1 else 0
    decreases |t| - i
  {
    var ports := OtherPorts(t, i, snet);
    var sends := SendEach(ports, npdu);
    if i < |t| {
      var rest := OtherPorts(t, i + 1, snet);
      CopiesOfEach(t, i + 1, snet, npdu, port);
      if t[i].net != snet {
        assert ports == [t[i].net] + rest;
        assert sends[0].port == t[i].net && sends[1..] == SendEach(rest, npdu);
        forall j | i < j < |t| ensures t[j].net != t[i].net {
          assert NetAt(t, i, 0) == t[i].net && NetAt(t, j, 0) == t[j].net;
        }
      } else {
        assert ports == rest;
      }
    }
  }

  /** A global broadcast that is not a confirmed request leaves exactly once on every attached network but the
      one it came from; a unicast with a known DNET and hops left leaves exactly once, on the network that the
      table selects; a local NPDU leaves nowhere and teaches nothing. */
  lemma CopyCount(t: Table, snet: NetNumber, from: Mac, npdu: Npdu, uninit: Uninit, port: NetNumber)
    requires Distinct(t) && npdu.kind.Apdu? && npdu.version == 1
    ensures var r := Handle(t, snet, from, npdu, uninit);
            && (npdu.dest.net == BROADCAST_NETWORK && !ConfirmedRequest(npdu, uninit) ==>
                  Copies(r.sends, port) == if IsPort(t, port) && port != snet then 1 else 0)
            && (!ForEveryRouter(npdu.dest) && npdu.dest.net in Routes(t) ==>
                  Copies(r.sends, port) ==
                  if npdu.hopCount > 1 && port == PortOf(Routes(t), npdu.dest.net) then 1 else 0)
            && (npdu.dest.net == 0 && 0 !in Routes(t) ==> r == Outcome(t, [], false))
  {
    FindDirect(t, 0, npdu.dest.net);
    var src := RoutedSource(t, snet, from, npdu.src).1;
    var out := npdu.(src := src, hopCount := DecrementHop(npdu.hopCount), dest := EVERYWHERE);
    CopiesOfEach(t, 0, snet, OnWire(out), port);
  }

  /** The two data links of the program, and the ones that datalink_send_pdu uses for a network number. */
  datatype Link = Ip | Mstp

  function LinksFor(ipNet: NetNumber, mstpNet: NetNumber, snet: NetNumber): seq<Link> {
    if snet == 0 then [Ip, Mstp] else if snet == ipNet then [Ip] else if snet == mstpNet then [Mstp] else []
  }

  /** A port's number selects that port's own link alone exactly when the two numbers are nonzero and distinct. */
  lemma LinkPerPort(ipNet: NetNumber, mstpNet: NetNumber)
    ensures LinksFor(ipNet, mstpNet, ipNet) == [Ip] && LinksFor(ipNet, mstpNet, mstpNet) == [Mstp] <==>
            ipNet != 0 && mstpNet != 0 && ipNet != mstpNet
  {
    if LinksFor(ipNet, mstpNet, ipNet) == [Ip] && LinksFor(ipNet, mstpNet, mstpNet) == [Mstp] {
      assert [Ip, Mstp][1] == Mstp && |[Ip, Mstp]| == 2 && [Ip][0] == Ip && [Mstp][0] == Mstp;
    }
  }

  /** Who a data link addresses: everyone on it, one station, or everyone by way of one station. */
  datatype Target = Everyone | Station(mac: Mac) | EveryoneBy(mac: Mac) | Nobody

  function IpTarget(mac: Mac, dest: NetAddr): Target {
    if dest.net == BROADCAST_NETWORK || mac == [] then Everyone
    else if dest.net > 0 && dest.adr == [] then if |mac| == 6 then EveryoneBy(mac) else Everyone
    else if |mac| == 6 then Station(mac)
    else Nobody
  }

  function MstpTarget(mac: Mac): Target { if mac == [] then Everyone else Station([mac[0]]) }

  function TargetOn(link: Link, mac: Mac, dest: NetAddr): Target {
    if link == Ip then IpTarget(mac, dest) else MstpTarget(mac)
  }

  /** An NPDU that goes out on a link. */
  datatype Transmission = Transmission(link: Link, target: Target, npdu: Npdu)

  /** What a link sends when it is handed an NPDU: nothing, when it has nobody to send it to. */
  function SentOn(link: Link, s: Send): seq<Transmission> {
    var target := TargetOn(link, s.mac, s.npdu.dest);
    if target == Nobody then [] else [Transmission(link, target, s.npdu)]
  }

  function SentOnAll(links: seq<Link>, s: Send): seq<Transmission> {
    if links == [] then [] else SentOn(links[0], s) + SentOnAll(links[1..], s)
  }

  /** What goes out on the two data links for a sequence of sends. */
  function Transmitted(ipNet: NetNumber, mstpNet: NetNumber, sends: seq<Send>): seq<Transmission> {
    if sends == [] then []
    else SentOnAll(LinksFor(ipNet, mstpNet, sends[0].port), sends[0]) + Transmitted(ipNet, mstpNet, sends[1..])
  }

  function CountOn(ts: seq<Transmission>, link: Link): nat {
    if ts == [] then 0 else (if ts[0].link == link then 1 else 0) + CountOn(ts[1..], link)
  }

  lemma {:induction false} CountOnConcat(a: seq<Transmission>, b: seq<Transmission>, link: Link)
    ensures CountOn(a + b, link) == CountOn(a, link) + CountOn(b, link)
  {
    if a == [] {
      assert a + b == b;
    } else {
      assert (a + b)[1..] == a[1..] + b;
      CountOnConcat(a[1..], b, link);
    }
  }

  /** How many of the sends for a port number a link has someone to send to. */
  function Taken(link: Link, sends: seq<Send>, port: NetNumber): nat {
    if sends == [] then 0
    else |(if sends[0].port == port then SentOn(link, sends[0]) else [])| + Taken(link, sends[1..], port)
  }

  lemma SentOnBoth(ipNet: NetNumber, mstpNet: NetNumber, s: Send)
    ensures SentOnAll(LinksFor(ipNet, mstpNet, s.port), s) ==
            (if s.port == 0 || s.port == ipNet then SentOn(Ip, s) else []) +
            (if s.port == 0 || (s.port != ipNet && s.port == mstpNet) then SentOn(Mstp, s) else [])
  {
    assert [Ip, Mstp][1..] == [Mstp] && [Ip][1..] == [] && [Mstp][1..] == [];
    assert forall link :: SentOnAll([link], s) == SentOn(link, s) by {
      forall link ensures SentOnAll([link], s) == SentOn(link, s) {
        assert [link][1..] == [];
      }
    }
  }

  lemma CountOnSent(s: Send, on: Link, link: Link)
    ensures CountOn(SentOn(on, s), link) == if on == link then |SentOn(link, s)| else 0
  {
    var ts := SentOn(on, s);
    assert ts != [] ==> ts[1..] == [];
  }

  /** How many of the sends go out on a link, for every pair of network numbers: of those for its own number and those
      for number 0, which both links are handed, the ones that it has someone to send to; a number that both ports
      have belongs to the first. */
  lemma {:induction false} LinkCount(ipNet: NetNumber, mstpNet: NetNumber, sends: seq<Send>)
    ensures CountOn(Transmitted(ipNet, mstpNet, sends), Ip) ==
            Taken(Ip, sends, 0) + if ipNet != 0 then Taken(Ip, sends, ipNet) else 0
    ensures CountOn(Transmitted(ipNet, mstpNet, sends), Mstp) ==
            Taken(Mstp, sends, 0) + if mstpNet != 0 && mstpNet != ipNet then Taken(Mstp, sends, mstpNet) else 0
  {
    if sends != [] {
      var s := sends[0];
      var ip := if s.port == 0 || s.port == ipNet then SentOn(Ip, s) else [];
      var mstp := if s.port == 0 || (s.port != ipNet && s.port == mstpNet) then SentOn(Mstp, s) else [];
      LinkCount(ipNet, mstpNet, sends[1..]);
      SentOnBoth(ipNet, mstpNet, s);
      CountOnFirst(ip, mstp, Transmitted(ipNet, mstpNet, sends[1..]), Ip);
      CountOnFirst(ip, mstp, Transmitted(ipNet, mstpNet, sends[1..]), Mstp);
      CountOnSent(s, Ip, Ip);
      CountOnSent(s, Ip, Mstp);
      CountOnSent(s, Mstp, Ip);
      CountOnSent(s, Mstp, Mstp);
    }
  }

  lemma CountOnFirst(a: seq<Transmission>, b: seq<Transmission>, rest: seq<Transmission>, link: Link)
    ensures CountOn(a + b + rest, link) == CountOn(a, link) + CountOn(b, link) + CountOn(rest, link)
  {
    CountOnConcat(a + b, rest, link);
    CountOnConcat(a, b, link);
  }

  function NumberOf(link: Link, ipNet: NetNumber, mstpNet: NetNumber): NetNumber {
    if link == Ip then ipNet else mstpNet
  }

  /** Two network numbers that the program can tell apart, and no table entry for number 0. */
  predicate Proper(t: Table, ipNet: NetNumber, mstpNet: NetNumber) {
    ipNet != 0 && mstpNet != 0 && ipNet != mstpNet && 0 !in Routes(t)
  }

  lemma {:induction false} TakenByEveryone(link: Link, ports: seq<NetNumber>, npdu: Npdu, port: NetNumber)
    requires npdu.dest == EVERYWHERE
    ensures Taken(link, SendEach(ports, npdu), port) == Copies(SendEach(ports, npdu), port)
  {
    if ports != [] {
      assert SendEach(ports, npdu)[1..] == SendEach(ports[1..], npdu);
      TakenByEveryone(link, ports[1..], npdu, port);
    }
  }

  lemma TakenOne(link: Link, s: Send, port: NetNumber)
    ensures Taken(link, [s], port) == |if s.port == port then SentOn(link, s) else []|
  {
    assert [s][1..] == [];
  }

  /** Whom a unicast with a known DNET is addressed to on the link of the network that the table selects: the device
      itself when that network is the destination, and else the next router, unless the uninitialised network part of
      its address makes it a broadcast. BACnet/IP takes no addresses but the broadcast and those of six octets. */
  function UnicastTarget(link: Link, t: Table, npdu: Npdu, uninit: Uninit): Target
    requires Knows(t, npdu.dest.net)
  {
    match Find(t, npdu.dest.net)
    case Direct(_) =>
      var dadr := npdu.dest.adr;
      if dadr == [] then Everyone
      else if link == Mstp then Station([dadr[0]])
      else if |dadr| == 6 then Station(dadr) else Nobody
    case Via(_, mac) =>
      if mac == [] then Everyone
      else if link == Mstp then Station([mac[0]])
      else if uninit.dest.net == BROADCAST_NETWORK then Everyone
      else if uninit.dest.net > 0 && uninit.dest.adr == [] then if |mac| == 6 then EveryoneBy(mac) else Everyone
      else if |mac| == 6 then Station(mac) else Nobody
  }

  /** On the wires, when the program can tell its networks apart: a global broadcast goes out exactly once, to everyone,
      on each link whose network is attached and not the one of arrival; a unicast with a known DNET and hops left
      exactly once, on the link of the network that the table selects, if that has someone to send it to; a local NPDU
      nowhere. */
  lemma TransmissionCount(
    t: Table, snet: NetNumber, from: Mac, npdu: Npdu, uninit: Uninit, ipNet: NetNumber, mstpNet: NetNumber, link: Link)
    requires Distinct(t) && npdu.kind.Apdu? && npdu.version == 1 && Proper(t, ipNet, mstpNet)
    ensures var r, net := Handle(t, snet, from, npdu, uninit), NumberOf(link, ipNet, mstpNet);
            var n := CountOn(Transmitted(ipNet, mstpNet, r.sends), link);
            && (npdu.dest.net == BROADCAST_NETWORK && !ConfirmedRequest(npdu, uninit) ==>
                  && n == (if IsPort(t, net) && net != snet then 1 else 0)
                  && forall x :: x in Transmitted(ipNet, mstpNet, r.sends) ==> x.target == Everyone)
            && (!ForEveryRouter(npdu.dest) && npdu.dest.net in Routes(t) ==>
                  var selected := npdu.hopCount > 1 && net == PortOf(Routes(t), npdu.dest.net);
                  n == if selected && UnicastTarget(link, t, npdu, uninit) != Nobody then 1 else 0)
            && (npdu.dest.net == 0 ==> n == 0)
  {
    var r, net := Handle(t, snet, from, npdu, uninit), NumberOf(link, ipNet, mstpNet);
    if !ForEveryRouter(npdu.dest) && npdu.dest.net in Routes(t) {
      UnicastTaken(t, snet, from, npdu, uninit, link, net);
      UnicastTaken(t, snet, from, npdu, uninit, link, 0);
    }
    LinkCount(ipNet, mstpNet, r.sends);
    CopyCount(t, snet, from, npdu, uninit, net);
    CopyCount(t, snet, from, npdu, uninit, 0);
    ZeroIsNoPort(t, npdu.dest.net);
    assert npdu.dest.net == 0 ==> r.sends == [];
    if npdu.dest.net == BROADCAST_NETWORK && !ConfirmedRequest(npdu, uninit) {
      var src := RoutedSource(t, snet, from, npdu.src).1;
      var out := OnWire(npdu.(src := src, hopCount := DecrementHop(npdu.hopCount), dest := EVERYWHERE));
      assert r.sends == SendEach(OtherPorts(t, 0, snet), out);
      TakenByEveryone(link, OtherPorts(t, 0, snet), out, net);
      TakenByEveryone(link, OtherPorts(t, 0, snet), out, 0);
      ToEveryone(ipNet, mstpNet, OtherPorts(t, 0, snet), out);
    }
  }

  lemma UnicastTaken(t: Table, snet: NetNumber, from: Mac, npdu: Npdu, uninit: Uninit, link: Link, port: NetNumber)
    requires npdu.kind.Apdu? && npdu.version == 1 && !ForEveryRouter(npdu.dest) && npdu.dest.net in Routes(t)
    ensures var selected := npdu.hopCount > 1 && port == PortOf(Routes(t), npdu.dest.net);
            Taken(link, Handle(t, snet, from, npdu, uninit).sends, port) ==
            if selected && UnicastTarget(link, t, npdu, uninit) != Nobody then 1 else 0
  {
    FindDirect(t, 0, npdu.dest.net);
    var sends := Handle(t, snet, from, npdu, uninit).sends;
    if npdu.hopCount > 1 {
      assert sends == [sends[0]];
      TakenOne(link, sends[0], port);
    }
  }

  lemma {:induction false} ToEveryone(ipNet: NetNumber, mstpNet: NetNumber, ports: seq<NetNumber>, npdu: Npdu)
    requires npdu.dest == EVERYWHERE
    ensures forall x :: x in Transmitted(ipNet, mstpNet, SendEach(ports, npdu)) ==> x.target == Everyone
  {
    if ports != [] {
      var sends := SendEach(ports, npdu);
      assert sends[1..] == SendEach(ports[1..], npdu);
      ToEveryone(ipNet, mstpNet, ports[1..], npdu);
      SentOnBoth(ipNet, mstpNet, sends[0]);
    }
  }

  /** A unicast with a known DNET and hops left goes out exactly once, on the link of the network that the table selects
      and to the target above; and when that link has nobody to send it to, nowhere. */
  lemma UnicastTransmission(
    t: Table, snet: NetNumber, from: Mac, npdu: Npdu, uninit: Uninit, ipNet: NetNumber, mstpNet: NetNumber, link: Link)
    requires Distinct(t) && npdu.kind.Apdu? && npdu.version == 1 && Proper(t, ipNet, mstpNet)
    requires !ForEveryRouter(npdu.dest) && npdu.dest.net in Routes(t)
    requires PortOf(Routes(t), npdu.dest.net) == NumberOf(link, ipNet, mstpNet)
    ensures var r, target := Handle(t, snet, from, npdu, uninit), UnicastTarget(link, t, npdu, uninit);
            Transmitted(ipNet, mstpNet, r.sends) ==
            if npdu.hopCount <= 1 || target == Nobody then [] else [Transmission(link, target, r.sends[0].npdu)]
  {
    var r := Handle(t, snet, from, npdu, uninit);
    ZeroIsNoPort(t, npdu.dest.net);
    FindDirect(t, 0, npdu.dest.net);
    if npdu.hopCount > 1 {
      assert |r.sends| == 1 && r.sends[1..] == [];
      SentOnBoth(ipNet, mstpNet, r.sends[0]);
      assert Transmitted(ipNet, mstpNet, r.sends) == SentOn(link, r.sends[0]) + Transmitted(ipNet, mstpNet, []);
    }
  }

  /** A unicast that the router hands to its BACnet/IP link, which does not send it: the DADR has one octet. */
  lemma RefusedUnicast(uninit: Uninit)
    ensures var t := [Port(1, [1, 2, 3, 4, 5, 6], []), Port(2, [127], [])];
            var npdu := Npdu(1, Apdu, false, 0, NetAddr(1, [9]), NO_ADDR, 255, [16, 8]);
            var r := Handle(t, 2, [5], npdu, uninit);
            Copies(r.sends, 1) == 1 && Transmitted(1, 2, r.sends) == []
  {
    var t := [Port(1, [1, 2, 3, 4, 5, 6], []), Port(2, [127], [])];
    var npdu := Npdu(1, Apdu, false, 0, NetAddr(1, [9]), NO_ADDR, 255, [16, 8]);
    var r := Handle(t, 2, [5], npdu, uninit);
    assert Find(t, 1) == Direct(0);
    assert |r.sends| == 1 && r.sends[1..] == [] && r.sends[0].port == 1 && r.sends[0].mac == [9];
    SentOnBoth(1, 2, r.sends[0]);
  }

  lemma ZeroIsNoPort(t: Table, net: NetNumber)
    requires 0 !in Routes(t)
    ensures !IsPort(t, 0) && (net in Routes(t) ==> PortOf(Routes(t), net) != 0)
  {
    FindHits(t, 0, 0);
    assert forall i :: 0 <= i < |t| ==> Cell(t, i, 0) && NetAt(t, i, 0) == t[i].net;
    FindDirect(t, 0, net);
  }

  // ---------------------------------------------------------------------------------
  // Hop counts of unicast chains
  // ---------------------------------------------------------------------------------

  predicate Unicast(npdu: Npdu) { npdu.kind.Apdu? && !ForEveryRouter(npdu.dest) }

  /** Some router, whatever its table, turns m into m'. */
  ghost predicate UnicastRelay(m: Npdu, m': Npdu) {
    Unicast(m) &&
    exists t, snet, from, uninit, k ::
      && 0 <= k < |Handle(t, snet, from, m, uninit).sends|
      && Handle(t, snet, from, m, uninit).sends[k].npdu == m'
  }

  /** A relayed unicast had a hop count above 1; it goes on with one less, unless it goes on without DNET. */
  lemma RelayLowersHop(m: Npdu, m': Npdu)
    requires UnicastRelay(m, m')
    ensures m.hopCount > 1
    ensures if HasDest(m') then m'.hopCount == m.hopCount - 1 >= 1 else !Unicast(m')
  {
  }

  /** Through any routers, a unicast NPDU with hop count h is relayed at most h - 1 times. */
  lemma {:induction false} UnicastHopBound(ms: seq<Npdu>)
    requires |ms| > 1
    requires forall i :: 0 <= i < |ms| - 1 ==> UnicastRelay(ms[i], ms[i + 1])
    ensures |ms| - 1 <= ms[0].hopCount - 1
  {
    RelayLowersHop(ms[0], ms[1]);
    if |ms| > 2 {
      assert UnicastRelay(ms[1], ms[1 + 1]);
      var tail := ms[1..];
      forall i | 0 <= i < |tail| - 1 ensures UnicastRelay(tail[i], tail[i + 1]) {
        assert UnicastRelay(ms[i + 1], ms[(i + 1) + 1]);
      }
      UnicastHopBound(tail);
    }
  }

  // ---------------------------------------------------------------------------------
  // The source is stamped once and kept
  // ---------------------------------------------------------------------------------

  /** An NPDU on network `link`, sent there from MAC `mac`. */
  datatype Frame = Frame(link: NetNumber, mac: Mac, npdu: Npdu)

  /** Where an NPDU comes from: its SNET/SADR, or the sender on the wire when it has none. */
  function Origin(f: Frame): NetAddr {
    if f.npdu.src.net != 0 then f.npdu.src else NetAddr(f.link, f.mac)
  }

  /** Every copy of a relayed APDU carries the origin, exactly when the origin has octets to write. */
  lemma RelayKeepsOrigin(t: Table, f: Frame, uninit: Uninit, k: nat)
    requires f.npdu.kind.Apdu? && f.link != 0 && k < |Handle(t, f.link, f.mac, f.npdu, uninit).sends|
    ensures Handle(t, f.link, f.mac, f.npdu, uninit).sends[k].npdu.src == Origin(f) <==> Origin(f).adr != []
  {
  }

  /** The application's part of an NPDU, which no router changes. */
  predicate SameMessage(n: Npdu, m: Npdu) {
    && n.kind == m.kind == Apdu && n.payload == m.payload && n.version == m.version && n.priority == m.priority
    && n.expectingReply == m.expectingReply
  }

  /** Every relayed copy has the received APDU, octet for octet, and its version, priority and reply flag. A global
      broadcast goes to everyone and stays one; a unicast for an attached network goes to the device itself, without
      DNET; any other goes to the next router. Where there is a DNET the hop count is one less, and 255 after 0. */
  lemma RelayCarries(t: Table, snet: NetNumber, from: Mac, npdu: Npdu, uninit: Uninit, k: nat)
    requires npdu.kind.Apdu? && k < |Handle(t, snet, from, npdu, uninit).sends|
    ensures var s := Handle(t, snet, from, npdu, uninit).sends[k];
            && SameMessage(s.npdu, npdu)
            && (s.npdu.dest.net != 0 ==> s.npdu.hopCount == if npdu.hopCount == 0 then 255 else npdu.hopCount - 1)
            && (npdu.dest.net == 0xFFFF ==> s.mac == [] && s.npdu.dest == NetAddr(0xFFFF, []))
            && (0 < npdu.dest.net < 0xFFFF ==>
                  && npdu.dest.net in Routes(t) && s.port == PortOf(Routes(t), npdu.dest.net)
                  && match Routes(t)[npdu.dest.net]
                     case Attached => s.mac == npdu.dest.adr && s.npdu.dest == NetAddr(0, [])
                     case NextHop(_, mac) => s.mac == mac && (uninit.dest.net != 0 ==> s.npdu.dest == uninit.dest))
  {
    FindDirect(t, 0, npdu.dest.net);
  }

  /** Whoever relays has a way back to the origin's network: the one it had, or else through the arrival port to
      the previous hop. */
  lemma RelayLearnsWayBack(t: Table, f: Frame, uninit: Uninit)
    requires f.npdu.kind.Apdu? && f.link in Routes(t) && Routes(t)[f.link] == Attached
    requires Handle(t, f.link, f.mac, f.npdu, uninit).sends != []
    ensures var m, m' := Routes(t), Routes(Handle(t, f.link, f.mac, f.npdu, uninit).table);
            && Origin(f).net in m'
            && m'[Origin(f).net] == (if Origin(f).net in m then m[Origin(f).net] else NextHop(f.link, f.mac))
            && m' == Learn(m, f.link, Origin(f).net, f.mac)
  {
    AddDnetRefinesLearn(t, f.link, f.npdu.src.net, f.mac);
  }

  /** A router on the way: its table when the frame arrives, what its uninitialised memory holds, and which of its sends
      the chain goes on with. */
  datatype Relay = Relay(table: Table, uninit: Uninit, copy: nat)

  /** The router relays the APDU f, which arrives on one of its ports, as f'. */
  ghost predicate Relays(r: Relay, f: Frame, f': Frame) {
    && f.npdu.kind.Apdu? && f.link != 0 && f.link in Routes(r.table) && Routes(r.table)[f.link] == Attached
    && r.copy < |Handle(r.table, f.link, f.mac, f.npdu, r.uninit).sends|
    && f'.npdu == Handle(r.table, f.link, f.mac, f.npdu, r.uninit).sends[r.copy].npdu
  }

  ghost predicate RelayChain(rs: seq<Relay>, fs: seq<Frame>) {
    |fs| == |rs| + 1 && forall j, k :: 0 <= j < |rs| && k == j + 1 ==> Relays(rs[j], fs[j], fs[k])
  }

  /** The table that a relaying router is left with. */
  function TableAfter(r: Relay, f: Frame): Table { Handle(r.table, f.link, f.mac, f.npdu, r.uninit).table }

  /** Along every chain of relays through any routers, from the device that sent the NPDU on: every copy carries that
      device's network number and MAC as SNET/SADR and its APDU, octet for octet, and every router on the way is left
      with a route to its network, the one it had or else through the arrival port to the previous hop, and with all
      its other routes as they were. */
  lemma {:induction false} SourceIdentity(rs: seq<Relay>, fs: seq<Frame>, i: nat)
    requires RelayChain(rs, fs) && i < |rs| && fs[0].npdu.src == NO_ADDR && fs[0].mac != []
    ensures fs[i + 1].npdu.src == NetAddr(fs[0].link, fs[0].mac) && SameMessage(fs[i + 1].npdu, fs[0].npdu)
    ensures var m, m', net := Routes(rs[i].table), Routes(TableAfter(rs[i], fs[i])), fs[0].link;
            && net in m' && m'[net] == (if net in m then m[net] else NextHop(fs[i].link, fs[i].mac))
            && m' == Learn(m, fs[i].link, net, fs[i].mac)
  {
    var r, f := rs[i], fs[i];
    var k := i + 1;
    assert Relays(r, f, fs[k]);
    assert fs[0].link != 0 by {
      var one := 1;
      assert Relays(rs[0], fs[0], fs[one]);
    }
    if i > 0 {
      SourceIdentity(rs, fs, i - 1);
    }
    assert Origin(f) == NetAddr(fs[0].link, fs[0].mac);
    RelayKeepsOrigin(r.table, f, r.uninit, r.copy);
    RelayLearnsWayBack(r.table, f, r.uninit);
    RelayCarries(r.table, f.link, f.mac, f.npdu, r.uninit, r.copy);
  }

  /** Without SNET/SADR octets to write, the relayed copy names nobody and the next router stamps itself: a frame from
      an empty MAC on network 1, for a device on network 2. */
  lemma BroadcastMacLosesOrigin(uninit: Uninit)
    ensures var t := [Port(1, [1], []), Port(2, [2], [])];
            var f := Frame(1, [], Npdu(1, Apdu, false, 0, NetAddr(2, [9]), NO_ADDR, 255, [16, 8]));
            var s := Handle(t, f.link, f.mac, f.npdu, uninit).sends;
            Origin(f) == NetAddr(1, []) && |s| == 1 && s[0].port == 2 && s[0].npdu.src == NO_ADDR
  {
    var t := [Port(1, [1], []), Port(2, [2], [])];
    assert FindFrom(t, 1, 2) == Direct(1);
    assert Find(t, 2) == Direct(1);
  }
}
