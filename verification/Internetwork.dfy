/** Any number of these routers on any networks, with frames that are delayed, lost, duplicated and reordered at
    will: following next hops never loops and always ends at a router attached to the destination network. */
module Internetwork {
  import opened Bacnet
  import opened RoutingTable
  import opened NpduCodec
  import opened Forwarding

  /** `sent` holds every frame ever sent; it only grows, and any of them may be delivered at any time, again and
      again, or never. `clock` and `since` are history: they record at which step a router learned a network, and
      no step looks at them. */
  datatype State = State(tables: seq<Table>, sent: set<Frame>, clock: nat, since: seq<map<NetNumber, nat>>)

  /** The routers' tables after start-up, one per router. */
  type Topology = seq<Table>

  ghost predicate Owns(t: Table, net: NetNumber, mac: Mac) {
    exists i :: 0 <= i < |t| && t[i].net == net && t[i].mac == mac
  }

  /** Every router knows its own ports only, all different; a MAC on a network belongs to one router. */
  ghost predicate WellFormed(top: Topology) {
    && (forall r :: 0 <= r < |top| ==> Distinct(top[r]) && forall i :: 0 <= i < |top[r]| ==> top[r][i].dnets == [])
    && (forall r, q, net, mac ::
          0 <= r < |top| && 0 <= q < |top| && Owns(top[r], net, mac) && Owns(top[q], net, mac) ==> r == q)
  }

  /** The networks that an NPDU makes its receivers believe its sender can reach; all, when it makes them read behind
      its end. */
  predicate Claims(npdu: Npdu, n: NetNumber) {
    if npdu.kind.Apdu? then npdu.src.net == n != 0
    else if npdu.kind.messageType == I_AM_ROUTER then
      |npdu.payload| % 2 != 0 || n in DecodeNets(WholeNumbers(npdu.payload))
    else if npdu.kind.messageType == INIT_RT_TABLE then
      && npdu.payload != [] && npdu.payload[0] != 0
      && (|npdu.payload| < 3 || n == Decode16(npdu.payload[1], npdu.payload[2]))
    else false
  }

  datatype Event =
    | Deliver(router: nat, frame: Frame, uninit: Uninit)
    | StartUp(router: nat, port: NetNumber)
    | Inject(frame: Frame)

  /** A frame may be heard by any router on its network. Anyone may put a frame on a network, except that only routers
      send I-Am-Router-To-Network, a routing table to initialize with, or NPDUs with a source. */
  ghost predicate Enabled(s: State, e: Event) {
    match e
    case Deliver(r, f, _) => r < |s.tables| && f in s.sent && IsPort(s.tables[r], f.link)
    case StartUp(r, port) => r < |s.tables| && IsPort(s.tables[r], port)
    case Inject(f) => forall n :: !Claims(f.npdu, n)
  }

  /** A send goes out on the port with its number, from that port's MAC, and one for number 0 on every port. */
  function Emit(t: Table, sends: seq<Send>): set<Frame> {
    set i, j | 0 <= i < |sends| && 0 <= j < |t| && (sends[i].port == t[j].net || sends[i].port == 0) ::
      Frame(t[j].net, t[j].mac, sends[i].npdu)
  }

  ghost function Do(s: State, e: Event): State
    requires Enabled(s, e) && |s.since| == |s.tables|
  {
    match e
    case Deliver(r, f, uninit) =>
      var t := s.tables[r];
      var o := Handle(t, f.link, f.mac, f.npdu, uninit);
      var learned: map<NetNumber, nat> := map n | n in Routes(o.table).Keys - Routes(t).Keys :: s.clock + 1;
      State(s.tables[r := o.table], s.sent + Emit(t, o.sends), s.clock + 1, s.since[r := s.since[r] + learned])
    case StartUp(r, port) =>
      s.(sent := s.sent + Emit(s.tables[r], [Announce(s.tables[r], port, 0)]), clock := s.clock + 1)
    case Inject(f) => s.(sent := s.sent + {f}, clock := s.clock + 1)
  }

  ghost function Start(top: Topology): State {
    State(top, {}, 0, seq(|top|, r requires 0 <= r < |top| => map n | n in Routes(top[r]).Keys :: 0))
  }

  // ---------------------------------------------------------------------------------
  // What one router does with one frame
  // ---------------------------------------------------------------------------------

  lemma PortIsAttached(t: Table, net: NetNumber)
    requires Distinct(t) && IsPort(t, net)
    ensures net in Routes(t) && Routes(t)[net] == Attached
  {
    var i :| 0 <= i < |t| && t[i].net == net;
    assert Cell(t, i, 0);
    FindCell(t, i, 0);
  }

  lemma {:induction false} LearnAllKeeps(t: Table, snet: NetNumber, from: Mac, nets: seq<NetNumber>)
    requires Distinct(t)
    ensures Distinct(LearnAll(t, snet, from, nets)) && SamePorts(t, LearnAll(t, snet, from, nets))
    decreases |nets|
  {
    if nets != [] {
      AddDnetKeepsDistinct(t, snet, nets[0], from);
      LearnAllKeeps(AddDnet(t, snet, nets[0], from), snet, from, nets[1..]);
    }
  }

  ghost predicate SamePorts(t: Table, t': Table) {
    |t| == |t'| && forall i :: 0 <= i < |t| ==> t[i].net == t'[i].net && t[i].mac == t'[i].mac
  }

  /** From t to t' a router has learned only what the frame claims, as "through the frame's sender"; it keeps its ports
      and every route it has. */
  ghost predicate LearnedFrom(t: Table, f: Frame, t': Table) {
    var m, m' := Routes(t), Routes(t');
    && Distinct(t') && SamePorts(t, t')
    && (forall n :: n in m ==> n in m' && m'[n] == m[n])
    && (forall n :: n in m' && n !in m ==> Claims(f.npdu, n) && m'[n] == NextHop(f.link, f.mac))
  }

  lemma OneLearned(t: Table, f: Frame, net: NetNumber)
    requires Distinct(t) && IsPort(t, f.link) && (Knows(t, net) || Claims(f.npdu, net))
    ensures LearnedFrom(t, f, AddDnet(t, f.link, net, f.mac))
  {
    PortIsAttached(t, f.link);
    AddDnetKeepsDistinct(t, f.link, net, f.mac);
    AddDnetRefinesLearn(t, f.link, net, f.mac);
  }

  lemma ListLearned(t: Table, f: Frame)
    requires Distinct(t) && IsPort(t, f.link) && f.npdu.kind.Control? && f.npdu.kind.messageType == I_AM_ROUTER
    ensures LearnedFrom(t, f, LearnAll(t, f.link, f.mac, DecodeNets(WholeNumbers(f.npdu.payload))))
  {
    PortIsAttached(t, f.link);
    var nets := DecodeNets(WholeNumbers(f.npdu.payload));
    LearnAllKeeps(t, f.link, f.mac, nets);
    LearnAllRoutes(t, f.link, f.mac, nets);
  }

  /** That is what every router learns from every frame. */
  lemma HandleLearns(t: Table, f: Frame, uninit: Uninit)
    requires Distinct(t) && IsPort(t, f.link)
    ensures LearnedFrom(t, f, Handle(t, f.link, f.mac, f.npdu, uninit).table)
  {
    if Handle(t, f.link, f.mac, f.npdu, uninit).table != t {
      if f.npdu.kind.Apdu? {
        OneLearned(t, f, f.npdu.src.net);
      } else if f.npdu.kind.messageType == I_AM_ROUTER {
        ListLearned(t, f);
      } else {
        OneLearned(t, f, Decode16(OctetAt(f.npdu.payload, uninit, 1), OctetAt(f.npdu.payload, uninit, 2)));
      }
    }
  }

  lemma AnnounceClaims(t: Table, snet: NetNumber, net: NetNumber, n: NetNumber)
    requires Distinct(t) && Claims(Announce(t, snet, net).npdu, n) && (net != 0 ==> net in Routes(t))
    ensures n in Routes(t)
  {
    var nets := if net != 0 then [net] else Advertised(t, snet);
    NetListRoundTrip(nets);
    assert WholeNumbers(EncodeNets(nets)) == EncodeNets(nets);
    if net == 0 {
      AdvertisedIffElsewhere(t, snet, n);
    }
  }

  ghost predicate ClaimsKnown(npdu: Npdu, t: Table) {
    forall n :: Claims(npdu, n) ==> n in Routes(t)
  }

  lemma WhoIsClaims(t: Table, snet: NetNumber, payload: seq<Octet>, k: nat)
    requires Distinct(t) && k < |AnswerWhoIs(t, snet, payload)|
    ensures ClaimsKnown(AnswerWhoIs(t, snet, payload)[k].npdu, t)
  {
    var net := if |payload| < 2 then 0 else Decode16(payload[0], payload[1]);
    forall n | Claims(AnswerWhoIs(t, snet, payload)[k].npdu, n) ensures n in Routes(t) {
      AnnounceClaims(t, snet, net, n);
    }
  }

  lemma RelayClaims(t: Table, f: Frame, uninit: Uninit, k: nat)
    requires Distinct(t) && IsPort(t, f.link) && f.npdu.kind.Apdu?
    requires k < |Handle(t, f.link, f.mac, f.npdu, uninit).sends|
    ensures var o := Handle(t, f.link, f.mac, f.npdu, uninit); ClaimsKnown(o.sends[k].npdu, o.table)
  {
    PortIsAttached(t, f.link);
    RelayLearnsWayBack(t, f, uninit);
  }

  lemma {:induction false} OtherPortsArePorts(t: Table, i: nat, snet: NetNumber)
    requires i <= |t|
    ensures forall p :: p in OtherPorts(t, i, snet) ==> IsPort(t, p)
    decreases |t| - i
  {
    if i < |t| {
      OtherPortsArePorts(t, i + 1, snet);
    }
  }

  predicate IsTableAck(npdu: Npdu) { npdu.kind.Control? && npdu.kind.messageType == INIT_RT_TABLE_ACK }

  /** A router sends on its own ports, except that the number for an Initialize-Routing-Table-Ack is narrowed to 8
      bits. */
  lemma SendsOnOwnPorts(t: Table, f: Frame, uninit: Uninit, k: nat)
    requires IsPort(t, f.link) && k < |Handle(t, f.link, f.mac, f.npdu, uninit).sends|
    ensures var s := Handle(t, f.link, f.mac, f.npdu, uninit).sends[k];
            if IsTableAck(s.npdu) && f.npdu.kind.Control? then s.port == f.link % 256 else IsPort(t, s.port)
  {
    OtherPortsArePorts(t, 0, f.link);
  }

  /** A router claims only networks that it knows by then. */
  lemma HandleClaims(t: Table, f: Frame, uninit: Uninit, k: nat)
    requires Distinct(t) && IsPort(t, f.link)
    requires k < |Handle(t, f.link, f.mac, f.npdu, uninit).sends|
    ensures var o := Handle(t, f.link, f.mac, f.npdu, uninit); ClaimsKnown(o.sends[k].npdu, o.table)
  {
    if f.npdu.kind.Apdu? {
      RelayClaims(t, f, uninit, k);
    } else if f.npdu.kind.messageType == WHO_IS_ROUTER {
      WhoIsClaims(t, f.link, f.npdu.payload, k);
    }
  }

  // ---------------------------------------------------------------------------------
  // The invariant
  // ---------------------------------------------------------------------------------

  /** Router q, which sends on `net` from `mac`, knew n before step `t`. */
  ghost predicate KnewBefore(top: Topology, s: State, q: nat, net: NetNumber, mac: Mac, n: NetNumber, t: nat)
    requires |top| == |s.since|
  {
    q < |top| && Owns(top[q], net, mac) && n in s.since[q] && s.since[q][n] < t
  }

  /** Router q, which sends on `net` from `mac`, knows n. */
  ghost predicate SenderKnows(top: Topology, s: State, q: nat, net: NetNumber, mac: Mac, n: NetNumber)
    requires |top| == |s.since|
  {
    q < |top| && Owns(top[q], net, mac) && n in s.since[q]
  }

  ghost predicate Shape(top: Topology, s: State) {
    && |s.tables| == |s.since| == |top|
    && (forall r :: 0 <= r < |top| ==> Distinct(s.tables[r]) && SamePorts(top[r], s.tables[r]))
    && (forall r :: 0 <= r < |top| ==> s.since[r].Keys == Routes(s.tables[r]).Keys)
    && (forall r, n :: 0 <= r < |top| && n in s.since[r] ==> s.since[r][n] <= s.clock)
  }

  /** What a frame claims, its sender knows. */
  ghost predicate HonestFrames(top: Topology, s: State)
    requires |top| == |s.since|
  {
    forall f, n :: f in s.sent && Claims(f.npdu, n) ==> exists q :: SenderKnows(top, s, q, f.link, f.mac, n)
  }

  /** The next hop knew the network before the router that chose it did. */
  ghost predicate EarlierHops(top: Topology, s: State)
    requires Shape(top, s)
  {
    forall r, n :: 0 <= r < |top| && n in Routes(s.tables[r]) && Routes(s.tables[r])[n].NextHop? ==>
      exists q :: KnewBefore(top, s, q, Routes(s.tables[r])[n].port, Routes(s.tables[r])[n].mac, n, s.since[r][n])
  }

  ghost predicate Inv(top: Topology, s: State) {
    Shape(top, s) && HonestFrames(top, s) && EarlierHops(top, s)
  }

  lemma FreshTableHasPortsOnly(t: Table, n: NetNumber)
    requires forall i :: 0 <= i < |t| ==> t[i].dnets == []
    ensures n in Routes(t) ==> Routes(t)[n] == Attached
  {
    FindHits(t, 0, n);
  }

  lemma StartInv(top: Topology)
    requires WellFormed(top)
    ensures Inv(top, Start(top))
  {
    forall r, n | 0 <= r < |top| && n in Routes(top[r]) ensures Routes(top[r])[n] == Attached {
      FreshTableHasPortsOnly(top[r], n);
    }
  }

  /** Steps only add knowledge, so what was known before a step is still known to have been known. */
  lemma KnewBeforeKept(top: Topology, s: State, s': State, q: nat, net: NetNumber, mac: Mac, n: NetNumber, t: nat,
    t': nat)
    requires |top| == |s.since| == |s'.since| && KnewBefore(top, s, q, net, mac, n, t) && t <= t'
    requires n in s'.since[q] && s'.since[q][n] == s.since[q][n]
    ensures KnewBefore(top, s', q, net, mac, n, t')
  {
  }

  lemma DeliverShape(top: Topology, s: State, r: nat, f: Frame, uninit: Uninit)
    requires Inv(top, s) && Enabled(s, Deliver(r, f, uninit))
    ensures var s' := Do(s, Deliver(r, f, uninit));
            && Shape(top, s')
            && (forall q, n :: 0 <= q < |top| && n in s.since[q] ==>
                 n in s'.since[q] && s'.since[q][n] == s.since[q][n])
  {
    var t := s.tables[r];
    var o := Handle(t, f.link, f.mac, f.npdu, uninit);
    HandleLearns(t, f, uninit);
    var s' := Do(s, Deliver(r, f, uninit));
    assert s'.since[r].Keys == Routes(o.table).Keys;
  }

  lemma DeliverHonest(top: Topology, s: State, r: nat, f: Frame, uninit: Uninit, s': State)
    requires Inv(top, s) && Enabled(s, Deliver(r, f, uninit)) && s' == Do(s, Deliver(r, f, uninit)) && Shape(top, s')
    requires forall q, n :: 0 <= q < |top| && n in s.since[q] ==> n in s'.since[q]
    ensures HonestFrames(top, s')
  {
    forall g, n | g in s'.sent && Claims(g.npdu, n)
      ensures exists q :: SenderKnows(top, s', q, g.link, g.mac, n)
    {
      if g in s.sent {
        var q :| SenderKnows(top, s, q, g.link, g.mac, n);
        assert SenderKnows(top, s', q, g.link, g.mac, n);
      } else {
        EmittedKnown(top, s, s', r, Handle(s.tables[r], f.link, f.mac, f.npdu, uninit).sends, f, uninit, g, n);
      }
    }
  }

  /** What router r emits while handling a frame, it knows afterwards. */
  lemma EmittedKnown(top: Topology, s: State, s': State, r: nat, sends: seq<Send>, f: Frame, uninit: Uninit, g: Frame,
    n: NetNumber)
    requires Inv(top, s) && Enabled(s, Deliver(r, f, uninit)) && s' == Do(s, Deliver(r, f, uninit)) && Shape(top, s')
    requires sends == Handle(s.tables[r], f.link, f.mac, f.npdu, uninit).sends
    requires g in Emit(s.tables[r], sends) && Claims(g.npdu, n)
    ensures SenderKnows(top, s', r, g.link, g.mac, n)
  {
    var k, j :| 0 <= k < |sends| && 0 <= j < |s.tables[r]| &&
      (sends[k].port == s.tables[r][j].net || sends[k].port == 0) &&
      g == Frame(s.tables[r][j].net, s.tables[r][j].mac, sends[k].npdu);
    HandleClaims(s.tables[r], f, uninit, k);
    SenderOwns(top, s, r, j);
  }

  lemma SenderOwns(top: Topology, s: State, r: nat, j: nat)
    requires Shape(top, s) && r < |top| && j < |s.tables[r]|
    ensures Owns(top[r], s.tables[r][j].net, s.tables[r][j].mac)
  {
    assert top[r][j].net == s.tables[r][j].net && top[r][j].mac == s.tables[r][j].mac;
  }

  /** A new route goes to the sender of the frame, who knew the network before this step. */
  lemma DeliverEarlier(top: Topology, s: State, r: nat, f: Frame, uninit: Uninit)
    requires Inv(top, s) && Enabled(s, Deliver(r, f, uninit))
    ensures Shape(top, Do(s, Deliver(r, f, uninit))) && EarlierHops(top, Do(s, Deliver(r, f, uninit)))
  {
    var s' := Do(s, Deliver(r, f, uninit));
    DeliverShape(top, s, r, f, uninit);
    HandleLearns(s.tables[r], f, uninit);
    forall p, n | 0 <= p < |top| && n in Routes(s'.tables[p]) && Routes(s'.tables[p])[n].NextHop?
      ensures exists q :: KnewBefore(top, s', q, Routes(s'.tables[p])[n].port, Routes(s'.tables[p])[n].mac, n,
        s'.since[p][n])
    {
      var hop := Routes(s'.tables[p])[n];
      if n in Routes(s.tables[p]) {
        var q :| KnewBefore(top, s, q, hop.port, hop.mac, n, s.since[p][n]);
        KnewBeforeKept(top, s, s', q, hop.port, hop.mac, n, s.since[p][n], s'.since[p][n]);
      } else {
        assert p == r && hop == NextHop(f.link, f.mac) && s'.since[p][n] == s.clock + 1;
        var q :| SenderKnows(top, s, q, f.link, f.mac, n);
        assert KnewBefore(top, s', q, hop.port, hop.mac, n, s'.since[p][n]);
      }
    }
  }

  lemma StepInv(top: Topology, s: State, e: Event)
    requires Inv(top, s) && Enabled(s, e)
    ensures Inv(top, Do(s, e))
  {
    var s' := Do(s, e);
    match e {
      case Deliver(r, f, uninit) =>
        DeliverShape(top, s, r, f, uninit);
        DeliverHonest(top, s, r, f, uninit, s');
        DeliverEarlier(top, s, r, f, uninit);
      case StartUp(r, port) =>
        StartUpInv(top, s, r, port);
      case Inject(g) => QuietStep(top, s, s', {g});
    }
  }

  lemma StartUpInv(top: Topology, s: State, r: nat, port: NetNumber)
    requires Inv(top, s) && Enabled(s, StartUp(r, port))
    ensures Inv(top, Do(s, StartUp(r, port)))
  {
    var t := s.tables[r];
    var s', send := Do(s, StartUp(r, port)), Announce(t, port, 0);
    var frames := Emit(t, [send]);
    forall g, n | g in frames && Claims(g.npdu, n) ensures exists q :: SenderKnows(top, s', q, g.link, g.mac, n) {
      var i, j :| 0 <= i < |[send]| && 0 <= j < |t| && ([send][i].port == t[j].net || [send][i].port == 0) &&
        g == Frame(t[j].net, t[j].mac, [send][i].npdu);
      AnnounceClaims(t, port, 0, n);
      SenderOwns(top, s, r, j);
      assert SenderKnows(top, s', r, g.link, g.mac, n);
    }
    QuietStep(top, s, s', frames);
  }

  /** Adding honest frames and letting time pass keeps the invariant. */
  lemma QuietStep(top: Topology, s: State, s': State, frames: set<Frame>)
    requires Inv(top, s) && s' == s.(sent := s.sent + frames, clock := s.clock + 1)
    requires forall g, n :: g in frames && Claims(g.npdu, n) ==> exists q :: SenderKnows(top, s', q, g.link, g.mac, n)
    ensures Inv(top, s')
  {
    forall f, n | f in s'.sent && Claims(f.npdu, n)
      ensures exists q :: SenderKnows(top, s', q, f.link, f.mac, n)
    {
      if f in s.sent {
        var q :| SenderKnows(top, s, q, f.link, f.mac, n);
        assert SenderKnows(top, s', q, f.link, f.mac, n);
      }
    }
    forall r, n | 0 <= r < |top| && n in Routes(s'.tables[r]) && Routes(s'.tables[r])[n].NextHop?
      ensures exists q :: KnewBefore(top, s', q, Routes(s'.tables[r])[n].port, Routes(s'.tables[r])[n].mac, n,
        s'.since[r][n])
    {
      var hop := Routes(s.tables[r])[n];
      var q :| KnewBefore(top, s, q, hop.port, hop.mac, n, s.since[r][n]);
      KnewBeforeKept(top, s, s', q, hop.port, hop.mac, n, s.since[r][n], s'.since[r][n]);
    }
  }

  // ---------------------------------------------------------------------------------
  // Loop freedom
  // ---------------------------------------------------------------------------------

  /** s is reached from start-up by some finite sequence of events. */
  ghost predicate Reaches(top: Topology, s: State, events: seq<Event>)
    decreases |events|
  {
    if events == [] then s == Start(top)
    else
      var e := events[|events| - 1];
      exists p :: Reaches(top, p, events[..|events| - 1]) && |p.since| == |p.tables| && Enabled(p, e) && s == Do(p, e)
  }

  lemma {:induction false} ReachableInv(top: Topology, s: State, events: seq<Event>)
    requires WellFormed(top) && Reaches(top, s, events)
    ensures Inv(top, s)
    decreases |events|
  {
    if events == [] {
      StartInv(top);
    } else {
      var e := events[|events| - 1];
      var p :| Reaches(top, p, events[..|events| - 1]) && |p.since| == |p.tables| && Enabled(p, e) && s == Do(p, e);
      ReachableInv(top, p, events[..|events| - 1]);
      StepInv(top, p, e);
    }
  }

  /** Router r hands packets for n to router q. */
  ghost predicate HandsTo(top: Topology, s: State, n: NetNumber, r: nat, q: nat) {
    && r < |s.tables| && q < |top| && n in Routes(s.tables[r]) && Routes(s.tables[r])[n].NextHop?
    && Owns(top[q], Routes(s.tables[r])[n].port, Routes(s.tables[r])[n].mac)
  }

  ghost predicate Chain(top: Topology, s: State, n: NetNumber, path: seq<nat>) {
    forall i :: 0 <= i < |path| - 1 ==> HandsTo(top, s, n, path[i], path[i + 1])
  }

  lemma HandsToEarlier(top: Topology, s: State, n: NetNumber, r: nat, q: nat)
    requires WellFormed(top) && Inv(top, s) && HandsTo(top, s, n, r, q)
    ensures n in s.since[q] && n in s.since[r] && s.since[q][n] < s.since[r][n]
  {
    var hop := Routes(s.tables[r])[n];
    var p :| KnewBefore(top, s, p, hop.port, hop.mac, n, s.since[r][n]);
    assert p == q;
  }

  lemma {:induction false} ChainGoesBack(top: Topology, s: State, n: NetNumber, path: seq<nat>, i: nat, j: nat)
    requires WellFormed(top) && Inv(top, s) && Chain(top, s, n, path) && i < j < |path|
    ensures path[i] < |s.since| && path[j] < |s.since| && n in s.since[path[i]] && n in s.since[path[j]]
    ensures s.since[path[j]][n] < s.since[path[i]][n]
    decreases j
  {
    HandsToEarlier(top, s, n, path[j - 1], path[(j - 1) + 1]);
    if i < j - 1 {
      ChainGoesBack(top, s, n, path, i, j - 1);
    }
  }

  /** The chain of next hops from any router that knows n, down to one attached to n. */
  lemma {:induction false} ChainToAttached(top: Topology, s: State, n: NetNumber, r: nat) returns (path: seq<nat>)
    requires WellFormed(top) && Inv(top, s) && r < |top| && n in Routes(s.tables[r])
    ensures path != [] && path[0] == r && Chain(top, s, n, path)
    ensures path[|path| - 1] < |top| && IsPort(top[path[|path| - 1]], n)
    decreases s.since[r][n]
  {
    var hop := Routes(s.tables[r])[n];
    if hop.NextHop? {
      var q :| KnewBefore(top, s, q, hop.port, hop.mac, n, s.since[r][n]);
      var rest := ChainToAttached(top, s, n, q);
      path := [r] + rest;
      forall i | 0 <= i < |path| - 1 ensures HandsTo(top, s, n, path[i], path[i + 1]) {
        assert i > 0 ==> HandsTo(top, s, n, rest[i - 1], rest[(i - 1) + 1]);
      }
    } else {
      FindHits(s.tables[r], 0, n);
      path := [r];
    }
  }

  lemma {:induction false} DistinctAreFew(path: seq<nat>, bound: nat)
    requires forall i :: 0 <= i < |path| ==> path[i] < bound
    requires forall i, j :: 0 <= i < j < |path| ==> path[i] != path[j]
    ensures |path| <= bound
  {
    var s := set i | 0 <= i < |path| :: path[i];
    DistinctSize(path, s);
    RangeSize(bound, s);
  }

  lemma {:induction false} DistinctSize(path: seq<nat>, s: set<int>)
    requires s == set i | 0 <= i < |path| :: path[i] as int
    requires forall i, j :: 0 <= i < j < |path| ==> path[i] != path[j]
    ensures |s| == |path|
  {
    if path != [] {
      var front, last := path[..|path| - 1], path[|path| - 1];
      var s' := set i | 0 <= i < |front| :: front[i] as int;
      DistinctSize(front, s');
      assert s == s' + {last};
    }
  }

  /** No chain of next hops towards n visits a router twice, so it has at most as many hops as there are routers. */
  ghost predicate NoLoops(top: Topology, s: State, n: NetNumber) {
    forall path :: |path| > 1 && Chain(top, s, n, path) ==>
      |path| <= |top| && forall i, j :: 0 <= i < j < |path| ==> path[i] != path[j]
  }

  /** A chain of next hops from r to a router attached to n. */
  ghost predicate LeadsTo(top: Topology, s: State, n: NetNumber, r: nat, path: seq<nat>) {
    && path != [] && path[0] == r && Chain(top, s, n, path)
    && path[|path| - 1] < |top| && IsPort(top[path[|path| - 1]], n)
  }

  lemma ChainsDoNotLoop(top: Topology, s: State, n: NetNumber)
    requires WellFormed(top) && Inv(top, s)
    ensures NoLoops(top, s, n)
  {
    forall path | |path| > 1 && Chain(top, s, n, path)
      ensures |path| <= |top| && forall i, j :: 0 <= i < j < |path| ==> path[i] != path[j]
    {
      forall i, j | 0 <= i < j < |path| ensures path[i] != path[j] {
        ChainGoesBack(top, s, n, path, i, j);
      }
      forall i | 0 <= i < |path| ensures path[i] < |top| {
        ChainGoesBack(top, s, n, path, 0, if i == 0 then 1 else i);
      }
      DistinctAreFew(path, |top|);
    }
  }

  /** In every reachable state of every internetwork and for every network n: next hops do not loop, and from every
      router that knows n they lead to a router attached to n. */
  lemma LoopFreedom(top: Topology, s: State, events: seq<Event>, n: NetNumber)
    requires WellFormed(top) && Reaches(top, s, events)
    ensures |s.tables| == |top| && NoLoops(top, s, n)
    ensures forall r :: 0 <= r < |top| && n in Routes(s.tables[r]) ==> exists path :: LeadsTo(top, s, n, r, path)
  {
    ReachableInv(top, s, events);
    ChainsDoNotLoop(top, s, n);
    forall r | 0 <= r < |top| && n in Routes(s.tables[r])
      ensures exists path :: LeadsTo(top, s, n, r, path)
    {
      var path := ChainToAttached(top, s, n, r);
      assert LeadsTo(top, s, n, r, path);
    }
  }

  // ---------------------------------------------------------------------------------
  // Routes do spread
  // ---------------------------------------------------------------------------------

  /** From every reachable state: when router r announces itself on a network that it shares with router q, a frame is
      sent there, from r's own MAC, that q may receive; and once q has, it knows every network that r reaches otherwise
      than through their common network, through r if it did not know it before. */
  lemma NewsTravels(top: Topology, s: State, events: seq<Event>, r: nat, q: nat, j: nat, uninit: Uninit, n: NetNumber)
    requires WellFormed(top) && Reaches(top, s, events) && r < |top| && q < |top| && |s.tables| == |top|
    requires j < |s.tables[r]| && IsPort(s.tables[q], s.tables[r][j].net)
    requires n in Routes(s.tables[r]) && PortOf(Routes(s.tables[r]), n) != s.tables[r][j].net
    ensures var port := s.tables[r][j].net;
            && Enabled(s, StartUp(r, port))
            && var s1 := Do(s, StartUp(r, port));
               exists f :: f in s1.sent && f.link == port && f.mac == s.tables[r][j].mac &&
                 Enabled(s1, Deliver(q, f, uninit)) && KnowsAfter(s1, q, f, uninit, n)
  {
    ReachableInv(top, s, events);
    var port := s.tables[r][j].net;
    var send := Announce(s.tables[r], port, 0);
    var f := Frame(port, s.tables[r][j].mac, send.npdu);
    var s1 := Do(s, StartUp(r, port));
    assert [send][0].port == s.tables[r][j].net;
    assert f in Emit(s.tables[r], [send]);
    AdvertisedIffElsewhere(s.tables[r], port, n);
    FindDirect(s.tables[r], 0, n);
    PortIsAttached(s.tables[q], port);
    AdvertiseThenLearn(s.tables[r], s.tables[q], port, f.mac, uninit);
    assert KnowsAfter(s1, q, f, uninit, n);
  }

  /** Whatever a router sends on one of its ports is on that network afterwards, from that port's MAC. */
  lemma SendsTravel(s: State, r: nat, f: Frame, uninit: Uninit, k: nat, j: nat)
    requires |s.since| == |s.tables| && Enabled(s, Deliver(r, f, uninit)) && j < |s.tables[r]|
    requires k < |Handle(s.tables[r], f.link, f.mac, f.npdu, uninit).sends|
    requires Handle(s.tables[r], f.link, f.mac, f.npdu, uninit).sends[k].port == s.tables[r][j].net
    ensures Frame(s.tables[r][j].net, s.tables[r][j].mac,
      Handle(s.tables[r], f.link, f.mac, f.npdu, uninit).sends[k].npdu)
            in Do(s, Deliver(r, f, uninit)).sent
    ensures Do(s, Deliver(r, f, uninit)).tables[r] == Handle(s.tables[r], f.link, f.mac, f.npdu, uninit).table
    ensures forall q :: 0 <= q < |s.tables| && q != r ==> Do(s, Deliver(r, f, uninit)).tables[q] == s.tables[q]
  {
  }

  /** After receiving f, router q knows n: as it did before, or through the frame's sender. */
  ghost predicate KnowsAfter(s: State, q: nat, f: Frame, uninit: Uninit, n: NetNumber) {
    && |s.since| == |s.tables| && Enabled(s, Deliver(q, f, uninit))
    && var m, m' := Routes(s.tables[q]), Routes(Do(s, Deliver(q, f, uninit)).tables[q]);
       n in m' && m'[n] == if n in m then m[n] else NextHop(f.link, f.mac)
  }

  /** The next hop is unique, so those chains are the only ones. */
  lemma OneNextHop(top: Topology, s: State, n: NetNumber, r: nat, q: nat, p: nat)
    requires WellFormed(top) && HandsTo(top, s, n, r, q) && HandsTo(top, s, n, r, p)
    ensures q == p
  {
  }
}
