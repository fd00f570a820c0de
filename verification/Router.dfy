/** The router program itself: the heap-allocated two-level list behind `Router_Table_Head`, and the handlers
    that walk it and send. Each method is proved against the value-level table and handler. */
module Router {
  import opened Bacnet
  import opened RoutingTable
  import opened NpduCodec
  import opened Forwarding

  /** A DNET record in the role of a learned network, in a port's list. */
  class Dnet {
    var mac: Mac
    var net: NetNumber
    var enabled: bool
    var next: Dnet?
    // the node's place in the structure, which makes all nodes different
    ghost const row: nat
    ghost const col: nat

    constructor (net: NetNumber, mac: Mac, ghost row: nat, ghost col: nat)
      ensures this.mac == mac && this.net == net && enabled && next == null && this.row == row && this.col == col
    {
      this.mac, this.net, enabled, next, this.row, this.col := mac, net, true, null, row, col;
    }
  }

  function DnetAt(s: seq<Dnet>, i: int): Dnet? {
    if 0 <= i < |s| then s[i] else null
  }

  /** A DNET record in the role of a directly connected port, in the outer list. */
  class PortNode {
    var mac: Mac
    var net: NetNumber
    var enabled: bool
    var dnets: Dnet?
    var next: PortNode?
    ghost const row: nat
    ghost var chain: seq<Dnet>

    constructor (net: NetNumber, mac: Mac, ghost row: nat)
      ensures this.mac == mac && this.net == net && enabled && dnets == null && next == null
      ensures this.row == row && chain == []
    {
      this.mac, this.net, enabled, dnets, next, this.row, chain := mac, net, true, null, null, row, [];
    }

    /** The list that hangs off this port holds exactly these routes. */
    ghost predicate ListHolds(routes: seq<Route>)
      reads this`dnets, this`chain, chain
    {
      && |chain| == |routes| && dnets == DnetAt(chain, 0)
      && (forall k :: 0 <= k < |chain| ==>
            && chain[k].row == row && chain[k].col == k && chain[k].enabled
            && routes[k] == Route(chain[k].net, chain[k].mac))
      // two bound variables keep the verifier from chasing the list
      && (forall k, l :: 0 <= k && l == k + 1 && l < |chain| ==> chain[k].next == chain[l])
      && (chain != [] ==> chain[|chain| - 1].next == null)
    }

    /** Walks to the end of the list and hangs a new node there. */
    method Append(node: Dnet, ghost routes: seq<Route>)
      requires ListHolds(routes) && node !in chain
      requires node.row == row && node.col == |chain| && node.enabled && node.next == null
      modifies this`dnets, this`chain, chain`next
      ensures chain == old(chain) + [node]
      ensures ListHolds(routes + [Route(node.net, node.mac)])
    {
      if dnets == null {
        dnets := node;
      } else {
        var last := dnets;
        ghost var k := 0;
        while last.next != null
          invariant 0 <= k < |chain| && last == chain[k]
          decreases |chain| - k
        {
          assert last.next == DnetAt(chain, k + 1);
          last, k := last.next, k + 1;
        }
        assert DnetAt(chain, k + 1) == null;
        last.next := node;
      }
      chain := chain + [node];
    }

    /** The numbers of the learned networks, one after the other. */
    method EncodeList(ghost routes: seq<Route>) returns (payload: seq<Octet>)
      requires ListHolds(routes)
      ensures payload == EncodeNets(NetsOf(routes))
    {
      payload := [];
      var dnet := dnets;
      ghost var k := 0;
      while dnet != null
        invariant 0 <= k <= |routes| && dnet == DnetAt(chain, k) && payload == EncodeNets(NetsOf(routes)[..k])
        decreases |routes| - k
      {
        EncodeNetsConcat(NetsOf(routes)[..k], [dnet.net]);
        assert NetsOf(routes)[..k] + [dnet.net] == NetsOf(routes)[..k + 1];
        payload := payload + Encode16(dnet.net);
        assert dnet.next == DnetAt(chain, k + 1);
        dnet, k := dnet.next, k + 1;
      }
      assert NetsOf(routes)[..k] == NetsOf(routes);
    }

    /** The list survives writes to other nodes. */
    twostate lemma ListUntouched(routes: seq<Route>)
      requires old(ListHolds(routes)) && dnets == old(dnets) && chain == old(chain)
      requires forall k :: 0 <= k < |chain| ==> unchanged(chain[k])
      ensures ListHolds(routes)
    {
    }
  }

  function PortAt(s: seq<PortNode>, i: int): PortNode? {
    if 0 <= i < |s| then s[i] else null
  }

  /** The node at position i holds row i of the table: its fields, its list and its link to the next port. */
  ghost predicate RowHolds(ports: seq<PortNode>, table: Table, repr: set<object>, i: nat)
    requires |ports| == |table| && i < |ports|
    reads repr
  {
    && ports[i] in repr && (forall k :: 0 <= k < |ports[i].chain| ==> ports[i].chain[k] in repr)
    && ports[i].row == i && ports[i].enabled
    && ports[i].net == table[i].net && ports[i].mac == table[i].mac
    && ports[i].next == PortAt(ports, i + 1)
    && ports[i].ListHolds(table[i].dnets)
  }

  ghost predicate RowsHold(ports: seq<PortNode>, table: Table, repr: set<object>, n: nat)
    requires |ports| == |table| && n <= |ports|
    reads repr
  {
    n == 0 || (RowsHold(ports, table, repr, n - 1) && RowHolds(ports, table, repr, n - 1))
  }

  /** The list from `head` through `ports`, all of whose nodes are in `repr`, holds exactly this table. */
  ghost predicate Holds(head: PortNode?, ports: seq<PortNode>, table: Table, repr: set<object>)
    reads repr
  {
    |ports| == |table| && head == PortAt(ports, 0) && RowsHold(ports, table, repr, |ports|)
  }

  lemma {:induction false} RowOf(ports: seq<PortNode>, table: Table, repr: set<object>, n: nat, i: nat)
    requires |ports| == |table| && i < n <= |ports| && RowsHold(ports, table, repr, n)
    ensures RowHolds(ports, table, repr, i)
  {
    if i < n - 1 {
      RowOf(ports, table, repr, n - 1, i);
    }
  }

  lemma {:induction false} AllRows(ports: seq<PortNode>, table: Table, repr: set<object>, n: nat)
    requires |ports| == |table| && n <= |ports|
    requires forall i :: 0 <= i < n ==> RowHolds(ports, table, repr, i)
    ensures RowsHold(ports, table, repr, n)
  {
    if n > 0 {
      AllRows(ports, table, repr, n - 1);
    }
  }

  /** Hanging a node behind the last port adds a row to the table. */
  method LinkPort(last: PortNode, node: PortNode,
                  ghost head: PortNode?, ghost ports: seq<PortNode>, ghost table: Table, ghost repr: set<object>)
    requires Holds(head, ports, table, repr) && ports != [] && last == ports[|ports| - 1]
    requires node !in repr && node.row == |ports| && node.enabled
    requires node.next == null && node.dnets == null && node.chain == []
    modifies last`next
    ensures Holds(head, ports + [node], table + [Port(node.net, node.mac, [])], repr + {node})
  {
    ghost var ps, t, r := ports + [node], table + [Port(node.net, node.mac, [])], repr + {node};
    forall i | 0 <= i < |ports| ensures RowHolds(ports, table, repr, i) {
      RowOf(ports, table, repr, |ports|, i);
    }
    last.next := node;
    forall i | 0 <= i < |ps| ensures RowHolds(ps, t, r, i) {
      if i < |ports| {
        assert old(RowHolds(ports, table, repr, i));
      }
    }
    AllRows(ps, t, r, |ps|);
  }

  /** Hanging a node behind the last one of port p's list adds a route to row p. */
  method LinkDnet(node: Dnet, port: PortNode, ghost p: nat,
                  ghost head: PortNode?, ghost ports: seq<PortNode>, ghost table: Table, ghost repr: set<object>)
    requires Holds(head, ports, table, repr) && p < |ports| && port == ports[p]
    requires node !in repr && node.row == p && node.col == |table[p].dnets| && node.enabled && node.next == null
    modifies port`dnets, port`chain, port.chain`next
    ensures Holds(head, ports, AppendRoute(table, p, Route(node.net, node.mac)), repr + {node})
  {
    ghost var t, r := AppendRoute(table, p, Route(node.net, node.mac)), repr + {node};
    forall i | 0 <= i < |ports| ensures RowHolds(ports, table, repr, i) {
      RowOf(ports, table, repr, |ports|, i);
    }
    assert RowHolds(ports, table, repr, p);
    port.Append(node, table[p].dnets);
    forall i | 0 <= i < |ports| ensures RowHolds(ports, t, r, i) {
      assert old(RowHolds(ports, table, repr, i));
      if i != p {
        ports[i].ListUntouched(table[i].dnets);
      }
    }
    AllRows(ports, t, r, |ports|);
  }

  lemma SendEachFirst(p: NetNumber, rest: seq<NetNumber>, npdu: Npdu)
    ensures SendEach([p] + rest, npdu) == [Send(p, [], npdu)] + SendEach(rest, npdu)
  {
  }

  lemma {:induction false} EncodeNetsConcat(a: seq<NetNumber>, b: seq<NetNumber>)
    ensures EncodeNets(a + b) == EncodeNets(a) + EncodeNets(b)
  {
    if a == [] {
      assert a + b == b;
    } else {
      assert (a + b)[1..] == a[1..] + b;
      EncodeNetsConcat(a[1..], b);
    }
  }

  /** The octets that one row contributes to the full list. */
  function RowOctets(t: Table, i: nat, snet: NetNumber): seq<Octet>
    requires i < |t|
  {
    if t[i].net != snet then Encode16(t[i].net) + EncodeNets(NetsOf(t[i].dnets)) else []
  }

  lemma RowEncoded(t: Table, i: nat, snet: NetNumber, before: seq<Octet>)
    requires i < |t|
    ensures before + EncodeNets(AdvertisedFrom(t, i, snet)) ==
            before + RowOctets(t, i, snet) + EncodeNets(AdvertisedFrom(t, i + 1, snet))
  {
    var row := if t[i].net != snet then [t[i].net] + NetsOf(t[i].dnets) else [];
    var rest := AdvertisedFrom(t, i + 1, snet);
    assert AdvertisedFrom(t, i, snet) == row + rest;
    assert EncodeNets(row) == RowOctets(t, i, snet) by {
      assert row != [] ==> row[1..] == NetsOf(t[i].dnets);
    }
    EncodeNetsConcat(row, rest);
    Regroup(before, EncodeNets(row), EncodeNets(rest));
  }

  lemma Regroup(a: seq<Octet>, b: seq<Octet>, c: seq<Octet>)
    ensures a + (b + c) == a + b + c
  {
  }

  /** The walk stops at the port itself before it looks into its list. */
  lemma {:induction false} FindKind(t: Table, i: nat, net: NetNumber)
    requires i <= |t|
    ensures var r := FindFrom(t, i, net); !r.NotFound? ==> (r.Direct? <==> t[r.index].net == net)
    decreases |t| - i
  {
    if i < |t| {
      FindKind(t, i + 1, net);
    }
  }

  lemma LearnNext(t: Table, snet: NetNumber, src: Mac, nets: seq<NetNumber>, k: nat)
    requires k < |nets|
    ensures LearnAll(t, snet, src, nets[k..]) == LearnAll(AddDnet(t, snet, nets[k], src), snet, src, nets[k + 1..])
  {
    assert nets[k..][1..] == nets[k + 1..];
  }

  lemma ListAt(payload: seq<Octet>, k: nat)
    requires 2 * k + 1 < |payload|
    ensures var nets := DecodeNets(WholeNumbers(payload));
            k < |nets| && nets[k] == Decode16(payload[2 * k], payload[2 * k + 1])
  {
    DecodeAt(WholeNumbers(payload), k);
  }

  lemma ListEnd(payload: seq<Octet>, k: nat)
    requires 2 * k <= |payload| <= 2 * k + 1
    ensures k == |DecodeNets(WholeNumbers(payload))| && (2 * k < |payload| <==> |payload| % 2 != 0)
  {
  }

  /** A route that is there already is not added again. */
  lemma AddTwice(t: Table, snet: NetNumber, net: NetNumber, mac: Mac)
    ensures AddDnet(AddDnet(t, snet, net, mac), snet, net, mac) == AddDnet(t, snet, net, mac)
  {
    if Find(t, net).NotFound? && !Find(t, snet).NotFound? {
      FindAppendRoute(t, Find(t, snet).index, Route(net, mac), 0, net);
    }
  }

  lemma CountUp(i: nat)
    ensures (i % 256 + 1) % 256 == (i + 1) % 256
  {
  }

  lemma NextEntry(before: seq<Octet>, t: Table, i: nat)
    requires i < |t|
    ensures before + AckEntries(t, i) == before + (Encode16(t[i].net) + [(i + 1) % 256, 0]) + AckEntries(t, i + 1)
  {
    Regroup(before, Encode16(t[i].net) + [(i + 1) % 256, 0], AckEntries(t, i + 1));
  }

  /** Learning changes no port, so the ports to send to stay the same. */
  lemma {:induction false} OtherPortsKept(t: Table, t': Table, i: nat, snet: NetNumber)
    requires |t| == |t'| && i <= |t| && forall j :: 0 <= j < |t| ==> t[j].net == t'[j].net
    ensures OtherPorts(t, i, snet) == OtherPorts(t', i, snet)
    decreases |t| - i
  {
    if i < |t| {
      assert t[i].net == t'[i].net;
      OtherPortsKept(t, t', i + 1, snet);
    }
  }

  class Router {
    var head: PortNode?
    // calls of datalink_send_pdu, in order
    var sent: seq<Send>

    // the value that the structure represents, and its nodes
    ghost var table: Table
    ghost var ports: seq<PortNode>
    ghost var repr: set<object>

    ghost predicate Valid()
      reads `head, `ports, `table, `repr, repr
    {
      this !in repr && Holds(head, ports, table, repr)
    }

    constructor ()
      ensures Valid() && fresh(repr) && table == [] && sent == []
    {
      head, sent, table, ports, repr := null, [], [], [], {};
    }

    /** Both levels are walked; the MAC is filled only for a learned network. */
    method DnetFind(net: NetNumber) returns (port: PortNode?, addr: Option<Mac>)
      requires Valid()
      ensures match Find(table, net)
              case NotFound => port == null && addr == None
              case Direct(i) => i < |ports| && port == ports[i] && addr == None
              case Via(i, mac) => i < |ports| && port == ports[i] && addr == Some(mac)
      ensures port != null ==> RowHolds(ports, table, repr, Find(table, net).index)
    {
      port, addr := head, None;
      ghost var i := 0;
      while port != null
        invariant 0 <= i <= |ports| && port == PortAt(ports, i) && addr == None
        invariant Find(table, net) == FindFrom(table, i, net)
        decreases |ports| - i
      {
        RowOf(ports, table, repr, |ports|, i);
        if net == port.net {
          return;
        }
        ghost var routes := table[i].dnets;
        var dnet := port.dnets;
        ghost var k := 0;
        while dnet != null
          invariant 0 <= k <= |routes| && dnet == DnetAt(port.chain, k)
          invariant FindRouteFrom(routes, 0, net) == FindRouteFrom(routes, k, net)
          decreases |routes| - k
        {
          if net == dnet.net {
            addr := Some(dnet.mac);
            return;
          }
          assert dnet.next == DnetAt(port.chain, k + 1);
          dnet, k := dnet.next, k + 1;
        }
        port, i := port.next, i + 1;
      }
    }

    method PortFind(snet: NetNumber) returns (found: bool, addr: Option<Mac>)
      requires Valid()
      ensures found == IsPort(table, snet)
      ensures found ==> exists i :: 0 <= i < |table| && table[i].net == snet && addr == Some(table[i].mac)
    {
      var port := head;
      found, addr := false, None;
      ghost var i := 0;
      while port != null
        invariant 0 <= i <= |ports| && port == PortAt(ports, i)
        invariant !found && forall j :: 0 <= j < i ==> table[j].net != snet
        decreases |ports| - i
      {
        RowOf(ports, table, repr, |ports|, i);
        if port.net == snet {
          return true, Some(port.mac);
        }
        port, i := port.next, i + 1;
      }
    }

    /** Hangs a new port at the end of the outer list. */
    method PortAdd(snet: NetNumber, addr: Mac)
      requires Valid()
      modifies this, repr
      ensures Valid() && fresh(repr - old(repr)) && sent == old(sent)
      ensures table == AddPort(old(table), snet, addr)
    {
      var port, _ := DnetFind(snet);
      if port == null {
        if head == null {
          var node := new PortNode(snet, addr, 0);
          head, ports, table, repr := node, [node], [Port(snet, addr, [])], repr + {node};
          assert RowHolds(ports, table, repr, 0);
          AllRows(ports, table, repr, 1);
        } else {
          var last := LastPort();
          var _ := AppendPort(last, snet, addr);
        }
      }
    }

    method LastPort() returns (last: PortNode)
      requires Valid() && head != null
      ensures |ports| > 0 && last == ports[|ports| - 1]
    {
      last := head;
      ghost var i := 0;
      RowOf(ports, table, repr, |ports|, 0);
      while last.next != null
        invariant 0 <= i < |ports| && last == ports[i] && last.next == PortAt(ports, i + 1)
        decreases |ports| - i
      {
        last, i := last.next, i + 1;
        RowOf(ports, table, repr, |ports|, i);
      }
    }

    method AppendPort(last: PortNode, snet: NetNumber, addr: Mac) returns (node: PortNode)
      requires Valid() && ports != [] && last == ports[|ports| - 1]
      modifies `ports, `table, `repr, last`next
      ensures Valid() && repr == old(repr) + {node} && fresh(node)
      ensures table == old(table) + [Port(snet, addr, [])]
    {
      node := new PortNode(snet, addr, |ports|);
      ghost var ps, t, r := ports, table, repr;
      ports, table, repr := ps + [node], t + [Port(snet, addr, [])], r + {node};
      LinkPort(last, node, head, ps, t, r);
    }

    /** First learned wins: nothing happens when `net` is known or `snet` is not. */
    method DnetAdd(snet: NetNumber, net: NetNumber, addr: Mac)
      requires Valid()
      modifies this, repr
      ensures Valid() && fresh(repr - old(repr)) && sent == old(sent)
      ensures table == AddDnet(old(table), snet, net, addr)
    {
      var known, _ := DnetFind(net);
      if known == null {
        var port, _ := DnetFind(snet);
        if port != null {
          var _ := AppendDnet(port, net, addr, Find(table, snet).index);
        }
      }
    }

    /** Appends a network to the list of one port. */
    method AppendDnet(port: PortNode, net: NetNumber, addr: Mac, ghost p: nat) returns (node: Dnet)
      requires Valid() && p < |ports| && port == ports[p]
      modifies `table, `repr, port`dnets, port`chain, port.chain`next
      ensures Valid() && repr == old(repr) + {node} && fresh(node)
      ensures table == AppendRoute(old(table), p, Route(net, addr))
    {
      node := new Dnet(net, addr, p, |table[p].dnets|);
      ghost var t, r := table, repr;
      assert Holds(head, ports, t, r);
      table, repr := AppendRoute(t, p, Route(net, addr)), r + {node};
      LinkDnet(node, port, p, head, ports, t, r);
    }

    // ---------------------------------------------------------------------------------
    // Sending
    // ---------------------------------------------------------------------------------

    method DatalinkSend(send: Send)
      modifies `sent
      ensures sent == old(sent) + [send]
    {
      sent := sent + [send];
    }

    /** The loop that sends to every port but one. */
    method SendToOthers(snet: NetNumber, npdu: Npdu)
      requires Valid()
      modifies `sent
      ensures sent == old(sent) + SendEach(OtherPorts(table, 0, snet), npdu)
    {
      var port := head;
      ghost var i := 0;
      while port != null
        invariant 0 <= i <= |ports| && port == PortAt(ports, i)
        invariant sent + SendEach(OtherPorts(table, i, snet), npdu) ==
                  old(sent) + SendEach(OtherPorts(table, 0, snet), npdu)
        decreases |ports| - i
      {
        RowOf(ports, table, repr, |ports|, i);
        if port.net != snet {
          SendEachFirst(port.net, OtherPorts(table, i + 1, snet), npdu);
          DatalinkSend(Send(port.net, [], npdu));
        }
        port, i := port.next, i + 1;
      }
    }

    /** Collects the networks of every port but one, number by number, behind the header. */
    method FullList(snet: NetNumber) returns (payload: seq<Octet>)
      requires Valid()
      ensures payload == EncodeNets(Advertised(table, snet))
    {
      payload := [];
      var port := head;
      ghost var i := 0;
      while port != null
        invariant 0 <= i <= |ports| && port == PortAt(ports, i)
        invariant payload + EncodeNets(AdvertisedFrom(table, i, snet)) == EncodeNets(Advertised(table, snet))
        decreases |ports| - i
      {
        RowOf(ports, table, repr, |ports|, i);
        RowEncoded(table, i, snet, payload);
        if port.net != snet {
          var list := port.EncodeList(table[i].dnets);
          payload := payload + (Encode16(port.net) + list);
        } else {
          payload := payload + [];
        }
        port, i := port.next, i + 1;
      }
    }

    method SendIAmRouterToNetwork(snet: NetNumber, net: NetNumber)
      requires Valid()
      modifies `sent
      ensures sent == old(sent) + [Announce(table, snet, net)]
    {
      var payload: seq<Octet>;
      if net != 0 {
        payload := Encode16(net);
        assert payload == EncodeNets([net]);
      } else {
        payload := FullList(snet);
      }
      DatalinkSend(Send(snet, [], ControlNpdu(I_AM_ROUTER, EVERYWHERE, payload)));
    }

    // ---------------------------------------------------------------------------------
    // Handlers
    // ---------------------------------------------------------------------------------

    method WhoIsRouterToNetworkHandler(snet: NetNumber, payload: seq<Octet>)
      requires Valid()
      modifies `sent
      ensures sent == old(sent) + AnswerWhoIs(table, snet, payload)
    {
      if |payload| >= 2 {
        var network := Decode16(payload[0], payload[1]);
        var port, _ := DnetFind(network);
        if port != null {
          if port.net != snet {
            SendIAmRouterToNetwork(snet, network);
          }
        } else {
          SendToOthers(snet, WhoIsNpdu(network));
        }
      } else {
        SendIAmRouterToNetwork(snet, 0);
      }
    }

    /** Learns the numbers of an I-Am-Router-To-Network one after the other. An odd octet at the end is a fault: with it
        the loop would go on through memory. */
    method IAmRouterToNetworkHandler(snet: NetNumber, src: Mac, payload: seq<Octet>) returns (fault: bool)
      requires Valid()
      modifies this, repr
      ensures Valid() && fresh(repr - old(repr)) && sent == old(sent)
      ensures table == LearnAll(old(table), snet, src, DecodeNets(WholeNumbers(payload)))
      ensures fault == (|payload| % 2 != 0)
    {
      ghost var nets := DecodeNets(WholeNumbers(payload));
      ghost var learned := LearnAll(table, snet, src, nets);
      assert nets[0..] == nets;
      var offset := 0;
      ghost var k := 0;
      while offset + 1 < |payload|
        invariant offset == 2 * k <= |payload| && k <= |nets|
        invariant Valid() && fresh(repr - old(repr)) && sent == old(sent)
        invariant LearnAll(table, snet, src, nets[k..]) == learned
      {
        ListAt(payload, k);
        LearnOne(snet, src, Decode16(payload[offset], payload[offset + 1]), nets, k);
        offset, k := offset + 2, k + 1;
      }
      ListEnd(payload, k);
      assert nets[k..] == [];
      fault := offset < |payload|;
    }

    /** Adds the k-th network of a list, after which those behind it are left to add. */
    method LearnOne(snet: NetNumber, src: Mac, net: NetNumber, ghost nets: seq<NetNumber>, ghost k: nat)
      requires Valid() && k < |nets| && net == nets[k]
      modifies this, repr
      ensures Valid() && fresh(repr - old(repr)) && sent == old(sent)
      ensures LearnAll(table, snet, src, nets[k + 1..]) == LearnAll(old(table), snet, src, nets[k..])
    {
      LearnNext(table, snet, src, nets, k);
      DnetAdd(snet, net, src);
    }

    /** The acknowledgement's payload: how many ports there are, in 8 bits, and an entry for each. */
    method AckList() returns (payload: seq<Octet>)
      requires Valid()
      ensures payload == AckPayload(table)
    {
      var count: int := 0;
      var port := head;
      ghost var i := 0;
      while port != null
        invariant 0 <= i <= |ports| && port == PortAt(ports, i) && count == i % 256
        decreases |ports| - i
      {
        RowOf(ports, table, repr, |ports|, i);
        CountUp(i);
        count := (count + 1) % 256;
        port, i := port.next, i + 1;
      }
      payload := [count];
      if count > 0 {
        var entries := AckEntryList();
        payload := payload + entries;
      }
    }

    method AckEntryList() returns (entries: seq<Octet>)
      requires Valid()
      ensures entries == AckEntries(table, 0)
    {
      entries := [];
      var port := head;
      var portId: int := 1;
      ghost var i := 0;
      while port != null
        invariant 0 <= i <= |ports| && port == PortAt(ports, i) && portId == (i + 1) % 256
        invariant entries + AckEntries(table, i) == AckEntries(table, 0)
        decreases |ports| - i
      {
        RowOf(ports, table, repr, |ports|, i);
        NextEntry(entries, table, i);
        entries := entries + (Encode16(port.net) + [portId, 0]);
        CountUp(i + 1);
        portId := (portId + 1) % 256;
        port, i := port.next, i + 1;
      }
    }

    /** The Initialize-Routing-Table case: the loop over the list decodes its first entry on every pass. */
    method InitializeRoutingTableHandler(snet: NetNumber, src: Mac, payload: seq<Octet>, uninit: Uninit)
      requires Valid()
      modifies this, repr
      ensures Valid() && fresh(repr - old(repr))
      ensures var r := HandleInitTable(old(table), snet, src, payload, uninit);
              table == r.table && sent == old(sent) + r.sends
    {
      if |payload| > 0 {
        if payload[0] != 0 {
          var net := Decode16(OctetAt(payload, uninit, 1), OctetAt(payload, uninit, 2));
          AddRepeatedly(snet, net, src, payload[0]);
        }
        var list := AckList();
        DatalinkSend(Send(snet % 256, [], ControlNpdu(INIT_RT_TABLE_ACK, EVERYWHERE, list)));
      }
    }

    method AddRepeatedly(snet: NetNumber, net: NetNumber, src: Mac, times: nat)
      requires Valid() && times > 0
      modifies this, repr
      ensures Valid() && fresh(repr - old(repr)) && sent == old(sent)
      ensures table == AddDnet(old(table), snet, net, src)
    {
      var left := times;
      while left > 0
        invariant Valid() && fresh(repr - old(repr)) && sent == old(sent) && left <= times
        invariant table == if left == times then old(table) else AddDnet(old(table), snet, net, src)
      {
        AddTwice(old(table), snet, net, src);
        DnetAdd(snet, net, src);
        left := left - 1;
      }
    }

    method NetworkControlHandler(snet: NetNumber, src: Mac, npdu: Npdu, uninit: Uninit) returns (fault: bool)
      requires Valid() && npdu.kind.Control?
      modifies this, repr
      ensures Valid() && fresh(repr - old(repr))
      ensures var r := HandleControl(old(table), snet, src, npdu, uninit);
              table == r.table && sent == old(sent) + r.sends && fault == r.fault
    {
      fault := false;
      var m := npdu.kind.messageType;
      if m == WHO_IS_ROUTER {
        WhoIsRouterToNetworkHandler(snet, npdu.payload);
      } else if m == I_AM_ROUTER {
        fault := IAmRouterToNetworkHandler(snet, src, npdu.payload);
      } else if m == INIT_RT_TABLE {
        InitializeRoutingTableHandler(snet, src, npdu.payload, uninit);
      } else if m > LAST_KNOWN_MESSAGE {
        DatalinkSend(Send(snet, src, ControlNpdu(REJECT_MESSAGE, npdu.src, [UNKNOWN_MESSAGE_TYPE])));
      }
    }

    /** Stamps or keeps the source, and learns the way back to a routed one. */
    method RoutedSrcAddress(snet: NetNumber, mac: Mac, src: NetAddr) returns (routed: NetAddr)
      requires Valid() && IsPort(table, snet)
      modifies this, repr
      ensures Valid() && fresh(repr - old(repr)) && sent == old(sent)
      ensures (table, routed) == RoutedSource(old(table), snet, mac, src)
    {
      var found, _ := PortFind(snet);
      assert found;
      if src.net != 0 {
        DnetAdd(snet, src.net, mac);
        routed := src;
      } else {
        routed := NetAddr(snet, mac);
      }
    }

    /** Case "global broadcast": every port but the one of arrival. */
    method RouteBroadcast(snet: NetNumber, mac: Mac, npdu: Npdu)
      requires Valid() && IsPort(table, snet)
      modifies this, repr
      ensures Valid() && fresh(repr - old(repr))
      ensures var (t, src) := RoutedSource(old(table), snet, mac, npdu.src);
              var out := OnWire(npdu.(src := src, hopCount := DecrementHop(npdu.hopCount), dest := EVERYWHERE));
              table == t && sent == old(sent) + SendEach(OtherPorts(old(table), 0, snet), out)
    {
      var src := RoutedSrcAddress(snet, mac, npdu.src);
      OtherPortsKept(old(table), table, 0, snet);
      SendToOthers(snet, OnWire(npdu.(src := src, hopCount := DecrementHop(npdu.hopCount), dest := EVERYWHERE)));
    }

    /** Stamps the source and sends one NPDU on the network `port`. */
    method RouteUnicast(snet: NetNumber, mac: Mac, npdu: Npdu, port: NetNumber, da: Mac, dest: NetAddr)
      requires Valid() && IsPort(table, snet)
      modifies this, repr
      ensures Valid() && fresh(repr - old(repr))
      ensures var (t, src) := RoutedSource(old(table), snet, mac, npdu.src);
              var out := OnWire(npdu.(src := src, hopCount := DecrementHop(npdu.hopCount), dest := dest));
              table == t && sent == old(sent) + [Send(port, da, out)]
    {
      var src := RoutedSrcAddress(snet, mac, npdu.src);
      DatalinkSend(Send(port, da, OnWire(npdu.(src := src, hopCount := DecrementHop(npdu.hopCount), dest := dest))));
    }

    /** `uninit.dest` is what the network part of the unset `remote_dest` happens to hold. */
    method RoutedApduHandler(snet: NetNumber, mac: Mac, npdu: Npdu, uninit: Uninit) returns (fault: bool)
      requires Valid() && IsPort(table, snet)
      modifies this, repr
      ensures Valid() && fresh(repr - old(repr))
      ensures var r := RouteApdu(old(table), snet, mac, npdu, uninit);
              table == r.table && sent == old(sent) + r.sends && fault == r.fault
    {
      fault := false;
      if npdu.dest.net == BROADCAST_NETWORK {
        RouteBroadcast(snet, mac, npdu);
        return;
      }
      var port, remote := DnetFind(npdu.dest.net);
      FindKind(table, 0, npdu.dest.net);
      if port != null {
        ghost var i := Find(table, npdu.dest.net).index;
        if port.net == npdu.dest.net {
          assert Find(table, npdu.dest.net) == Direct(i);
          RouteUnicast(snet, mac, npdu, port.net, npdu.dest.adr, NO_ADDR);
        } else {
          assert Find(table, npdu.dest.net) == Via(i, remote.value);
          RouteUnicast(snet, mac, npdu, port.net, remote.value, uninit.dest);
        }
      } else if npdu.dest.net != 0 {
        var _ := RoutedSrcAddress(snet, mac, npdu.src);
        fault := true;
      }
    }

    method RoutingNpduHandler(snet: NetNumber, mac: Mac, npdu: Npdu, uninit: Uninit) returns (fault: bool)
      requires Valid() && IsPort(table, snet)
      modifies this, repr
      ensures Valid() && fresh(repr - old(repr))
      ensures var r := Handle(old(table), snet, mac, npdu, uninit);
              table == r.table && sent == old(sent) + r.sends && fault == r.fault
    {
      fault := false;
      if npdu.version == 1 {
        if npdu.kind.Control? {
          if npdu.dest.net == 0 || npdu.dest.net == BROADCAST_NETWORK {
            fault := NetworkControlHandler(snet, mac, npdu, uninit);
          }
        } else if npdu.dest.net == 0 || npdu.dest.net == BROADCAST_NETWORK || npdu.hopCount > 1 {
          if !(npdu.dest.net == BROADCAST_NETWORK && ConfirmedRequest(npdu, uninit)) {
            fault := RoutedApduHandler(snet, mac, npdu, uninit);
          }
        }
      }
    }

    /** A packet from a data link: the octets are decoded and handled. `held` is the network part of the source address
        as the data link fills it in. */
    method ReceivePacket(snet: NetNumber, mac: Mac, held: NetAddr, buffer: seq<Octet>, pduLen: nat, uninit: Uninit)
      returns (fault: bool)
      requires Valid() && IsPort(table, snet) && MAX_NPDU + 3 <= |buffer| && pduLen <= |buffer|
      modifies this, repr
      ensures Valid() && fresh(repr - old(repr))
      ensures var r := Receive(old(table), snet, mac, held, buffer, pduLen, uninit);
              table == r.table && sent == old(sent) + r.sends && fault == r.fault
    {
      fault := false;
      if buffer[0] == 1 {
        match DecodeHeader(buffer, MAX_NPDU, held) {
          case None =>
          case Some((n, offset)) =>
            if offset <= pduLen {
              fault := RoutingNpduHandler(snet, mac, n.(payload := buffer[offset..pduLen]),
                Stale(uninit, buffer, pduLen));
            } else if n.kind.Control? {
              if n.kind.messageType == I_AM_ROUTER && ForEveryRouter(n.dest) {
                fault := true;
              } else {
                fault := RoutingNpduHandler(snet, mac, n.(payload := buffer[offset..]), uninit);
              }
            }
        }
      }
    }
  }
}
