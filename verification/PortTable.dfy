/** The threaded router's table: the same two-level list as the simple routers', but a network is added to a given
    port and de-duplicated only there, so the first port in the list that knows a network wins. */
module PortTable {
  import opened Bacnet
  import opened RoutingTable

  /** find_dnet: a broadcast needs no search and gives the head of the list. */
  function PortFor(t: Table, net: NetNumber): Lookup {
    if net == BROADCAST_NETWORK then if t == [] then NotFound else Direct(0)
    else Find(t, net)
  }

  /** add_dnet on the port at position p. */
  function AddTo(t: Table, p: nat, net: NetNumber, mac: Mac): (t': Table)
    requires p < |t|
    ensures |t'| == |t|
  {
    if FindRouteFrom(t[p].dnets, 0, net).Some? then t else AppendRoute(t, p, Route(net, mac))
  }

  /** An I-Am-Router-To-Network heard on port p: every listed network is added to it. */
  function AddAll(t: Table, p: nat, nets: seq<NetNumber>, mac: Mac): (t': Table)
    requires p < |t|
    ensures |t'| == |t|
    decreases |nets|
  {
    if nets == [] then t
    else AddTo(AddAll(t, p, nets[..|nets| - 1], mac), p, nets[|nets| - 1], mac)
  }

  // ---------------------------------------------------------------------------------
  // What a lookup means, and what an addition does to it
  // ---------------------------------------------------------------------------------

  ghost predicate Offers(p: Port, net: NetNumber) {
    p.net == net || exists k :: 0 <= k < |p.dnets| && p.dnets[k].net == net
  }

  lemma {:induction false} FirstPort(t: Table, i: nat, net: NetNumber)
    requires i <= |t|
    ensures match FindFrom(t, i, net)
      case NotFound => forall j :: i <= j < |t| ==> !Offers(t[j], net)
      case Direct(p) => t[p].net == net && forall j :: i <= j < p ==> !Offers(t[j], net)
      case Via(p, mac) =>
        t[p].net != net && Route(net, mac) in t[p].dnets && forall j :: i <= j < p ==> !Offers(t[j], net)
    decreases |t| - i
  {
    if i < |t| {
      FindRouteHits(t[i].dnets, 0, net);
      FirstPort(t, i + 1, net);
    }
  }

  /** find_dnet gives the first port in the list that is attached to the network or has learned it, and nothing if
      there is none. */
  lemma FindDnetIsFirst(t: Table, net: NetNumber)
    requires net != BROADCAST_NETWORK
    ensures PortFor(t, net).NotFound? <==> forall j :: 0 <= j < |t| ==> !Offers(t[j], net)
    ensures !PortFor(t, net).NotFound? ==>
              var p := PortFor(t, net).index;
              p < |t| && Offers(t[p], net) && forall j :: 0 <= j < p ==> !Offers(t[j], net)
  {
    FirstPort(t, 0, net);
  }

  /** What it gives in full: a broadcast needs no search and goes to the head of the list; else the answer says
      whether the port is attached to the network, and if it is not, with which MAC the port learned it. */
  lemma FindDnetGives(t: Table, net: NetNumber)
    ensures net == 0xFFFF ==> PortFor(t, net) == if t == [] then NotFound else Direct(0)
    ensures net != 0xFFFF ==>
              match PortFor(t, net)
              case NotFound => true
              case Direct(p) => t[p].net == net
              case Via(p, mac) => t[p].net != net && Route(net, mac) in t[p].dnets
  {
    FirstPort(t, 0, net);
  }

  /** Adding a network to port p re-routes that network, and does so exactly when no port up to p knew it; every other
      lookup is as before. */
  lemma AddToReroutes(t: Table, p: nat, net: NetNumber, mac: Mac, m: NetNumber)
    requires p < |t|
    ensures PortFor(AddTo(t, p, net, mac), m) ==
            if m == net && m != BROADCAST_NETWORK && (Find(t, m).NotFound? || p < Find(t, m).index) then Via(p, mac)
            else PortFor(t, m)
  {
    FindAppendRoute(t, p, Route(net, mac), 0, m);
    FirstPort(t, 0, m);
    FindRouteHits(t[p].dnets, 0, net);
  }

  /** A whole I-Am list does this for every network on it, and touches no other route. */
  lemma {:induction false} AddAllReroutes(t: Table, p: nat, nets: seq<NetNumber>, mac: Mac, m: NetNumber)
    requires p < |t|
    ensures PortFor(AddAll(t, p, nets, mac), m) ==
            if m in nets && m != BROADCAST_NETWORK && (Find(t, m).NotFound? || p < Find(t, m).index) then Via(p, mac)
            else PortFor(t, m)
    decreases |nets|
  {
    if nets != [] {
      var front, last := nets[..|nets| - 1], nets[|nets| - 1];
      assert nets == front + [last];
      AddAllReroutes(t, p, front, mac, m);
      AddToReroutes(AddAll(t, p, front, mac), p, last, mac, m);
    }
  }

  // ---------------------------------------------------------------------------------
  // Every sequence of additions
  // ---------------------------------------------------------------------------------

  datatype Addition = Addition(port: nat, net: NetNumber, mac: Mac)

  ghost predicate Fits(t: Table, adds: seq<Addition>) {
    forall k :: 0 <= k < |adds| ==> adds[k].port < |t|
  }

  ghost function Run(t: Table, adds: seq<Addition>): (t': Table)
    requires Fits(t, adds)
    ensures |t'| == |t|
    decreases |adds|
  {
    if adds == [] then t else Run(AddTo(t, adds[0].port, adds[0].net, adds[0].mac), adds[1..])
  }

  /** How often, along the way, the answer for m changes. */
  ghost function RouteChanges(t: Table, adds: seq<Addition>, m: NetNumber): nat
    requires Fits(t, adds)
    decreases |adds|
  {
    if adds == [] then 0
    else
      var t' := AddTo(t, adds[0].port, adds[0].net, adds[0].mac);
      (if PortFor(t', m) == PortFor(t, m) then 0 else 1) + RouteChanges(t', adds[1..], m)
  }

  /** The list position of the port for m; one past the end when m is unknown. */
  function Position(t: Table, m: NetNumber): (p: nat)
    ensures p <= |t|
  {
    if PortFor(t, m).NotFound? then |t| else PortFor(t, m).index
  }

  /** Reachable networks stay reachable, the port for a network never moves later in the list, its next hop is fixed
      while the port is, and every change moves the port strictly earlier. */
  lemma {:induction false} RoutesMoveEarlier(t: Table, adds: seq<Addition>, m: NetNumber)
    requires Fits(t, adds)
    ensures !PortFor(t, m).NotFound? ==> !PortFor(Run(t, adds), m).NotFound?
    ensures Position(Run(t, adds), m) + RouteChanges(t, adds, m) <= Position(t, m)
    ensures Position(Run(t, adds), m) == Position(t, m) ==> PortFor(Run(t, adds), m) == PortFor(t, m)
    decreases |adds|
  {
    if adds != [] {
      var t' := AddTo(t, adds[0].port, adds[0].net, adds[0].mac);
      AddToReroutes(t, adds[0].port, adds[0].net, adds[0].mac, m);
      RoutesMoveEarlier(t', adds[1..], m);
    }
  }

  /** A known route changes at most port_count - 1 times. */
  lemma RouteChangesBounded(t: Table, adds: seq<Addition>, m: NetNumber)
    requires Fits(t, adds) && !PortFor(t, m).NotFound?
    ensures RouteChanges(t, adds, m) <= |t| - 1
  {
    RoutesMoveEarlier(t, adds, m);
  }

  /** The route to m changes as often as it can when the ports hear of it last to first. */
  function LastToFirst(p: nat, m: NetNumber): (adds: seq<Addition>)
    ensures |adds| == p
  {
    if p == 0 then [] else [Addition(p - 1, m, [])] + LastToFirst(p - 1, m)
  }

  /** The bound is attained: starting with the route on port p, p further additions make p changes. */
  lemma {:induction false} RouteChangesAttained(t: Table, p: nat, m: NetNumber)
    requires p <= |t| && Position(t, m) == p && m != BROADCAST_NETWORK
    ensures Fits(t, LastToFirst(p, m)) && RouteChanges(t, LastToFirst(p, m), m) == p
    decreases p
  {
    if p > 0 {
      var adds := LastToFirst(p, m);
      assert adds[0] == Addition(p - 1, m, []) && adds[1..] == LastToFirst(p - 1, m);
      AddToReroutes(t, p - 1, m, [], m);
      RouteChangesAttained(AddTo(t, p - 1, m, []), p - 1, m);
    }
  }

  /** No port ever lists a learned network twice. */
  lemma {:induction false} ListsStayDistinct(t: Table, adds: seq<Addition>)
    requires Fits(t, adds) && forall i :: 0 <= i < |t| ==> NoRepeats(NetsOf(t[i].dnets))
    ensures forall i :: 0 <= i < |t| ==> NoRepeats(NetsOf(Run(t, adds)[i].dnets))
    decreases |adds|
  {
    if adds != [] {
      var p := adds[0].port;
      FindRouteHits(t[p].dnets, 0, adds[0].net);
      var t' := AddTo(t, p, adds[0].net, adds[0].mac);
      assert NoRepeats(NetsOf(t'[p].dnets));
      ListsStayDistinct(t', adds[1..]);
    }
  }

  // ---------------------------------------------------------------------------------
  // A free network number
  // ---------------------------------------------------------------------------------

  ghost predicate Used(t: Table, n: int) {
    exists j :: 0 <= j < |t| && t[j].net == n
  }

  /** The numbers in the order in which the scan tries them: 1, 2, ..., 65535 and then 0. */
  function Tried(k: nat): NetNumber { k % 65536 }

  /** The scan's answer: the first unused number in the order in which they are tried. */
  ghost predicate FirstFree(t: Table, r: NetNumber) {
    !Used(t, r) && forall n :: 1 <= n < (if r == 0 then 65536 else r) ==> Used(t, n)
  }

  /** Pigeonhole: with fewer than 65535 ports the answer is the least unused positive number, at most one above the
      number of ports. */
  lemma FreeNumberSmall(t: Table, r: NetNumber)
    requires FirstFree(t, r) && |t| < 65535
    ensures 1 <= r <= |t| + 1
  {
    var bound := if r == 0 then 65536 else r;
    UsedNumbers(t, bound - 1);
  }

  lemma UsedNumbers(t: Table, k: nat)
    requires forall n :: 1 <= n <= k ==> Used(t, n)
    ensures k <= |t|
  {
    Numbers(t, k);
    SubsetSize(OneTo(k), NetSet(t));
  }

  function OneTo(k: nat): (s: set<int>)
    ensures |s| == k && forall x :: x in s ==> 1 <= x <= k
  {
    if k == 0 then {} else OneTo(k - 1) + {k}
  }

  function NetSet(t: Table): (s: set<int>)
    ensures |s| <= |t|
  {
    if t == [] then {} else NetSet(t[..|t| - 1]) + {t[|t| - 1].net}
  }

  lemma {:induction false} InNetSet(t: Table, j: nat)
    requires j < |t|
    ensures t[j].net in NetSet(t)
  {
    if j < |t| - 1 {
      InNetSet(t[..|t| - 1], j);
    }
  }

  lemma {:induction false} Numbers(t: Table, k: nat)
    requires forall n :: 1 <= n <= k ==> Used(t, n)
    ensures OneTo(k) <= NetSet(t)
  {
    if k > 0 {
      Numbers(t, k - 1);
      UsedInNetSet(t, k);
    }
  }

  lemma UsedInNetSet(t: Table, k: int)
    requires Used(t, k)
    ensures k in NetSet(t)
  {
    var j :| 0 <= j < |t| && t[j].net == k;
    InNetSet(t, j);
  }

  /** The scan after so many passes through its loop: the port it looks at and the number it tries. */
  function Scan(t: Table, steps: nat): (s: (nat, NetNumber))
    ensures s.0 <= |t|
  {
    if steps == 0 then (0, 1)
    else
      var (port, i) := Scan(t, steps - 1);
      if port == |t| then (port, i)
      else if t[port].net == i then (0, (i + 1) % 65536)
      else (port + 1, i)
  }

  /** When all 65536 numbers are taken the scan goes on for ever. */
  lemma {:induction false} ScanNeverEnds(t: Table, steps: nat)
    requires forall n :: 0 <= n < 65536 ==> Used(t, n)
    ensures Scan(t, steps).0 < |t|
    ensures forall j :: 0 <= j < Scan(t, steps).0 ==> t[j].net != Scan(t, steps).1
  {
    if steps == 0 {
      assert Used(t, 1);
    } else {
      ScanNeverEnds(t, steps - 1);
      assert Used(t, Scan(t, steps).1);
    }
  }

  // ---------------------------------------------------------------------------------
  // The operations, as they walk and change the table
  // ---------------------------------------------------------------------------------

  class Ports {
    var table: Table

    constructor (t: Table)
      ensures table == t
    {
      table := t;
    }

    method FindDnet(net: NetNumber) returns (r: Lookup)
      ensures r == PortFor(table, net)
    {
      if net == BROADCAST_NETWORK {
        return if |table| == 0 then NotFound else Direct(0);
      }
      var port := 0;
      while port < |table|
        invariant port <= |table| && Find(table, net) == FindFrom(table, port, net)
      {
        if table[port].net == net {
          return Direct(port);
        }
        var ds := table[port].dnets;
        var k := 0;
        while k < |ds|
          invariant k <= |ds| && FindRouteFrom(ds, 0, net) == FindRouteFrom(ds, k, net)
        {
          if ds[k].net == net {
            return Via(port, ds[k].mac);
          }
          k := k + 1;
        }
        port := port + 1;
      }
      return NotFound;
    }

    method AddDnet(p: nat, net: NetNumber, mac: Mac)
      requires p < |table|
      modifies this
      ensures table == AddTo(old(table), p, net, mac)
    {
      var ds := table[p].dnets;
      var k := 0;
      while k < |ds|
        invariant k <= |ds| && FindRouteFrom(ds, 0, net) == FindRouteFrom(ds, k, net)
        invariant table == old(table)
      {
        if ds[k].net == net {
          return;
        }
        k := k + 1;
      }
      table := table[p := table[p].(dnets := ds + [Route(net, mac)])];
    }

    /** The I-Am-Router-To-Network case of process_network_message; an odd last octet is ignored. */
    method LearnNets(p: nat, octets: seq<Octet>, mac: Mac)
      requires p < |table|
      modifies this
      ensures table == AddAll(old(table), p, DecodeNets(octets[..|octets| / 2 * 2]), mac)
    {
      ghost var nets := DecodeNets(octets[..|octets| / 2 * 2]);
      var i := 0;
      while i < |octets| / 2
        invariant i <= |octets| / 2 && |table| == |old(table)|
        invariant table == AddAll(old(table), p, nets[..i], mac)
      {
        DecodeAt(octets[..|octets| / 2 * 2], i);
        assert nets[..i + 1][..i] == nets[..i];
        AddDnet(p, Decode16(octets[2 * i], octets[2 * i + 1]), mac);
        i := i + 1;
      }
      assert nets[..i] == nets;
    }

    /** get_next_free_dnet: the walk starts over at the head whenever the number it tries is taken. */
    method GetNextFreeDnet() returns (i: NetNumber)
      requires exists n: NetNumber :: !Used(table, n)
      ensures FirstFree(table, i)
      ensures |table| < 65535 ==> 1 <= i <= |table| + 1
    {
      ghost var free: NetNumber :| !Used(table, free);
      ghost var k := 1;
      var port := 0;
      i := 1;
      while port < |table|
        invariant 0 <= port <= |table| && 1 <= k <= 65536 && i == Tried(k)
        invariant forall n :: 1 <= n < k ==> Used(table, n)
        invariant forall j :: 0 <= j < port ==> table[j].net != i
        decreases 65536 - k, |table| - port
      {
        if table[port].net == i {
          assert Used(table, i);
          assert k < 65536;
          port := 0;
          i := (i + 1) % 65536;
          k := k + 1;
        } else {
          port := port + 1;
        }
      }
      if |table| < 65535 {
        FreeNumberSmall(table, i);
      }
    }
  }
}
