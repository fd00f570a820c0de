/** The router table as a value: what `Router_Table_Head` and its two levels of linked
    lists hold, what looking up and adding do to it, and the "first learned wins" route
    map that this refines. */
module RoutingTable {
  import opened Bacnet

  /** A learned network and the MAC of the next router towards it. */
  datatype Route = Route(net: NetNumber, mac: Mac)

  /** A directly connected port and the networks learned through it. */
  datatype Port = Port(net: NetNumber, mac: Mac, dnets: seq<Route>)

  type Table = seq<Port>

  datatype Lookup = NotFound | Direct(index: nat) | Via(index: nat, mac: Mac)

  /** Walk of one port's list of learned networks, starting at position k. */
  function FindRouteFrom(ds: seq<Route>, k: nat, net: NetNumber): Option<Mac>
    requires k <= |ds|
    decreases |ds| - k
  {
    if k == |ds| then None
    else if ds[k].net == net then Some(ds[k].mac)
    else FindRouteFrom(ds, k + 1, net)
  }

  function NetsOf(ds: seq<Route>): (nets: seq<NetNumber>)
    ensures |nets| == |ds| && forall k :: 0 <= k < |ds| ==> nets[k] == ds[k].net
  {
    seq(|ds|, k requires 0 <= k < |ds| => ds[k].net)
  }

  /** Walk of the port list, starting at position i. */
  function FindFrom(t: Table, i: nat, net: NetNumber): (r: Lookup)
    requires i <= |t|
    ensures !r.NotFound? ==> i <= r.index < |t|
    decreases |t| - i
  {
    if i == |t| then NotFound
    else if t[i].net == net then Direct(i)
    else match FindRouteFrom(t[i].dnets, 0, net)
      case Some(mac) => Via(i, mac)
      case None => FindFrom(t, i + 1, net)
  }

  function Find(t: Table, net: NetNumber): (r: Lookup)
    ensures !r.NotFound? ==> r.index < |t|
  {
    FindFrom(t, 0, net)
  }

  function AddPort(t: Table, snet: NetNumber, mac: Mac): Table {
    if Find(t, snet).NotFound? then t + [Port(snet, mac, [])] else t
  }

  function AppendRoute(t: Table, p: nat, r: Route): (t': Table)
    requires p < |t|
    ensures |t'| == |t|
  {
    t[p := t[p].(dnets := t[p].dnets + [r])]
  }

  /** `snet` is looked up like any other number, so it may itself be a learned network. */
  function AddDnet(t: Table, snet: NetNumber, net: NetNumber, mac: Mac): (t': Table)
    ensures |t'| == |t|
  {
    if !Find(t, net).NotFound? || Find(t, snet).NotFound? then t
    else AppendRoute(t, Find(t, snet).index, Route(net, mac))
  }

  // ---------------------------------------------------------------------------------
  // The abstract route map
  // ---------------------------------------------------------------------------------

  /** How a network is reached: it is attached, or through the router with MAC `mac` on
      the attached network `port`. */
  datatype Hop = Attached | NextHop(port: NetNumber, mac: Mac)

  type RouteMap = map<NetNumber, Hop>

  predicate Knows(t: Table, net: NetNumber) { !Find(t, net).NotFound? }

  function HopTo(t: Table, net: NetNumber): Hop
    requires Knows(t, net)
  {
    match Find(t, net)
    case Direct(_) => Attached
    case Via(i, mac) => NextHop(t[i].net, mac)
  }

  function Routes(t: Table): RouteMap {
    map n: NetNumber | 0 <= n < 65536 && Knows(t, n) :: HopTo(t, n)
  }

  /** The attached network through which a known network is reached. */
  function PortOf(m: RouteMap, net: NetNumber): NetNumber
    requires net in m
  {
    match m[net]
    case Attached => net
    case NextHop(port, _) => port
  }

  function Learn(m: RouteMap, snet: NetNumber, net: NetNumber, mac: Mac): RouteMap {
    if net in m || snet !in m then m else m[net := NextHop(PortOf(m, snet), mac)]
  }

  function Attach(m: RouteMap, snet: NetNumber): RouteMap {
    if snet in m then m else m[snet := Attached]
  }

  lemma {:induction false} FindRouteAppend(ds: seq<Route>, r: Route, k: nat, net: NetNumber)
    requires k <= |ds|
    ensures FindRouteFrom(ds + [r], k, net) ==
            if FindRouteFrom(ds, k, net).Some? then FindRouteFrom(ds, k, net)
            else if r.net == net then Some(r.mac) else None
    decreases |ds| - k
  {
    if k < |ds| {
      FindRouteAppend(ds, r, k + 1, net);
    }
  }

  /** Appending a route to row p answers the lookup of its network exactly when no row up to p did, and changes no
      other lookup. */
  lemma {:induction false} FindAppendRoute(t: Table, p: nat, r: Route, i: nat, m: NetNumber)
    requires i <= |t| && p < |t|
    ensures FindFrom(AppendRoute(t, p, r), i, m) ==
            if m == r.net && i <= p && (FindFrom(t, i, m).NotFound? || p < FindFrom(t, i, m).index) then Via(p, r.mac)
            else FindFrom(t, i, m)
    decreases |t| - i
  {
    if i < |t| {
      FindAppendRoute(t, p, r, i + 1, m);
      FindRouteAppend(t[p].dnets, r, 0, m);
    }
  }

  lemma {:induction false} FindAppendPort(t: Table, q: Port, i: nat, net: NetNumber)
    requires i <= |t| && q.dnets == []
    ensures FindFrom(t + [q], i, net) ==
            if !FindFrom(t, i, net).NotFound? then FindFrom(t, i, net)
            else if net == q.net then Direct(|t|) else NotFound
    decreases |t| - i
  {
    if i < |t| {
      FindAppendPort(t, q, i + 1, net);
    } else {
      assert FindFrom(t + [q], |t| + 1, net) == NotFound;
    }
  }

  lemma {:induction false} FindDirect(t: Table, i: nat, net: NetNumber)
    requires i <= |t|
    ensures FindFrom(t, i, net).Direct? ==> t[FindFrom(t, i, net).index].net == net
    decreases |t| - i
  {
    if i < |t| {
      FindDirect(t, i + 1, net);
    }
  }

  /** Learning a route refines the first-learned-wins map, for every table. */
  lemma AddDnetRefinesLearn(t: Table, snet: NetNumber, net: NetNumber, mac: Mac)
    ensures Routes(AddDnet(t, snet, net, mac)) == Learn(Routes(t), snet, net, mac)
  {
    var t' := AddDnet(t, snet, net, mac);
    if !Knows(t, net) && Knows(t, snet) {
      var p := Find(t, snet).index;
      FindDirect(t, 0, snet);
      forall n: NetNumber
        ensures Find(t', n) == if n == net then Via(p, mac) else Find(t, n)
      {
        FindAppendRoute(t, p, Route(net, mac), 0, n);
      }
      assert forall i :: 0 <= i < |t| ==> t'[i].net == t[i].net;
      assert t[p].net == PortOf(Routes(t), snet);
    }
  }

  lemma AddPortRefinesAttach(t: Table, snet: NetNumber, mac: Mac)
    ensures Routes(AddPort(t, snet, mac)) == Attach(Routes(t), snet)
  {
    if !Knows(t, snet) {
      forall n: NetNumber
        ensures Find(t + [Port(snet, mac, [])], n) ==
                if n == snet then Direct(|t|) else Find(t, n)
      {
        FindAppendPort(t, Port(snet, mac, []), 0, n);
      }
    }
  }

  /** An added port has the network number and MAC it was added with and has learned nothing; the rows before stay. */
  lemma PortAdded(t: Table, snet: NetNumber, mac: Mac)
    requires !Knows(t, snet)
    ensures var t' := AddPort(t, snet, mac);
            |t'| == |t| + 1 && t'[..|t|] == t && Find(t', snet) == Direct(|t|)
            && t'[|t|].net == snet && t'[|t|].mac == mac && t'[|t|].dnets == []
  {
    FindAppendPort(t, Port(snet, mac, []), 0, snet);
  }

  // ---------------------------------------------------------------------------------
  // No network number is stored twice
  // ---------------------------------------------------------------------------------

  /** The cells of the two-level structure: column 0 of row i is the port itself and the
      others are the networks learned through it. */
  predicate Cell(t: Table, i: int, k: int) {
    0 <= i < |t| && 0 <= k <= |t[i].dnets|
  }

  function NetAt(t: Table, i: int, k: int): NetNumber
    requires Cell(t, i, k)
  {
    if k == 0 then t[i].net else t[i].dnets[k - 1].net
  }

  ghost predicate Distinct(t: Table) {
    forall i, k, j, l :: Cell(t, i, k) && Cell(t, j, l) && NetAt(t, i, k) == NetAt(t, j, l)
                         ==> i == j && k == l
  }

  lemma {:induction false} FindRouteHits(ds: seq<Route>, k: nat, net: NetNumber)
    requires k <= |ds|
    ensures FindRouteFrom(ds, k, net).None? <==> forall l :: k <= l < |ds| ==> ds[l].net != net
    ensures FindRouteFrom(ds, k, net).Some? ==>
              exists l :: k <= l < |ds| && ds[l] == Route(net, FindRouteFrom(ds, k, net).value)
    decreases |ds| - k
  {
    if k < |ds| && ds[k].net != net {
      FindRouteHits(ds, k + 1, net);
    } else if k < |ds| {
      assert ds[k] == Route(net, ds[k].mac);
    }
  }

  /** Lookup answers from a cell that holds the number, and fails only if no cell does. */
  lemma {:induction false} FindHits(t: Table, i: nat, net: NetNumber)
    requires i <= |t|
    ensures var r := FindFrom(t, i, net);
            match r
            case NotFound => forall j, k :: i <= j && Cell(t, j, k) ==> NetAt(t, j, k) != net
            case Direct(j) => Cell(t, j, 0) && NetAt(t, j, 0) == net
            case Via(j, mac) =>
              exists k :: Cell(t, j, k) && k > 0 && t[j].dnets[k - 1] == Route(net, mac)
    decreases |t| - i
  {
    if i < |t| {
      FindRouteHits(t[i].dnets, 0, net);
      FindHits(t, i + 1, net);
      var r := FindFrom(t, i, net);
      if r.Via? && r.index == i {
        var l :| 0 <= l < |t[i].dnets| && t[i].dnets[l] == Route(net, r.mac);
        assert Cell(t, i, l + 1) && t[i].dnets[(l + 1) - 1] == Route(net, r.mac);
      }
    }
  }

  /** In a table without repeats the lookup finds exactly the row of the cell that holds the number. */
  lemma FindCell(t: Table, i: nat, k: nat)
    requires Distinct(t) && Cell(t, i, k)
    ensures var r := Find(t, NetAt(t, i, k));
            if k == 0 then r == Direct(i) else r == Via(i, t[i].dnets[k - 1].mac)
  {
    var net := NetAt(t, i, k);
    FindHits(t, 0, net);
    match Find(t, net)
    case NotFound =>
    case Direct(j) => assert NetAt(t, j, 0) == net;
    case Via(j, mac) =>
      var l :| Cell(t, j, l) && l > 0 && t[j].dnets[l - 1] == Route(net, mac);
      assert NetAt(t, j, l) == net;
  }

  lemma AddDnetKeepsDistinct(t: Table, snet: NetNumber, net: NetNumber, mac: Mac)
    requires Distinct(t)
    ensures Distinct(AddDnet(t, snet, net, mac))
  {
    var t' := AddDnet(t, snet, net, mac);
    if t' != t {
      var p := Find(t, snet).index;
      FindHits(t, 0, net);
      forall i, k | Cell(t', i, k)
        ensures if i == p && k == |t[p].dnets| + 1 then NetAt(t', i, k) == net
                else Cell(t, i, k) && NetAt(t', i, k) == NetAt(t, i, k)
      {
      }
    }
  }

  lemma AddPortKeepsDistinct(t: Table, snet: NetNumber, mac: Mac)
    requires Distinct(t)
    ensures Distinct(AddPort(t, snet, mac))
  {
    var t' := AddPort(t, snet, mac);
    if t' != t {
      FindHits(t, 0, snet);
      forall i, k | Cell(t', i, k)
        ensures if i == |t| then k == 0 && NetAt(t', i, k) == snet
                else Cell(t, i, k) && NetAt(t', i, k) == NetAt(t, i, k)
      {
      }
    }
  }

  // ---------------------------------------------------------------------------------
  // Whole histories of additions
  // ---------------------------------------------------------------------------------

  datatype Op = PortOp(snet: NetNumber, mac: Mac) | DnetOp(snet: NetNumber, net: NetNumber, mac: Mac)

  function Apply(t: Table, op: Op): Table {
    match op
    case PortOp(snet, mac) => AddPort(t, snet, mac)
    case DnetOp(snet, net, mac) => AddDnet(t, snet, net, mac)
  }

  function ApplyAll(t: Table, ops: seq<Op>): Table
    decreases |ops|
  {
    if ops == [] then t else ApplyAll(Apply(t, ops[0]), ops[1..])
  }

  /** How many of the additions changed the table. */
  function Changes(t: Table, ops: seq<Op>): nat
    decreases |ops|
  {
    if ops == [] then 0
    else (if Apply(t, ops[0]) == t then 0 else 1) + Changes(Apply(t, ops[0]), ops[1..])
  }

  /** One addition keeps every known route, and changes the table only by making exactly one
      new network known. */
  lemma ApplyGrows(t: Table, op: Op)
    ensures forall n :: n in Routes(t) ==> n in Routes(Apply(t, op)) && Routes(Apply(t, op))[n] == Routes(t)[n]
    ensures Apply(t, op) == t || |Routes(Apply(t, op))| == |Routes(t)| + 1
  {
    match op {
      case PortOp(snet, mac) => AddPortRefinesAttach(t, snet, mac);
      case DnetOp(snet, net, mac) => AddDnetRefinesLearn(t, snet, net, mac);
    }
    var net := if op.PortOp? then op.snet else op.net;
    var r, r' := Routes(t), Routes(Apply(t, op));
    if Apply(t, op) != t {
      assert net !in r;
      assert r'.Keys == r.Keys + {net};
    }
  }

  /** Over every history of additions: the numbers stay pairwise distinct, a known route never
      changes, and at most 65536 additions in total ever change the table. */
  lemma {:induction false} HistoryKeepsRoutes(t: Table, ops: seq<Op>)
    requires Distinct(t)
    ensures Distinct(ApplyAll(t, ops))
    ensures forall n :: n in Routes(t) ==> n in Routes(ApplyAll(t, ops)) && Routes(ApplyAll(t, ops))[n] == Routes(t)[n]
    ensures |Routes(t)| + Changes(t, ops) == |Routes(ApplyAll(t, ops))| <= 65536
    decreases |ops|
  {
    if ops == [] {
      RangeSize(65536, Routes(t).Keys);
    } else {
      match ops[0] {
        case PortOp(snet, mac) => AddPortKeepsDistinct(t, snet, mac);
        case DnetOp(snet, net, mac) => AddDnetKeepsDistinct(t, snet, net, mac);
      }
      ApplyGrows(t, ops[0]);
      HistoryKeepsRoutes(Apply(t, ops[0]), ops[1..]);
    }
  }
}
