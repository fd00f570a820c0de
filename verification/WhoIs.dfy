/** The Who-Is tool's address table: each device and address once, in order of first arrival, with every entry flagged
    whose device number also answers from another address. */
module WhoIs {
  import opened Bacnet

  type MacArray = s: seq<Octet> | |s| == MAX_MAC_LEN witness [0, 0, 0, 0, 0, 0, 0]

  /** A BACNET_ADDRESS with its two fixed arrays and their length octets. */
  datatype Address = Address(macLen: Octet, mac: MacArray, net: NetNumber, len: Octet, adr: MacArray)

  datatype Arrival = Arrival(device: Word, maxApdu: nat, address: Address)

  /** An address_entry; `multiple` is the BAC_ADDRESS_MULT flag. */
  datatype Entry = Entry(arrival: Arrival, multiple: bool)

  function Used(len: Octet): nat { if len > MAX_MAC_LEN then MAX_MAC_LEN else len }

  /** Two addresses are the same when they agree on the network, on the octets in use of the remote address and, on the
      local network, on those of the MAC. */
  predicate Same(a: Address, b: Address) {
    && a.net == b.net && a.len == b.len && a.adr[..Used(a.len)] == b.adr[..Used(b.len)]
    && (a.net == 0 ==> a.macLen == b.macLen && a.mac[..Used(a.macLen)] == b.mac[..Used(b.macLen)])
  }

  /** Octet by octet: addresses on the same network are the same when their lengths and all octets in use are, at most
      seven of each; the MAC matters on the local network alone, and what lies beyond the lengths never does. */
  lemma SameOctets(a: Address, b: Address)
    ensures Same(a, b) <==>
            && a.net == b.net && a.len == b.len
            && (forall i :: 0 <= i < 7 && i < a.len ==> a.adr[i] == b.adr[i])
            && (a.net == 0 ==>
                  a.macLen == b.macLen && forall i :: 0 <= i < 7 && i < a.macLen ==> a.mac[i] == b.mac[i])
  {
    SlicesSame(a.adr, b.adr, Used(a.len));
    SlicesSame(a.mac, b.mac, Used(a.macLen));
  }

  lemma SlicesSame(a: MacArray, b: MacArray, n: nat)
    requires n <= 7
    ensures a[..n] == b[..n] <==> forall i :: 0 <= i < n ==> a[i] == b[i]
  {
    if a[..n] == b[..n] {
      forall i | 0 <= i < n ensures a[i] == b[i] {
        assert a[..n][i] == b[..n][i];
      }
    }
  }

  /** bacnet_address_same. */
  method AddressSame(a: Address, b: Address) returns (same: bool)
    ensures same == Same(a, b)
  {
    if a.net != b.net || a.len != b.len {
      return false;
    }
    var i := 0;
    while i < Used(a.len)
      invariant i <= Used(a.len) && a.adr[..i] == b.adr[..i]
    {
      if a.adr[i] != b.adr[i] {
        assert a.adr[..Used(a.len)][i] != b.adr[..Used(b.len)][i];
        return false;
      }
      i := i + 1;
    }
    if a.net == 0 {
      if a.macLen != b.macLen {
        return false;
      }
      i := 0;
      while i < Used(a.macLen)
        invariant i <= Used(a.macLen) && a.mac[..i] == b.mac[..i]
      {
        if a.mac[i] != b.mac[i] {
          assert a.mac[..Used(a.macLen)][i] != b.mac[..Used(b.macLen)][i];
          return false;
        }
        i := i + 1;
      }
    }
    return true;
  }

  /** The same device at the same address. */
  predicate Match(a: Arrival, b: Arrival) { a.device == b.device && Same(a.address, b.address) }

  ghost predicate Seen(h: seq<Arrival>, a: Arrival) {
    exists k :: 0 <= k < |h| && Match(h[k], a)
  }

  /** The arrivals that no earlier arrival matches, in order. */
  ghost function Firsts(h: seq<Arrival>): seq<Arrival> {
    if h == [] then []
    else
      var front, a := h[..|h| - 1], h[|h| - 1];
      if Seen(front, a) then Firsts(front) else Firsts(front) + [a]
  }

  /** What was seen is what the first arrivals match. */
  lemma {:induction false} SeenInFirsts(h: seq<Arrival>, a: Arrival)
    ensures Seen(Firsts(h), a) <==> Seen(h, a)
    decreases |h|
  {
    if h != [] {
      var front, b := h[..|h| - 1], h[|h| - 1];
      assert h == front + [b];
      SeenAppend(front, b, a);
      SeenAppend(Firsts(front), b, a);
      SeenInFirsts(front, a);
      if Seen(front, b) && Match(b, a) {
        var k :| 0 <= k < |front| && Match(front[k], b);
        assert Match(front[k], a);
      }
    }
  }

  lemma SeenAppend(h: seq<Arrival>, b: Arrival, a: Arrival)
    ensures Seen(h + [b], a) <==> Seen(h, a) || Match(b, a)
  {
    if Seen(h, a) {
      var k :| 0 <= k < |h| && Match(h[k], a);
      assert (h + [b])[k] == h[k];
    }
    if Match(b, a) {
      assert (h + [b])[|h|] == b;
    }
  }

  /** No two first arrivals match: with the above, every device and address is there exactly once. */
  lemma {:induction false} FirstsDistinct(h: seq<Arrival>)
    ensures forall i, j :: 0 <= i < j < |Firsts(h)| ==> !Match(Firsts(h)[i], Firsts(h)[j])
    decreases |h|
  {
    if h != [] {
      var front, a := h[..|h| - 1], h[|h| - 1];
      FirstsDistinct(front);
      SeenInFirsts(front, a);
    }
  }

  /** Where the first arrivals are in the history. */
  ghost function FirstPositions(h: seq<Arrival>): (ps: seq<nat>)
    ensures |ps| == |Firsts(h)|
  {
    if h == [] then []
    else
      var front, a := h[..|h| - 1], h[|h| - 1];
      FirstPositions(front) + if Seen(front, a) then [] else [|h| - 1]
  }

  /** The entries are in order of first arrival: at increasing positions of the history, each as it arrived there, and
      exactly at those where no earlier arrival matches. */
  lemma {:induction false} FirstsInOrder(h: seq<Arrival>)
    ensures var ps := FirstPositions(h);
            && (forall i :: 0 <= i < |ps| ==> ps[i] < |h| && Firsts(h)[i] == h[ps[i]])
            && (forall i, j :: 0 <= i < j < |ps| ==> ps[i] < ps[j])
            && (forall k: nat :: k in ps <==> k < |h| && !Seen(h[..k], h[k]))
    decreases |h|
  {
    if h != [] {
      var front, a := h[..|h| - 1], h[|h| - 1];
      FirstsInOrder(front);
      var ps := FirstPositions(front);
      forall k: nat ensures k in FirstPositions(h) <==> k < |h| && !Seen(h[..k], h[k]) {
        if k < |front| {
          assert h[..k] == front[..k] && h[k] == front[k];
          assert k in ps <==> k < |front| && !Seen(front[..k], front[k]);
        } else {
          assert k !in ps;
        }
      }
    }
  }

  /** For every arrival there is exactly one entry. */
  lemma EachOnce(h: seq<Arrival>, k: nat)
    requires k < |h|
    ensures exists i :: 0 <= i < |Firsts(h)| && Match(Firsts(h)[i], h[k])
    ensures forall i, j :: 0 <= i < |Firsts(h)| && 0 <= j < |Firsts(h)| ==>
              Match(Firsts(h)[i], h[k]) && Match(Firsts(h)[j], h[k]) ==> i == j
  {
    assert Match(h[k], h[k]);
    SeenInFirsts(h, h[k]);
    FirstsDistinct(h);
    var f := Firsts(h);
    forall i, j | 0 <= i < |f| && 0 <= j < |f| && Match(f[i], h[k]) && Match(f[j], h[k]) ensures i == j {
      assert Match(f[i], f[j]) && Match(f[j], f[i]);
    }
  }

  /** Another entry has the same device number. */
  ghost predicate Shared(f: seq<Arrival>, i: nat)
    requires i < |f|
  {
    exists j :: 0 <= j < |f| && j != i && f[j].device == f[i].device
  }

  /** The table is the first arrivals, each flagged exactly when it shares its device number. */
  ghost predicate Tabulates(t: seq<Entry>, f: seq<Arrival>) {
    |t| == |f| && forall i :: 0 <= i < |f| ==> t[i] == Entry(f[i], Shared(f, i))
  }

  class AddressTable {
    var entries: seq<Entry>
    ghost var history: seq<Arrival>

    ghost predicate Valid()
      reads this
    {
      Tabulates(entries, Firsts(history))
    }

    constructor ()
      ensures Valid() && entries == [] && history == []
    {
      entries, history := [], [];
    }

    /** address_table_add: flags are set during the scan, before it is known whether the entry is new. */
    method Add(a: Arrival)
      requires Valid()
      modifies this
      ensures Valid() && history == old(history) + [a]
    {
      ghost var f := Firsts(history);
      var multiple := false;
      var i := 0;
      history := history + [a];
      assert history[..|history| - 1] == old(history);
      SeenInFirsts(old(history), a);
      while i < |entries|
        invariant i <= |entries| == |f| && history == old(history) + [a]
        invariant forall j :: 0 <= j < i ==> !Match(f[j], a)
        invariant multiple == exists j :: 0 <= j < i && f[j].device == a.device
        invariant forall j :: 0 <= j < |f| ==>
          entries[j] == Entry(f[j], Shared(f, j) || (j < i && f[j].device == a.device))
      {
        if entries[i].arrival.device == a.device {
          var same := AddressSame(entries[i].arrival.address, a.address);
          if same {
            assert Match(f[i], a);
            forall j | 0 <= j < i && f[j].device == a.device ensures Shared(f, j) {
              assert f[i].device == f[j].device;
            }
            return;
          }
          multiple := true;
          entries := entries[i := entries[i].(multiple := true)];
        }
        i := i + 1;
      }
      entries := entries + [Entry(a, multiple)];
      assert !Seen(f, a);
      assert Firsts(history) == f + [a];
      ShareAppend(f, a);
    }
  }

  lemma ShareAppend(f: seq<Arrival>, a: Arrival)
    ensures forall j :: 0 <= j < |f| ==> (Shared(f + [a], j) <==> Shared(f, j) || f[j].device == a.device)
    ensures Shared(f + [a], |f|) <==> exists j :: 0 <= j < |f| && f[j].device == a.device
  {
    var g := f + [a];
    forall j | 0 <= j < |f| ensures Shared(g, j) <==> Shared(f, j) || f[j].device == a.device {
      if Shared(f, j) {
        var k :| 0 <= k < |f| && k != j && f[k].device == f[j].device;
        assert g[k] == f[k];
      }
      if f[j].device == a.device {
        assert g[|f|].device == g[j].device;
      }
    }
    if exists j :: 0 <= j < |f| && f[j].device == a.device {
      var j :| 0 <= j < |f| && f[j].device == a.device;
      assert g[j].device == g[|f|].device;
    }
  }
}
