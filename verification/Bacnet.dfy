/** Octets, network numbers, addresses and the big-endian 16-bit codec that the
    network-layer programs share. */
module Bacnet {

  datatype Option<+T> = None | Some(value: T)

  /** uint8_t, uint16_t and uint32_t. */
  type Octet = x: int | 0 <= x < 256
  type Half = x: int | 0 <= x < 0x1_0000
  type Word = x: int | 0 <= x < 0x1_0000_0000

  const WORD := 0x1_0000_0000

  function Min(a: nat, b: nat): nat { if a < b then a else b }

  ghost predicate NoRepeats<T>(s: seq<T>) {
    forall a, b :: 0 <= a < b < |s| ==> s[a] != s[b]
  }

  /** A BACnet network number (uint16_t): 0 is "local", 0xFFFF is the global broadcast. */
  type NetNumber = Half

  const BROADCAST_NETWORK: NetNumber := 0xFFFF
  const MAX_MAC_LEN := 7

  /** A MAC address: the first `mac_len` octets of the C array. [] is the broadcast MAC. */
  type Mac = s: seq<Octet> | |s| <= MAX_MAC_LEN

  /** The DNET/DADR or SNET/SADR half of a BACNET_ADDRESS; net == 0 means "absent". */
  datatype NetAddr = NetAddr(net: NetNumber, adr: Mac)

  const NO_ADDR := NetAddr(0, [])

  function Encode16(v: NetNumber): (s: seq<Octet>)
    ensures |s| == 2
  {
    [v / 256, v % 256]
  }

  function Decode16(hi: Octet, lo: Octet): NetNumber {
    hi * 256 + lo
  }

  function EncodeNets(nets: seq<NetNumber>): (s: seq<Octet>)
    ensures |s| == 2 * |nets|
  {
    if nets == [] then [] else Encode16(nets[0]) + EncodeNets(nets[1..])
  }

  /** The network numbers that the I-Am-Router-To-Network decode loop reads off a payload. */
  function DecodeNets(s: seq<Octet>): (nets: seq<NetNumber>)
    requires |s| % 2 == 0
    ensures |nets| == |s| / 2
  {
    if s == [] then [] else [Decode16(s[0], s[1])] + DecodeNets(s[2..])
  }

  /** Encoding and decoding a list of network numbers undo each other, in both directions. */
  lemma {:induction false} NetListRoundTrip(nets: seq<NetNumber>)
    ensures DecodeNets(EncodeNets(nets)) == nets
  {
    if nets != [] {
      var s := EncodeNets(nets);
      assert s[2..] == EncodeNets(nets[1..]);
      NetListRoundTrip(nets[1..]);
    }
  }

  lemma {:induction false} NetListRoundTripBack(s: seq<Octet>)
    requires |s| % 2 == 0
    ensures EncodeNets(DecodeNets(s)) == s
  {
    if s != [] {
      var nets := DecodeNets(s);
      assert nets[1..] == DecodeNets(s[2..]);
      NetListRoundTripBack(s[2..]);
    }
  }

  lemma {:induction false} DecodeAt(s: seq<Octet>, i: nat)
    requires |s| % 2 == 0 && i < |s| / 2
    ensures DecodeNets(s)[i] == Decode16(s[2 * i], s[2 * i + 1])
  {
    if i > 0 {
      DecodeAt(s[2..], i - 1);
    }
  }

  /** Pigeonhole: a set of numbers below n has at most n elements. */
  lemma {:induction false} RangeSize(n: nat, s: set<int>)
    requires forall x :: x in s ==> 0 <= x < n
    ensures |s| <= n
  {
    if n == 0 {
      assert forall x :: x !in s;
    } else {
      RangeSize(n - 1, s - {n - 1});
    }
  }

  lemma {:induction false} SubsetSize<T>(a: set<T>, b: set<T>)
    requires a <= b
    ensures |a| <= |b|
    ensures |a| == |b| ==> a == b
  {
    if a != {} {
      var x :| x in a;
      SubsetSize(a - {x}, b - {x});
    }
  }
}
