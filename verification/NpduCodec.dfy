/** The network-layer header on the wire (section 6.2.2 of ANSI/ASHRAE 135): what
    npdu_encode_pdu writes and bacnet_npdu_decode reads back. */
module NpduCodec {
  import opened Bacnet

  /** An APDU, or a network-layer message with its type (and, from 0x80 on, a vendor). */
  datatype Kind = Apdu | Control(messageType: Octet, vendor: NetNumber)

  type Priority = x: int | 0 <= x < 4

  datatype Npdu = Npdu(
    version: Octet, kind: Kind, expectingReply: bool, priority: Priority,
    dest: NetAddr, src: NetAddr, hopCount: Octet, payload: seq<Octet>)

  const MAX_NPDU := 1 + 1 + 2 + 1 + MAX_MAC_LEN + 2 + 1 + MAX_MAC_LEN + 1 + 1 + 2

  predicate HasDest(n: Npdu) { n.dest.net != 0 }

  /** A source without octets is not written, whatever its network number. */
  predicate HasSource(n: Npdu) { n.src.net != 0 && n.src.adr != [] }

  function Bit(b: bool, weight: nat): nat { if b then weight else 0 }

  function ControlOctet(n: Npdu): Octet {
    Bit(n.kind.Control?, 128) + Bit(HasDest(n), 32) + Bit(HasSource(n), 8) +
    Bit(n.expectingReply, 4) + n.priority
  }

  function EncodeAddr(present: bool, a: NetAddr): seq<Octet> {
    if present then Encode16(a.net) + [|a.adr|] + a.adr else []
  }

  function EncodeKind(k: Kind): seq<Octet> {
    match k
    case Apdu => []
    case Control(t, vendor) => [t] + if t >= 0x80 then Encode16(vendor) else []
  }

  function EncodeHop(n: Npdu): seq<Octet> {
    if HasDest(n) then [n.hopCount] else []
  }

  function EncodeHeader(n: Npdu): (s: seq<Octet>)
    ensures 2 <= |s| <= MAX_NPDU
  {
    [n.version, ControlOctet(n)] + EncodeAddr(HasDest(n), n.dest) + EncodeAddr(HasSource(n), n.src) +
    EncodeHop(n) + EncodeKind(n.kind)
  }

  predicate Flag(control: Octet, weight: nat)
    requires weight > 0
  {
    (control / weight) % 2 == 1
  }

  /** Reads an optional NET/LEN/ADR group at `at`; fails on an address longer than the buffer allows. */
  function DecodeAddr(present: bool, s: seq<Octet>, limit: nat, at: nat): (r: Option<(NetAddr, nat)>)
    requires limit <= |s|
    ensures r.Some? ==> at <= r.value.1 && (at <= limit ==> r.value.1 <= limit)
  {
    if !present || limit < at + 3 then Some((NO_ADDR, at))
    else
      var len := s[at + 2] as nat;
      if len > 0 && (len > MAX_MAC_LEN || limit < at + 3 + len) then None
      else Some((NetAddr(Decode16(s[at], s[at + 1]), s[at + 3..at + 3 + len]), at + 3 + len))
  }

  /** The SNET/SADR of an NPDU that has none: the caller's network number if that is the global broadcast, which the
      decoder leaves in place, and none otherwise. */
  function KeptSource(held: NetAddr): NetAddr {
    NetAddr(if held.net == BROADCAST_NETWORK then BROADCAST_NETWORK else 0, [])
  }

  /** Reads the source group; `held` is what the caller's record holds, which a group cut off at its start leaves. */
  function DecodeSource(present: bool, s: seq<Octet>, limit: nat, at: nat, held: NetAddr): (r: Option<(NetAddr, nat)>)
    requires limit <= |s|
    ensures r.Some? ==> at <= r.value.1 && (at <= limit ==> r.value.1 <= limit)
  {
    if !present then Some((KeptSource(held), at))
    else if limit < at + 3 then Some((held, at))
    else DecodeAddr(true, s, limit, at)
  }

  function DecodeHop(dest: NetAddr, s: seq<Octet>, limit: nat, at: nat): (Octet, nat)
    requires at <= limit <= |s|
  {
    if dest.net != 0 && at < limit then (s[at], at + 1) else (0, at)
  }

  /** A header cut off before its message type keeps the zeroed type of the caller's record. */
  function DecodeKind(control: Octet, s: seq<Octet>, limit: nat, at: nat): (Kind, nat)
    requires at <= limit <= |s|
  {
    if !Flag(control, 128) then (Apdu, at)
    else if at == limit then (Control(0, 0), at)
    else if s[at] >= 0x80 && limit >= at + 3 then (Control(s[at], Decode16(s[at + 1], s[at + 2])), at + 3)
    else (Control(s[at], 0), at + 1)
  }

  /** The header of a buffer of which `limit` octets may be read, and the header's length; `held` is what the caller's
      source address holds before. */
  function DecodeHeader(s: seq<Octet>, limit: nat, held: NetAddr): (r: Option<(Npdu, nat)>)
    requires limit <= |s|
    ensures r.Some? ==> r.value.1 <= limit && r.value.0.payload == []
  {
    if limit < 2 then None
    else
      match DecodeAddr(Flag(s[1], 32), s, limit, 2)
      case None => None
      case Some((dest, a)) =>
        match DecodeSource(Flag(s[1], 8), s, limit, a, held)
        case None => None
        case Some((src, b)) =>
          var (hop, c) := DecodeHop(dest, s, limit, b);
          var (kind, d) := DecodeKind(s[1], s, limit, c);
          Some((Npdu(s[0], kind, Flag(s[1], 4), s[1] % 4, dest, src, hop, []), d))
  }

  /** What survives the wire: the hop count travels only with a DNET, a source only with octets. */
  function OnWire(n: Npdu): Npdu {
    n.(dest := if HasDest(n) then n.dest else NO_ADDR,
       src := if HasSource(n) then n.src else NO_ADDR,
       hopCount := if HasDest(n) then n.hopCount else 0,
       kind := match n.kind
               case Apdu => Apdu
               case Control(t, vendor) => Control(t, if t >= 0x80 then vendor else 0))
  }

  /** What a decoder reads of n's header. */
  function Decoded(n: Npdu, held: NetAddr): Npdu {
    OnWire(n).(src := if HasSource(n) then n.src else KeptSource(held), payload := [])
  }

  lemma ControlOctetFlags(n: Npdu)
    ensures var c := ControlOctet(n);
            && Flag(c, 128) == n.kind.Control? && Flag(c, 32) == HasDest(n) && Flag(c, 8) == HasSource(n)
            && Flag(c, 4) == n.expectingReply && c % 4 == n.priority
  {
  }

  /** `part` stands in s at position `at`, within the limit. */
  predicate Stands(part: seq<Octet>, s: seq<Octet>, at: nat, limit: nat) {
    at + |part| <= limit <= |s| && forall i :: 0 <= i < |part| ==> s[at + i] == part[i]
  }

  lemma DecodeEncodedAddr(present: bool, a: NetAddr, s: seq<Octet>, at: nat, limit: nat)
    requires Stands(EncodeAddr(present, a), s, at, limit)
    ensures DecodeAddr(present, s, limit, at) ==
            Some((if present then a else NO_ADDR, at + |EncodeAddr(present, a)|))
  {
    if present {
      var part := EncodeAddr(present, a);
      assert s[at + 0] == part[0] == a.net / 256 && s[at + 1] == part[1] == a.net % 256 &&
        s[at + 2] == part[2] == |a.adr|;
      forall i | 0 <= i < |a.adr| ensures s[at + 3 + i] == a.adr[i] {
        assert s[at + (3 + i)] == part[3 + i];
      }
      assert s[at + 3..at + 3 + |a.adr|] == a.adr;
    }
  }

  lemma DecodeEncodedHop(n: Npdu, dest: NetAddr, s: seq<Octet>, at: nat, limit: nat)
    requires (dest.net != 0) == HasDest(n) && Stands(EncodeHop(n), s, at, limit)
    ensures DecodeHop(dest, s, limit, at) == (OnWire(n).hopCount, at + |EncodeHop(n)|)
  {
    assert HasDest(n) ==> s[at + 0] == EncodeHop(n)[0];
  }

  lemma DecodeEncodedKind(n: Npdu, control: Octet, s: seq<Octet>, at: nat, limit: nat)
    requires Flag(control, 128) == n.kind.Control? && Stands(EncodeKind(n.kind), s, at, limit)
    ensures DecodeKind(control, s, limit, at) == (OnWire(n).kind, at + |EncodeKind(n.kind)|)
  {
    var part := EncodeKind(n.kind);
    if n.kind.Control? {
      assert s[at + 0] == part[0];
      if n.kind.messageType >= 0x80 {
        assert s[at + 1] == part[1] && s[at + 2] == part[2];
      }
    }
  }

  /** The pieces of a concatenation stand one after the other. */
  lemma PiecesStand(a: seq<Octet>, d: seq<Octet>, r: seq<Octet>, h: seq<Octet>, k: seq<Octet>, rest: seq<Octet>,
    limit: nat)
    requires |a| + |d| + |r| + |h| + |k| <= limit <= |a| + |d| + |r| + |h| + |k| + |rest|
    ensures var s := a + d + r + h + k + rest;
            && Stands(a, s, 0, limit) && Stands(d, s, |a|, limit) && Stands(r, s, |a| + |d|, limit)
            && Stands(h, s, |a| + |d| + |r|, limit) && Stands(k, s, |a| + |d| + |r| + |h|, limit)
  {
  }

  /** Decoding a header is decoding its groups in order. */
  lemma DecodeInOrder(s: seq<Octet>, limit: nat, held: NetAddr, n: Npdu, a: nat, b: nat, c: nat, d: nat)
    requires 2 <= a <= b <= c <= limit <= |s| && n.payload == []
    requires s[0] == n.version && Flag(s[1], 4) == n.expectingReply && s[1] % 4 == n.priority
    requires DecodeAddr(Flag(s[1], 32), s, limit, 2) == Some((n.dest, a))
    requires DecodeSource(Flag(s[1], 8), s, limit, a, held) == Some((n.src, b))
    requires DecodeHop(n.dest, s, limit, b) == (n.hopCount, c)
    requires DecodeKind(s[1], s, limit, c) == (n.kind, d)
    ensures DecodeHeader(s, limit, held) == Some((n, d))
  {
  }

  /** The octets of n's header stand at the front of s. */
  predicate HeaderStands(n: Npdu, s: seq<Octet>, limit: nat) {
    var d, r, h := EncodeAddr(HasDest(n), n.dest), EncodeAddr(HasSource(n), n.src), EncodeHop(n);
    && 2 <= limit <= |s| && s[0] == n.version && s[1] == ControlOctet(n)
    && Stands(d, s, 2, limit) && Stands(r, s, 2 + |d|, limit) && Stands(h, s, 2 + |d| + |r|, limit)
    && Stands(EncodeKind(n.kind), s, 2 + |d| + |r| + |h|, limit)
  }

  lemma EncodedHeaderStands(n: Npdu, rest: seq<Octet>, limit: nat)
    requires |EncodeHeader(n)| <= limit <= |EncodeHeader(n) + rest|
    ensures HeaderStands(n, EncodeHeader(n) + rest, limit)
  {
    var fixed := [n.version, ControlOctet(n)];
    var s := EncodeHeader(n) + rest;
    PiecesStand(fixed, EncodeAddr(HasDest(n), n.dest), EncodeAddr(HasSource(n), n.src), EncodeHop(n),
      EncodeKind(n.kind), rest, limit);
    assert s[0 + 0] == fixed[0] && s[0 + 1] == fixed[1];
  }

  // where the groups of n's header end
  function AfterDest(n: Npdu): nat { 2 + |EncodeAddr(HasDest(n), n.dest)| }
  function AfterSource(n: Npdu): nat { AfterDest(n) + |EncodeAddr(HasSource(n), n.src)| }
  function AfterHop(n: Npdu): nat { AfterSource(n) + |EncodeHop(n)| }

  lemma StandingDest(n: Npdu, s: seq<Octet>, limit: nat)
    requires HeaderStands(n, s, limit)
    ensures DecodeAddr(Flag(s[1], 32), s, limit, 2) == Some((OnWire(n).dest, AfterDest(n)))
  {
    ControlOctetFlags(n);
    DecodeEncodedAddr(HasDest(n), n.dest, s, 2, limit);
  }

  lemma StandingSource(n: Npdu, s: seq<Octet>, limit: nat, held: NetAddr)
    requires HeaderStands(n, s, limit)
    ensures DecodeSource(Flag(s[1], 8), s, limit, AfterDest(n), held) == Some((Decoded(n, held).src, AfterSource(n)))
  {
    assert Flag(s[1], 8) == HasSource(n) by {
      ControlOctetFlags(n);
    }
    if HasSource(n) {
      DecodeEncodedAddr(true, n.src, s, AfterDest(n), limit);
      assert limit >= AfterDest(n) + 3;
    }
  }

  lemma StandingTail(n: Npdu, s: seq<Octet>, limit: nat)
    requires HeaderStands(n, s, limit)
    ensures AfterHop(n) <= limit
    ensures DecodeHop(OnWire(n).dest, s, limit, AfterSource(n)) == (OnWire(n).hopCount, AfterHop(n))
    ensures DecodeKind(s[1], s, limit, AfterHop(n)) == (OnWire(n).kind, |EncodeHeader(n)|)
  {
    ControlOctetFlags(n);
    DecodeEncodedHop(n, OnWire(n).dest, s, AfterSource(n), limit);
    DecodeEncodedKind(n, s[1], s, AfterHop(n), limit);
  }

  lemma DecodeStanding(n: Npdu, s: seq<Octet>, limit: nat, held: NetAddr)
    requires HeaderStands(n, s, limit)
    ensures DecodeHeader(s, limit, held) == Some((Decoded(n, held), |EncodeHeader(n)|))
  {
    ControlOctetFlags(n);
    StandingDest(n, s, limit);
    StandingSource(n, s, limit, held);
    StandingTail(n, s, limit);
    DecodeInOrder(s, limit, held, Decoded(n, held), AfterDest(n), AfterSource(n), AfterHop(n), |EncodeHeader(n)|);
  }

  /** Decoding an encoded header gives back its fields, less what the encoding drops, whatever follows it in the buffer,
      however much of the buffer beyond the header may be read, and whatever the caller's source address held. */
  lemma HeaderRoundTrip(n: Npdu, rest: seq<Octet>, limit: nat, held: NetAddr)
    requires |EncodeHeader(n)| <= limit <= |EncodeHeader(n) + rest|
    ensures DecodeHeader(EncodeHeader(n) + rest, limit, held) == Some((Decoded(n, held), |EncodeHeader(n)|))
  {
    EncodedHeaderStands(n, rest, limit);
    DecodeStanding(n, EncodeHeader(n) + rest, limit, held);
  }

  /** A router reads at most MAX_NPDU octets and that is always enough; the header survives the wire unchanged exactly
      when it carries nothing that the encoding drops, and its source is not one that the decoder makes up. */
  lemma HeaderSurvivesWire(n: Npdu, rest: seq<Octet>, held: NetAddr)
    requires |EncodeHeader(n) + rest| >= MAX_NPDU
    ensures DecodeHeader(EncodeHeader(n) + rest, MAX_NPDU, held) == Some((n.(payload := []), |EncodeHeader(n)|)) <==>
            && (n.src == KeptSource(held) || HasSource(n))
            && (HasDest(n) || (n.dest == NO_ADDR && n.hopCount == 0))
            && (n.kind.Control? && n.kind.messageType < 0x80 ==> n.kind.vendor == 0)
  {
    HeaderRoundTrip(n, rest, MAX_NPDU, held);
  }

  /** A whole NPDU. */
  function EncodePdu(n: Npdu): (s: seq<Octet>)
    ensures 2 <= |s|
  {
    EncodeHeader(n) + n.payload
  }

  /** What the encoding drops makes no difference to the octets. */
  lemma EncodeOnWire(n: Npdu)
    ensures EncodePdu(OnWire(n)) == EncodePdu(n)
  {
    assert ControlOctet(OnWire(n)) == ControlOctet(n);
    assert EncodeAddr(HasDest(OnWire(n)), OnWire(n).dest) == EncodeAddr(HasDest(n), n.dest);
    assert EncodeAddr(HasSource(OnWire(n)), OnWire(n).src) == EncodeAddr(HasSource(n), n.src);
  }
}
