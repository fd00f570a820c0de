/** The MS/TP capture file (libpcap format, little-endian host): the writer and reader of its global header and of its
    records, as functions over octets and as the sequential file operations that the program performs. */
module Capture {
  import opened Bacnet

  const HEADER_MAX := 8
  const DLT_BACNET_MS_TP: Word := 165

  function Encode2(v: Half): (s: seq<Octet>)
    ensures |s| == 2
  {
    [v % 256, v / 256]
  }

  function Decode2(s: seq<Octet>): Half
    requires |s| == 2
  {
    var lo: int, hi: int := s[0], s[1];
    lo + 256 * hi
  }

  function Encode4(w: Word): (s: seq<Octet>)
    ensures |s| == 4
  {
    Encode2(w % 0x1_0000) + Encode2(w / 0x1_0000)
  }

  function Decode4(s: seq<Octet>): Word
    requires |s| == 4
  {
    Decode2(s[..2]) + 0x1_0000 * Decode2(s[2..])
  }

  lemma WordRoundTrip(w: Word)
    ensures Decode4(Encode4(w)) == w
  {
    assert Encode4(w)[..2] == Encode2(w % 0x1_0000);
    assert Encode4(w)[2..] == Encode2(w / 0x1_0000);
  }

  lemma WordRoundTripBack(s: seq<Octet>)
    requires |s| == 4
    ensures Encode4(Decode4(s)) == s
  {
    var lo: int, hi: int := Decode2(s[..2]), Decode2(s[2..]);
    assert (lo + 0x1_0000 * hi) % 0x1_0000 == lo && (lo + 0x1_0000 * hi) / 0x1_0000 == hi;
    HalfRoundTripBack(s[..2]);
    HalfRoundTripBack(s[2..]);
  }

  lemma HalfRoundTripBack(s: seq<Octet>)
    requires |s| == 2
    ensures Encode2(Decode2(s)) == s
  {
  }

  // ---------------------------------------------------------------------------------
  // The global header
  // ---------------------------------------------------------------------------------

  function GlobalHeader(): (s: seq<Octet>)
    ensures |s| == 24
  {
    Encode4(0xa1b2_c3d4) + Encode2(2) + Encode2(4) + Encode4(0) + Encode4(0) + Encode4(65535) +
      Encode4(DLT_BACNET_MS_TP)
  }

  // ---------------------------------------------------------------------------------
  // Records
  // ---------------------------------------------------------------------------------

  /** The fields of the MS/TP port structure that the writer uses, and the time of day. */
  datatype Received = Received(
    sec: int, usec: int, invalid: bool, index: Word, dataLength: Half, bufferSize: Half, buffer: seq<Octet>,
    kind: Octet, dst: Octet, src: Octet, headerCrc: Octet, crcMsb: Octet, crcLsb: Octet)

  ghost predicate Fits(p: Received) { p.bufferSize <= |p.buffer| }

  /** The length that the writer goes by: how far an invalid frame got, or the length of a valid one. */
  function Length(p: Received): Word { if p.invalid then p.index else p.dataLength }

  function MaxData(p: Received): Half { Min(p.bufferSize, Length(p)) }

  function PacketLength(p: Received): Word {
    if Length(p) != 0 then HEADER_MAX + MaxData(p) + 2 else HEADER_MAX
  }

  function FrameHeader(p: Received): (s: seq<Octet>)
    ensures |s| == 8
  {
    [0x55, 0xFF, p.kind, p.dst, p.src, p.dataLength / 256, p.dataLength % 256, p.headerCrc]
  }

  function DataAndCrc(p: Received): (s: seq<Octet>)
    requires Fits(p)
    ensures |s| == if MaxData(p) != 0 then MaxData(p) + 2 else 0
  {
    if MaxData(p) != 0 then p.buffer[..MaxData(p)] + [p.crcMsb, p.crcLsb] else []
  }

  /** What write_received_packet appends for a full 8-octet header. */
  function RecordOctets(p: Received): (s: seq<Octet>)
    requires Fits(p)
    ensures |s| == 24 + |DataAndCrc(p)|
  {
    RecordHeader(p) + FrameHeader(p) + DataAndCrc(p)
  }

  /** Time stamp, octets saved, octets captured. */
  function RecordHeader(p: Received): (s: seq<Octet>)
    ensures |s| == 16
  {
    Encode4(p.sec % 0x1_0000_0000) + Encode4(p.usec % 0x1_0000_0000) + Encode4(PacketLength(p)) +
      Encode4(PacketLength(p))
  }

  /** What read_received_packet stores of a record; `crc` is empty when the record has no data. */
  datatype Record = Record(
    sec: Word, usec: Word, kind: Octet, dst: Octet, src: Octet, headerCrc: Octet, data: seq<Octet>, crc: seq<Octet>)

  /** The uint16_t DataLength that the reader computes from the packet length. */
  function ReadLength(orig: Word): Half { (orig - 8 - 2) % 0x1_0000_0000 % 0x1_0000 }

  /** The record at the head of a stream and its number of octets; None when a read falls short, which includes the
      read of zero octets of data. */
  function Parse(s: seq<Octet>): (r: Option<(Record, nat)>)
    ensures r.Some? ==> 24 <= r.value.1 <= |s|
  {
    if |s| < 24 then None
    else
      var orig := Decode4(s[12..16]);
      var n := ReadLength(orig);
      if orig <= 8 then Some((Record(Decode4(s[..4]), Decode4(s[4..8]), s[18], s[19], s[20], s[23], [], []), 24))
      else if n == 0 || |s| < 24 + n + 2 then None
      else
        Some((Record(Decode4(s[..4]), Decode4(s[4..8]), s[18], s[19], s[20], s[23],
                     s[24..24 + n], s[24 + n..24 + n + 2]),
              24 + n + 2))
  }

  /** The CRC computations: whether header octets 2 to 7, or data with its CRC octets, leave the right remainder. */
  datatype Checks = Checks(header: seq<Octet> -> bool, data: seq<Octet> -> bool)

  /** Whether the reader takes the record at the head of a stream for a valid frame: with data, the data CRC alone
      decides. */
  predicate ReadsValid(checks: Checks, s: seq<Octet>)
    requires Parse(s).Some?
  {
    var r := Parse(s).value.0;
    if r.data != [] then checks.data(r.data + r.crc) else checks.header(s[18..24])
  }

  /** How many octets of data the reader puts into the receive buffer, also when the read falls short. */
  function BufferedOctets(s: seq<Octet>): nat {
    if |s| < 24 || Decode4(s[12..16]) <= 8 then 0 else Min(ReadLength(Decode4(s[12..16])), |s| - 24)
  }

  /** The scan's loop: records up to the first that cannot be read. */
  function ParseAll(s: seq<Octet>): seq<Record>
    decreases |s|
  {
    match Parse(s)
    case None => []
    case Some((r, n)) => [r] + ParseAll(s[n..])
  }

  // ---------------------------------------------------------------------------------
  // Reading back what was written
  // ---------------------------------------------------------------------------------

  /** What should come back: every field, and as much of the data as the buffer held. */
  function Stored(p: Received): Record
    requires Fits(p)
  {
    var n := MaxData(p);
    Record(p.sec % 0x1_0000_0000, p.usec % 0x1_0000_0000, p.kind, p.dst, p.src, p.headerCrc,
           p.buffer[..n], if n != 0 then [p.crcMsb, p.crcLsb] else [])
  }

  lemma Sections(p: Received, rest: seq<Octet>)
    requires Fits(p)
    ensures var s := RecordOctets(p) + rest;
            && s[..4] == Encode4(p.sec % 0x1_0000_0000) && s[4..8] == Encode4(p.usec % 0x1_0000_0000)
            && s[12..16] == Encode4(PacketLength(p)) && s[16..24] == FrameHeader(p)
            && s[24..] == DataAndCrc(p) + rest
  {
  }

  lemma DataSections(s: seq<Octet>, p: Received, rest: seq<Octet>, n: int)
    requires Fits(p) && n == MaxData(p) != 0 && |s| >= 24 && s[24..] == DataAndCrc(p) + rest
    ensures |s| >= 24 + n + 2 && s[24..24 + n] == p.buffer[..n] && s[24 + n..24 + n + 2] == [p.crcMsb, p.crcLsb]
  {
    var d := s[24..];
    assert s[24..24 + n] == d[..n] && s[24 + n..24 + n + 2] == d[n..n + 2];
  }

  lemma LengthBack(p: Received)
    ensures PacketLength(p) > 8 <==> Length(p) != 0
    ensures Length(p) != 0 ==> ReadLength(PacketLength(p)) == MaxData(p)
  {
  }

  /** One record reads back, leaving the stream at the next, unless the frame has data and the buffer has no room at
      all: then the writer announces data that it does not write. */
  lemma RecordRoundTrip(p: Received, rest: seq<Octet>)
    requires Fits(p)
    ensures Parse(RecordOctets(p) + rest) ==
            if Roomy(p) then Some((Stored(p), |RecordOctets(p)|)) else None
  {
    var s := RecordOctets(p) + rest;
    var n: int := MaxData(p);
    Sections(p, rest);
    WordRoundTrip(p.sec % 0x1_0000_0000);
    WordRoundTrip(p.usec % 0x1_0000_0000);
    WordRoundTrip(PacketLength(p));
    LengthBack(p);
    assert s[18] == s[16..24][2] && s[19] == s[16..24][3] && s[20] == s[16..24][4] && s[23] == s[16..24][7];
    if n != 0 {
      DataSections(s, p, rest, n);
    }
  }

  /** Of a record that the writer wrote the reader buffers what the writer's buffer held, so no more than fits. */
  lemma OwnRecordsFit(p: Received, rest: seq<Octet>)
    requires Fits(p)
    ensures BufferedOctets(RecordOctets(p) + rest) == MaxData(p) <= p.bufferSize
  {
    Sections(p, rest);
    WordRoundTrip(PacketLength(p));
    LengthBack(p);
    NothingAnnounced(p);
  }

  lemma NothingAnnounced(p: Received)
    ensures Length(p) != 0 && p.bufferSize == 0 ==> ReadLength(PacketLength(p)) == 0
  {
  }

  /** The lengths and the frame header of a written record: both packet lengths are the number of octets that follow, if
      the buffer had any room, and the frame header has the preamble, type, addresses, and the data length, high octet
      first. */
  lemma RecordLayout(p: Received)
    requires Fits(p)
    ensures var s := RecordOctets(p);
            && s[8..12] == s[12..16] && (Roomy(p) ==> Decode4(s[8..12]) == |s| - 16)
            && s[16] == 0x55 && s[17] == 0xFF && s[18] == p.kind && s[19] == p.dst && s[20] == p.src
            && s[21] as int * 256 + s[22] == p.dataLength && s[23] == p.headerCrc
  {
    var s := RecordOctets(p);
    assert s + [] == s;
    Sections(p, []);
    WordRoundTrip(PacketLength(p));
    var h := RecordHeader(p);
    assert s[8..12] == h[8..12] == Encode4(PacketLength(p));
    assert forall k :: 0 <= k < 8 ==> s[16 + k] == FrameHeader(p)[k];
    assert s[21] == s[16 + 5] && s[22] == s[16 + 6] && s[23] == s[16 + 7];
  }

  /** Numbers in the file are little-endian, and the global header is that of a version 2.4 capture of link type 165. */
  lemma FileOctets()
    ensures Encode4(0x0102_0304) == [4, 3, 2, 1]
    ensures GlobalHeader() ==
            [0xD4, 0xC3, 0xB2, 0xA1, 2, 0, 4, 0, 0, 0, 0, 0, 0, 0, 0, 0, 0xFF, 0xFF, 0, 0, 165, 0, 0, 0]
  {
  }

  function Written(ps: seq<Received>): seq<Octet>
    requires forall k :: 0 <= k < |ps| ==> Fits(ps[k])
  {
    if ps == [] then [] else RecordOctets(ps[0]) + Written(ps[1..])
  }

  function StoredAll(ps: seq<Received>): seq<Record>
    requires forall k :: 0 <= k < |ps| ==> Fits(ps[k])
  {
    if ps == [] then [] else [Stored(ps[0])] + StoredAll(ps[1..])
  }

  /** Whether the buffer can hold any of the data there is. */
  predicate Roomy(p: Received) { Length(p) != 0 ==> p.bufferSize != 0 }

  /** Every sequence of records reads back, record by record, if and only if every buffer has room; otherwise the
      records before the first that has not are all that is read. */
  lemma {:induction false} FileRoundTrip(ps: seq<Received>)
    requires forall k :: 0 <= k < |ps| ==> Fits(ps[k])
    ensures ParseAll(Written(ps)) == StoredAll(ps) <==> forall k :: 0 <= k < |ps| ==> Roomy(ps[k])
    ensures ParseAll(Written(ps)) <= StoredAll(ps)
    decreases |ps|
  {
    if ps != [] {
      var s, rest := Written(ps), Written(ps[1..]);
      RecordRoundTrip(ps[0], rest);
      if Roomy(ps[0]) {
        assert s[|RecordOctets(ps[0])|..] == rest;
        FileRoundTrip(ps[1..]);
        TailSame(Stored(ps[0]), ParseAll(rest), StoredAll(ps[1..]));
        AllAfterFirst(ps);
      }
    }
  }

  lemma AllAfterFirst(ps: seq<Received>)
    requires ps != [] && Roomy(ps[0])
    ensures (forall k :: 0 <= k < |ps| ==> Roomy(ps[k])) <==> (forall k :: 0 <= k < |ps[1..]| ==> Roomy(ps[1..][k]))
  {
    if forall k :: 0 <= k < |ps[1..]| ==> Roomy(ps[1..][k]) {
      forall k | 0 <= k < |ps| ensures Roomy(ps[k]) {
        if k > 0 {
          assert ps[k] == ps[1..][k - 1];
        }
      }
    }
  }

  lemma TailSame(r: Record, a: seq<Record>, b: seq<Record>)
    ensures [r] + a == [r] + b <==> a == b
    ensures a <= b ==> [r] + a <= [r] + b
  {
    assert ([r] + a)[1..] == a && ([r] + b)[1..] == b;
  }

  /** A whole capture file, header and records: the scan accepts it and gives the records that were written. */
  lemma CaptureRoundTrip(ps: seq<Received>)
    requires forall k :: 0 <= k < |ps| ==> Fits(ps[k]) && Roomy(ps[k])
    ensures var file := GlobalHeader() + Written(ps);
            Accepted(file) && ParseAll(file[24..]) == StoredAll(ps)
  {
    HeaderAccepted(Written(ps));
    FileRoundTrip(ps);
  }

  lemma HeaderAccepted(rest: seq<Octet>)
    ensures Accepted(GlobalHeader() + rest) && (GlobalHeader() + rest)[24..] == rest
  {
    assert (GlobalHeader() + rest)[..24] == GlobalHeader();
  }

  /** When the data fits the buffer, the length and the data that come back are the frame's own, and only then. */
  lemma DataComesBackWhole(p: Received)
    requires Fits(p)
    ensures |Stored(p).data| == Length(p) <==> Length(p) <= p.bufferSize
    ensures Stored(p).data == p.buffer[..|Stored(p).data|]
  {
  }

  // ---------------------------------------------------------------------------------
  // Frames on the wire
  // ---------------------------------------------------------------------------------

  type FrameData = s: seq<Octet> | |s| < 0x1_0000

  /** A frame on the wire whose header is in order; `crcGood` is whether its data CRC is. */
  datatype WireFrame = WireFrame(
    sec: int, usec: int, kind: Octet, dst: Octet, src: Octet, headerCrc: Octet, data: FrameData,
    crcMsb: Octet, crcLsb: Octet, crcGood: bool)

  /** What the receive state machine makes of it, with `held` in the buffer from before: octets beyond the buffer are
      dropped, and Index, which the first CRC octet advances too, ends one above the length. */
  function Reception(f: WireFrame, size: Half, held: seq<Octet>): (p: Received)
    requires size <= |held|
    ensures Fits(p) && |p.buffer| == |held|
  {
    var n := Min(size, |f.data|);
    Received(f.sec, f.usec, f.data != [] && !f.crcGood, if f.data == [] then 0 else |f.data| + 1, |f.data|, size,
             f.data[..n] + held[n..], f.kind, f.dst, f.src, f.headerCrc, f.crcMsb, f.crcLsb)
  }

  /** A sequence of frames, received one after the other into the same buffer. */
  function Receptions(fs: seq<WireFrame>, size: Half, held: seq<Octet>): (ps: seq<Received>)
    requires size <= |held|
    ensures |ps| == |fs| && forall k :: 0 <= k < |ps| ==> Fits(ps[k])
  {
    if fs == [] then []
    else
      var p := Reception(fs[0], size, held);
      [p] + Receptions(fs[1..], size, p.buffer)
  }

  /** The frame's own record: all of its data. */
  function Sent(f: WireFrame): Record {
    Record(f.sec % 0x1_0000_0000, f.usec % 0x1_0000_0000, f.kind, f.dst, f.src, f.headerCrc, f.data,
           if f.data != [] then [f.crcMsb, f.crcLsb] else [])
  }

  function AllSent(fs: seq<WireFrame>): seq<Record> {
    if fs == [] then [] else [Sent(fs[0])] + AllSent(fs[1..])
  }

  /** A good frame must fit the buffer; one with a bad data CRC is written with one octet too many, unless the buffer
      ends exactly there. */
  predicate BufferKeeps(f: WireFrame, size: Half) {
    f.data == [] || if f.crcGood then |f.data| <= size else |f.data| == size
  }

  lemma FrameBuffered(f: WireFrame, size: Half, held: seq<Octet>)
    requires size <= |held|
    ensures Stored(Reception(f, size, held)) == Sent(f) <==> BufferKeeps(f, size)
    ensures BufferKeeps(f, size) ==> Roomy(Reception(f, size, held))
  {
    var p := Reception(f, size, held);
    if BufferKeeps(f, size) {
      assert p.buffer[..MaxData(p)] == f.data;
    } else {
      assert |Stored(p).data| != |f.data|;
    }
  }

  /** Every sequence of frames that is captured reads back as it was on the wire, with its own lengths, data and CRC
      octets, if and only if every frame in it is one that the buffer keeps. */
  lemma {:induction false} FramesComeBack(fs: seq<WireFrame>, size: Half, held: seq<Octet>)
    requires size <= |held|
    ensures ParseAll(Written(Receptions(fs, size, held))) == AllSent(fs) <==>
      forall k :: 0 <= k < |fs| ==> BufferKeeps(fs[k], size)
    decreases |fs|
  {
    if fs != [] {
      var ps := Receptions(fs, size, held);
      var p := ps[0];
      assert ps[1..] == Receptions(fs[1..], size, p.buffer);
      FrameBuffered(fs[0], size, held);
      FramesComeBack(fs[1..], size, p.buffer);
      HeadAndRest(ps);
      assert (forall k :: 0 <= k < |fs| ==> BufferKeeps(fs[k], size)) <==>
        BufferKeeps(fs[0], size) && forall k :: 0 <= k < |fs[1..]| ==> BufferKeeps(fs[1..][k], size) by {
        if BufferKeeps(fs[0], size) && forall k :: 0 <= k < |fs[1..]| ==> BufferKeeps(fs[1..][k], size) {
          forall k | 0 <= k < |fs| ensures BufferKeeps(fs[k], size) {
            assert k > 0 ==> fs[k] == fs[1..][k - 1];
          }
        }
      }
      SameLists(Stored(p), ParseAll(Written(ps[1..])), Sent(fs[0]), AllSent(fs[1..]));
    }
  }

  /** What a file with at least one record reads back as. */
  lemma HeadAndRest(ps: seq<Received>)
    requires ps != [] && forall k :: 0 <= k < |ps| ==> Fits(ps[k])
    ensures ParseAll(Written(ps)) == if Roomy(ps[0]) then [Stored(ps[0])] + ParseAll(Written(ps[1..])) else []
  {
    RecordRoundTrip(ps[0], Written(ps[1..]));
    if Roomy(ps[0]) {
      ParseFirst(RecordOctets(ps[0]), Written(ps[1..]), Stored(ps[0]));
    } else {
      ParseNone(RecordOctets(ps[0]) + Written(ps[1..]));
    }
  }

  lemma ParseFirst(first: seq<Octet>, rest: seq<Octet>, r: Record)
    requires Parse(first + rest) == Some((r, |first|))
    ensures ParseAll(first + rest) == [r] + ParseAll(rest)
  {
    assert (first + rest)[|first|..] == rest;
  }

  lemma ParseNone(s: seq<Octet>)
    requires Parse(s) == None
    ensures ParseAll(s) == []
  {
  }

  lemma SameLists(a: Record, as': seq<Record>, b: Record, bs: seq<Record>)
    ensures [a] + as' == [b] + bs <==> a == b && as' == bs
  {
    assert ([a] + as')[1..] == as' && ([b] + bs)[1..] == bs && ([a] + as')[0] == a && ([b] + bs)[0] == b;
  }

  const PLAIN := WireFrame(0, 0, 6, 1, 2, 0, [1, 2, 3], 7, 8, true)

  /** A good frame of three octets, captured with a buffer of two, comes back with two. */
  lemma LongFrameCut()
    ensures !BufferKeeps(PLAIN, 2) && ParseAll(Written(Receptions([PLAIN], 2, [0, 0]))) ==
      [Sent(PLAIN).(data := [1, 2])]
  {
    var ps := Receptions([PLAIN], 2, [0, 0]);
    assert ps == [Reception(PLAIN, 2, [0, 0])];
    HeadAndRest(ps);
    assert ps[0].buffer[..2] == [1, 2];
    assert ps[1..] == [] && Written([]) == [] && ParseAll([]) == [];
  }

  /** The same frame with a bad data CRC, captured with a buffer of four, comes back with a stale fourth octet. */
  lemma BadFrameGrows()
    ensures var f := PLAIN.(crcGood := false);
            !BufferKeeps(f, 4) && ParseAll(Written(Receptions([f], 4, [0, 0, 0, 9]))) ==
              [Sent(f).(data := [1, 2, 3, 9])]
  {
    var f := PLAIN.(crcGood := false);
    var ps := Receptions([f], 4, [0, 0, 0, 9]);
    assert ps == [Reception(f, 4, [0, 0, 0, 9])];
    HeadAndRest(ps);
    assert ps[0].buffer[..4] == [1, 2, 3, 9];
    assert ps[1..] == [] && Written([]) == [] && ParseAll([]) == [];
  }

  // ---------------------------------------------------------------------------------
  // The file operations
  // ---------------------------------------------------------------------------------

  /** An open stdio stream; `isOpen` is whether pFile is not NULL. */
  class CaptureFile {
    var octets: seq<Octet>
    var pos: nat
    var isOpen: bool

    ghost predicate Valid()
      reads this
    {
      pos <= |octets|
    }

    constructor (contents: seq<Octet>)
      ensures Valid() && octets == contents && pos == 0 && isOpen
    {
      octets, pos, isOpen := contents, 0, true;
    }

    method Write(s: seq<Octet>)
      modifies this`octets
      ensures octets == old(octets) + s
    {
      octets := octets + s;
    }

    /** fread of one item of n octets: an item of size zero and a short read both count as none. */
    method Read(n: nat) returns (ok: bool, s: seq<Octet>)
      requires Valid()
      modifies this`pos
      ensures Valid()
      ensures ok == (n != 0 && old(pos) + n <= |octets|)
      ensures ok ==> pos == old(pos) + n && s == octets[old(pos)..pos] && |s| == n
    {
      ok := n != 0 && pos + n <= |octets|;
      s := [];
      if ok {
        s := octets[pos..pos + n];
        pos := pos + n;
      } else if n != 0 {
        pos := |octets|;
      }
    }

    method WriteGlobalHeader()
      modifies this`octets
      ensures octets == GlobalHeader()
    {
      octets := [];
      Write(Encode4(0xa1b2_c3d4));
      Write(Encode2(2));
      Write(Encode2(4));
      Write(Encode4(0));
      Write(Encode4(0));
      Write(Encode4(65535));
      Write(Encode4(DLT_BACNET_MS_TP));
    }

    method WriteReceivedPacket(p: Received)
      requires Fits(p)
      modifies this`octets
      ensures octets == if isOpen then old(octets) + RecordOctets(p) else old(octets)
    {
      if !isOpen {
        return;
      }
      var maxData := WriteRecordHeader(p);
      Write([0x55, 0xFF, p.kind, p.dst, p.src, p.dataLength / 256, p.dataLength % 256, p.headerCrc]);
      if maxData != 0 {
        WriteData(p, maxData);
      }
      assert octets == old(octets) + RecordHeader(p) + FrameHeader(p) + DataAndCrc(p);
      Regroup(old(octets), RecordHeader(p), FrameHeader(p), DataAndCrc(p));
    }

    method WriteRecordHeader(p: Received) returns (maxData: nat)
      modifies this`octets
      ensures maxData == MaxData(p) && octets == old(octets) + RecordHeader(p)
    {
      var len: Word;
      maxData, len := 0, HEADER_MAX;
      Write(Encode4(p.sec % 0x1_0000_0000));
      Write(Encode4(p.usec % 0x1_0000_0000));
      if p.invalid {
        if p.index != 0 {
          maxData := Min(p.bufferSize, p.index);
          len := HEADER_MAX + maxData + 2;
        }
      } else {
        if p.dataLength != 0 {
          maxData := Min(p.bufferSize, p.dataLength);
          len := HEADER_MAX + maxData + 2;
        }
      }
      Write(Encode4(len));
      Write(Encode4(len));
    }

    method WriteData(p: Received, maxData: nat)
      requires Fits(p) && maxData == MaxData(p) != 0
      modifies this`octets
      ensures octets == old(octets) + DataAndCrc(p)
    {
      Write(p.buffer[..maxData]);
      Write([p.crcMsb]);
      Write([p.crcLsb]);
    }

    /** Reads one little-endian field, closing the file when it falls short. */
    method Read4() returns (ok: bool, w: Word)
      requires Valid() && isOpen
      modifies this`pos, this`isOpen
      ensures Valid() && isOpen == ok == (old(pos) + 4 <= |octets|)
      ensures ok ==> pos == old(pos) + 4 && w == Decode4(octets[old(pos)..old(pos) + 4])
    {
      var s;
      ok, s := Read(4);
      w := if ok then Decode4(s) else 0;
      isOpen := ok;
    }

    method Read2() returns (ok: bool, h: Half)
      requires Valid() && isOpen
      modifies this`pos, this`isOpen
      ensures Valid() && isOpen == ok == (old(pos) + 2 <= |octets|)
      ensures ok ==> pos == old(pos) + 2 && h == Decode2(octets[old(pos)..old(pos) + 2])
    {
      var s;
      ok, s := Read(2);
      h := if ok then Decode2(s) else 0;
      isOpen := ok;
    }

    /** test_global_header: accepts exactly the header that the writer writes, up to the snap length. */
    method TestGlobalHeader() returns (ok: bool)
      requires Valid() && isOpen && pos == 0
      modifies this`pos, this`isOpen
      ensures Valid() && isOpen == ok
      ensures ok <==> Accepted(octets)
      ensures ok ==> pos == 24
    {
      if |octets| >= 24 {
        HeaderFields(octets);
      }
      var w: Word, h: Half;
      ok, w := Read4();
      if !ok || w != 0xa1b2_c3d4 { isOpen := false; return false; }
      ok, h := Read2();
      if !ok || h != 2 { isOpen := false; return false; }
      ok, h := Read2();
      if !ok || h != 4 { isOpen := false; return false; }
      ok, w := Read4();
      if !ok || w != 0 { isOpen := false; return false; }
      ok, w := Read4();
      if !ok || w != 0 { isOpen := false; return false; }
      ok, w := Read4();
      if !ok { return false; }
      ok, w := Read4();
      if !ok || w != DLT_BACNET_MS_TP { isOpen := false; return false; }
    }

    /** read_received_packet: the record at the current position, and the position of the next; a short read closes
        the file. */
    method ReadReceivedPacket(checks: Checks) returns (r: Option<Record>, valid: bool, buffered: nat)
      requires Valid()
      modifies this`pos, this`isOpen
      ensures Valid() && isOpen == r.Some?
      ensures !old(isOpen) ==> r == None
      ensures old(isOpen) ==> r.Some? == Parse(octets[old(pos)..]).Some?
      ensures old(isOpen) && r.Some? ==> Parse(octets[old(pos)..]) == Some((r.value, pos - old(pos)))
      ensures old(isOpen) && r.Some? ==> valid == ReadsValid(checks, octets[old(pos)..])
      ensures buffered == if old(isOpen) then BufferedOctets(octets[old(pos)..]) else 0
    {
      valid := false;
      if !isOpen {
        return None, false, 0;
      }
      ghost var start := pos;
      var ok, sec, usec, orig, header := ReadHeaders();
      if !ok { return None, false, 0; }
      valid := checks.header(header[2..]);
      buffered := 0;
      var data, crc := [], [];
      if orig > 8 {
        ok, data, crc, buffered := ReadData(ReadLength(orig));
        if !ok { return None, false, buffered; }
        valid := checks.data(data + crc);
        Stretch(octets, start, 24, 24 + |data|);
        Stretch(octets, start, 24 + |data|, 24 + |data| + 2);
      }
      Stretch(octets[start..], 0, 18, 24);
      assert octets[start..][16..24][2..] == octets[start..][18..24];
      r := Some(Record(sec, usec, header[2], header[3], header[4], header[7], data, crc));
    }

    method ReadHeaders() returns (ok: bool, sec: Word, usec: Word, orig: Word, header: seq<Octet>)
      requires Valid() && isOpen
      modifies this`pos, this`isOpen
      ensures Valid() && isOpen == ok == (|octets[old(pos)..]| >= 24)
      ensures ok ==> var s := octets[old(pos)..];
                     && pos == old(pos) + 24 && sec == Decode4(s[..4]) && usec == Decode4(s[4..8])
                     && orig == Decode4(s[12..16]) && header == s[16..24]
    {
      ghost var start := pos;
      var incl;
      usec, orig, header := 0, 0, [];
      ok, sec := Read4();
      if !ok { return; }
      ok, usec := Read4();
      if !ok { return; }
      ok, incl := Read4();
      if !ok { return; }
      ok, orig := Read4();
      if !ok { return; }
      ok, header := Read(8);
      isOpen := ok;
      if ok {
        Stretch(octets, start, 0, 4);
        Stretch(octets, start, 4, 8);
        Stretch(octets, start, 12, 16);
        Stretch(octets, start, 16, 24);
      }
    }

    method ReadData(n: Half) returns (ok: bool, data: seq<Octet>, crc: seq<Octet>, buffered: nat)
      requires Valid() && isOpen
      modifies this`pos, this`isOpen
      ensures Valid() && isOpen == ok == (n != 0 && old(pos) + n + 2 <= |octets|)
      ensures ok ==> pos == old(pos) + n + 2 && |data| == n
      ensures buffered == Min(n, |octets| - old(pos))
      ensures ok ==> data == octets[old(pos)..old(pos) + n] && crc == octets[old(pos) + n..old(pos) + n + 2]
    {
      var msb, lsb;
      crc := [];
      buffered := Min(n, |octets| - pos);
      ok, data := Read(n);
      isOpen := ok;
      if !ok { return; }
      ok, msb := Read(1);
      isOpen := ok;
      if !ok { return; }
      ok, lsb := Read(1);
      isOpen := ok;
      crc := msb + lsb;
    }

    /** The records of a capture file: nothing when the global header does not match, else all records. */
    method Scan(checks: Checks) returns (accepted: bool, records: seq<Record>)
      requires Valid() && isOpen && pos == 0
      modifies this`pos, this`isOpen
      ensures accepted <==> Accepted(octets)
      ensures accepted ==> |octets| >= 24 && records == ParseAll(octets[24..])
      ensures !accepted ==> records == []
    {
      records := [];
      accepted := TestGlobalHeader();
      if accepted {
        records := ReadAll(checks);
      }
    }

    method ReadAll(checks: Checks) returns (records: seq<Record>)
      requires Valid() && isOpen
      modifies this`pos, this`isOpen
      ensures records == ParseAll(octets[old(pos)..])
    {
      records := [];
      assert [] + ParseAll(octets[pos..]) == ParseAll(octets[pos..]);
      while isOpen
        invariant Valid()
        invariant ParseAll(octets[old(pos)..]) == records + if isOpen then ParseAll(octets[pos..]) else []
        decreases isOpen, |octets| - pos
      {
        ghost var start := pos;
        var r, _, _ := ReadReceivedPacket(checks);
        if r.Some? {
          ParseNext(octets, start, r.value, pos);
          Append(records, r.value, ParseAll(octets[pos..]));
          records := records + [r.value];
        }
      }
    }
  }

  predicate Accepted(s: seq<Octet>) { |s| >= 24 && SameButSnapLength(s[..24], GlobalHeader()) }

  lemma Regroup(a: seq<Octet>, b: seq<Octet>, c: seq<Octet>, d: seq<Octet>)
    ensures a + b + c + d == a + (b + c + d)
  {
  }

  /** A stretch of the file, counted from the current position. */
  lemma Stretch(s: seq<Octet>, pos: nat, a: nat, b: nat)
    requires a <= b && pos + b <= |s|
    ensures s[pos..][a..b] == s[pos + a..pos + b]
  {
  }

  lemma ParseNext(s: seq<Octet>, pos: nat, r: Record, next: nat)
    requires pos <= next <= |s| && Parse(s[pos..]) == Some((r, next - pos))
    ensures ParseAll(s[pos..]) == [r] + ParseAll(s[next..])
  {
    assert s[pos..][next - pos..] == s[next..];
  }

  lemma Append(a: seq<Record>, r: Record, b: seq<Record>)
    ensures a + ([r] + b) == a + [r] + b
  {
  }

  /** The fields are those of the written header exactly when the octets are. */
  lemma HeaderFields(s: seq<Octet>)
    requires |s| >= 24
    ensures SameButSnapLength(s[..24], GlobalHeader()) <==>
            && Decode4(s[0..4]) == 0xa1b2_c3d4 && Decode2(s[4..6]) == 2 && Decode2(s[6..8]) == 4
            && Decode4(s[8..12]) == 0 && Decode4(s[12..16]) == 0 && Decode4(s[20..24]) == DLT_BACNET_MS_TP
  {
    HeaderParts();
    SplitHeader(s);
    SameWord(s[0..4], 0xa1b2_c3d4);
    SameHalf(s[4..6], 2);
    SameHalf(s[6..8], 4);
    SameWord(s[8..12], 0);
    SameWord(s[12..16], 0);
    SameWord(s[20..24], DLT_BACNET_MS_TP);
    FiveParts(s[0..4], s[4..6], s[6..8], s[8..12], s[12..16],
              Encode4(0xa1b2_c3d4), Encode2(2), Encode2(4), Encode4(0), Encode4(0));
  }

  lemma HeaderParts()
    ensures GlobalHeader()[..16] == Encode4(0xa1b2_c3d4) + Encode2(2) + Encode2(4) + Encode4(0) + Encode4(0)
    ensures GlobalHeader()[20..] == Encode4(DLT_BACNET_MS_TP)
  {
  }

  lemma SplitHeader(s: seq<Octet>)
    requires |s| >= 24
    ensures s[..24][..16] == s[0..4] + s[4..6] + s[6..8] + s[8..12] + s[12..16] && s[..24][20..] == s[20..24]
  {
  }

  lemma SameHalf(s: seq<Octet>, h: Half)
    requires |s| == 2
    ensures Decode2(s) == h <==> s == Encode2(h)
  {
    HalfRoundTripBack(s);
  }

  lemma SameWord(s: seq<Octet>, w: Word)
    requires |s| == 4
    ensures Decode4(s) == w <==> s == Encode4(w)
  {
    WordRoundTrip(w);
    WordRoundTripBack(s);
  }

  lemma FiveParts(a: seq<Octet>, b: seq<Octet>, c: seq<Octet>, d: seq<Octet>, e: seq<Octet>,
                  a': seq<Octet>, b': seq<Octet>, c': seq<Octet>, d': seq<Octet>, e': seq<Octet>)
    requires |a| == |a'| && |b| == |b'| && |c| == |c'| && |d| == |d'|
    ensures a + b + c + d + e == a' + b' + c' + d' + e' <==> a == a' && b == b' && c == c' && d == d' && e == e'
  {
    SplitSame(a + b + c + d, e, a' + b' + c' + d', e');
    SplitSame(a + b + c, d, a' + b' + c', d');
    SplitSame(a + b, c, a' + b', c');
    SplitSame(a, b, a', b');
  }

  lemma SplitSame(a: seq<Octet>, b: seq<Octet>, a': seq<Octet>, b': seq<Octet>)
    requires |a| == |a'|
    ensures a + b == a' + b' <==> a == a' && b == b'
  {
    if a + b == a' + b' {
      assert a == (a + b)[..|a|] && b == (a + b)[|a|..];
    }
  }

  /** Octets 16 to 19, the snap length, are read but not looked at. */
  predicate SameButSnapLength(s: seq<Octet>, h: seq<Octet>)
    requires |s| == |h| == 24
  {
    s[..16] == h[..16] && s[20..] == h[20..]
  }
}
