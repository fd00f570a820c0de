/** Scanning a capture file for statistics, as the capture tool's scan option does, and how that compares with the
    statistics kept while the file was captured. */
module CaptureScan {
  import opened Bacnet
  import C = Capture
  import S = Statistics

  /** How data is looked at for an I-Am: not at all when it is longer than the receive buffer. */
  datatype Decoder = Decoder(size: Half, iAm: seq<Octet> -> Option<Word>)

  function DeviceIn(d: Decoder, data: seq<Octet>): Option<Word> {
    if 0 < |data| <= d.size then d.iAm(data) else None
  }

  /** What a record contributes to the statistics. */
  function FrameOf(r: C.Record, d: Decoder): S.Frame {
    S.Frame(r.kind, r.src, r.dst, r.sec, r.usec, DeviceIn(d, r.data))
  }

  /** The frames of the valid records of a stream, in order, and how many records are not valid. */
  function TraceOf(checks: C.Checks, d: Decoder, s: seq<Octet>): (seq<S.Frame>, nat)
    decreases |s|
  {
    match C.Parse(s)
    case None => ([], 0)
    case Some((r, n)) =>
      var (rest, invalid) := TraceOf(checks, d, s[n..]);
      if C.ReadsValid(checks, s) then ([FrameOf(r, d)] + rest, invalid) else (rest, invalid + 1)
  }

  /** The scan: records are read to the end of the file, valid ones go into the statistics, others are counted. */
  method Scan(file: C.CaptureFile, monitor: S.Monitor, checks: C.Checks, d: Decoder)
      returns (accepted: bool, invalid: Word)
    requires file.Valid() && file.isOpen && file.pos == 0 && monitor.Valid()
    modifies file`pos, file`isOpen, monitor, monitor.stats
    ensures monitor.Valid() && monitor.from == old(monitor.from)
    ensures accepted <==> C.Accepted(file.octets)
    ensures !accepted ==> monitor.trace == old(monitor.trace) && invalid == 0
    ensures accepted ==>
              && |file.octets| >= 24
              && monitor.trace == old(monitor.trace) + TraceOf(checks, d, file.octets[24..]).0
              && invalid == TraceOf(checks, d, file.octets[24..]).1 % WORD
  {
    invalid := 0;
    accepted := file.TestGlobalHeader();
    if accepted {
      invalid := ScanRecords(file, monitor, checks, d);
    }
  }

  /** What is still to come from the current position of a file. */
  function ToCome(checks: C.Checks, d: Decoder, isOpen: bool, s: seq<Octet>, pos: nat): (seq<S.Frame>, nat)
    requires pos <= |s|
  {
    if isOpen then TraceOf(checks, d, s[pos..]) else ([], 0)
  }

  method ScanRecords(file: C.CaptureFile, monitor: S.Monitor, checks: C.Checks, d: Decoder)
      returns (invalid: Word)
    requires file.Valid() && file.isOpen && monitor.Valid()
    modifies file`pos, file`isOpen, monitor, monitor.stats
    ensures monitor.Valid() && monitor.from == old(monitor.from)
    ensures monitor.trace == old(monitor.trace) + TraceOf(checks, d, file.octets[old(file.pos)..]).0
    ensures invalid == TraceOf(checks, d, file.octets[old(file.pos)..]).1 % WORD
  {
    ghost var (frames, count) := ToCome(checks, d, true, file.octets, file.pos);
    ghost var bad := 0;
    invalid := 0;
    while file.isOpen
      invariant file.Valid() && monitor.Valid() && monitor.from == old(monitor.from) &&
        monitor.stats == old(monitor.stats)
      invariant invalid == bad % WORD
      invariant monitor.trace + ToCome(checks, d, file.isOpen, file.octets, file.pos).0 == old(monitor.trace) + frames
      invariant bad + ToCome(checks, d, file.isOpen, file.octets, file.pos).1 == count
      decreases file.isOpen, |file.octets| - file.pos
    {
      var counted := ScanRecord(file, monitor, checks, d);
      if !counted {
        CountUp(bad);
        invalid := (invalid + 1) % WORD;
        bad := bad + 1;
      }
    }
  }

  /** One record: into the statistics if it is valid; `counted` is false when it is there and not valid. */
  method ScanRecord(file: C.CaptureFile, monitor: S.Monitor, checks: C.Checks, d: Decoder)
      returns (counted: bool)
    requires file.Valid() && file.isOpen && monitor.Valid()
    modifies file`pos, file`isOpen, monitor, monitor.stats
    ensures file.Valid() && monitor.Valid() && monitor.from == old(monitor.from) && monitor.stats == old(monitor.stats)
    ensures file.isOpen ==> old(file.pos) < file.pos
    ensures var now, was := ToCome(checks, d, file.isOpen, file.octets, file.pos),
      old(ToCome(checks, d, true, file.octets, file.pos));
            monitor.trace + now.0 == old(monitor.trace) + was.0 && now.1 + (if counted then 0 else 1) == was.1
  {
    counted := true;
    ghost var start := file.pos;
    var r, valid, _ := file.ReadReceivedPacket(checks);
    if r.Some? {
      TraceNext(checks, d, file.octets, start, r.value, file.pos, valid);
      if valid {
        Append(monitor.trace, FrameOf(r.value, d), ToCome(checks, d, true, file.octets, file.pos).0);
        monitor.Packet(FrameOf(r.value, d));
      } else {
        counted := false;
      }
    }
  }

  lemma CountUp(n: nat)
    ensures (n % WORD + 1) % WORD == (n + 1) % WORD
  {
  }

  lemma TraceNext(checks: C.Checks, d: Decoder, s: seq<Octet>, pos: nat, r: C.Record, next: nat, valid: bool)
    requires pos <= next <= |s| && C.Parse(s[pos..]) == Some((r, next - pos)) && valid == C.ReadsValid(checks, s[pos..])
    ensures var (rest, invalid) := ToCome(checks, d, true, s, next);
            ToCome(checks, d, true, s, pos) == if valid then ([FrameOf(r, d)] + rest, invalid) else (rest, invalid + 1)
  {
    assert s[pos..][next - pos..] == s[next..];
  }

  lemma Append(a: seq<S.Frame>, f: S.Frame, b: seq<S.Frame>)
    ensures a + ([f] + b) == a + [f] + b
  {
  }

  // ---------------------------------------------------------------------------------
  // Captured and scanned statistics
  // ---------------------------------------------------------------------------------

  /** The frame as the statistics see it while it is captured. */
  function Live(f: C.WireFrame, d: Decoder): S.Frame {
    S.Frame(f.kind, f.src, f.dst, f.sec, f.usec, DeviceIn(d, f.data))
  }

  predicate Good(f: C.WireFrame) { f.data == [] || f.crcGood }

  predicate Fits(f: C.WireFrame, size: Half) { Good(f) ==> |f.data| <= size }

  function Chosen(f: C.WireFrame, d: Decoder, counted: bool): seq<S.Frame> {
    if counted then [Live(f, d)] else []
  }

  /** While capturing, all good frames are counted. */
  function LiveTrace(fs: seq<C.WireFrame>, d: Decoder): seq<S.Frame> {
    if fs == [] then [] else Chosen(fs[0], d, Good(fs[0])) + LiveTrace(fs[1..], d)
  }

  /** The good frames that fit the buffer. */
  function WholeTrace(fs: seq<C.WireFrame>, d: Decoder): seq<S.Frame> {
    if fs == [] then [] else Chosen(fs[0], d, Good(fs[0]) && Fits(fs[0], d.size)) + WholeTrace(fs[1..], d)
  }

  /** How many frames are not good. */
  function BadFrames(fs: seq<C.WireFrame>): nat {
    if fs == [] then 0 else (if Good(fs[0]) then 0 else 1) + BadFrames(fs[1..])
  }

  /** The CRC computations do their work on what is stored of a frame: the header is in order, and data and its CRC
      octets pass exactly when a good frame was stored whole. */
  predicate Detects(checks: C.Checks, f: C.WireFrame, size: Half, held: seq<Octet>)
    requires size <= |held|
  {
    var p := C.Reception(f, size, held);
    if f.data == [] then checks.header(C.FrameHeader(p)[2..])
    else checks.data(C.Stored(p).data + C.Stored(p).crc) == (f.crcGood && |f.data| <= size)
  }

  ghost predicate AllDetected(checks: C.Checks, fs: seq<C.WireFrame>, size: Half, held: seq<Octet>)
    requires size <= |held|
  {
    fs != [] ==>
      && Detects(checks, fs[0], size, held)
      && AllDetected(checks, fs[1..], size, C.Reception(fs[0], size, held).buffer)
  }

  /** A time stamp in 32 bits, as the file holds it. */
  function Narrowed(f: S.Frame): S.Frame { f.(sec := f.sec % WORD, usec := f.usec % WORD) }

  function AllNarrowed(t: seq<S.Frame>): (t': seq<S.Frame>)
    ensures |t'| == |t|
  {
    if t == [] then [] else AllNarrowed(t[..|t| - 1]) + [Narrowed(t[|t| - 1])]
  }

  lemma {:induction false} NarrowedFirst(f: S.Frame, t: seq<S.Frame>)
    ensures AllNarrowed([f] + t) == [Narrowed(f)] + AllNarrowed(t)
  {
    var ft := [f] + t;
    if t == [] {
      assert ft[..0] == [];
    } else {
      assert ft[..|ft| - 1] == [f] + t[..|t| - 1];
      NarrowedFirst(f, t[..|t| - 1]);
    }
  }

  /** One frame's record: the reader takes it for valid exactly when the frame is good and fits, and has all of it
      then. */
  lemma FirstRecord(checks: C.Checks, f: C.WireFrame, size: Half, held: seq<Octet>, rest: seq<Octet>)
    requires 0 < size <= |held| && Detects(checks, f, size, held)
    ensures var p := C.Reception(f, size, held);
            var s := C.RecordOctets(p) + rest;
            && C.Parse(s) == Some((C.Stored(p), |C.RecordOctets(p)|))
            && C.ReadsValid(checks, s) == (Good(f) && Fits(f, size))
            && (Good(f) && Fits(f, size) ==> C.Stored(p) == C.Sent(f))
  {
    var p := C.Reception(f, size, held);
    var s := C.RecordOctets(p) + rest;
    C.FrameBuffered(f, size, held);
    C.RecordRoundTrip(p, rest);
    C.Sections(p, rest);
    assert s[16..24][2..] == s[18..24];
  }

  lemma TraceFirst(checks: C.Checks, d: Decoder, f: C.WireFrame, held: seq<Octet>, rest: seq<Octet>)
    requires 0 < d.size <= |held| && Detects(checks, f, d.size, held)
    ensures var whole := Good(f) && Fits(f, d.size);
            var (frames, invalid) := TraceOf(checks, d, C.RecordOctets(C.Reception(f, d.size, held)) + rest);
            && frames == (if whole then [Narrowed(Live(f, d))] else []) + TraceOf(checks, d, rest).0
            && invalid == (if whole then 0 else 1) + TraceOf(checks, d, rest).1
  {
    var octets := C.RecordOctets(C.Reception(f, d.size, held));
    FirstRecord(checks, f, d.size, held, rest);
    assert (octets + rest)[|octets|..] == rest;
    assert FrameOf(C.Sent(f), d) == Narrowed(Live(f, d));
  }

  /** Scanning any capture gives the good frames that fit the buffer, in order and with their time stamps narrowed, and
      counts all others as invalid. */
  lemma {:induction false} ScanGivesWholeFrames(checks: C.Checks, d: Decoder, fs: seq<C.WireFrame>, held: seq<Octet>)
    requires 0 < d.size <= |held| && AllDetected(checks, fs, d.size, held)
    ensures var (frames, invalid) := TraceOf(checks, d, C.Written(C.Receptions(fs, d.size, held)));
            frames == AllNarrowed(WholeTrace(fs, d)) && invalid + |frames| == |fs|
    decreases |fs|
  {
    if fs != [] {
      var p := C.Reception(fs[0], d.size, held);
      ScanGivesWholeFrames(checks, d, fs[1..], p.buffer);
      var rest := C.Written(C.Receptions(fs[1..], d.size, p.buffer));
      var whole := Good(fs[0]) && Fits(fs[0], d.size);
      TraceFirst(checks, d, fs[0], held, rest);
      Prepend(whole, Live(fs[0], d), WholeTrace(fs[1..], d));
      assert WholeTrace(fs, d) == Chosen(fs[0], d, whole) + WholeTrace(fs[1..], d);
      assert C.Written(C.Receptions(fs, d.size, held)) == C.RecordOctets(p) + rest by {
        WrittenFirst(fs, d.size, held);
      }
    }
  }

  lemma Prepend(good: bool, f: S.Frame, t: seq<S.Frame>)
    ensures AllNarrowed((if good then [f] else []) + t) == (if good then [Narrowed(f)] else []) + AllNarrowed(t)
  {
    if good {
      NarrowedFirst(f, t);
    } else {
      assert [] + t == t;
    }
  }

  lemma WrittenFirst(fs: seq<C.WireFrame>, size: Half, held: seq<Octet>)
    requires size <= |held| && fs != []
    ensures var p := C.Reception(fs[0], size, held);
            C.Written(C.Receptions(fs, size, held)) == C.RecordOctets(p) +
              C.Written(C.Receptions(fs[1..], size, p.buffer))
  {
    var ps := C.Receptions(fs, size, held);
    assert ps[1..] == C.Receptions(fs[1..], size, ps[0].buffer);
  }

  ghost predicate AllFit(fs: seq<C.WireFrame>, size: Half) {
    forall k :: 0 <= k < |fs| ==> Fits(fs[k], size)
  }

  lemma AllFitRest(fs: seq<C.WireFrame>, size: Half)
    requires fs != []
    ensures AllFit(fs, size) <==> Fits(fs[0], size) && AllFit(fs[1..], size)
  {
    if Fits(fs[0], size) && AllFit(fs[1..], size) {
      forall k | 0 <= k < |fs| ensures Fits(fs[k], size) {
        assert k > 0 ==> fs[k] == fs[1..][k - 1];
      }
    }
  }

  /** The good frames that fit are all good frames exactly when all of those fit; and else they are fewer. */
  lemma {:induction false} WholeOrFewer(fs: seq<C.WireFrame>, d: Decoder)
    ensures |WholeTrace(fs, d)| <= |LiveTrace(fs, d)| && |LiveTrace(fs, d)| + BadFrames(fs) == |fs|
    ensures AllFit(fs, d.size) ==> WholeTrace(fs, d) == LiveTrace(fs, d)
    ensures !AllFit(fs, d.size) ==> |WholeTrace(fs, d)| < |LiveTrace(fs, d)|
  {
    if fs != [] {
      WholeOrFewer(fs[1..], d);
      AllFitRest(fs, d.size);
    }
  }

  /** For every sequence of frames, good or bad and of any length: scanning the capture gives the frames that were
      counted live, in order, if and only if every good frame fits the receive buffer; and then it finds as many invalid
      frames as there were bad ones. */
  lemma ScanGivesLiveTrace(checks: C.Checks, d: Decoder, fs: seq<C.WireFrame>, held: seq<Octet>)
    requires 0 < d.size <= |held| && AllDetected(checks, fs, d.size, held)
    ensures var (frames, invalid) := TraceOf(checks, d, C.Written(C.Receptions(fs, d.size, held)));
            && (frames == AllNarrowed(LiveTrace(fs, d)) <==> AllFit(fs, d.size))
            && (AllFit(fs, d.size) <==> invalid == BadFrames(fs))
  {
    ScanGivesWholeFrames(checks, d, fs, held);
    WholeOrFewer(fs, d);
  }

  /** A good frame of three octets, captured with a buffer of two: it is counted while it is captured, and when the file
      is scanned it is not. */
  lemma LongFrameNotScanned(checks: C.Checks, iAm: seq<Octet> -> Option<Word>)
    requires !checks.data([1, 2] + [C.PLAIN.crcMsb, C.PLAIN.crcLsb])
    ensures var d := Decoder(2, iAm);
            && LiveTrace([C.PLAIN], d) == [Live(C.PLAIN, d)]
            && TraceOf(checks, d, C.Written(C.Receptions([C.PLAIN], 2, [0, 0]))) == ([], 1)
  {
    var d, fs := Decoder(2, iAm), [C.PLAIN];
    var p := C.Reception(C.PLAIN, 2, [0, 0]);
    assert p.buffer[..2] == [1, 2];
    assert C.Stored(p).data == [1, 2];
    assert fs[1..] == [] && AllDetected(checks, fs[1..], 2, p.buffer);
    ScanGivesWholeFrames(checks, d, fs, [0, 0]);
    assert WholeTrace(fs[1..], d) == [] && LiveTrace(fs[1..], d) == [];
  }

  /** So the statistics differ: one data frame from 2 while it is captured, none when it is scanned. */
  lemma LongFrameMissed(checks: C.Checks, iAm: seq<Octet> -> Option<Word>)
    requires !checks.data([1, 2] + [C.PLAIN.crcMsb, C.PLAIN.crcLsb])
    ensures DataSent(2, LiveTrace([C.PLAIN], Decoder(2, iAm))) == 1
    ensures DataSent(2, TraceOf(checks, Decoder(2, iAm), C.Written(C.Receptions([C.PLAIN], 2, [0, 0]))).0) == 0
  {
    LongFrameNotScanned(checks, iAm);
    OneDataFrame(Live(C.PLAIN, Decoder(2, iAm)), 2);
  }

  lemma OneKept(a: Octet, f: S.Frame)
    ensures S.Kept(a, [f]) == S.NodeStep(S.Kept(a, []), a, S.Previous([]), S.LastTokenTo([]), f)
  {
    assert [f][..0] == [];
  }

  lemma OneDataFrame(f: S.Frame, a: Octet)
    requires f.kind == 6
    ensures DataSent(a, [f]) == (if a == f.src then 1 else 0) && DataSent(a, []) == 0
  {
    OneKept(a, f);
    S.CounterStep(S.Kept(a, []), a, [], f, S.NotExpecting);
  }

  /** How many data frames that expect no reply the statistics over a trace say that node a sent. */
  function DataSent(a: Octet, t: seq<S.Frame>): Word { S.Counter(S.Kept(a, t), S.NotExpecting) }

  /** Narrowing time stamps changes no elapsed time. */
  lemma ElapsedNarrowed(p: S.Frame, f: S.Frame)
    requires 0 <= p.usec < 1_000_000 && 0 <= f.usec < 1_000_000
    ensures S.Elapsed(Narrowed(p), Narrowed(f)) == S.Elapsed(p, f)
  {
    MillisNarrowed(f.sec, p.sec, S.Truncated(f.usec - p.usec, 1000));
  }

  lemma MillisNarrowed(a: int, b: int, d: int)
    ensures ((a % WORD - b % WORD) * 1000 + d) % WORD == ((a - b) * 1000 + d) % WORD
  {
    var x, k := (a % WORD - b % WORD) * 1000 + d, (a / WORD - b / WORD) * 1000;
    assert (a - b) * 1000 + d == x + WORD * k;
    AddMultiple(x, k);
  }

  lemma AddMultiple(x: int, k: int)
    ensures (x + WORD * k) % WORD == x % WORD
  {
  }

  ghost predicate OnTime(t: seq<S.Frame>) {
    forall k :: 0 <= k < |t| ==> 0 <= t[k].usec < 1_000_000
  }

  lemma {:induction false} SameMemory(t: seq<S.Frame>)
    ensures S.LastTokenTo(AllNarrowed(t)) == S.LastTokenTo(t)
    ensures S.Previous(AllNarrowed(t)) == if t == [] then S.BEFORE else Narrowed(t[|t| - 1])
  {
    if t != [] {
      SameMemory(t[..|t| - 1]);
      assert AllNarrowed(t)[..|t| - 1] == AllNarrowed(t[..|t| - 1]);
    }
  }

  /** So every node's statistics are the same. */
  lemma {:induction false} SameStatistics(a: Octet, t: seq<S.Frame>)
    requires OnTime(t)
    ensures S.Kept(a, AllNarrowed(t)) == S.Kept(a, t)
    decreases |t|
  {
    if t != [] {
      var past, f := t[..|t| - 1], t[|t| - 1];
      SameStatistics(a, past);
      SameMemory(past);
      var narrow := AllNarrowed(t);
      assert narrow[..|narrow| - 1] == AllNarrowed(past) && narrow[|narrow| - 1] == Narrowed(f);
      ElapsedNarrowed(S.Previous(past), f);
      assert S.Previous(AllNarrowed(past)) == Narrowed(S.Previous(past));
      StepNarrowed(S.Kept(a, past), a, S.Previous(past), S.LastTokenTo(past), f);
    }
  }

  lemma StepNarrowed(n: S.Node, a: Octet, p: S.Frame, tokenTo: Octet, f: S.Frame)
    requires S.Elapsed(Narrowed(p), Narrowed(f)) == S.Elapsed(p, f)
    ensures S.NodeStep(n, a, Narrowed(p), tokenTo, Narrowed(f)) == S.NodeStep(n, a, p, tokenTo, f)
  {
  }

  /** The same frame with room for it is scanned as it was sent, from 2 to 1. */
  lemma FrameScanned(checks: C.Checks, iAm: seq<Octet> -> Option<Word>)
    requires checks.data([1, 2, 3] + [C.PLAIN.crcMsb, C.PLAIN.crcLsb])
    ensures TraceOf(checks, Decoder(4, iAm), C.Written(C.Receptions([C.PLAIN], 4, [0, 0, 0, 0]))).0 ==
            [S.Frame(6, 2, 1, 0, 0, iAm([1, 2, 3]))]
  {
    var d, fs := Decoder(4, iAm), [C.PLAIN];
    var p := C.Reception(C.PLAIN, 4, [0, 0, 0, 0]);
    assert p.buffer[..3] == [1, 2, 3];
    assert C.Stored(p).data == [1, 2, 3];
    assert fs[1..] == [] && AllDetected(checks, fs[1..], 4, p.buffer);
    ScanGivesWholeFrames(checks, d, fs, [0, 0, 0, 0]);
    assert WholeTrace(fs[1..], d) == [];
    NarrowedFirst(Live(C.PLAIN, d), []);
    assert WholeTrace(fs, d) == [Live(C.PLAIN, d)] + [];
  }

  /** Whenever every good frame fits the receive buffer, the statistics scanned from a capture file are those kept while
      it was captured, for every node, whatever bad frames there were between. */
  lemma ScannedEqualsLive(checks: C.Checks, d: Decoder, fs: seq<C.WireFrame>, held: seq<Octet>, a: Octet)
    requires 0 < d.size <= |held| && AllDetected(checks, fs, d.size, held) && AllFit(fs, d.size)
    requires forall k :: 0 <= k < |fs| ==> 0 <= fs[k].usec < 1_000_000
    ensures S.Kept(a, TraceOf(checks, d, C.Written(C.Receptions(fs, d.size, held))).0) == S.Kept(a, LiveTrace(fs, d))
  {
    ScanGivesLiveTrace(checks, d, fs, held);
    LiveOnTime(fs, d);
    SameStatistics(a, LiveTrace(fs, d));
  }

  lemma {:induction false} LiveOnTime(fs: seq<C.WireFrame>, d: Decoder)
    requires forall k :: 0 <= k < |fs| ==> 0 <= fs[k].usec < 1_000_000
    ensures OnTime(LiveTrace(fs, d))
  {
    if fs != [] {
      LiveOnTime(fs[1..], d);
    }
  }
}
