/** The MS/TP capture tool's per-node statistics: counters and timing maxima kept up to date frame by frame, against
    their definition over the whole trace of frames. */
module Statistics {
  import opened Bacnet

  const TOKEN: Octet := 0
  const POLL_FOR_MASTER: Octet := 1
  const REPLY_TO_POLL: Octet := 2
  const TEST_REQUEST: Octet := 3
  const TEST_RESPONSE: Octet := 4
  const DATA_EXPECTING_REPLY: Octet := 5
  const DATA_NOT_EXPECTING_REPLY: Octet := 6
  const REPLY_POSTPONED: Octet := 7

  /** A frame with its capture time; `iAm` is the device number when the data is a well-formed local I-Am. */
  datatype Frame = Frame(kind: Octet, src: Octet, dst: Octet, sec: int, usec: int, iAm: Option<Word>)

  /** What the static old_ variables hold before any frame. */
  const BEFORE := Frame(255, 255, 255, 0, 0, None)

  /** C division: truncates toward zero. */
  function Truncated(x: int, y: int): int
    requires y > 0
  {
    if x >= 0 then x / y else -(-x / y)
  }

  /** timeval_diff_ms, narrowed to uint32_t. */
  function Elapsed(earlier: Frame, now: Frame): Word {
    ((now.sec - earlier.sec) * 1000 + Truncated(now.usec - earlier.usec, 1000)) % WORD
  }

  datatype Node = Node(
    tokens: Word, received: Word, polls: Word, pollReplies: Word, postponed: Word, testRequests: Word,
    testResponses: Word, expecting: Word, notExpecting: Word, retries: Word, selfTokens: Word, outOfOrder: Word,
    usageTimeout: Word, maxMaster: Octet, tokenReply: Word, pollReply: Word, dataReply: Word, postponedReply: Word,
    npoll: Word, lastPollTokens: Word, device: Word)

  const CLEARED := Node(0, 0, 0, 0, 0, 0, 0, 0, 0, 0, 0, 0, 0, 0, 0, 0, 0, 0, 0, 0, 0xFFFF_FFFF)

  // ---------------------------------------------------------------------------------
  // Whole-trace definitions
  // ---------------------------------------------------------------------------------

  datatype Counted =
    | Tokens | Received | Polls | PollReplies | Postponed | TestRequests
    | TestResponses | Expecting | NotExpecting | Retries | SelfTokens | OutOfOrder

  function Counter(n: Node, c: Counted): Word {
    match c
    case Tokens => n.tokens
    case Received => n.received
    case Polls => n.polls
    case PollReplies => n.pollReplies
    case Postponed => n.postponed
    case TestRequests => n.testRequests
    case TestResponses => n.testResponses
    case Expecting => n.expecting
    case NotExpecting => n.notExpecting
    case Retries => n.retries
    case SelfTokens => n.selfTokens
    case OutOfOrder => n.outOfOrder
  }

  /** The frame before the next one. */
  function Previous(past: seq<Frame>): Frame {
    if past == [] then BEFORE else past[|past| - 1]
  }

  /** Who the last token of a trace was passed to; 255 when there was none. */
  function LastTokenTo(t: seq<Frame>): Octet {
    if t == [] then 255
    else if t[|t| - 1].kind == TOKEN then t[|t| - 1].dst
    else LastTokenTo(t[..|t| - 1])
  }

  /** Whether frame f, coming after `past`, counts for node a. */
  predicate Occurs(c: Counted, a: Octet, past: seq<Frame>, f: Frame) {
    var p := Previous(past);
    match c
    case Tokens => f.kind == TOKEN && f.src == a
    case Received => f.kind == TOKEN && f.dst == a
    case SelfTokens => f.kind == TOKEN && f.src == a == f.dst
    case Retries => f.kind == TOKEN && p.kind == TOKEN && f.src == p.src && f.dst == p.dst == a
    case OutOfOrder => f.kind == TOKEN && f.src == a && LastTokenTo(past) != a
    case Polls => f.kind == POLL_FOR_MASTER && f.src == a
    case PollReplies => f.kind == REPLY_TO_POLL && f.src == a
    case TestRequests => f.kind == TEST_REQUEST && f.src == a
    case TestResponses => f.kind == TEST_RESPONSE && f.src == a
    case Expecting => f.kind == DATA_EXPECTING_REPLY && f.src == a
    case NotExpecting => f.kind == DATA_NOT_EXPECTING_REPLY && f.src == a
    case Postponed => f.kind == REPLY_POSTPONED && f.src == a
  }

  ghost function Occurrences(c: Counted, a: Octet, t: seq<Frame>, from: nat): set<nat> {
    set j: nat | from <= j < |t| && OccursAt(c, a, t, j)
  }

  predicate OccursAt(c: Counted, a: Octet, t: seq<Frame>, j: nat)
    requires j < |t|
  {
    Occurs(c, a, t[..j], t[j])
  }

  datatype Measured = UsageTimeout | MaxMaster | TokenReply | PollReply | DataReply | PostponedReply | TokensPerPoll

  function Maximum(n: Node, m: Measured): Word {
    match m
    case UsageTimeout => n.usageTimeout
    case MaxMaster => n.maxMaster
    case TokenReply => n.tokenReply
    case PollReply => n.pollReply
    case DataReply => n.dataReply
    case PostponedReply => n.postponedReply
    case TokensPerPoll => n.npoll
  }

  /** How many tokens a had received, since position `from`, when it last polled; 0 when it has not. */
  ghost function TokensAtLastPoll(a: Octet, t: seq<Frame>, from: nat): Word {
    if |t| <= from then 0
    else
      var before := t[..|t| - 1];
      if Occurs(Polls, a, before, t[|t| - 1]) then |Occurrences(Received, a, before, from)| % WORD
      else TokensAtLastPoll(a, before, from)
  }

  /** Whether frame f, coming after `past`, is one of those that a maximum is over, for node a. */
  ghost predicate Applies(m: Measured, a: Octet, past: seq<Frame>, f: Frame, from: nat) {
    var p := Previous(past);
    f.src == a &&
    match m
    case UsageTimeout =>
      (f.kind == TOKEN && p.kind == TOKEN && p.src == a && p.dst == f.dst) ||
      (f.kind == TOKEN && p.kind == POLL_FOR_MASTER && p.src == a) ||
      (f.kind == POLL_FOR_MASTER && p.kind == POLL_FOR_MASTER && p.src == a)
    case MaxMaster => f.kind == POLL_FOR_MASTER
    case TokenReply => f.kind == TOKEN && p.kind == TOKEN && p.dst == a && !(p.src == a && p.dst == f.dst)
    case PollReply => f.kind == REPLY_TO_POLL && p.kind == POLL_FOR_MASTER
    case DataReply => f.kind == DATA_NOT_EXPECTING_REPLY && p.kind == DATA_EXPECTING_REPLY && p.dst == a
    case PostponedReply => f.kind == REPLY_POSTPONED && p.kind == DATA_EXPECTING_REPLY && p.dst == a
    case TokensPerPoll => f.kind == POLL_FOR_MASTER && TokensAtLastPoll(a, past, from) != 0
  }

  ghost function Measurement(m: Measured, a: Octet, past: seq<Frame>, f: Frame, from: nat): Word {
    match m
    case MaxMaster => f.dst
    case TokensPerPoll => (|Occurrences(Received, a, past, from)| - TokensAtLastPoll(a, past, from)) % WORD
    case _ => Elapsed(Previous(past), f)
  }

  ghost predicate AppliesAt(m: Measured, a: Octet, t: seq<Frame>, from: nat, j: nat)
    requires j < |t|
  {
    Applies(m, a, t[..j], t[j], from)
  }

  ghost function MeasurementAt(m: Measured, a: Octet, t: seq<Frame>, from: nat, j: nat): Word
    requires j < |t|
  {
    Measurement(m, a, t[..j], t[j], from)
  }

  /** v is the largest measurement, and 0 when there is none. */
  ghost predicate IsMaximum(v: Word, m: Measured, a: Octet, t: seq<Frame>, from: nat) {
    && (forall j :: from <= j < |t| && AppliesAt(m, a, t, from, j) ==> MeasurementAt(m, a, t, from, j) <= v)
    && (v != 0 ==> exists j :: from <= j < |t| && AppliesAt(m, a, t, from, j) && MeasurementAt(m, a, t, from, j) == v)
  }

  /** The device number in a's last I-Am. */
  function LastIAm(a: Octet, t: seq<Frame>, from: nat): Word {
    if |t| <= from then 0xFFFF_FFFF
    else
      var f := t[|t| - 1];
      if f.kind == DATA_NOT_EXPECTING_REPLY && f.src == a && f.iAm.Some? then f.iAm.value
      else LastIAm(a, t[..|t| - 1], from)
  }

  ghost predicate CountersRight(n: Node, a: Octet, t: seq<Frame>, from: nat) {
    forall c :: Counter(n, c) == |Occurrences(c, a, t, from)| % WORD
  }

  ghost predicate MaximaRight(n: Node, a: Octet, t: seq<Frame>, from: nat) {
    forall m :: IsMaximum(Maximum(n, m), m, a, t, from)
  }

  /** n is what the definitions say about node a, over the frames from position `from` on. */
  ghost predicate Summarises(n: Node, a: Octet, t: seq<Frame>, from: nat) {
    && CountersRight(n, a, t, from)
    && MaximaRight(n, a, t, from)
    && n.lastPollTokens == TokensAtLastPoll(a, t, from)
    && n.device == LastIAm(a, t, from)
  }

  // ---------------------------------------------------------------------------------
  // One frame, seen from one node
  // ---------------------------------------------------------------------------------

  function Inc(w: Word): Word { (w + 1) % WORD }

  function Max(w: Word, v: Word): Word { if v > w then v else w }

  /** What one frame does to the record of node a; p is the frame before, `tokenTo` the old_token_dst. */
  function NodeStep(n: Node, a: Octet, p: Frame, tokenTo: Octet, f: Frame): Node {
    var n1 := if f.kind == TOKEN && f.dst == a then n.(received := Inc(n.received)) else n;
    var n2 :=
      if f.kind == TOKEN && p.kind == TOKEN && p.dst == f.dst && p.src == f.src && f.dst == a then
        n1.(retries := Inc(n1.retries))
      else n1;
    if f.src == a then SenderStep(n2, p, tokenTo, f) else n2
  }

  function SenderStep(n: Node, p: Frame, tokenTo: Octet, f: Frame): Node {
    var d := Elapsed(p, f);
    if f.kind == TOKEN then
      var n := n.(tokens := Inc(n.tokens),
                  selfTokens := if f.src == f.dst then Inc(n.selfTokens) else n.selfTokens,
                  outOfOrder := if tokenTo != f.src then Inc(n.outOfOrder) else n.outOfOrder);
      if p.kind == TOKEN then
        if p.dst == f.dst && p.src == f.src then n.(usageTimeout := Max(n.usageTimeout, d))
        else if p.dst == f.src then n.(tokenReply := Max(n.tokenReply, d))
        else n
      else if p.kind == POLL_FOR_MASTER && p.src == f.src then n.(usageTimeout := Max(n.usageTimeout, d))
      else n
    else if f.kind == POLL_FOR_MASTER then
      n.(npoll := if n.lastPollTokens != 0 then Max(n.npoll, (n.received - n.lastPollTokens) % WORD) else n.npoll,
         lastPollTokens := n.received,
         polls := Inc(n.polls),
         maxMaster := if f.dst > n.maxMaster then f.dst else n.maxMaster,
         usageTimeout := if p.kind == POLL_FOR_MASTER && p.src == f.src then Max(n.usageTimeout, d) else n.usageTimeout)
    else if f.kind == REPLY_TO_POLL then
      n.(pollReplies := Inc(n.pollReplies),
         pollReply := if p.kind == POLL_FOR_MASTER then Max(n.pollReply, d) else n.pollReply)
    else if f.kind == TEST_REQUEST then n.(testRequests := Inc(n.testRequests))
    else if f.kind == TEST_RESPONSE then n.(testResponses := Inc(n.testResponses))
    else if f.kind == DATA_EXPECTING_REPLY then n.(expecting := Inc(n.expecting))
    else if f.kind == DATA_NOT_EXPECTING_REPLY then
      n.(notExpecting := Inc(n.notExpecting),
         dataReply := if p.kind == DATA_EXPECTING_REPLY && p.dst == f.src then Max(n.dataReply, d) else n.dataReply,
         device := if f.iAm.Some? then f.iAm.value else n.device)
    else if f.kind == REPLY_POSTPONED then
      n.(postponed := Inc(n.postponed),
         postponedReply :=
           if p.kind == DATA_EXPECTING_REPLY && p.dst == f.src then Max(n.postponedReply, d) else n.postponedReply)
    else n
  }

  lemma OccurrencesStep(c: Counted, a: Octet, t: seq<Frame>, from: nat, f: Frame)
    requires from <= |t|
    ensures |Occurrences(c, a, t + [f], from)| == |Occurrences(c, a, t, from)| + if Occurs(c, a, t, f) then 1 else 0
  {
    var t' := t + [f];
    assert t'[..|t|] == t;
    assert OccursAt(c, a, t', |t|) == Occurs(c, a, t, f);
    forall j | 0 <= j < |t| ensures OccursAt(c, a, t', j) == OccursAt(c, a, t, j) {
      assert t'[..j] == t[..j];
    }
    var s, s' := Occurrences(c, a, t, from), Occurrences(c, a, t', from);
    assert s' == if Occurs(c, a, t, f) then s + {|t|} else s;
  }

  lemma MaximumStep(v: Word, m: Measured, a: Octet, t: seq<Frame>, from: nat, f: Frame)
    requires from <= |t| && IsMaximum(v, m, a, t, from)
    ensures var v' := if Applies(m, a, t, f, from) then Max(v, Measurement(m, a, t, f, from)) else v;
            IsMaximum(v', m, a, t + [f], from)
  {
    var t' := t + [f];
    assert t'[..|t|] == t;
    assert AppliesAt(m, a, t', from, |t|) == Applies(m, a, t, f, from);
    assert MeasurementAt(m, a, t', from, |t|) == Measurement(m, a, t, f, from);
    forall j | 0 <= j < |t|
      ensures AppliesAt(m, a, t', from, j) == AppliesAt(m, a, t, from, j)
      ensures MeasurementAt(m, a, t', from, j) == MeasurementAt(m, a, t, from, j)
    {
      assert t'[..j] == t[..j];
    }
    if v != 0 {
      var j :| from <= j < |t| && AppliesAt(m, a, t, from, j) && MeasurementAt(m, a, t, from, j) == v;
      assert AppliesAt(m, a, t', from, j) && MeasurementAt(m, a, t', from, j) == v;
    }
  }

  lemma CounterStep(n: Node, a: Octet, past: seq<Frame>, f: Frame, c: Counted)
    ensures Counter(NodeStep(n, a, Previous(past), LastTokenTo(past), f), c) ==
            if Occurs(c, a, past, f) then Inc(Counter(n, c)) else Counter(n, c)
  {
  }

  lemma MeasureStep(n: Node, a: Octet, past: seq<Frame>, from: nat, f: Frame, m: Measured)
    requires n.lastPollTokens == TokensAtLastPoll(a, past, from) &&
      n.received == |Occurrences(Received, a, past, from)| % WORD
    ensures Maximum(NodeStep(n, a, Previous(past), LastTokenTo(past), f), m) ==
            if Applies(m, a, past, f, from) then Max(Maximum(n, m), Measurement(m, a, past, f, from)) else Maximum(n, m)
  {
    if f.src == a {
      var p := Previous(past);
      var n1 := if f.kind == TOKEN && f.dst == a then n.(received := Inc(n.received)) else n;
      var again := f.kind == TOKEN && p.kind == TOKEN && p.dst == f.dst && p.src == f.src && f.dst == a;
      var n2 := if again then n1.(retries := Inc(n1.retries)) else n1;
      assert Maximum(n2, m) == Maximum(n, m);
      assert NodeStep(n, a, p, LastTokenTo(past), f) == SenderStep(n2, p, LastTokenTo(past), f);
      SenderMeasure(n2, past, from, f, m);
    }
  }

  lemma SenderMeasure(n: Node, past: seq<Frame>, from: nat, f: Frame, m: Measured)
    requires f.kind == POLL_FOR_MASTER ==>
               && n.lastPollTokens == TokensAtLastPoll(f.src, past, from)
               && n.received == |Occurrences(Received, f.src, past, from)| % WORD
    ensures Maximum(SenderStep(n, Previous(past), LastTokenTo(past), f), m) ==
            if Applies(m, f.src, past, f, from) then Max(Maximum(n, m), Measurement(m, f.src, past, f, from))
            else Maximum(n, m)
  {
    match m {
      case TokensPerPoll =>
        if f.kind == POLL_FOR_MASTER {
          ModDifference(|Occurrences(Received, f.src, past, from)|, n.lastPollTokens);
        }
      case _ =>
    }
  }

  lemma ModDifference(a: nat, b: int)
    ensures (a % WORD - b) % WORD == (a - b) % WORD
  {
  }

  lemma CountersStep(n: Node, a: Octet, t: seq<Frame>, from: nat, f: Frame, n': Node)
    requires from <= |t| && CountersRight(n, a, t, from) && n' == NodeStep(n, a, Previous(t), LastTokenTo(t), f)
    ensures CountersRight(n', a, t + [f], from)
  {
    forall c ensures Counter(n', c) == |Occurrences(c, a, t + [f], from)| % WORD {
      CounterStep(n, a, t, f, c);
      CountedStep(Counter(n, c), c, a, t, from, f);
    }
  }

  lemma CountedStep(w: Word, c: Counted, a: Octet, t: seq<Frame>, from: nat, f: Frame)
    requires from <= |t| && w == |Occurrences(c, a, t, from)| % WORD
    ensures (if Occurs(c, a, t, f) then Inc(w) else w) == |Occurrences(c, a, t + [f], from)| % WORD
  {
    OccurrencesStep(c, a, t, from, f);
    AddMod(w, |Occurrences(c, a, t, from)|, 1);
  }

  lemma MaximaStep(n: Node, a: Octet, t: seq<Frame>, from: nat, f: Frame, n': Node)
    requires from <= |t| && MaximaRight(n, a, t, from) && n' == NodeStep(n, a, Previous(t), LastTokenTo(t), f)
    requires n.lastPollTokens == TokensAtLastPoll(a, t, from) &&
      n.received == |Occurrences(Received, a, t, from)| % WORD
    ensures MaximaRight(n', a, t + [f], from)
  {
    forall m ensures IsMaximum(Maximum(n', m), m, a, t + [f], from) {
      MaximumStep(Maximum(n, m), m, a, t, from, f);
      MeasureStep(n, a, t, from, f, m);
    }
  }

  lemma MarksStep(n: Node, a: Octet, t: seq<Frame>, from: nat, f: Frame, n': Node)
    requires from <= |t| && n' == NodeStep(n, a, Previous(t), LastTokenTo(t), f)
    requires n.lastPollTokens == TokensAtLastPoll(a, t, from) &&
      n.received == |Occurrences(Received, a, t, from)| % WORD
    requires n.device == LastIAm(a, t, from)
    ensures n'.lastPollTokens == TokensAtLastPoll(a, t + [f], from) && n'.device == LastIAm(a, t + [f], from)
  {
    assert (t + [f])[..|t|] == t;
  }

  /** Keeping the records up to date frame by frame gives what the whole-trace definitions give. */
  lemma NodeStepSummarises(n: Node, a: Octet, t: seq<Frame>, from: nat, f: Frame)
    requires from <= |t| && Summarises(n, a, t, from)
    ensures Summarises(NodeStep(n, a, Previous(t), LastTokenTo(t), f), a, t + [f], from)
  {
    var n' := NodeStep(n, a, Previous(t), LastTokenTo(t), f);
    CountersStep(n, a, t, from, f, n');
    assert n.received == Counter(n, Received);
    MaximaStep(n, a, t, from, f, n');
    MarksStep(n, a, t, from, f, n');
  }

  lemma ClearedSummarises(a: Octet, t: seq<Frame>)
    ensures Summarises(CLEARED, a, t, |t|)
  {
    forall c ensures Counter(CLEARED, c) == |Occurrences(c, a, t, |t|)| % WORD {
      assert Occurrences(c, a, t, |t|) == {};
    }
    forall m ensures IsMaximum(Maximum(CLEARED, m), m, a, t, |t|) {
    }
  }

  /** Node a's record after a whole trace, kept frame by frame. */
  function Kept(a: Octet, t: seq<Frame>): Node {
    if t == [] then CLEARED
    else
      var past := t[..|t| - 1];
      NodeStep(Kept(a, past), a, Previous(past), LastTokenTo(past), t[|t| - 1])
  }

  /** After any sequence of frames the statistics kept frame by frame are the whole-trace statistics. */
  lemma {:induction false} IncrementalIsBatch(a: Octet, t: seq<Frame>)
    ensures Summarises(Kept(a, t), a, t, 0)
  {
    if t == [] {
      ClearedSummarises(a, t);
    } else {
      var past := t[..|t| - 1];
      IncrementalIsBatch(a, past);
      assert t == past + [t[|t| - 1]];
      NodeStepSummarises(Kept(a, past), a, past, 0, t[|t| - 1]);
    }
  }

  // ---------------------------------------------------------------------------------
  // What the times and counts mean
  // ---------------------------------------------------------------------------------

  /** The time from one frame to a later one, in microseconds. */
  function Micros(earlier: Frame, now: Frame): int {
    (now.sec - earlier.sec) * 1_000_000 + now.usec - earlier.usec
  }

  predicate OnClock(f: Frame) { 0 <= f.usec < 1_000_000 }

  /** The elapsed time is the time that passed, to less than a millisecond, as long as its milliseconds fit 32 bits. */
  lemma ElapsedIsTime(earlier: Frame, now: Frame)
    requires OnClock(earlier) && OnClock(now) && 0 <= Micros(earlier, now) <= 0xFFFF_FFFF * 1000
    ensures -1000 < Micros(earlier, now) - 1000 * Elapsed(earlier, now) < 1000
  {
    NotWrapped(earlier, now);
    TruncatedNear(now.usec - earlier.usec);
  }

  lemma TruncatedNear(x: int)
    ensures -1000 < x - 1000 * Truncated(x, 1000) < 1000
    ensures x >= 0 ==> 1000 * Truncated(x, 1000) <= x
    ensures x < 0 ==> x <= 1000 * Truncated(x, 1000) <= 0
  {
  }

  /** And of two later frames, the later one is not measured shorter. */
  lemma ElapsedMonotone(earlier: Frame, now: Frame, later: Frame)
    requires OnClock(earlier) && OnClock(now) && OnClock(later)
    requires 0 <= Micros(earlier, now) <= Micros(earlier, later) <= 0xFFFF_FFFF * 1000
    ensures Elapsed(earlier, now) <= Elapsed(earlier, later)
  {
    NotWrapped(earlier, now);
    NotWrapped(earlier, later);
    assert now.sec <= later.sec;
    if now.sec == later.sec {
      TruncatedMonotone(now.usec - earlier.usec, later.usec - earlier.usec);
    } else {
      NextSecond(earlier.usec, now.usec, later.usec);
    }
  }

  lemma NotWrapped(earlier: Frame, now: Frame)
    requires OnClock(earlier) && OnClock(now) && 0 <= Micros(earlier, now) <= 0xFFFF_FFFF * 1000
    ensures Elapsed(earlier, now) == (now.sec - earlier.sec) * 1000 + Truncated(now.usec - earlier.usec, 1000)
  {
    TruncatedNear(now.usec - earlier.usec);
  }

  lemma TruncatedMonotone(a: int, b: int)
    requires a <= b
    ensures Truncated(a, 1000) <= Truncated(b, 1000)
  {
  }

  lemma NextSecond(e: int, n: int, l: int)
    requires 0 <= e < 1_000_000 && 0 <= n < 1_000_000 && 0 <= l < 1_000_000
    ensures Truncated(n - e, 1000) <= 1000 + Truncated(l - e, 1000)
  {
    var a, b := n - e, l - e;
    assert a <= 999_999 - e && b >= -e;
    assert Truncated(a, 1000) <= (999_999 - e) / 1000;
    assert Truncated(b, 1000) >= -(e / 1000);
  }

  /** Frames in the order of their time stamps, with gaps whose milliseconds fit 32 bits. */
  ghost predicate InTime(t: seq<Frame>) {
    && (forall j :: 0 <= j < |t| ==> OnClock(t[j]))
    && (forall j, k :: 0 <= j && k == j + 1 && k < |t| ==> 0 <= Micros(t[j], t[k]) <= 0xFFFF_FFFF * 1000)
  }

  predicate IsTiming(m: Measured) { m != MaxMaster && m != TokensPerPoll }

  /** So a node's timing maximum bounds the time before every frame that it is over, to a millisecond, and is the time
      before one of them, to a millisecond, unless it is 0. */
  lemma TimingMaximum(n: Node, a: Octet, t: seq<Frame>, from: nat, m: Measured)
    requires Summarises(n, a, t, from) && InTime(t) && IsTiming(m)
    ensures forall j :: from <= j < |t| && AppliesAt(m, a, t, from, j) ==>
              0 < j && Micros(t[j - 1], t[j]) < 1000 * Maximum(n, m) + 1000
    ensures Maximum(n, m) != 0 ==>
              exists j :: from <= j < |t| && AppliesAt(m, a, t, from, j) && 0 < j &&
                -1000 < Micros(t[j - 1], t[j]) - 1000 * Maximum(n, m) < 1000
  {
    assert IsMaximum(Maximum(n, m), m, a, t, from);
    forall j | from <= j < |t| && AppliesAt(m, a, t, from, j)
      ensures 0 < j && Micros(t[j - 1], t[j]) < 1000 * Maximum(n, m) + 1000
      ensures -1000 < Micros(t[j - 1], t[j]) - 1000 * MeasurementAt(m, a, t, from, j) < 1000
    {
      MeasuredTime(a, t, from, m, j);
    }
  }

  lemma MeasuredTime(a: Octet, t: seq<Frame>, from: nat, m: Measured, j: nat)
    requires InTime(t) && IsTiming(m) && from <= j < |t| && AppliesAt(m, a, t, from, j)
    ensures 0 < j && -1000 < Micros(t[j - 1], t[j]) - 1000 * MeasurementAt(m, a, t, from, j) < 1000
  {
    assert 0 < j;
    var i := j - 1;
    assert Previous(t[..j]) == t[i];
    ElapsedIsTime(t[i], t[j]);
  }

  /** The counters of what a node sends, one for each type of frame. */
  function SentCounter(kind: Octet): Counted
    requires kind <= 7
  {
    match kind
    case 0 => Tokens
    case 1 => Polls
    case 2 => PollReplies
    case 3 => TestRequests
    case 4 => TestResponses
    case 5 => Expecting
    case 6 => NotExpecting
    case 7 => Postponed
  }

  /** Every frame of a known type counts once, under its type, for the node that sent it, and for no other. */
  lemma CountedOnceForSender(a: Octet, kind: Octet, past: seq<Frame>, f: Frame)
    requires kind <= 7
    ensures Occurs(SentCounter(kind), a, past, f) <==> f.kind == kind && f.src == a
  {
  }

  function At(kind: Octet, src: Octet, dst: Octet): Frame { Frame(kind, src, dst, 0, 0, None) }

  const PASS := At(0, 1, 2)

  /** Some frames and what they count for: a token from 1 to 2; the same again; and answers to it. */
  lemma FrameExamples()
    // 1 repeats its token: a retry for 2, the usage timeout of 1, and out of order, since 2 has the token
    ensures forall a: Octet :: Occurs(Retries, a, [PASS], PASS) <==> a == 2
    ensures forall a: Octet :: Applies(UsageTimeout, a, [PASS], PASS, 0) <==> a == 1
    ensures forall a: Octet :: Occurs(OutOfOrder, a, [PASS], PASS) <==> a == 1
    ensures forall a: Octet :: Occurs(Received, a, [PASS], PASS) <==> a == 2
    // 2 passes the token back: its token reply, and in order
    ensures forall a: Octet :: Applies(TokenReply, a, [PASS], At(0, 2, 1), 0) <==> a == 2
    ensures forall a: Octet :: !Occurs(OutOfOrder, a, [PASS], At(0, 2, 1))
    // 5 passes the token to itself
    ensures forall a: Octet :: Occurs(SelfTokens, a, [PASS], At(0, 5, 5)) <==> a == 5
    // 3 answers a poll; 4 answers data from 3, or puts it off
    ensures forall a: Octet :: Applies(PollReply, a, [At(1, 1, 3)], At(2, 3, 1), 0) <==> a == 3
    ensures forall a: Octet :: Applies(DataReply, a, [At(5, 3, 4)], At(6, 4, 3), 0) <==> a == 4
    ensures forall a: Octet :: Applies(PostponedReply, a, [At(5, 3, 4)], At(7, 4, 3), 0) <==> a == 4
    ensures forall a: Octet :: !Applies(DataReply, a, [At(5, 3, 4)], At(6, 3, 4), 0)
    // a poll for 127 after a poll from the same node
    ensures forall a: Octet :: Applies(UsageTimeout, a, [At(1, 1, 3)], At(1, 1, 127), 0) <==> a == 1
    ensures forall a: Octet :: Applies(MaxMaster, a, [], At(1, 1, 127), 0) <==> a == 1
    ensures Measurement(MaxMaster, 1, [], At(1, 1, 127), 0) == 127
    ensures Elapsed(Frame(1, 1, 3, 10, 0, None), Frame(2, 3, 1, 10, 5000, None)) == 5
  {
    assert LastTokenTo([PASS]) == 2;
  }

  /** A node that is passed one token, polls, is passed two more and polls again, has had two tokens between its polls;
      the first poll measures nothing. */
  lemma PollExample()
    ensures var first := [Frame(0, 2, 1, 0, 0, None)];
            var poll := Frame(1, 1, 9, 0, 0, None);
            var t := first + [poll] + first + first;
            && !Applies(TokensPerPoll, 1, first, poll, 0)
            && Applies(TokensPerPoll, 1, t, poll, 0) && Measurement(TokensPerPoll, 1, t, poll, 0) == 2
  {
    var token, poll := Frame(0, 2, 1, 0, 0, None), Frame(1, 1, 9, 0, 0, None);
    var t1 := [token];
    var t2 := t1 + [poll];
    var t3 := t2 + [token];
    var t4 := t3 + [token];
    assert [] + [token] == t1 && Occurrences(Received, 1, [], 0) == {};
    OccurrencesStep(Received, 1, [], 0, token);
    OccurrencesStep(Received, 1, t1, 0, poll);
    OccurrencesStep(Received, 1, t2, 0, token);
    OccurrencesStep(Received, 1, t3, 0, token);
    assert t1[..0] == [] && t2[..1] == t1 && t3[..2] == t2 && t4[..3] == t3;
    assert TokensAtLastPoll(1, t1, 0) == 0;
    assert TokensAtLastPoll(1, t2, 0) == 1;
    assert TokensAtLastPoll(1, t3, 0) == 1;
    assert TokensAtLastPoll(1, t4, 0) == 1;
    assert |Occurrences(Received, 1, t4, 0)| == 3;
  }

  /** The device number is that of the node's own last I-Am in data that expects no reply. */
  lemma DeviceExample(t: seq<Frame>, from: nat, a: Octet, f: Frame)
    requires from <= |t|
    ensures LastIAm(a, t + [f], from) ==
            if f.kind == 6 && f.src == a && f.iAm.Some? then f.iAm.value else LastIAm(a, t, from)
    ensures LastIAm(a, t, |t|) == 0xFFFF_FFFF
  {
    assert (t + [f])[..|t|] == t;
  }

  // ---------------------------------------------------------------------------------
  // Conservation
  // ---------------------------------------------------------------------------------

  /** How many frames from position `from` on count for any of the nodes below k. */
  ghost function Total(c: Counted, t: seq<Frame>, from: nat, k: nat): nat
    requires k <= 256
  {
    if k == 0 then 0 else Total(c, t, from, k - 1) + |Occurrences(c, k - 1, t, from)|
  }

  /** Which node a token counts for, as sent or as received. */
  function TokenNode(c: Counted, f: Frame): Octet { if c == Received then f.dst else f.src }

  lemma {:induction false} TotalStep(c: Counted, t: seq<Frame>, from: nat, f: Frame, k: nat)
    requires from <= |t| && k <= 256 && (c == Tokens || c == Received)
    ensures Total(c, t + [f], from, k) == Total(c, t, from, k) + if f.kind == TOKEN && TokenNode(c, f) < k then 1 else 0
  {
    if k > 0 {
      TotalStep(c, t, from, f, k - 1);
      OccurrencesStep(c, k - 1, t, from, f);
    }
  }

  lemma {:induction false} TotalAtStart(c: Counted, t: seq<Frame>, k: nat)
    requires k <= 256
    ensures Total(c, t, |t|, k) == 0
  {
    if k > 0 {
      TotalAtStart(c, t, k - 1);
      assert Occurrences(c, k - 1, t, |t|) == {};
    }
  }

  /** Over any stretch of any trace, all nodes together pass as many tokens as they receive. */
  lemma {:induction false} TokensConserved(t: seq<Frame>, from: nat)
    requires from <= |t|
    ensures Total(Tokens, t, from, 256) == Total(Received, t, from, 256)
    decreases |t|
  {
    if |t| == from {
      TotalAtStart(Tokens, t, 256);
      TotalAtStart(Received, t, 256);
    } else {
      var past, f := t[..|t| - 1], t[|t| - 1];
      assert t == past + [f];
      TokensConserved(past, from);
      TotalStep(Tokens, past, from, f, 256);
      TotalStep(Received, past, from, f, 256);
    }
  }

  /** The sum of one counter over the nodes below k. */
  function Sum(c: Counted, nodes: seq<Node>, k: nat): nat
    requires k <= |nodes|
  {
    if k == 0 then 0 else Sum(c, nodes, k - 1) + Counter(nodes[k - 1], c)
  }

  ghost predicate AllSummarise(nodes: seq<Node>, t: seq<Frame>, from: nat) {
    |nodes| == 256 && forall a :: 0 <= a < 256 ==> Summarises(nodes[a], a, t, from)
  }

  lemma {:induction false} SumIsTotal(c: Counted, nodes: seq<Node>, t: seq<Frame>, from: nat, k: nat)
    requires AllSummarise(nodes, t, from) && k <= 256
    ensures Sum(c, nodes, k) <= Total(c, t, from, k)
    ensures Sum(c, nodes, k) % WORD == Total(c, t, from, k) % WORD
    ensures Total(c, t, from, k) < WORD ==> Sum(c, nodes, k) == Total(c, t, from, k)
  {
    if k > 0 {
      SumIsTotal(c, nodes, t, from, k - 1);
      assert Summarises(nodes[k - 1], k - 1, t, from);
      assert Counter(nodes[k - 1], c) == |Occurrences(c, k - 1, t, from)| % WORD;
      AddMod(Sum(c, nodes, k - 1), Total(c, t, from, k - 1), |Occurrences(c, k - 1, t, from)|);
    }
  }

  lemma AddMod(s: nat, u: nat, v: nat)
    requires s % WORD == u % WORD
    ensures (s + v % WORD) % WORD == (u + v) % WORD
    ensures v % WORD <= v && (v < WORD ==> v % WORD == v)
  {
  }

  /** So the reported counters sum to the same number modulo 2^32, and exactly when the counters have not wrapped. */
  lemma ReportedTokensConserved(nodes: seq<Node>, t: seq<Frame>, from: nat)
    requires from <= |t| && AllSummarise(nodes, t, from)
    ensures Sum(Tokens, nodes, 256) % WORD == Sum(Received, nodes, 256) % WORD
    ensures |t| - from < WORD ==> Sum(Tokens, nodes, 256) == Sum(Received, nodes, 256)
  {
    TokensConserved(t, from);
    SumIsTotal(Tokens, nodes, t, from, 256);
    SumIsTotal(Received, nodes, t, from, 256);
    TotalBound(Tokens, t, from);
  }

  lemma {:induction false} TotalBound(c: Counted, t: seq<Frame>, from: nat)
    requires from <= |t| && (c == Tokens || c == Received)
    ensures Total(c, t, from, 256) <= |t| - from
    decreases |t|
  {
    if |t| == from {
      TotalAtStart(c, t, 256);
    } else {
      var past, f := t[..|t| - 1], t[|t| - 1];
      assert t == past + [f];
      TotalBound(c, past, from);
      TotalStep(c, past, from, f, 256);
    }
  }

  // ---------------------------------------------------------------------------------
  // The statistics as they are kept
  // ---------------------------------------------------------------------------------

  /** The 256 records and the static old_ variables; `trace` and `from` are history. */
  class Monitor {
    var stats: array<Node>
    var oldSec: int
    var oldUsec: int
    var oldFrame: Octet
    var oldSrc: Octet
    var oldDst: Octet
    var oldTokenDst: Octet
    ghost var trace: seq<Frame>
    ghost var from: nat

    ghost predicate Remembers()
      reads this
    {
      var p := Previous(trace);
      && oldFrame == p.kind && oldSrc == p.src && oldDst == p.dst && oldSec == p.sec && oldUsec == p.usec
      && oldTokenDst == LastTokenTo(trace)
    }

    ghost predicate Valid()
      reads this, stats
    {
      stats.Length == 256 && from <= |trace| && Remembers() && AllSummarise(stats[..], trace, from)
    }

    constructor ()
      ensures Valid() && trace == [] && fresh(stats)
    {
      stats := new Node[256](_ => CLEARED);
      oldSec, oldUsec, oldFrame, oldSrc, oldDst, oldTokenDst := 0, 0, 255, 255, 255, 255;
      trace, from := [], 0;
      new;
      forall a | 0 <= a < 256 ensures Summarises(stats[a], a, trace, from) {
        ClearedSummarises(a, trace);
      }
    }

    /** packet_statistics_clear: the records start over, the old_ variables do not. */
    method Clear()
      requires Valid()
      modifies this`from, stats
      ensures Valid() && from == |trace| && forall a :: 0 <= a < 256 ==> stats[a] == CLEARED
    {
      from := |trace|;
      for i := 0 to 256
        invariant Remembers() && stats.Length == 256 && from == |trace|
        invariant forall a :: 0 <= a < i ==> stats[a] == CLEARED
      {
        stats[i] := CLEARED;
      }
      forall a | 0 <= a < 256 ensures Summarises(stats[a], a, trace, from) {
        ClearedSummarises(a, trace);
      }
    }

    /** packet_statistics. */
    method Packet(f: Frame)
      requires Valid()
      modifies this, stats
      ensures Valid() && trace == old(trace) + [f] && from == old(from) && stats == old(stats)
    {
      ghost var before := stats[..];
      Count(f);
      oldDst, oldSrc, oldFrame, oldSec, oldUsec := f.dst, f.src, f.kind, f.sec, f.usec;
      if f.kind == TOKEN {
        oldTokenDst := f.dst;
      }
      trace := trace + [f];
      assert trace[..|trace| - 1] == old(trace);
      forall a | 0 <= a < 256 ensures Summarises(stats[a], a, trace, from) {
        NodeStepSummarises(before[a], a, old(trace), from, f);
      }
    }

    /** The switch over the frame type, updating the sender's and a token receiver's records in place. */
    method Count(f: Frame)
      requires stats.Length == 256 && Remembers()
      modifies stats
      ensures forall a :: 0 <= a < 256 ==>
        stats[a] == NodeStep(old(stats[a]), a, Previous(trace), LastTokenTo(trace), f)
    {
      if f.kind == TOKEN {
        CountToken(f);
      } else if f.kind == POLL_FOR_MASTER {
        CountPoll(f);
      } else if f.kind == REPLY_TO_POLL || f.kind == REPLY_POSTPONED {
        CountReply(f);
      } else if f.kind == TEST_REQUEST || f.kind == TEST_RESPONSE {
        CountTest(f);
      } else if f.kind == DATA_EXPECTING_REPLY || f.kind == DATA_NOT_EXPECTING_REPLY {
        CountData(f);
      }
    }

    /** A token: the sender and the receiver, who may be the same. */
    method CountToken(f: Frame)
      requires stats.Length == 256 && Remembers() && f.kind == TOKEN
      modifies stats
      ensures forall a :: 0 <= a < 256 ==>
        stats[a] == NodeStep(old(stats[a]), a, Previous(trace), LastTokenTo(trace), f)
    {
      var src, dst := f.src, f.dst;
      var d := Elapsed(Frame(oldFrame, oldSrc, oldDst, oldSec, oldUsec, None), f);
      stats[src] := stats[src].(tokens := Inc(stats[src].tokens));
      stats[dst] := stats[dst].(received := Inc(stats[dst].received));
      if src == dst {
        stats[src] := stats[src].(selfTokens := Inc(stats[src].selfTokens));
      }
      if oldFrame == TOKEN {
        if oldDst == dst && oldSrc == src {
          stats[dst] := stats[dst].(retries := Inc(stats[dst].retries));
          if d > stats[src].usageTimeout {
            stats[src] := stats[src].(usageTimeout := d);
          }
        } else if oldDst == src {
          if d > stats[src].tokenReply {
            stats[src] := stats[src].(tokenReply := d);
          }
        }
      } else if oldFrame == POLL_FOR_MASTER && oldSrc == src {
        if d > stats[src].usageTimeout {
          stats[src] := stats[src].(usageTimeout := d);
        }
      }
      if oldTokenDst != src {
        stats[src] := stats[src].(outOfOrder := Inc(stats[src].outOfOrder));
      }
    }

    /** A poll for a master. */
    method CountPoll(f: Frame)
      requires stats.Length == 256 && Remembers() && f.kind == POLL_FOR_MASTER
      modifies stats
      ensures forall a :: 0 <= a < 256 ==>
        stats[a] == NodeStep(old(stats[a]), a, Previous(trace), LastTokenTo(trace), f)
    {
      var src, dst := f.src, f.dst;
      var d := Elapsed(Frame(oldFrame, oldSrc, oldDst, oldSec, oldUsec, None), f);
      if stats[src].lastPollTokens != 0 {
        var npoll: Word := (stats[src].received - stats[src].lastPollTokens) % WORD;
        if npoll > stats[src].npoll {
          stats[src] := stats[src].(npoll := npoll);
        }
      }
      stats[src] := stats[src].(lastPollTokens := stats[src].received);
      stats[src] := stats[src].(polls := Inc(stats[src].polls));
      if dst > stats[src].maxMaster {
        stats[src] := stats[src].(maxMaster := dst);
      }
      if oldFrame == POLL_FOR_MASTER && oldSrc == src {
        if d > stats[src].usageTimeout {
          stats[src] := stats[src].(usageTimeout := d);
        }
      }
    }

    /** A reply to a poll, or a postponed reply. */
    method CountReply(f: Frame)
      requires stats.Length == 256 && Remembers() && (f.kind == REPLY_TO_POLL || f.kind == REPLY_POSTPONED)
      modifies stats
      ensures forall a :: 0 <= a < 256 ==>
        stats[a] == NodeStep(old(stats[a]), a, Previous(trace), LastTokenTo(trace), f)
    {
      var src := f.src;
      var d := Elapsed(Frame(oldFrame, oldSrc, oldDst, oldSec, oldUsec, None), f);
      if f.kind == REPLY_TO_POLL {
        stats[src] := stats[src].(pollReplies := Inc(stats[src].pollReplies));
        if oldFrame == POLL_FOR_MASTER {
          if d > stats[src].pollReply {
            stats[src] := stats[src].(pollReply := d);
          }
        }
      } else {
        stats[src] := stats[src].(postponed := Inc(stats[src].postponed));
        if oldFrame == DATA_EXPECTING_REPLY && oldDst == src {
          if d > stats[src].postponedReply {
            stats[src] := stats[src].(postponedReply := d);
          }
        }
      }
    }

    /** A test request or response. */
    method CountTest(f: Frame)
      requires stats.Length == 256 && Remembers() && (f.kind == TEST_REQUEST || f.kind == TEST_RESPONSE)
      modifies stats
      ensures forall a :: 0 <= a < 256 ==>
        stats[a] == NodeStep(old(stats[a]), a, Previous(trace), LastTokenTo(trace), f)
    {
      var src := f.src;
      if f.kind == TEST_REQUEST {
        stats[src] := stats[src].(testRequests := Inc(stats[src].testRequests));
      } else {
        stats[src] := stats[src].(testResponses := Inc(stats[src].testResponses));
      }
    }

    /** Data, expecting a reply or not. */
    method CountData(f: Frame)
      requires stats.Length == 256 && Remembers() &&
        (f.kind == DATA_EXPECTING_REPLY || f.kind == DATA_NOT_EXPECTING_REPLY)
      modifies stats
      ensures forall a :: 0 <= a < 256 ==>
        stats[a] == NodeStep(old(stats[a]), a, Previous(trace), LastTokenTo(trace), f)
    {
      var src := f.src;
      var d := Elapsed(Frame(oldFrame, oldSrc, oldDst, oldSec, oldUsec, None), f);
      if f.kind == DATA_EXPECTING_REPLY {
        stats[src] := stats[src].(expecting := Inc(stats[src].expecting));
      } else {
        stats[src] := stats[src].(notExpecting := Inc(stats[src].notExpecting));
        if oldFrame == DATA_EXPECTING_REPLY && oldDst == src {
          if d > stats[src].dataReply {
            stats[src] := stats[src].(dataReply := d);
          }
        }
        if f.iAm.Some? {
          stats[src] := stats[src].(device := f.iAm.value);
        }
      }
    }
  }
}
