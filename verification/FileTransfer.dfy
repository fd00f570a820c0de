/** Chunked file transfer: the AtomicWriteFile loop that copies a local file to a server, and the AtomicReadFile loop
    and acknowledgement handler that copy a server's file here. */
module FileTransfer {
  import opened Bacnet

  type Octets = seq<Octet>

  /** A file after writing `data` at `at`, zero-filled when that lies beyond its end. */
  function Overlay(file: Octets, at: nat, data: Octets): Octets {
    var base := if at <= |file| then file else file + seq(at - |file|, _ => 0);
    base[..at] + data + if at + |data| <= |base| then base[at + |data|..] else []
  }

  /** What fread gives at a position: up to count octets, none beyond the end. */
  function Chunk(file: Octets, at: nat, count: nat): Octets {
    if at <= |file| then file[at..Min(at + count, |file|)] else []
  }

  // ---------------------------------------------------------------------------------
  // Chunks
  // ---------------------------------------------------------------------------------

  /** How many chunks a whole file takes: whole ones, and then a short one, which is empty for an exact multiple. */
  function ChunkCount(size: nat, count: nat): nat
    requires count > 0
  {
    if size < count then 1 else 1 + ChunkCount(size - count, count)
  }

  /** Where chunk k starts. */
  function StartOf(k: nat, count: nat): nat {
    if k == 0 then 0 else StartOf(k - 1, count) + count
  }

  /** Where the short chunk starts. */
  function ShortStart(size: nat, count: nat): (start: nat)
    requires count > 0
    ensures start <= size < start + count
  {
    ShortChunkStart(size, count);
    StartOf(ChunkCount(size, count) - 1, count)
  }

  lemma {:induction false} StartWithin(size: nat, count: nat, k: nat)
    requires count > 0 && StartOf(k, count) <= size
    ensures ChunkCount(size, count) == k + ChunkCount(size - StartOf(k, count), count)
  {
    if k > 0 {
      StartWithin(size, count, k - 1);
    }
  }

  ghost predicate WholeChunks(size: nat, count: nat) {
    exists k :: StartOf(k, count) == size
  }

  lemma {:induction false} StartOfGrows(k: nat, l: nat, count: nat)
    requires k <= l && count > 0
    ensures StartOf(k, count) <= StartOf(l, count) && (k < l ==> StartOf(k, count) + count <= StartOf(l, count))
  {
    if k < l {
      StartOfGrows(k, l - 1, count);
    }
  }

  /** The short chunk is empty exactly for a whole number of chunks. */
  lemma ShortChunk(size: nat, count: nat)
    requires count > 0
    ensures ShortStart(size, count) == size <==> WholeChunks(size, count)
  {
    var n := ChunkCount(size, count) - 1;
    if k: nat :| StartOf(k, count) == size {
      if k < n {
        StartOfGrows(k, n, count);
      } else {
        StartOfGrows(n, k, count);
      }
    }
  }

  lemma {:induction false} ShortChunkStart(size: nat, count: nat)
    requires count > 0
    ensures StartOf(ChunkCount(size, count) - 1, count) <= size < StartOf(ChunkCount(size, count) - 1, count) + count
    decreases size
  {
    if size >= count {
      ShortChunkStart(size - count, count);
    }
  }

  // ---------------------------------------------------------------------------------
  // Writing
  // ---------------------------------------------------------------------------------

  /** What becomes of one request: it could not be sent, the server wrote it and acknowledged, or it failed for good,
      having been written or not. */
  datatype Outcome = NotSent | Acknowledged | Failed(performed: bool)

  /** The writing loop's variables and the server's file; `invokeId` is whether the last request was sent, `sent` counts
      the chunks acknowledged. */
  datatype Transfer = Transfer(server: Octets, position: nat, invokeId: bool, eof: bool, error: bool, sent: nat)

  function Begin(server: Octets): Transfer { Transfer(server, 0, false, false, false, 0) }

  /** One pass through the loop: move on if the last chunk was sent, and send the next. The end of the local file is
      noted before it is known whether the chunk can be sent. */
  function SendNext(local: Octets, count: nat, s: Transfer, o: Outcome): Transfer {
    var position := if s.invokeId then s.position + count else s.position;
    var data := Chunk(local, position, count);
    var written := o == Acknowledged || o == Failed(true);
    Transfer(if written then Overlay(s.server, position, data) else s.server, position, o != NotSent, |data| < count,
             o.Failed?, if o == Acknowledged then s.sent + 1 else s.sent)
  }

  /** The loop against a sequence of outcomes: it stops at the end of the file, at an error, or when none is left. */
  function Run(local: Octets, count: nat, s: Transfer, outcomes: seq<Outcome>): Transfer
    decreases |outcomes|
  {
    if outcomes == [] || s.eof || s.error then s
    else Run(local, count, SendNext(local, count, s, outcomes[0]), outcomes[1..])
  }

  /** The outcome of the request that ends the file, n whole chunks from here: chunks that could not be sent are tried
      again, and a failure ends the loop before. */
  function LastOutcome(n: nat, outcomes: seq<Outcome>): Option<Outcome>
    decreases |outcomes|
  {
    if outcomes == [] then None
    else if n == 0 then Some(outcomes[0])
    else match outcomes[0]
      case NotSent => LastOutcome(n, outcomes[1..])
      case Acknowledged => LastOutcome(n - 1, outcomes[1..])
      case Failed(_) => None
  }

  /** The server's file when the first m octets of the local file have been written over it. */
  function Copied(local: Octets, server: Octets, m: nat): Octets
    requires m <= |local|
  {
    local[..m] + if m <= |server| then server[m..] else []
  }

  /** Chunks tile: the chunk at the end of what has been copied extends it without gap or overlap. */
  lemma ChunkExtends(local: Octets, server: Octets, at: nat, count: nat)
    requires at <= |local|
    ensures Overlay(Copied(local, server, at), at, Chunk(local, at, count)) ==
      Copied(local, server, Min(at + count, |local|))
  {
  }

  /** The loop has come to chunk k, everything before it has been copied, and it is not past the short chunk. */
  ghost predicate AtChunk(local: Octets, count: nat, server0: Octets, s: Transfer, k: nat) {
    && !s.eof && !s.error && s.sent == k && StartOf(k, count) <= |local|
    && s.position + (if s.invokeId then count else 0) == StartOf(k, count)
    && CopiedTo(local, server0, s.server, StartOf(k, count))
  }

  /** (An equation, so that the verifier passes it on as a whole.) */
  ghost predicate CopiedTo(local: Octets, server0: Octets, server: Octets, m: nat) {
    (m <= |local| && server == Copied(local, server0, m)) == true
  }

  lemma LastChunkIff(size: nat, count: nat, k: nat)
    requires count > 0 && StartOf(k, count) <= size
    ensures k < ChunkCount(size, count)
    ensures size < StartOf(k, count) + count <==> k == ChunkCount(size, count) - 1
  {
    StartWithin(size, count, k);
  }

  /** What the pass for chunk k of n comes to. */
  ghost predicate Passed(local: Octets, count: nat, n: nat, server0: Octets, s: Transfer, k: nat, o: Outcome) {
    && k < n && (s.eof <==> k == n - 1) && s.error == o.Failed? && s.sent == (if o == Acknowledged then k + 1 else k)
    && (!s.error ==> CopiedTo(local, server0, s.server, Min(StartOf(s.sent, count), |local|)))
    && (!s.eof && !s.error ==> AtChunk(local, count, server0, s, s.sent))
  }

  lemma SendNextCopies(local: Octets, count: nat, server0: Octets, s: Transfer, at: nat, o: Outcome)
    requires at <= |local| && s.position + (if s.invokeId then count else 0) == at &&
      CopiedTo(local, server0, s.server, at)
    ensures var s' := SendNext(local, count, s, o);
            && (s'.eof <==> |local| < at + count) && s'.position == at
            && (!o.Failed? ==>
                  CopiedTo(local, server0, s'.server, if o == Acknowledged then Min(at + count, |local|) else at))
  {
    ChunkExtends(local, server0, at, count);
  }

  lemma OnePassed(local: Octets, count: nat, server0: Octets, s: Transfer, k: nat, o: Outcome, s': Transfer)
    requires count > 0 && AtChunk(local, count, server0, s, k) && s' == SendNext(local, count, s, o)
    ensures Passed(local, count, ChunkCount(|local|, count), server0, s', k, o)
  {
    LastChunkIff(|local|, count, k);
    SendNextCopies(local, count, server0, s, StartOf(k, count), o);
    assert s'.sent == if o == Acknowledged then k + 1 else k;
    assert !s'.eof && o == Acknowledged ==> StartOf(k + 1, count) <= |local|;
  }

  /** What a run over n chunks comes to, given what became of the request for the last, the short one. */
  ghost predicate Ended(local: Octets, count: nat, n: nat, server0: Octets, r: Transfer, last: Option<Outcome>) {
    && (r.eof && !r.error <==> last == Some(Acknowledged) || last == Some(NotSent))
    && (!r.error ==> CopiedTo(local, server0, r.server, Min(StartOf(r.sent, count), |local|)))
    && (r.eof && !r.error ==> r.sent == n - if last == Some(Acknowledged) then 0 else 1)
  }

  /** After one pass, with s the state it leads to and r what the rest of the run comes to. */
  lemma OnePass(local: Octets, count: nat, n: nat, server0: Octets, s: Transfer, k: nat, outcomes: seq<Outcome>,
    r: Transfer)
    requires outcomes != [] && Passed(local, count, n, server0, s, k, outcomes[0])
    requires s.eof || s.error ==> r == s
    requires !s.eof && !s.error ==> Ended(local, count, n, server0, r, LastOutcome(n - 1 - s.sent, outcomes[1..]))
    ensures Ended(local, count, n, server0, r, LastOutcome(n - 1 - k, outcomes))
  {
  }

  /** Every run: it reaches the end of the file without error exactly when the request for the short chunk is made and
      does not fail; all chunks are acknowledged then, less the short one if that could not be sent; and without an
      error the server's file is always the local one, over what was there, up to the chunks acknowledged. */
  lemma {:induction false} RunEnds(local: Octets, count: nat, server0: Octets, s: Transfer, k: nat,
    outcomes: seq<Outcome>)
    requires count > 0 && AtChunk(local, count, server0, s, k)
    ensures k < ChunkCount(|local|, count)
    ensures var n := ChunkCount(|local|, count);
            Ended(local, count, n, server0, Run(local, count, s, outcomes), LastOutcome(n - 1 - k, outcomes))
    decreases |outcomes|
  {
    var n := ChunkCount(|local|, count);
    LastChunkIff(|local|, count, k);
    if outcomes != [] {
      var s' := SendNext(local, count, s, outcomes[0]);
      OnePassed(local, count, server0, s, k, outcomes[0], s');
      if !s'.eof && !s'.error {
        RunEnds(local, count, server0, s', s'.sent, outcomes[1..]);
      }
      OnePass(local, count, n, server0, s', k, outcomes, Run(local, count, s', outcomes[1..]));
    }
  }

  /** Given what becomes of the request for the short chunk: when the server's file ends up the local one. Either every
      octet was written, and nothing was there beyond; or the short chunk was not written, and it was there already. */
  ghost predicate EndsUpEqual(local: Octets, count: nat, server0: Octets, last: Outcome)
    requires count > 0
  {
    if last == Acknowledged || WholeChunks(|local|, count) then |server0| <= |local|
    else |server0| == |local| && Tail(server0, local, ShortStart(|local|, count))
  }

  predicate Tail(a: Octets, b: Octets, from: nat)
    requires |a| == |b| && from <= |a|
  {
    a[from..] == b[from..]
  }

  lemma CopiedWhole(local: Octets, server0: Octets, m: nat)
    requires m <= |local|
    ensures Copied(local, server0, m) == local <==>
            if m == |local| then |server0| <= |local| else |server0| == |local| && Tail(server0, local, m)
  {
    var c := Copied(local, server0, m);
    assert c[m..] == if m <= |server0| then server0[m..] else [];
    assert local == local[..m] + local[m..];
  }

  /** For every file, chunk size, old content of the server's file and outcomes: a run that ends without error leaves
      the local file on the server if and only if that is so. */
  lemma CompleteIff(local: Octets, count: nat, server0: Octets, outcomes: seq<Outcome>)
    requires count > 0
    ensures var r := Run(local, count, Begin(server0), outcomes);
            var last := LastOutcome(ChunkCount(|local|, count) - 1, outcomes);
            r.eof && !r.error ==> last.Some? && (r.server == local <==> EndsUpEqual(local, count, server0, last.value))
  {
    WholeRun(local, count, server0, outcomes);
    var r := Run(local, count, Begin(server0), outcomes);
    if r.eof && !r.error {
      EndedEqual(local, count, server0, r, LastOutcome(ChunkCount(|local|, count) - 1, outcomes));
    }
  }

  lemma EndedEqual(local: Octets, count: nat, server0: Octets, r: Transfer, last: Option<Outcome>)
    requires count > 0 && Ended(local, count, ChunkCount(|local|, count), server0, r, last) && r.eof && !r.error
    ensures last.Some? && (r.server == local <==> EndsUpEqual(local, count, server0, last.value))
  {
    ShortChunk(|local|, count);
    StartOfShort(|local|, count);
    var m := if last == Some(Acknowledged) then |local| else ShortStart(|local|, count);
    assert CopiedTo(local, server0, r.server, m);
    CopiedWhole(local, server0, m);
  }

  lemma WholeRun(local: Octets, count: nat, server0: Octets, outcomes: seq<Outcome>)
    requires count > 0
    ensures var n := ChunkCount(|local|, count);
            Ended(local, count, n, server0, Run(local, count, Begin(server0), outcomes), LastOutcome(n - 1, outcomes))
  {
    BeginAtChunk(local, count, server0);
    RunEnds(local, count, server0, Begin(server0), 0, outcomes);
  }

  lemma BeginAtChunk(local: Octets, count: nat, server0: Octets)
    ensures AtChunk(local, count, server0, Begin(server0), 0)
  {
    assert server0 == Copied(local, server0, 0);
  }

  /** All chunks reach beyond the file; all but the short one end where that starts. */
  lemma StartOfShort(size: nat, count: nat)
    requires count > 0
    ensures Min(StartOf(ChunkCount(size, count), count), size) == size
    ensures Min(StartOf(ChunkCount(size, count) - 1, count), size) == ShortStart(size, count)
  {
  }

  /** A run that ends without error and has lost the end of the file: its short chunk could not be sent. */
  lemma ShortChunkLost()
    ensures var r := Run([1, 2, 3], 2, Begin([]), [Acknowledged, NotSent]);
            r.eof && !r.error && r.server == [1, 2]
  {
    var local: Octets := [1, 2, 3];
    var s1 := SendNext(local, 2, Begin([]), Acknowledged);
    assert Chunk(local, 0, 2) == [1, 2] && s1.server == [1, 2];
    var s2 := SendNext(local, 2, s1, NotSent);
    assert Chunk(local, 2, 2) == [3];
    var two, one: seq<Outcome> := [Acknowledged, NotSent], [NotSent];
    assert two[1..] == one && one[1..] == [];
    assert Run(local, 2, s1, one) == Run(local, 2, s2, []);
  }

  /** A run that ends without error and leaves old octets behind the file. */
  lemma OldOctetsRemain()
    ensures var r := Run([1], 2, Begin([9, 9, 9]), [Acknowledged]);
            r.eof && !r.error && r.server == [1, 9, 9]
  {
    var local: Octets, old3: Octets := [1], [9, 9, 9];
    var s1 := SendNext(local, 2, Begin(old3), Acknowledged);
    assert Chunk(local, 0, 2) == [1] && s1.server == [1, 9, 9];
    var one: seq<Outcome> := [Acknowledged];
    assert Run(local, 2, Begin(old3), one) == Run(local, 2, s1, one[1..]);
  }

  /** The writing loop itself, against any sequence of outcomes, of which it uses the first `used`. */
  method WriteFile(local: Octets, count: nat, server0: Octets, outcomes: seq<Outcome>)
      returns (server: Octets, eof: bool, error: bool, sent: nat, used: nat)
    requires count > 0
    ensures used <= |outcomes| && (used < |outcomes| ==> eof || error)
    ensures error <==> used > 0 && outcomes[used - 1].Failed?
    ensures !error ==> server == Copied(local, server0, Min(StartOf(sent, count), |local|))
    ensures var last := LastOutcome(ChunkCount(|local|, count) - 1, outcomes);
            && (eof && !error <==> last == Some(Acknowledged) || last == Some(NotSent))
            && (eof && !error ==>
                  && sent == ChunkCount(|local|, count) - (if last == Some(Acknowledged) then 0 else 1)
                  && (server == local <==> EndsUpEqual(local, count, server0, last.value)))
  {
    server, eof, error, sent, used := server0, false, false, 0, 0;
    var position := 0;
    var invokeId := false;
    assert outcomes[0..] == outcomes;
    while used < |outcomes| && !eof && !error
      invariant used <= |outcomes| && (error <==> used > 0 && outcomes[used - 1].Failed?)
      invariant Run(local, count, Transfer(server, position, invokeId, eof, error, sent), outcomes[used..]) ==
        Run(local, count, Begin(server0), outcomes)
      decreases |outcomes| - used
    {
      RunOne(local, count, Transfer(server, position, invokeId, eof, error, sent), outcomes, used);
      server, position, invokeId, eof, error, sent :=
        SendChunk(local, count, server, position, invokeId, sent, outcomes[used]);
      used := used + 1;
    }
    RunResult(local, count, server0, outcomes);
  }

  lemma RunResult(local: Octets, count: nat, server0: Octets, outcomes: seq<Outcome>)
    requires count > 0
    ensures var r := Run(local, count, Begin(server0), outcomes);
            var last := LastOutcome(ChunkCount(|local|, count) - 1, outcomes);
            && (!r.error ==> r.server == Copied(local, server0, Min(StartOf(r.sent, count), |local|)))
            && (r.eof && !r.error <==> last == Some(Acknowledged) || last == Some(NotSent))
            && (r.eof && !r.error ==>
                  && r.sent == ChunkCount(|local|, count) - (if last == Some(Acknowledged) then 0 else 1)
                  && (r.server == local <==> EndsUpEqual(local, count, server0, last.value)))
  {
    WholeRun(local, count, server0, outcomes);
    CompleteIff(local, count, server0, outcomes);
  }

  /** One pass through the loop. */
  method SendChunk(local: Octets, count: nat, server: Octets, position: nat, invokeId: bool, sent: nat,
    outcome: Outcome)
      returns (server': Octets, position': nat, invokeId': bool, eof: bool, error: bool, sent': nat)
    ensures Transfer(server', position', invokeId', eof, error, sent') ==
            SendNext(local, count, Transfer(server, position, invokeId, false, false, sent), outcome)
  {
    server', position', sent' := server, position, sent;
    if invokeId {
      position' := position + count;
    }
    var data := Chunk(local, position', count);
    eof := |data| < count;
    invokeId' := outcome != NotSent;
    if outcome == Acknowledged || outcome == Failed(true) {
      server' := Overlay(server, position', data);
    }
    if outcome == Acknowledged {
      sent' := sent + 1;
    }
    error := outcome.Failed?;
  }

  lemma RunOne(local: Octets, count: nat, s: Transfer, outcomes: seq<Outcome>, used: nat)
    requires used < |outcomes| && !s.eof && !s.error
    ensures Run(local, count, s, outcomes[used..]) ==
      Run(local, count, SendNext(local, count, s, outcomes[used]), outcomes[used + 1..])
  {
    assert outcomes[used..][1..] == outcomes[used + 1..];
  }

  // ---------------------------------------------------------------------------------
  // Reading
  // ---------------------------------------------------------------------------------

  /** An AtomicReadFile acknowledgement for stream access. */
  datatype Ack = Ack(start: nat, data: Octets, endOfFile: bool)

  /** What an unchanged remote file may be answered with: the octets there, at least one unless there are none, and an
      end-of-file mark only when nothing is left. */
  ghost predicate Honest(remote: Octets, start: nat, a: Ack) {
    && a.start == start <= start + |a.data| <= |remote|
    && a.data == remote[start..start + |a.data|]
    && (a.data == [] ==> start == |remote|)
    && (a.endOfFile ==> start + |a.data| == |remote|)
  }

  /** The local file after an acknowledgement: one for position 0 starts it over. */
  function Stored(local: Octets, a: Ack): Octets {
    var file := if a.start == 0 then [] else local;
    if a.data == [] then file else Overlay(file, a.start, a.data)
  }

  lemma StoredExtends(remote: Octets, local: Octets, a: Ack)
    requires Honest(remote, a.start, a) && (a.start == 0 || local == remote[..a.start])
    ensures Stored(local, a) == remote[..a.start + |a.data|]
  {
  }

  lemma StoredAgain(remote: Octets, local: Octets, a: Ack)
    requires Honest(remote, a.start, a) && local == remote[..a.start + |a.data|]
    ensures Stored(local, a) == local
  {
  }

  /** The variables of the reading loop and its handler. The remote file, the request under way, what it was answered
      with and how many requests were answered are history. */
  class Reader {
    ghost const remote: Octets
    var local: Octets
    var startPosition: nat
    var endOfFile: bool
    ghost var request: Option<nat>
    ghost var answer: Option<Ack>
    ghost var answered: nat

    ghost predicate Valid()
      reads this
    {
      && startPosition <= |remote|
      && (startPosition > 0 || answer.Some? ==> local == remote[..startPosition])
      && (endOfFile ==> answer.Some? && local == remote)
      && answered <= startPosition + (if endOfFile then 1 else 0)
      && (answer.Some? ==> request.Some? && Honest(remote, request.value, answer.value))
      && (answer.Some? ==> startPosition == request.value + |answer.value.data|)
      && (answer.Some? ==> endOfFile == (answer.value.endOfFile || answer.value.data == []))
      && (request.Some? && answer.None? ==> startPosition == request.value)
    }

    constructor (theirs: Octets, ours: Octets)
      ensures Valid() && remote == theirs && local == ours && startPosition == 0 && !endOfFile && answered == 0
    {
      remote, local, startPosition, endOfFile := theirs, ours, 0, false;
      request, answer, answered := None, None, 0;
    }

    /** The loop sends a request for the current position, whatever became of the one before. */
    method SendRequest() returns (start: nat)
      requires Valid() && !endOfFile
      modifies this`request, this`answer
      ensures Valid() && start == startPosition && request == Some(start) && answer == None
    {
      request, answer := Some(startPosition), None;
      return startPosition;
    }

    /** AtomicReadFileAckHandler, for an acknowledgement that bears the current invoke identifier: the first, or the
        same one again. */
    method AckHandler(a: Ack)
      requires Valid() && request.Some? && Honest(remote, request.value, a)
      requires answer.Some? ==> a == answer.value
      modifies this
      ensures Valid() && request == old(request) && answer == Some(a)
      ensures local == remote[..startPosition] && (endOfFile ==> local == remote)
      ensures old(answer).Some? ==>
                && local == old(local) && startPosition == old(startPosition) && endOfFile == old(endOfFile)
      ensures old(answer).None? ==> endOfFile || |remote| - startPosition < |remote| - old(startPosition)
      ensures answered <= |remote| + 1
    {
      if old(answer).Some? {
        StoredAgain(remote, local, a);
      } else {
        StoredExtends(remote, local, a);
        answered := answered + 1;
      }
      answer := Some(a);
      StoreData(a);
      if a.endOfFile || a.data == [] {
        endOfFile := true;
      }
      assert remote[..|remote|] == remote;
    }

    /** The same acknowledgement, so many times. */
    method AckRepeated(a: Ack, times: nat)
      requires Valid() && request.Some? && answer.None? && Honest(remote, request.value, a) && times > 0
      modifies this
      ensures Valid() && request == old(request) && answer == Some(a) && local == remote[..startPosition]
    {
      var left := times;
      while left > 0
        invariant Valid() && request == old(request) && left <= times
        invariant left == times <==> answer.None?
        invariant answer.Some? ==> answer.value == a && local == remote[..startPosition]
      {
        AckHandler(a);
        left := left - 1;
      }
    }

    /** The handler's file operations: open, truncating for position 0, seek and write. */
    method StoreData(a: Ack)
      modifies this`local, this`startPosition
      ensures local == Stored(old(local), a)
      ensures startPosition == if a.data == [] then old(startPosition) else a.start + |a.data|
    {
      if a.start == 0 {
        local := [];
      }
      if a.data != [] {
        local := Overlay(local, a.start, a.data);
        startPosition := a.start + |a.data|;
      }
    }
  }

  /** What the server's own file handler answers: as much as was asked for, marked as the end when that is not all of
      it. */
  function Answer(remote: Octets, start: nat, count: nat): Ack {
    var data := Chunk(remote, start, count);
    Ack(start, data, |data| < count)
  }

  /** How a server answers: with as much as was asked for, as its own file handler does; or with at most so many octets,
      but with one at least if there is one, and a mark that it may set only at the end. */
  datatype Answering = InFull | InPart(length: nat, mark: bool)

  function AnswerOf(remote: Octets, start: nat, count: nat, how: Answering): Ack
    requires start <= |remote|
  {
    match how
    case InFull => Answer(remote, start, count)
    case InPart(length, mark) =>
      var left := |remote| - start;
      var n := if length == 0 && left > 0 then 1 else Min(length, left);
      Ack(start, remote[start..start + n], mark && n == left)
  }

  /** These are all honest acknowledgements, and no others. */
  lemma AnswersAreHonest(remote: Octets, start: nat, count: nat, how: Answering)
    requires start <= |remote| && count > 0
    ensures Honest(remote, start, AnswerOf(remote, start, count, how))
  {
  }

  lemma HonestIsAnswer(remote: Octets, start: nat, count: nat, a: Ack)
    requires start <= |remote| && Honest(remote, start, a)
    ensures a == AnswerOf(remote, start, count, InPart(|a.data|, a.endOfFile))
  {
  }

  /** What becomes of one read request: it could not be sent, it came back without a usable answer, its answer arrived
      (once, or repeatedly), or it failed for good. */
  datatype Reply = Unsent | Unusable | Answered(times: nat, how: Answering) | Aborted

  predicate Arrives(r: Reply) { r.Answered? && r.times > 0 }

  predicate EndsHere(a: Ack) { a.endOfFile || a.data == [] }

  /** Whether, from a position on, an answer with the end of the file arrives before a failure. */
  predicate Completes(remote: Octets, start: nat, count: nat, replies: seq<Reply>)
    requires start <= |remote|
    decreases |replies|
  {
    replies != [] && !replies[0].Aborted? &&
    if Arrives(replies[0]) then
      var a := AnswerOf(remote, start, count, replies[0].how);
      EndsHere(a) || (start + |a.data| <= |remote| && Completes(remote, start + |a.data|, count, replies[1..]))
    else Completes(remote, start, count, replies[1..])
  }

  /** Whether n answers arrive before a failure. */
  predicate Arriving(n: nat, replies: seq<Reply>)
    decreases |replies|
  {
    n == 0 ||
    (replies != [] && !replies[0].Aborted? && Arriving(if Arrives(replies[0]) then n - 1 else n, replies[1..]))
  }

  /** When the server answers in full, the loop completes exactly when as many requests are answered as the file has
      chunks, the short one included. */
  lemma {:induction false} CompletesInFull(remote: Octets, count: nat, a: nat, replies: seq<Reply>)
    requires count > 0 && StartOf(a, count) <= |remote|
    requires forall k :: 0 <= k < |replies| && replies[k].Answered? ==> replies[k].how == InFull
    ensures a < ChunkCount(|remote|, count)
    ensures Completes(remote, StartOf(a, count), count, replies) <==> Arriving(ChunkCount(|remote|, count) - a, replies)
    decreases |replies|
  {
    AnswerIs(remote, StartOf(a, count), count, a);
    if replies != [] && !replies[0].Aborted? {
      if !Arrives(replies[0]) {
        CompletesInFull(remote, count, a, replies[1..]);
      } else if !Answer(remote, StartOf(a, count), count).endOfFile {
        CompletesInFull(remote, count, a + 1, replies[1..]);
      }
    }
  }

  /** However it answers, one request more than octets are left is always enough. */
  lemma {:induction false} CompletesInPart(remote: Octets, start: nat, count: nat, replies: seq<Reply>)
    requires count > 0 && start <= |remote| && |replies| > |remote| - start
    requires forall k :: 0 <= k < |replies| ==> Arrives(replies[k])
    ensures Completes(remote, start, count, replies)
    decreases |replies|
  {
    var a := AnswerOf(remote, start, count, replies[0].how);
    AnswersAreHonest(remote, start, count, replies[0].how);
    if !EndsHere(a) {
      CompletesInPart(remote, start + |a.data|, count, replies[1..]);
    }
  }

  /** If every request is answered, as many requests as the file has chunks are enough. */
  lemma {:induction false} AllAnswered(n: nat, replies: seq<Reply>)
    requires n <= |replies| && forall k :: 0 <= k < n ==> Arrives(replies[k])
    ensures Arriving(n, replies)
  {
    if n > 0 {
      AllAnswered(n - 1, replies[1..]);
    }
  }

  /** The whole reading loop, against any honest server and any replies. It completes exactly when an answer with the
      end of the file arrives before a failure; then the copy is the file, and else still a prefix of it or what was
      there. */
  method ReadFile(remote: Octets, ours: Octets, count: nat, replies: seq<Reply>)
      returns (local: Octets, complete: bool, error: bool)
    requires count > 0
    ensures complete <==> Completes(remote, 0, count, replies)
    ensures complete ==> local == remote
    ensures !complete ==> local == ours || local <= remote
  {
    var r := new Reader(remote, ours);
    var k := 0;
    error := false;
    assert replies[0..] == replies;
    while k < |replies| && !r.endOfFile && !error
      invariant r.Valid() && fresh(r) && r.remote == remote && k <= |replies|
      invariant r.local == ours || r.local <= remote
      invariant !r.endOfFile && !error ==>
                  Completes(remote, r.startPosition, count, replies[k..]) == Completes(remote, 0, count, replies)
      invariant r.endOfFile ==> Completes(remote, 0, count, replies)
      invariant error ==> !r.endOfFile && !Completes(remote, 0, count, replies)
    {
      assert replies[k..][0] == replies[k] && replies[k..][1..] == replies[k + 1..];
      if replies[k] != Unsent {
        var start := r.SendRequest();
        if Arrives(replies[k]) {
          AnswersAreHonest(remote, start, count, replies[k].how);
          r.AckRepeated(AnswerOf(remote, start, count, replies[k].how), replies[k].times);
        }
      }
      error := replies[k].Aborted?;
      k := k + 1;
    }
    return r.local, r.endOfFile, error;
  }

  /** Request a is answered in full with chunk a, marked as the end exactly when that is the short one. */
  lemma AnswerIs(remote: Octets, start: nat, count: nat, a: nat)
    requires count > 0 && start == StartOf(a, count) <= |remote|
    ensures Honest(remote, start, Answer(remote, start, count))
    ensures a < ChunkCount(|remote|, count)
    ensures Answer(remote, start, count).endOfFile <==> a == ChunkCount(|remote|, count) - 1
    ensures !Answer(remote, start, count).endOfFile ==>
              |Answer(remote, start, count).data| == count && start + count == StartOf(a + 1, count)
  {
    LastChunkIff(|remote|, count, a);
  }
}
