/** The stream pump `proxy` (src/main.rs:54-90): copy one direction of a
 *  connection from a source to a sink, capturing every chunk read.
 *
 *  `Run` is the specification: what one call of the pump does, given the
 *  read outcomes the source will deliver and the replies the sink will give.
 *  `Proxy` is the loop itself, over the stateful `Source`, `Sink` and
 *  `ByteBuffer`, proved to do exactly what `Run` says.
 */
module Pump {
  import opened Io

  /** Why a pump stopped. */
  datatype Stop =
    | EndOfStream   // a zero-length read; `shutdown(Read)` was issued on the sink
    | ReadError     // a read failed; the error is swallowed
    | WriteError    // `write_all` failed
    | FlushError    // `flush` failed

  /** Everything one run of the pump does, relative to the state it started
   *  in: the bytes appended to the capture buffer, the bytes the sink
   *  accepted, the number of non-empty chunks read, the number of
   *  `shutdown(Read)` calls, why it stopped, what it returned, and how many
   *  events and sink replies it consumed. */
  datatype Trace = Trace(
    captured: seq<byte>,
    forwarded: seq<byte>,
    chunks: nat,
    shutdowns: nat,
    stop: Stop,
    result: Outcome,
    readsTaken: nat,
    repliesTaken: nat)

  /** The bytes of a sequence of scripted events, in read order. */
  function Concat(events: seq<ReadOutcome>): seq<byte> {
    if events == [] then []
    else (if events[0].Data? then events[0].bytes else []) + Concat(events[1..])
  }

  /** True of a read that ends the loop without delivering data: a
   *  zero-length read. */
  predicate IsEnd(event: ReadOutcome) {
    event.Data? && |event.bytes| == 0
  }

  /** True of a read that delivers a chunk. */
  predicate IsChunk(event: ReadOutcome) {
    event.Data? && 1 <= |event.bytes| <= ChunkSize
  }

  /** A trace of `k` more chunks in front of trace `t`: the chunks
   *  delivered `cap` and were all written and flushed. */
  function Prepend(cap: seq<byte>, k: nat, t: Trace): Trace {
    t.(captured := cap + t.captured, forwarded := cap + t.forwarded,
       chunks := k + t.chunks, readsTaken := k + t.readsTaken,
       repliesTaken := 2 * k + t.repliesTaken)
  }

  /** One run of the pump over the reads still to come and the sink replies
   *  still to come. A source whose script is exhausted reads end of
   *  stream. */
  function Run(events: seq<ReadOutcome>, replies: seq<Reply>): (t: Trace)
    ensures t.shutdowns <= 1
    ensures t.chunks <= t.readsTaken <= |events|
    ensures t.stop == WriteError || t.stop == FlushError ==> 1 <= t.chunks
    decreases |events|
  {
    if events == [] || IsEnd(events[0]) then
      Trace([], [], 0, 1, EndOfStream, ReplyOutcome(ReplyAt(replies, 0)),
            if events == [] then 0 else 1, 1)
    else if events[0].Failed? then
      Trace([], [], 0, 0, ReadError, Pass, 1, 0)
    else
      var d := events[0].bytes;
      var w := ReplyAt(replies, 0);
      if w.Refuse? then
        Trace(d, Delivered(w, d), 1, 0, WriteError, Fail(w.error), 1, 1)
      else
        var f := ReplyAt(replies, 1);
        if f.Refuse? then
          Trace(d, d, 1, 0, FlushError, Fail(f.error), 1, 2)
        else
          Prepend(d, 1, Run(events[1..], Drop(replies, 2)))
  }

  lemma ConcatAppend(a: seq<ReadOutcome>, b: seq<ReadOutcome>)
    ensures Concat(a + b) == Concat(a) + Concat(b)
  {
    if a == [] {
      assert a + b == b;
    } else {
      assert (a + b)[1..] == a[1..] + b;
      ConcatAppend(a[1..], b);
    }
  }

  lemma Associative(a: seq<byte>, b: seq<byte>, c: seq<byte>)
    ensures a + b + c == a + (b + c)
  {
  }

  lemma PrependNothing(t: Trace)
    ensures Prepend([], 0, t) == t
  {
    assert [] + t.captured == t.captured;
    assert [] + t.forwarded == t.forwarded;
  }

  lemma PrependCons(d: seq<byte>, cap: seq<byte>, k: nat, t: Trace)
    ensures Prepend(d, 1, Prepend(cap, k, t)) == Prepend(d + cap, k + 1, t)
  {
    assert d + (cap + t.captured) == (d + cap) + t.captured;
    assert d + (cap + t.forwarded) == (d + cap) + t.forwarded;
  }

  /** Capture fidelity and the chunk bound: the capture buffer receives
   *  exactly the concatenation, in read order, of the chunks read before the
   *  loop stopped, and each of those chunks holds 1 to 1024 bytes. */
  lemma {:induction false} CaptureFidelity(events: seq<ReadOutcome>, replies: seq<Reply>)
    ensures var t := Run(events, replies);
      t.chunks <= |events| &&
      t.captured == Concat(events[..t.chunks]) &&
      (forall i :: 0 <= i < t.chunks ==> IsChunk(events[i]))
    decreases |events|
  {
    var t := Run(events, replies);
    if events == [] || IsEnd(events[0]) || events[0].Failed? {
      assert events[..0] == [];
    } else if ReplyAt(replies, 0).Refuse? || ReplyAt(replies, 1).Refuse? {
      assert events[..1] == [events[0]];
      assert Concat(events[..1]) == events[0].bytes + Concat([]);
    } else {
      var rest := Run(events[1..], Drop(replies, 2));
      CaptureFidelity(events[1..], Drop(replies, 2));
      assert events[..t.chunks] == [events[0]] + events[1..][..rest.chunks];
      ConcatAppend([events[0]], events[1..][..rest.chunks]);
      assert Concat([events[0]]) == events[0].bytes + Concat([]);
      forall i | 0 <= i < t.chunks ensures IsChunk(events[i]) {
        if i > 0 {
          assert events[i] == events[1..][i - 1];
        }
      }
    }
  }

  /** Forwarding matches capture: the sink receives the captured bytes in
   *  the same order; only the chunk whose `write_all` failed is short, and
   *  every earlier chunk was forwarded whole. */
  lemma {:induction false} ForwardingMatchesCapture(events: seq<ReadOutcome>, replies: seq<Reply>)
    ensures var t := Run(events, replies);
      (t.stop != WriteError ==> t.forwarded == t.captured) &&
      (t.stop == WriteError ==>
         1 <= t.chunks &&
         Concat(events[..t.chunks - 1]) <= t.forwarded < t.captured)
    decreases |events|
  {
    var t := Run(events, replies);
    if events == [] || IsEnd(events[0]) || events[0].Failed? {
    } else if ReplyAt(replies, 0).Refuse? {
      assert events[..0] == [];
    } else if ReplyAt(replies, 1).Refuse? {
    } else {
      var rest := Run(events[1..], Drop(replies, 2));
      ForwardingMatchesCapture(events[1..], Drop(replies, 2));
      if t.stop == WriteError {
        assert events[..t.chunks - 1] == [events[0]] + events[1..][..rest.chunks - 1];
        ConcatAppend([events[0]], events[1..][..rest.chunks - 1]);
        assert Concat([events[0]]) == events[0].bytes + Concat([]);
      }
    }
  }

  /** End of stream: the loop stops at a zero-length read (or when the
   *  script is exhausted), issues exactly one `shutdown(Read)` on the sink,
   *  and returns what that shutdown returned. */
  lemma {:induction false} EndOfStreamStop(events: seq<ReadOutcome>, replies: seq<Reply>)
    ensures var t := Run(events, replies);
      t.stop == EndOfStream ==>
        t.shutdowns == 1 &&
        (t.chunks == |events| || IsEnd(events[t.chunks])) &&
        t.result == ReplyOutcome(ReplyAt(replies, 2 * t.chunks)) &&
        t.repliesTaken == 2 * t.chunks + 1
    decreases |events|
  {
    if events == [] || IsEnd(events[0]) || events[0].Failed? {
    } else if ReplyAt(replies, 0).Refuse? || ReplyAt(replies, 1).Refuse? {
    } else {
      var rest := Run(events[1..], Drop(replies, 2));
      EndOfStreamStop(events[1..], Drop(replies, 2));
      ReplyAtDrop(replies, 2, 2 * rest.chunks);
    }
  }

  /** A read error is swallowed: the loop stops at the failed read, returns
   *  `Ok(())`, issues no shutdown, and has captured exactly the chunks read
   *  before the error. */
  lemma {:induction false} ReadErrorSwallowed(events: seq<ReadOutcome>, replies: seq<Reply>)
    ensures var t := Run(events, replies);
      t.stop == ReadError ==>
        t.result == Pass && t.shutdowns == 0 &&
        t.chunks < |events| && events[t.chunks].Failed? &&
        t.readsTaken == t.chunks + 1 && t.repliesTaken == 2 * t.chunks
    decreases |events|
  {
    if events == [] || IsEnd(events[0]) || events[0].Failed? {
    } else if ReplyAt(replies, 0).Refuse? || ReplyAt(replies, 1).Refuse? {
    } else {
      ReadErrorSwallowed(events[1..], Drop(replies, 2));
    }
  }

  /** A write or flush failure returns that error at once: no shutdown and
   *  no read after the failing chunk, which is already captured. */
  lemma {:induction false} WriteFailureStops(events: seq<ReadOutcome>, replies: seq<Reply>)
    ensures var t := Run(events, replies);
      (t.stop == WriteError || t.stop == FlushError) ==>
        1 <= t.chunks && t.shutdowns == 0 && t.readsTaken == t.chunks &&
        events[t.chunks - 1].Data? &&
        var k := if t.stop == WriteError then 2 * t.chunks - 2 else 2 * t.chunks - 1;
        ReplyAt(replies, k).Refuse? &&
        t.result == Fail(ReplyAt(replies, k).error) &&
        t.repliesTaken == k + 1
    decreases |events|
  {
    if events == [] || IsEnd(events[0]) || events[0].Failed? {
    } else if ReplyAt(replies, 0).Refuse? {
    } else if ReplyAt(replies, 1).Refuse? {
    } else {
      var t := Run(events, replies);
      var rest := Run(events[1..], Drop(replies, 2));
      RunChunk(events, replies);
      assert t.chunks == rest.chunks + 1 && t.stop == rest.stop && t.result == rest.result;
      if rest.stop == WriteError || rest.stop == FlushError {
        WriteFailureStops(events[1..], Drop(replies, 2));
        var k := if rest.stop == WriteError then 2 * rest.chunks - 2 else 2 * rest.chunks - 1;
        ReplyAtDrop(replies, 2, k);
        assert (if t.stop == WriteError then 2 * t.chunks - 2 else 2 * t.chunks - 1) == k + 2;
        assert events[t.chunks - 1] == events[1..][rest.chunks - 1];
      }
    }
  }

  /** The chunk whose write or flush failed is already in the capture
   *  buffer, after every chunk read before it. */
  lemma FailingChunkCaptured(events: seq<ReadOutcome>, replies: seq<Reply>)
    ensures var t := Run(events, replies);
      (t.stop == WriteError || t.stop == FlushError) ==>
        IsChunk(events[t.chunks - 1]) &&
        t.captured == Concat(events[..t.chunks - 1]) + events[t.chunks - 1].bytes
  {
    var t := Run(events, replies);
    if t.stop == WriteError || t.stop == FlushError {
      CaptureFidelity(events, replies);
      WriteFailureStops(events, replies);
      var last := events[t.chunks - 1];
      assert events[..t.chunks] == events[..t.chunks - 1] + [last];
      ConcatAppend(events[..t.chunks - 1], [last]);
      assert Concat([last]) == last.bytes + Concat([]);
    }
  }

  /** The pump's result: it returns `Ok(())` exactly when it stopped at a
   *  read error or at an end of stream whose shutdown succeeded. */
  lemma {:induction false} ResultCharacterised(events: seq<ReadOutcome>, replies: seq<Reply>)
    ensures var t := Run(events, replies);
      t.result.Pass? <==>
        (t.stop == ReadError ||
         (t.stop == EndOfStream && ReplyAt(replies, 2 * t.chunks).Accept?))
    decreases |events|
  {
    if events == [] || IsEnd(events[0]) || events[0].Failed? {
    } else if ReplyAt(replies, 0).Refuse? || ReplyAt(replies, 1).Refuse? {
    } else {
      var rest := Run(events[1..], Drop(replies, 2));
      ResultCharacterised(events[1..], Drop(replies, 2));
      ReplyAtDrop(replies, 2, 2 * rest.chunks);
    }
  }

  /** Scenario: a request of `n` bytes in one chunk, then end of stream, with
   *  a sink that never fails, is captured and forwarded whole, and the pump
   *  returns `Ok(())` after one shutdown. */
  lemma SingleChunkThenClose(d: Chunk)
    requires |d| > 0
    ensures var t := Run([Data(d)], []);
      t.captured == d && t.forwarded == d && t.shutdowns == 1 &&
      t.stop == EndOfStream && t.result == Pass
  {
    var rest := Run([Data(d)][1..], Drop([], 2));
    assert [Data(d)][1..] == [];
  }

  // The five ways one iteration of the loop can go, stated for a loop that
  // has already forwarded `k` chunks making up `cap`.

  /** The loop has forwarded `k` whole chunks making up `cap`, each written
   *  and flushed successfully. */
  ghost predicate Forwarded(events: seq<ReadOutcome>, replies: seq<Reply>, cap: seq<byte>, k: nat) {
    k <= |events| && cap == Concat(events[..k]) &&
    forall i {:trigger Sent(events, replies, i)} :: 0 <= i < k ==> Sent(events, replies, i)
  }

  /** The `i`-th read delivered a chunk that was written and flushed. */
  ghost predicate Sent(events: seq<ReadOutcome>, replies: seq<Reply>, i: nat) {
    i < |events| && IsChunk(events[i]) && ReplyAt(replies, 2 * i).Accept? && ReplyAt(replies, 2 * i + 1).Accept?
  }

  ghost predicate Done(events: seq<ReadOutcome>, replies: seq<Reply>, cap: seq<byte>, k: nat) {
    k <= |events| && Run(events, replies) == Prepend(cap, k, Run(events[k..], Drop(replies, 2 * k)))
  }

  lemma {:induction false} ForwardedDone(events: seq<ReadOutcome>, replies: seq<Reply>, cap: seq<byte>, k: nat)
    requires Forwarded(events, replies, cap, k)
    ensures Done(events, replies, cap, k)
    decreases k
  {
    if k == 0 {
      assert events[0..] == events;
      assert Drop(replies, 0) == replies;
      PrependNothing(Run(events, replies));
    } else {
      var tail := Concat(events[1..][..k - 1]);
      ForwardedTail(events, replies, cap, k);
      var d := events[0].bytes;
      ForwardedDone(events[1..], Drop(replies, 2), tail, k - 1);
      var rest := events[1..][k - 1..];
      var later := Drop(Drop(replies, 2), 2 * (k - 1));
      DropDrop(replies, 2, 2 * (k - 1));
      assert 2 + 2 * (k - 1) == 2 * k;
      assert later == Drop(replies, 2 * k);
      assert rest == events[k..];
      var t := Run(events[k..], Drop(replies, 2 * k));
      assert Run(rest, later) == t;
      RunChunk(events, replies);
      PrependCons(d, tail, k - 1, t);
    }
  }

  /** One iteration that forwards a whole chunk, then the rest of the run. */
  lemma RunChunk(events: seq<ReadOutcome>, replies: seq<Reply>)
    requires events != [] && IsChunk(events[0])
    requires ReplyAt(replies, 0).Accept? && ReplyAt(replies, 1).Accept?
    ensures Run(events, replies) == Prepend(events[0].bytes, 1, Run(events[1..], Drop(replies, 2)))
  {
  }

  /** A loop that forwarded `k >= 1` chunks forwarded the first one and then
   *  `k - 1` chunks of the rest of the script. */
  lemma ForwardedTail(events: seq<ReadOutcome>, replies: seq<Reply>, cap: seq<byte>, k: nat)
    requires Forwarded(events, replies, cap, k) && k >= 1
    ensures IsChunk(events[0]) && ReplyAt(replies, 0).Accept? && ReplyAt(replies, 1).Accept?
    ensures cap == events[0].bytes + Concat(events[1..][..k - 1])
    ensures Forwarded(events[1..], Drop(replies, 2), Concat(events[1..][..k - 1]), k - 1)
  {
    assert events[..k][1..] == events[1..][..k - 1];
    assert Sent(events, replies, 0);
    forall i | 0 <= i < k - 1 ensures Sent(events[1..], Drop(replies, 2), i) {
      assert Sent(events, replies, i + 1);
      assert events[1..][i] == events[i + 1];
      ReplyAtDrop(replies, 2, 2 * i);
      ReplyAtDrop(replies, 2, 2 * i + 1);
    }
  }

  lemma ForwardedStep(events: seq<ReadOutcome>, replies: seq<Reply>, cap: seq<byte>, k: nat)
    requires Forwarded(events, replies, cap, k)
    requires k < |events| && IsChunk(events[k])
    requires ReplyAt(replies, 2 * k).Accept? && ReplyAt(replies, 2 * k + 1).Accept?
    ensures Forwarded(events, replies, cap + events[k].bytes, k + 1)
  {
    assert events[..k + 1] == events[..k] + [events[k]];
    ConcatAppend(events[..k], [events[k]]);
    assert Concat([events[k]]) == events[k].bytes + Concat([]);
  }

  lemma StepEnd(events: seq<ReadOutcome>, replies: seq<Reply>, cap: seq<byte>, k: nat)
    requires Forwarded(events, replies, cap, k)
    requires k == |events| || IsEnd(events[k])
    ensures Run(events, replies) ==
      Trace(cap, cap, k, 1, EndOfStream, ReplyOutcome(ReplyAt(replies, 2 * k)),
            if k == |events| then k else k + 1, 2 * k + 1)
  {
    ForwardedDone(events, replies, cap, k);
    ReplyAtDrop(replies, 2 * k, 0);
    assert cap + [] == cap;
  }

  lemma StepReadError(events: seq<ReadOutcome>, replies: seq<Reply>, cap: seq<byte>, k: nat)
    requires Forwarded(events, replies, cap, k)
    requires k < |events| && events[k].Failed?
    ensures Run(events, replies) == Trace(cap, cap, k, 0, ReadError, Pass, k + 1, 2 * k)
  {
    ForwardedDone(events, replies, cap, k);
    assert cap + [] == cap;
  }

  lemma StepSendError(events: seq<ReadOutcome>, replies: seq<Reply>, cap: seq<byte>, k: nat)
    requires Forwarded(events, replies, cap, k)
    requires k < |events| && IsChunk(events[k])
    requires ReplyAt(replies, 2 * k).Refuse? || ReplyAt(replies, 2 * k + 1).Refuse?
    ensures var w := ReplyAt(replies, 2 * k);
      var f := ReplyAt(replies, 2 * k + 1);
      Run(events, replies) ==
        if w.Refuse? then
          Trace(cap + events[k].bytes, cap + Delivered(w, events[k].bytes), k + 1, 0,
                WriteError, Fail(w.error), k + 1, 2 * k + 1)
        else
          Trace(cap + events[k].bytes, cap + events[k].bytes, k + 1, 0,
                FlushError, Fail(f.error), k + 1, 2 * k + 2)
  {
    ForwardedDone(events, replies, cap, k);
    ReplyAtDrop(replies, 2 * k, 0);
    ReplyAtDrop(replies, 2 * k, 1);
  }

  /** `to.write_all(data)?; to.flush()?`: the flush is issued only after a
   *  successful write. */
  method Send(to: Sink, data: seq<byte>) returns (r: Outcome)
    modifies to
    ensures to.readShutdowns == old(to.readShutdowns)
    ensures var w := ReplyAt(to.replies, old(to.next));
      var f := ReplyAt(to.replies, old(to.next) + 1);
      if w.Refuse? then
        r == Fail(w.error) && to.log == old(to.log) + Delivered(w, data) && to.next == old(to.next) + 1
      else
        r == ReplyOutcome(f) && to.log == old(to.log) + data && to.next == old(to.next) + 2
  {
    r := to.WriteAll(data);
    if r.Fail? {
      return;
    }
    r := to.Flush();
  }

  /** `proxy`: the pump loop. Each iteration reads into a fresh 1024-byte
   *  array; a zero-length read shuts down the read side of the sink and
   *  stops; a read error stops with `Ok(())`; a chunk is appended to `buf`
   *  and then written and flushed to the sink, either of which may fail and
   *  end the pump with its error. */
  method Proxy(from: Source, to: Sink, buf: ByteBuffer) returns (r: Outcome)
    requires from.Valid()
    modifies from, to, buf
    ensures from.Valid()
    ensures var t := Run(old(from.Remaining()), old(to.Pending()));
      buf.data == old(buf.data) + t.captured &&
      to.log == old(to.log) + t.forwarded &&
      to.readShutdowns == old(to.readShutdowns) + t.shutdowns &&
      from.pos == old(from.pos) + t.readsTaken &&
      to.next == old(to.next) + t.repliesTaken &&
      r == t.result
  {
    ghost var events := from.Remaining();
    ghost var replies := to.Pending();
    ghost var t := Run(events, replies);
    ghost var pos0, next0, buf0, log0, shut0 := from.pos, to.next, buf.data, to.log, to.readShutdowns;
    ghost var cap: seq<byte> := [];
    ghost var k: nat := 0;
    while true
      invariant from.Valid() && from.pos == pos0 + k
      invariant to.next == next0 + 2 * k
      invariant buf.data == buf0 + cap && to.log == log0 + cap
      invariant to.readShutdowns == shut0
      invariant Forwarded(events, replies, cap, k)
      decreases |events| - k
    {
      ReplyAtDrop(to.replies, next0, 2 * k);
      ReplyAtDrop(to.replies, next0, 2 * k + 1);
      assert to.NextReply() == ReplyAt(replies, 2 * k);
      var b := new byte[ChunkSize];
      var read := from.Read(b);
      if read.ReadErr? {
        StepReadError(events, replies, cap, k);
        return Pass;
      }
      var n := read.count;
      if n == 0 {
        StepEnd(events, replies, cap, k);
        r := to.ShutdownRead();
        return;
      }
      var data := b[..n];
      assert data == events[k].bytes && IsChunk(events[k]);
      buf.ExtendFromSlice(data);
      Associative(buf0, cap, data);
      r := Send(to, data);
      if r.Fail? {
        StepSendError(events, replies, cap, k);
        Associative(log0, cap, Delivered(ReplyAt(replies, 2 * k), data));
        Associative(log0, cap, data);
        return;
      }
      Associative(log0, cap, data);
      ForwardedStep(events, replies, cap, k);
      cap := cap + data;
      k := k + 1;
    }
  }
}
