/** The stream abstraction the relay works over.
 *
 *  A TCP stream is modelled from the point of view of one pump: the stream it
 *  reads from is a `Source` that replays a finite script of read outcomes, and
 *  the stream it writes to is a `Sink` that records every byte it accepts and
 *  answers each operation (a `write_all`, a `flush`, a `shutdown`) from a
 *  script of replies. The capture buffer (a `Vec<u8>` in the relay) is a
 *  `ByteBuffer` grown in place.
 */
module Io {

  /** One octet. */
  type byte = x: int | 0 <= x < 256

  /** The size of the stack buffer every read goes into. */
  const ChunkSize: nat := 1024

  /** What one successful read can deliver: at most a buffer's worth. */
  type Chunk = s: seq<byte> | |s| <= ChunkSize

  /** An operating-system error; only its identity matters to the relay. */
  datatype IoError = IoError(code: int)

  /** `Result<(), Error>`. */
  datatype Outcome = Pass | Fail(error: IoError)

  /** `Result<usize, Error>`, as returned by `read`. */
  datatype ReadResult = ReadOk(count: nat) | ReadErr(error: IoError)

  /** One scripted read: `Data([])` is the zero-length read of an orderly
   *  end of stream, `Data(d)` with `d` non-empty is a chunk, `Failed(e)` is a
   *  read error. */
  datatype ReadOutcome = Data(bytes: Chunk) | Failed(error: IoError)

  /** One scripted answer of a sink to one operation. `Refuse(e, k)` fails
   *  the operation with `e`; for a `write_all` the first `k` bytes of the
   *  data got through before the failure (for `flush` and `shutdown` the
   *  count plays no part). */
  datatype Reply = Accept | Refuse(error: IoError, accepted: nat)

  function Min(a: nat, b: nat): nat { if a <= b then a else b }

  /** The reply at position `i` of a script; past its end every operation
   *  succeeds. */
  function ReplyAt(replies: seq<Reply>, i: nat): Reply {
    if i < |replies| then replies[i] else Accept
  }

  /** A script with its first `n` entries consumed. */
  function Drop<T>(s: seq<T>, n: nat): (r: seq<T>)
    ensures |r| == if n <= |s| then |s| - n else 0
  {
    if n <= |s| then s[n..] else []
  }

  lemma DropDrop<T>(s: seq<T>, a: nat, b: nat)
    ensures Drop(Drop(s, a), b) == Drop(s, a + b)
  {
  }

  lemma ReplyAtDrop(replies: seq<Reply>, a: nat, i: nat)
    ensures ReplyAt(Drop(replies, a), i) == ReplyAt(replies, a + i)
  {
  }

  /** The result a reply gives to the operation it answers. */
  function ReplyOutcome(reply: Reply): (r: Outcome)
    ensures r.Pass? <==> reply.Accept?
    ensures reply.Refuse? ==> r.error == reply.error
  {
    match reply
    case Accept => Pass
    case Refuse(e, _) => Fail(e)
  }

  /** The bytes of `data` a `write_all` answered by `reply` delivers. A
   *  `write_all` fails only while bytes remain to be written, so a refused
   *  one delivers at most all but the last byte. */
  function Delivered(reply: Reply, data: seq<byte>): (r: seq<byte>)
    ensures r <= data
    ensures reply.Accept? ==> r == data
    ensures reply.Refuse? && data != [] ==> r < data
  {
    match reply
    case Accept => data
    case Refuse(_, k) => if data == [] then [] else data[..Min(k, |data| - 1)]
  }

  /** The reading half of a stream: a script of read outcomes, replayed in
   *  order, followed by end of stream for ever (a closed socket keeps
   *  returning zero-length reads). */
  class Source {
    const script: seq<ReadOutcome>
    var pos: nat

    ghost predicate Valid()
      reads this
    {
      pos <= |script|
    }

    /** The reads still to come. */
    function Remaining(): seq<ReadOutcome>
      reads this
      requires Valid()
    {
      script[pos..]
    }

    constructor (script: seq<ReadOutcome>)
      ensures Valid() && this.script == script && Remaining() == script
    {
      this.script := script;
      pos := 0;
    }

    /** `read(&mut b)`: fill a prefix of `b` with the next chunk. */
    method Read(b: array<byte>) returns (r: ReadResult)
      requires Valid() && b.Length == ChunkSize
      modifies this, b
      ensures Valid()
      ensures old(pos) == |script| ==> r == ReadOk(0) && pos == old(pos)
      ensures old(pos) < |script| ==>
        pos == old(pos) + 1 &&
        match script[old(pos)]
        case Data(d) => r == ReadOk(|d|) && b[..|d|] == d
        case Failed(e) => r == ReadErr(e)
    {
      if pos == |script| {
        return ReadOk(0);
      }
      var event := script[pos];
      pos := pos + 1;
      match event {
        case Data(d) =>
          forall i | 0 <= i < |d| {
            b[i] := d[i];
          }
          r := ReadOk(|d|);
        case Failed(e) =>
          r := ReadErr(e);
      }
    }
  }

  /** The writing half of a stream: an append-only log of the bytes it
   *  accepted and the number of `shutdown(Read)` calls issued on it; every
   *  operation consumes the next reply of its script. */
  class Sink {
    const replies: seq<Reply>
    var next: nat
    var log: seq<byte>
    var readShutdowns: nat

    /** The replies still to come. */
    function Pending(): seq<Reply>
      reads this
    {
      Drop(replies, next)
    }

    function NextReply(): Reply
      reads this
    {
      ReplyAt(replies, next)
    }

    constructor (replies: seq<Reply>)
      ensures this.replies == replies && next == 0 && log == [] && readShutdowns == 0
      ensures Pending() == replies
    {
      this.replies := replies;
      next := 0;
      log := [];
      readShutdowns := 0;
    }

    /** `write_all(data)`. */
    method WriteAll(data: seq<byte>) returns (r: Outcome)
      modifies this
      ensures next == old(next) + 1 && readShutdowns == old(readShutdowns)
      ensures log == old(log) + Delivered(old(NextReply()), data)
      ensures r == ReplyOutcome(old(NextReply()))
    {
      var reply := NextReply();
      log := log + Delivered(reply, data);
      next := next + 1;
      r := ReplyOutcome(reply);
    }

    /** `flush()`. */
    method Flush() returns (r: Outcome)
      modifies this
      ensures next == old(next) + 1 && log == old(log) && readShutdowns == old(readShutdowns)
      ensures r == ReplyOutcome(old(NextReply()))
    {
      r := ReplyOutcome(NextReply());
      next := next + 1;
    }

    /** `shutdown(Shutdown::Read)`: the call is issued whether or not it
     *  succeeds. */
    method ShutdownRead() returns (r: Outcome)
      modifies this
      ensures next == old(next) + 1 && log == old(log)
      ensures readShutdowns == old(readShutdowns) + 1
      ensures r == ReplyOutcome(old(NextReply()))
    {
      r := ReplyOutcome(NextReply());
      readShutdowns := readShutdowns + 1;
      next := next + 1;
    }
  }

  /** A growable byte vector (`Vec<u8>`). */
  class ByteBuffer {
    var data: seq<byte>

    constructor ()
      ensures data == []
    {
      data := [];
    }

    /** `extend_from_slice(s)`. */
    method ExtendFromSlice(s: seq<byte>)
      modifies this
      ensures data == old(data) + s
    {
      data := data + s;
    }
  }
}
