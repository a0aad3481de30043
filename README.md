# tcp-corpus-builder, modelled in Dafny

tcp-corpus-builder is a TCP relay that builds a fuzzing corpus. It accepts a
client connection and opens a connection to a fixed upstream server. It then
pumps bytes in both directions, one pump per direction. Each pump copies
chunks of at most 1024 bytes from its source stream to its sink stream and
also appends every chunk to a capture buffer. When both pumps have stopped,
each direction's capture is written to `client/<name>` or `server/<name>`.
The name is a hexadecimal rendering of the capture's SHA-1 digest. The
connection reports the first failure among the two saves and the two pumps.

The model has five modules:

- `Io` (`io.dfy`): the streams the relay works over.
  - A `Source` replays a finite script of read outcomes and then reads end
    of stream forever.
  - A `Sink` answers each `write_all`, `flush` and `shutdown(Read)` from a
    script of replies and logs the bytes it accepted.
  - A `ByteBuffer` is the growable capture vector.
- `Pump` (`pump.dfy`): the pump `proxy`.
  - `Run` is a pure specification of one pump run over the scripted reads
    and replies.
  - `Proxy` is the imperative loop over the stateful streams and buffer,
    proved to do exactly what `Run` says.
  - Lemmas about `Run` state the pump's guarantees.
- `Hex` (`hex.dfy`): the file name, a left fold that appends each digest
  byte's unpadded lowercase hex rendering.
- `Store` (`store.dfy`): `save_file` over a filesystem modelled as a map
  from path to contents.
- `Connection` (`connection.dfy`): `proxy_connection` after its setup.
  - It runs both pumps, saves both captures and combines the four results.
  - `Handle` is its pure specification, and `ProxyConnection` is the method
    proved against it.

Nothing here is concurrent. The two pumps touch disjoint buffers and disjoint
stream handles, so the model runs them one after the other. The handles do
share sockets, because each direction's sink is a clone of the other
direction's source. The one effect the pumps have on each other through
those sockets is that a `shutdown(Read)` by one ends the other's reads.
"## Left out" lists it.

## Model

| member | source | states |
|---|---|---|
| Io.ReplyOutcome | src/main.rs:69-69 | A reply yields `Ok` exactly when it accepts, and a refusal yields its own error. |
| Io.Delivered | src/main.rs:85-85 | A `write_all` delivers a prefix of the data: all of it when the sink accepts, and a proper prefix of non-empty data when it refuses. |
| Io.Source.Read | src/main.rs:62-65 | A read past the script returns `Ok(0)` and consumes nothing. Otherwise it consumes one event: a chunk fills the prefix of the 1024-byte array with exactly its bytes and returns their count, and a failure returns its error. |
| Io.Sink.WriteAll | src/main.rs:85-85 | The log grows by the delivered bytes. One reply is consumed and its outcome is returned. |
| Io.Sink.Flush | src/main.rs:86-86 | The log is unchanged. One reply is consumed and its outcome is returned. |
| Io.Sink.ShutdownRead | src/main.rs:69-69 | One more `shutdown(Read)` is issued. The log is unchanged, and the reply's outcome is returned. |
| Io.ByteBuffer.constructor | src/main.rs:33-34 | A new capture buffer is empty. |
| Io.ByteBuffer.ExtendFromSlice | src/main.rs:81-81 | The buffer becomes its old contents followed by the slice. |
| Pump.Run | src/main.rs:54-90 | The specification of one pump run. At most one shutdown is issued. The chunks read are at most the reads taken, which are at most the scripted reads. A write or flush failure happens only after at least one chunk. |
| Pump.CaptureFidelity | src/main.rs:60-81 | The capture is exactly the concatenation, in read order, of the chunks read before the pump stopped. Each of those chunks holds 1 to 1024 bytes. |
| Pump.ForwardingMatchesCapture | src/main.rs:81-86 | Unless a `write_all` failed, the sink received exactly the captured bytes. If one failed, the sink received every earlier chunk whole and a proper prefix of the capture, cut inside the failing chunk. |
| Pump.EndOfStreamStop | src/main.rs:66-70 | A pump that stops at a zero-length read issues exactly one `shutdown(Read)` and consumes exactly one more reply. It returns that shutdown's outcome. |
| Pump.ReadErrorSwallowed | src/main.rs:73-76 | A pump that stops at a failed read returns `Ok(())` and issues no shutdown. The read right after the last forwarded chunk is the failing one. |
| Pump.WriteFailureStops | src/main.rs:85-86 | A write or flush failure returns the refusing reply's error. No shutdown is issued, and no read follows the failing chunk. |
| Pump.FailingChunkCaptured | src/main.rs:81-86 | The chunk whose write or flush failed is already in the capture, after every earlier chunk. |
| Pump.ResultCharacterised | src/main.rs:66-89 | The pump returns `Ok(())` exactly when it stopped at a read error, or at end of stream with a successful shutdown. |
| Pump.SingleChunkThenClose | src/main.rs:60-89 | One chunk followed by end of stream, with a sink that never fails, is captured and forwarded whole, with one shutdown and `Ok(())`. |
| Pump.ForwardedDone | src/main.rs:60-87 | After k whole chunks were written and flushed, the run is those chunks followed by a run over the rest of the reads and replies. |
| Pump.StepEnd | src/main.rs:66-70 | The loop's end-of-stream exit gives exactly the trace `Run` predicts. |
| Pump.StepReadError | src/main.rs:73-76 | The loop's read-error exit gives exactly the trace `Run` predicts. |
| Pump.StepSendError | src/main.rs:81-86 | The loop's write-error and flush-error exits give exactly the trace `Run` predicts. |
| Pump.Send | src/main.rs:85-86 | A refused write returns its error, logs the delivered prefix and consumes one reply, with no flush. Otherwise the whole data is logged and the flush's outcome is returned after two replies. |
| Pump.Proxy | src/main.rs:54-90 | The loop appends `Run`'s capture to the buffer and `Run`'s forwarded bytes to the sink log. It issues `Run`'s shutdowns, consumes `Run`'s reads and replies, and returns `Run`'s result. |
| Hex.LowerHex | src/main.rs:96-96 | A byte's `{:x}` rendering has 1 or 2 lowercase hex digits. It has one digit exactly when the byte is below 0x10. |
| Hex.LowerHexRoundTrip | src/main.rs:96-96 | The rendering reads back as the byte. It has a leading zero only for the byte zero. |
| Hex.FoldHex | src/main.rs:93-98 | The definition of the fold. Its contract says it only appends to the accumulator, one or two characters per byte. Its content is stated by `Hex.HexNameIsConcatenation`. |
| Hex.HexName | src/main.rs:93-98 | The definition of the name: the fold from the empty string. Its contract gives n to 2n characters for n bytes. `Hex.HexNameIsConcatenation`, `Hex.HexNameLength` and `Hex.HexNameAlphabet` state its properties. |
| Hex.HexNameIsConcatenation | src/main.rs:93-98 | The fold yields each digest byte's rendering, concatenated in digest order. |
| Hex.HexNameAppend | src/main.rs:93-98 | The name of a concatenation is the concatenation of the names. |
| Hex.HexNameAlphabet | src/main.rs:93-98 | The name uses lowercase hex digits only. |
| Hex.HexNameLength | src/main.rs:93-98 | An n-byte digest gets a name of n to 2n characters. The name is exactly 2n long when no byte is below 0x10. |
| Hex.HexNameFullLengthDecodes | src/main.rs:93-98 | When no byte is below 0x10, the name splits into digit pairs that decode back to the digest. |
| Hex.NamesCollide | src/main.rs:96-96 | Two different digests, 01 23 and 12 03 with any common tail, get the same name. |
| Store.PathFor | src/main.rs:100-100 | The definition of `format!("{dir}/{hash}")`. Its contract splits the path into the directory, a slash and the name. `Store.PathShape` and `Store.DirectoriesDisjoint` state its properties. |
| Store.SaveFile | src/main.rs:92-102 | On a successful write, the store gains the path `dir/name(sha1(data))` holding the data, and every other path is unchanged. On a failure, the error is returned and the store is unchanged. |
| Store.PathShape | src/main.rs:100-100 | A capture path is the directory, a slash, and 20 to 40 hex digits. |
| Store.SaveIdempotent | src/main.rs:100-100 | Saving the same capture twice leaves the store as one save does. |
| Store.DirectoriesDisjoint | src/main.rs:43-44 | A client path and a server path never coincide. |
| Store.SavesCommute | src/main.rs:43-44 | The client and server saves give the same store in either order. |
| Store.CollidingNamesOverwrite | src/main.rs:96-100 | When two digests share a name, the later save replaces the earlier capture. |
| Connection.FirstFailureSpec | src/main.rs:46-51 | The reference definition succeeds exactly when every result does. Otherwise it returns the earliest failed result. |
| Connection.Aggregate | src/main.rs:46-51 | The definition of the `cf?; sf?; c?; s?; Ok(())` chain. Its contract gives success exactly when all four succeed, and otherwise one of the four failures. `Connection.AggregateIsFirstFailure` and `Connection.AggregatePrecedence` state which failure. |
| Connection.AggregateIsFirstFailure | src/main.rs:46-51 | The `?` chain returns the first failure in the order client save, server save, client pump, server pump. |
| Connection.AggregatePrecedence | src/main.rs:46-51 | The chain succeeds exactly when all four steps do. A reported failure is one whose predecessors all succeeded. |
| Connection.CapturesPersisted | src/main.rs:36-44 | Whatever either pump did, each capture, partial or whole, is stored under its own digest when its write succeeds. |
| Connection.Handle | src/main.rs:25-52 | The definition of one connection. Its contract says a failed setup is returned with the files untouched, and no file other than the two capture paths changes. `Connection.HandleSucceeds` and `Connection.CapturesPersisted` state its results. |
| Connection.HandleSucceeds | src/main.rs:25-52 | The connection succeeds exactly when setup, both saves and both pumps succeed. |
| Connection.RequestResponse | src/main.rs:25-52 | A one-chunk request and a one-chunk reply with no failures succeed, and each is stored byte for byte under its digest. |
| Connection.ProxyConnection | src/main.rs:25-52 | A failed setup is returned with nothing touched. Otherwise the method returns `Handle`'s result and files, and the two sinks receive the pumps' forwarded bytes and shutdowns. |

## Left out

- `main` (src/main.rs:8-23) is left out. It covers the listener, the accept loop, `create_dir_all` and the log lines, and all of it is I/O.
- Opening the upstream connection and cloning the two streams (src/main.rs:27-31) are collapsed into one `setup` outcome, because they are foreign calls.
- The two pumps run on scoped threads that are joined. Here they run sequentially. Their buffers and stream handles are disjoint, so their only effect on each other is the shutdown effect on the next line.
- A `shutdown(Read)` issued on a stream also ends reads by the opposite pump from the same socket. The model records the shutdown on the sink but does not feed it back into the other direction's read script.
- The interleaving of the two directions and the way TCP splits the byte stream into reads are not modelled. The read script fixes the chunking.
- SHA-1 is a function-typed parameter `sha1`, not an implementation of the hash.
- Store.SaveFile: a failed `std::fs::write` leaves the store unchanged. A partially written file is not modelled, and neither is a missing directory.
- Io.Sink.WriteAll: a `write_all` of no bytes still consumes a reply and may fail, whereas Rust's returns `Ok(())` at once. The pump never writes an empty chunk, so no pump result depends on it.
- Pump.Proxy: `TcpStream::flush` never fails in practice. The model lets the sink refuse a flush, which is more general than the source.
- The `src` label of `proxy` appears only in log lines, so it is not modelled, along with all `println!` output.
