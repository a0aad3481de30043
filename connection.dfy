/** One relayed connection, `proxy_connection` (src/main.rs:25-52): after
 *  the outbound leg is set up, the two pumps run to completion, both
 *  captures are saved (client first), and the four results are reported in
 *  a fixed order of precedence.
 *
 *  The relay runs the two pumps on two threads and joins both. They touch
 *  disjoint buffers and disjoint stream handles, so here they run one after
 *  the other. The handles share sockets (each sink is a clone of the other
 *  direction's source), and a `shutdown(Read)` by one pump ends the other's
 *  reads; that effect is not modelled.
 */
module Connection {
  import opened Io
  import opened Pump
  import opened Store

  /** The first failure of a list of results, or success if there is
   *  none. */
  function FirstFailure(results: seq<Outcome>): Outcome {
    if results == [] then Pass
    else if results[0].Fail? then results[0]
    else FirstFailure(results[1..])
  }

  /** `FirstFailure` succeeds exactly when every result does; otherwise it is
   *  the earliest failed result. */
  lemma {:induction false} FirstFailureSpec(results: seq<Outcome>)
    ensures FirstFailure(results).Pass? <==> forall i :: 0 <= i < |results| ==> results[i].Pass?
    ensures FirstFailure(results).Fail? ==>
      exists k :: 0 <= k < |results| && results[k] == FirstFailure(results) &&
        forall j :: 0 <= j < k ==> results[j].Pass?
    decreases |results|
  {
    if results != [] && results[0].Pass? {
      FirstFailureSpec(results[1..]);
      if FirstFailure(results).Fail? {
        var k :| 0 <= k < |results[1..]| && results[1..][k] == FirstFailure(results[1..]) &&
          forall j :: 0 <= j < k ==> results[1..][j].Pass?;
        assert results[k + 1] == FirstFailure(results);
        forall j | 0 <= j < k + 1 ensures results[j].Pass? {
          if j > 0 {
            assert results[j] == results[1..][j - 1];
          }
        }
      } else {
        forall i | 0 <= i < |results| ensures results[i].Pass? {
          if i > 0 {
            assert results[i] == results[1..][i - 1];
          }
        }
      }
    }
  }

  /** `cf?; sf?; c?; s?; Ok(())`: the save results take precedence over the
   *  pump results, and the client over the server. */
  function Aggregate(cf: Outcome, sf: Outcome, c: Outcome, s: Outcome): (r: Outcome)
    ensures r.Pass? <==> cf.Pass? && sf.Pass? && c.Pass? && s.Pass?
    ensures r.Fail? ==> r == cf || r == sf || r == c || r == s
  {
    if cf.Fail? then cf
    else if sf.Fail? then sf
    else if c.Fail? then c
    else if s.Fail? then s
    else Pass
  }

  /** The chain of `?` reports the first failure in the order save-client,
   *  save-server, pump-client, pump-server. */
  lemma AggregateIsFirstFailure(cf: Outcome, sf: Outcome, c: Outcome, s: Outcome)
    ensures Aggregate(cf, sf, c, s) == FirstFailure([cf, sf, c, s])
  {
    assert [cf, sf, c, s][1..] == [sf, c, s];
    assert [sf, c, s][1..] == [c, s];
    assert [c, s][1..] == [s];
    assert [s][1..] == [];
    assert FirstFailure([s]) == (if s.Fail? then s else Pass);
    assert FirstFailure([c, s]) == (if c.Fail? then c else FirstFailure([s]));
    assert FirstFailure([sf, c, s]) == (if sf.Fail? then sf else FirstFailure([c, s]));
  }

  /** The connection succeeds only if all four steps succeed, and a failed
   *  step is reported only if every step of higher precedence succeeded. */
  lemma AggregatePrecedence(cf: Outcome, sf: Outcome, c: Outcome, s: Outcome)
    ensures Aggregate(cf, sf, c, s).Pass? <==> cf.Pass? && sf.Pass? && c.Pass? && s.Pass?
    ensures var r := Aggregate(cf, sf, c, s);
      r.Fail? ==>
        (r == cf) || (cf.Pass? && r == sf) || (cf.Pass? && sf.Pass? && r == c) ||
        (cf.Pass? && sf.Pass? && c.Pass? && r == s)
  {
    var results := [cf, sf, c, s];
    AggregateIsFirstFailure(cf, sf, c, s);
    FirstFailureSpec(results);
    if Aggregate(cf, sf, c, s).Fail? {
      var k :| 0 <= k < 4 && results[k] == FirstFailure(results) &&
        forall j :: 0 <= j < k ==> results[j].Pass?;
      assert results[0] == cf && results[1] == sf && results[2] == c && results[3] == s;
    } else {
      assert results[0] == cf && results[1] == sf && results[2] == c && results[3] == s;
    }
  }

  /** Everything one connection does: what it returns, the files afterwards,
   *  and the runs of the client pump and the server pump. */
  datatype Handled = Handled(result: Outcome, files: FileStore, client: Trace, server: Trace)

  /** The specification of one connection. `setup` is the result of opening
   *  the outbound leg and cloning both streams; the pumps start with empty
   *  buffers; both saves run whatever the pumps returned. When `setup`
   *  fails no pump runs, and the `client` and `server` traces of the result
   *  mean nothing. A connection touches no file other than its two capture
   *  paths. */
  function Handle(setup: Outcome,
                  clientReads: seq<ReadOutcome>, serverReplies: seq<Reply>,
                  serverReads: seq<ReadOutcome>, clientReplies: seq<Reply>,
                  files: FileStore, sha1: seq<byte> -> Digest,
                  clientDisk: Outcome, serverDisk: Outcome): (h: Handled)
    ensures setup.Fail? ==> h.result == setup && h.files == files
    ensures files.Keys <= h.files.Keys
    ensures forall p ::
      (p in files && p != PathFor(Tag(Client), sha1(h.client.captured)) &&
       p != PathFor(Tag(Server), sha1(h.server.captured))) ==> h.files[p] == files[p]
  {
    var c := Run(clientReads, serverReplies);
    var s := Run(serverReads, clientReplies);
    if setup.Fail? then Handled(setup, files, c, s)
    else
      var cf := SaveFile(files, c.captured, Tag(Client), sha1, clientDisk);
      var sf := SaveFile(cf.files, s.captured, Tag(Server), sha1, serverDisk);
      Handled(Aggregate(cf.result, sf.result, c.result, s.result), sf.files, c, s)
  }

  /** Partial-failure isolation: whatever either pump did, each direction's
   *  capture, partial or whole, is stored under its own digest when its
   *  write succeeds; the server save cannot disturb the client file. */
  lemma CapturesPersisted(setup: Outcome,
                          clientReads: seq<ReadOutcome>, serverReplies: seq<Reply>,
                          serverReads: seq<ReadOutcome>, clientReplies: seq<Reply>,
                          files: FileStore, sha1: seq<byte> -> Digest,
                          clientDisk: Outcome, serverDisk: Outcome)
    requires setup.Pass?
    ensures var h := Handle(setup, clientReads, serverReplies, serverReads, clientReplies,
                            files, sha1, clientDisk, serverDisk);
      (clientDisk.Pass? ==>
         PathFor(Tag(Client), sha1(h.client.captured)) in h.files &&
         h.files[PathFor(Tag(Client), sha1(h.client.captured))] == h.client.captured) &&
      (serverDisk.Pass? ==>
         PathFor(Tag(Server), sha1(h.server.captured)) in h.files &&
         h.files[PathFor(Tag(Server), sha1(h.server.captured))] == h.server.captured)
  {
    var h := Handle(setup, clientReads, serverReplies, serverReads, clientReplies,
                    files, sha1, clientDisk, serverDisk);
    DirectoriesDisjoint(sha1(h.client.captured), sha1(h.server.captured));
  }

  /** The connection reports success exactly when the setup, both saves and
   *  both pumps succeed; in particular a pump that hit a read error still
   *  counts as a success. */
  lemma HandleSucceeds(setup: Outcome,
                       clientReads: seq<ReadOutcome>, serverReplies: seq<Reply>,
                       serverReads: seq<ReadOutcome>, clientReplies: seq<Reply>,
                       files: FileStore, sha1: seq<byte> -> Digest,
                       clientDisk: Outcome, serverDisk: Outcome)
    ensures var h := Handle(setup, clientReads, serverReplies, serverReads, clientReplies,
                            files, sha1, clientDisk, serverDisk);
      h.result.Pass? <==>
        setup.Pass? && clientDisk.Pass? && serverDisk.Pass? &&
        h.client.result.Pass? && h.server.result.Pass?
  {
    var h := Handle(setup, clientReads, serverReplies, serverReads, clientReplies,
                    files, sha1, clientDisk, serverDisk);
    if setup.Pass? {
      var cf := SaveFile(files, h.client.captured, Tag(Client), sha1, clientDisk);
      var sf := SaveFile(cf.files, h.server.captured, Tag(Server), sha1, serverDisk);
      AggregatePrecedence(cf.result, sf.result, h.client.result, h.server.result);
    }
  }

  /** The request/response scenario: the client sends one chunk and closes,
   *  the server answers one chunk and closes, nothing fails. The connection
   *  succeeds and each capture is stored, byte for byte, under its digest. */
  lemma RequestResponse(request: Chunk, reply: Chunk, files: FileStore, sha1: seq<byte> -> Digest)
    requires |request| > 0 && |reply| > 0
    ensures var h := Handle(Pass, [Data(request)], [], [Data(reply)], [], files, sha1, Pass, Pass);
      h.result == Pass &&
      h.client.forwarded == request && h.server.forwarded == reply &&
      PathFor(Tag(Client), sha1(request)) in h.files &&
      h.files[PathFor(Tag(Client), sha1(request))] == request &&
      PathFor(Tag(Server), sha1(reply)) in h.files &&
      h.files[PathFor(Tag(Server), sha1(reply))] == reply
  {
    SingleChunkThenClose(request);
    SingleChunkThenClose(reply);
    CapturesPersisted(Pass, [Data(request)], [], [Data(reply)], [], files, sha1, Pass, Pass);
  }

  /** `proxy_connection`, from the point where the outbound leg is opened and
   *  both streams are cloned (`setup`): run the client pump, then the server
   *  pump, each with a fresh empty buffer, save the client capture, then the
   *  server capture, and only then look at the four results. */
  method ProxyConnection(setup: Outcome,
                         fromClient: Source, toServer: Sink,
                         fromServer: Source, toClient: Sink,
                         files: FileStore, sha1: seq<byte> -> Digest,
                         clientDisk: Outcome, serverDisk: Outcome)
    returns (r: Outcome, filesAfter: FileStore)
    requires fromClient.Valid() && fromServer.Valid()
    requires fromClient != fromServer && toServer != toClient
    modifies fromClient, toServer, fromServer, toClient
    ensures setup.Fail? ==>
      unchanged(fromClient, toServer, fromServer, toClient) && r == setup && filesAfter == files
    ensures var h := Handle(setup, old(fromClient.Remaining()), old(toServer.Pending()),
                            old(fromServer.Remaining()), old(toClient.Pending()),
                            files, sha1, clientDisk, serverDisk);
      r == h.result && filesAfter == h.files &&
      (setup.Pass? ==>
         toServer.log == old(toServer.log) + h.client.forwarded &&
         toClient.log == old(toClient.log) + h.server.forwarded &&
         toServer.readShutdowns == old(toServer.readShutdowns) + h.client.shutdowns &&
         toClient.readShutdowns == old(toClient.readShutdowns) + h.server.shutdowns)
  {
    if setup.Fail? {
      return setup, files;
    }
    ghost var tc := Run(fromClient.Remaining(), toServer.Pending());
    ghost var ts := Run(fromServer.Remaining(), toClient.Pending());
    var clientData := new ByteBuffer();
    var serverData := new ByteBuffer();
    var c := Proxy(fromClient, toServer, clientData);
    assert clientData.data == tc.captured && c == tc.result;
    var s := Proxy(fromServer, toClient, serverData);
    assert serverData.data == ts.captured && s == ts.result;
    var cf := SaveFile(files, clientData.data, Tag(Client), sha1, clientDisk);
    var sf := SaveFile(cf.files, serverData.data, Tag(Server), sha1, serverDisk);
    r := Aggregate(cf.result, sf.result, c, s);
    filesAfter := sf.files;
  }
}
