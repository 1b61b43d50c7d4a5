/**
 * The outbound file-transferring handler: for each message it takes a session
 * from the session factory, transfers the payload under the generated name,
 * and closes the session whether or not the transfer succeeded. Over a plain
 * session factory closing ends the session; over the caching factory it
 * returns the session to the pool.
 */
module TransferHandler {
  import opened Wrappers
  import opened RemoteFiles
  import opened SessionCache

  /** The result of handling one message: the caching factory afterwards, the
      session that carried the transfer, and the transfer's outcome. */
  datatype Handled = Handled(cache: State, session: nat, outcome: Result<Transfer, TransferError>)

  /**
   * handleMessage: the payload's bytes (text converted by encode) are
   * uploaded under name over a session from the cache, and that session is
   * closed afterwards on both the success and the failure path.
   */
  function HandleMessage(c: State, remote: Remote, h: Handler, p: Payload, name: string,
                         encode: string -> seq<byte>): (r: Handled)
    ensures r.outcome.Success? <==> h.autoCreateDirectory || DirectoryPresent(remote, h.remoteDirectory)
    ensures r.outcome.Failure? ==> r.outcome.error == RemoteDirectoryMissing(h.remoteDirectory)
  {
    var (c1, s) := GetSession(c);
    var outcome := Upload(remote, h, name, Content(p, encode));
    Handled(Close(c1, s), s, outcome)
  }

  /** The session is released: callers hold the same sessions as before, the
      invariant holds, nothing is disconnected, and the session that did the
      transfer waits at the end of the pool for the next message. */
  lemma HandleReleasesSession(c: State, remote: Remote, h: Handler, p: Payload, name: string,
                              encode: string -> seq<byte>)
    requires Valid(c)
    ensures var r := HandleMessage(c, remote, h, p, name, encode);
            && Valid(r.cache)
            && r.session !in c.checkedOut
            && r.cache.checkedOut == c.checkedOut
            && r.cache.disconnects == c.disconnects
            && |r.cache.idle| == (if |c.idle| == 0 then 1 else |c.idle|)
            && r.cache.idle[|r.cache.idle| - 1] == r.session
            && (|c.idle| > 0 ==> r.session == c.idle[0])
  {
    var (c1, s) := GetSession(c);
    GetSessionSpec(c);
    CloseCurrentSpec(c1, s);
  }

  /** The transfer succeeded and the remote file under the generated name
      holds the payload's bytes: the encoded text, the bytes, or the local
      file's contents; no temporary file is left behind. */
  predicate PayloadStored(r: Handled, h: Handler, p: Payload, name: string, encode: string -> seq<byte>) {
    var path := RemoteFilePath(h.remoteDirectory, name);
    && r.outcome.Success?
    && Lookup(r.outcome.value.remote.files, path) == Some(Content(p, encode))
    && TemporaryPath(path) !in r.outcome.value.remote.files
    && (p.Text? ==> r.outcome.value.remote.files[path] == encode(p.text))
    && (p.Bytes? ==> r.outcome.value.remote.files[path] == p.bytes)
    && (p.LocalFile? ==> r.outcome.value.remote.files[path] == p.contents)
  }

  /** When the directory is there or may be created, either factory's handler
      stores the payload under the generated name. */
  lemma HandleStoresPayload(c: State, remote: Remote, h: Handler, p: Payload, name: string,
                            encode: string -> seq<byte>)
    requires h.autoCreateDirectory || DirectoryPresent(remote, h.remoteDirectory)
    ensures PayloadStored(HandleMessage(c, remote, h, p, name, encode), h, p, name, encode)
    ensures PayloadStored(HandleMessagePlain(c, remote, h, p, name, encode), h, p, name, encode)
  {
  }

  /**
   * handleMessage over a plain session factory: a new session is opened for
   * the transfer and its channel is closed afterwards, on both the success
   * and the failure path.
   */
  function HandleMessagePlain(c: State, remote: Remote, h: Handler, p: Payload, name: string,
                              encode: string -> seq<byte>): (r: Handled)
    ensures r.outcome.Success? <==> h.autoCreateDirectory || DirectoryPresent(remote, h.remoteDirectory)
    ensures r.outcome.Failure? ==> r.outcome.error == RemoteDirectoryMissing(h.remoteDirectory)
    ensures r.session == |c.sessions|
  {
    var (c1, s) := OpenSession(c);
    var outcome := Upload(remote, h, name, Content(p, encode));
    Handled(CloseChannel(c1, s), s, outcome)
  }

  /** Over a plain factory that does not share connections, the transfer's
      session ends with the message: it is closed, the connection opened for
      it is disconnected and logged, the invariant holds, and no caller's
      session or any earlier connection changes. */
  lemma HandlePlainEndsSession(c: State, remote: Remote, h: Handler, p: Payload, name: string,
                               encode: string -> seq<byte>)
    requires Valid(c) && !c.shared && |c.idle| == 0
    ensures var r := HandleMessagePlain(c, remote, h, p, name, encode);
            var k := |c.conns|;
            && Valid(r.cache)
            && r.session < |r.cache.sessions| && !r.cache.sessions[r.session].open
            && r.cache.sessions[r.session].conn == k
            && |r.cache.conns| == k + 1 && !r.cache.conns[k].connected
            && r.cache.disconnects == c.disconnects + [k]
            && r.cache.checkedOut == c.checkedOut && r.cache.idle == c.idle
            && (forall t :: 0 <= t < |c.sessions| ==> r.cache.sessions[t] == c.sessions[t])
            && (forall j :: 0 <= j < k ==> r.cache.conns[j] == c.conns[j])
  {
    var (c1, s) := OpenSession(c);
    OpenSessionSpec(c);
    var k := |c.conns|;
    assert !ReusesShared(c);
    assert c1.sessions[s].conn == k && c1.conns[k].users == {s};
    assert c.current.None?;
    assert Inv(c1, {s}) by {
      assert Valid(c1.(checkedOut := c1.checkedOut + {s}));
      assert s !in c1.checkedOut;
      assert c1.checkedOut + {s} - {s} == c1.checkedOut;
    }
    CloseChannelSpec(c1, {s}, s);
    assert {s} - {s} == {};
    assert c1.conns[k].users - {s} == {};
    forall j | 0 <= j < k
      ensures CloseChannel(c1, s).conns[j] == c.conns[j]
    {
      assert c1.conns[j] == c.conns[j];
    }
  }
}
