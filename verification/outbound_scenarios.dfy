/**
 * The outbound SFTP scenarios, replayed on the model with the directories,
 * names and session orders they use.
 */
module OutboundScenarios {
  import opened Wrappers
  import opened RemotePaths
  import opened RemoteFiles
  import opened SessionCache
  import opened TransferHandler

  /** "/foo/bar/baz" splits into an empty piece and its three names. */
  lemma FooBarBazSegments()
    ensures Split("/foo/bar/baz") == ["", "foo", "bar", "baz"]
  {
    var segs := ["", "foo", "bar", "baz"];
    assert Join(segs[..2]) == "/foo" by { assert segs[..2][..1] == segs[..1]; }
    assert Join(segs[..3]) == "/foo/bar" by { assert segs[..3][..2] == segs[..2]; }
    assert Join(segs) == "/foo/bar/baz" by { assert segs[..3] == segs[..|segs| - 1]; }
    assert forall i :: 0 <= i < |segs| ==> Separator !in segs[i];
    SplitJoin(segs);
  }

  /** The chain of "/foo/bar/baz" is "/foo", "/foo/bar", "/foo/bar/baz". */
  lemma FooBarBazChain()
    ensures DirectoryChain("/foo/bar/baz") == ["/foo", "/foo/bar", "/foo/bar/baz"]
  {
    FooBarBazSegments();
    assert Cumulative([""]) == [] by { assert [""][..0] == []; }
    ChainSnoc([""], "foo", []);
    assert [""] + ["foo"] == ["", "foo"];
    assert Join([""]) + [Separator] + "foo" == "/foo";
    ChainSnoc(["", "foo"], "bar", ["/foo"]);
    assert ["", "foo"] + ["bar"] == ["", "foo", "bar"];
    assert Join(["", "foo"]) + [Separator] + "bar" == "/foo/bar";
    ChainSnoc(["", "foo", "bar"], "baz", ["/foo", "/foo/bar"]);
    assert ["", "foo", "bar"] + ["baz"] == ["", "foo", "bar", "baz"];
    assert Join(["", "foo", "bar"]) + [Separator] + "baz" == "/foo/bar/baz";
  }

  /** Appending a non-empty segment adds its accumulated path to the chain. */
  lemma ChainSnoc(init: seq<string>, seg: string, chain: seq<string>)
    requires |init| > 0 && seg != "" && Cumulative(init) == chain
    ensures Join(init + [seg]) == Join(init) + [Separator] + seg
    ensures Cumulative(init + [seg]) == chain + [Join(init) + [Separator] + seg]
  {
    assert (init + [seg])[..|init|] == init;
  }

  /** Auto-creating "/foo/bar/baz" where nothing exists issues mkdir for
      "/foo", "/foo/bar" and "/foo/bar/baz", in that order, before the write. */
  lemma MkDirScenario(name: string, data: seq<byte>)
    ensures var t := Upload(Remote({}, map[]), Handler("/foo/bar/baz", true), name, data);
            && t.Success?
            && |t.value.commands| == 5
            && t.value.commands[..3] == [Mkdir("/foo"), Mkdir("/foo/bar"), Mkdir("/foo/bar/baz")]
  {
    var chain := ["/foo", "/foo/bar", "/foo/bar/baz"];
    FooBarBazCalls();
    var t := Upload(Remote({}, map[]), Handler("/foo/bar/baz", true), name, data);
    UploadWritesViaTemporary(Remote({}, map[]), Handler("/foo/bar/baz", true), name, data);
    var cmds := t.value.commands;
    assert cmds[..|cmds| - 2] == Mkdirs(chain);
    MkdirsOfChain();
  }

  /** With no directory present, every directory of the chain is created. */
  lemma FooBarBazCalls()
    ensures MkdirCalls("/foo/bar/baz", {}) == ["/foo", "/foo/bar", "/foo/bar/baz"]
  {
    FooBarBazChain();
    MissingNone(["/foo", "/foo/bar", "/foo/bar/baz"]);
  }

  /** The mkdir commands for the chain of "/foo/bar/baz", in order. */
  lemma MkdirsOfChain()
    ensures Mkdirs(["/foo", "/foo/bar", "/foo/bar/baz"]) == [Mkdir("/foo"), Mkdir("/foo/bar"), Mkdir("/foo/bar/baz")]
  {
    var mk := Mkdirs(["/foo", "/foo/bar", "/foo/bar/baz"]);
    assert mk[0] == Mkdir("/foo") && mk[1] == Mkdir("/foo/bar") && mk[2] == Mkdir("/foo/bar/baz");
  }

  /** A single-segment directory's chain is the directory itself. */
  lemma PlainDirectoryChain(dir: string)
    requires dir != "" && Separator !in dir
    ensures DirectoryChain(dir) == [dir]
  {
    SplitJoin([dir]);
    assert Join([dir]) == dir;
    assert Split(dir) == [dir];
    assert [dir][..0] == [];
    assert Cumulative([dir]) == Cumulative([]) + [Join([dir])];
  }

  /** The file path of name inside "remote-target-dir". */
  lemma TargetDirPath(name: string)
    ensures RemoteFilePath("remote-target-dir", name) == "remote-target-dir/" + name
  {
  }

  /** Text, bytes and a local file sent to the existing "remote-target-dir"
      each land under "remote-target-dir/" plus the generated name, holding
      the payload's bytes. */
  lemma HandleMessageScenario(c: State, remote: Remote, p: Payload, name: string,
                              encode: string -> seq<byte>)
    requires "remote-target-dir" in remote.dirs
    ensures var r := HandleMessagePlain(c, remote, Handler("remote-target-dir", false), p, name, encode);
            && r.outcome.Success?
            && Lookup(r.outcome.value.remote.files, "remote-target-dir/" + name) == Some(Content(p, encode))
  {
    TargetDirPresent(remote);
    TargetDirPath(name);
    HandleStoresPayload(c, remote, Handler("remote-target-dir", false), p, name, encode);
  }

  /** "remote-target-dir" counts as present once it is a remote directory. */
  lemma TargetDirPresent(remote: Remote)
    requires "remote-target-dir" in remote.dirs
    ensures DirectoryPresent(remote, "remote-target-dir")
  {
    PlainDirectoryChain("remote-target-dir");
  }

  /** A local file whose generated name is its own name plus ".test" lands
      under that name in "remote-target-dir" with the file's contents. */
  lemma FileMessageScenario(c: State, remote: Remote, src: string, contents: seq<byte>,
                            encode: string -> seq<byte>)
    requires "remote-target-dir" in remote.dirs
    ensures var r := HandleMessagePlain(c, remote, Handler("remote-target-dir", false),
                                        LocalFile(src, contents), src + ".test", encode);
            && r.outcome.Success?
            && Lookup(r.outcome.value.remote.files, "remote-target-dir/" + src + ".test") == Some(contents)
  {
    assert "remote-target-dir/" + src + ".test" == "remote-target-dir/" + (src + ".test");
    HandleMessageScenario(c, remote, LocalFile(src, contents), src + ".test", encode);
  }

  /** The handler of the file-message test, with its literal directory and
      auto-creation left off, fails naming "remote-target-dir" when that
      directory is missing; the session it opened is still closed and its
      connection disconnected. */
  lemma MissingDirectoryScenario(c: State, p: Payload, name: string, encode: string -> seq<byte>)
    requires Valid(c) && !c.shared && |c.idle| == 0
    ensures var r := HandleMessagePlain(c, Remote({}, map[]), Handler("remote-target-dir", false), p, name, encode);
            && r.outcome == Failure(RemoteDirectoryMissing("remote-target-dir"))
            && !r.cache.sessions[r.session].open
            && r.cache.disconnects == c.disconnects + [|c.conns|]
  {
    PlainDirectoryChain("remote-target-dir");
    assert "remote-target-dir" in DirectoryChain("remote-target-dir");
    assert !DirectoryPresent(Remote({}, map[]), "remote-target-dir");
    HandlePlainEndsSession(c, Remote({}, map[]), Handler("remote-target-dir", false), p, name, encode);
  }

  // The states the cached shared-session reset sequence passes through.

  /** One session over the first connection. */
  const One := State(true, [Connection(true, 0, {0})], [Session(0, 0, true)], Some(0), [], {0}, 0, [])
  /** Two sessions held over the first connection. */
  const Two := State(true, [Connection(true, 0, {0, 1})], [Session(0, 0, true), Session(0, 0, true)],
                     Some(0), [], {0, 1}, 0, [])
  /** The first session released to the pool. */
  const Pooled := Two.(checkedOut := {1}, idle := [0])
  /** After the first reset. */
  const Reset1 := State(true, [Connection(true, 0, {1})], [Session(0, 0, false), Session(0, 0, true)],
                        None, [], {1}, 1, [])
  /** A session over a second connection. */
  const Fresh := State(true, [Connection(true, 0, {1}), Connection(true, 1, {2})],
                       [Session(0, 0, false), Session(0, 0, true), Session(1, 1, true)],
                       Some(1), [], {1, 2}, 1, [])
  /** The stale session released: the first connection is gone. */
  const Stale := State(true, [Connection(false, 0, {}), Connection(true, 1, {2})],
                       [Session(0, 0, false), Session(0, 0, false), Session(1, 1, true)],
                       Some(1), [], {2}, 1, [0])
  /** A second session over the second connection. */
  const Again := State(true, [Connection(false, 0, {}), Connection(true, 1, {2, 3})],
                       [Session(0, 0, false), Session(0, 0, false), Session(1, 1, true), Session(1, 1, true)],
                       Some(1), [], {2, 3}, 1, [0])
  /** Both callers released their sessions. */
  const Released := Again.(checkedOut := {}, idle := [3, 2])

  lemma FirstTwoSessions()
    ensures GetSession(Init(true)) == (One, 0)
    ensures GetSession(One) == (Two, 1)
  {
    var (c1, s1) := GetSession(Init(true));
    assert s1 == 0;
    assert |c1.conns| == 1;
    assert c1.conns[0].users == {0};
    assert c1.conns[0] == One.conns[0];
    assert c1.conns == One.conns;
    assert c1.sessions == One.sessions;
    assert c1.checkedOut == One.checkedOut;
    assert c1.current == One.current;
    assert c1 == One;
    var (c2, s2) := GetSession(One);
    assert ReusesShared(One);
    assert s2 == 1;
    assert |c2.conns| == 1;
    assert c2.conns[0] == Two.conns[0];
    assert c2.conns == Two.conns;
    assert c2.sessions == Two.sessions;
    assert c2.checkedOut == Two.checkedOut;
    assert c2 == Two;
  }

  lemma ReleaseAndReuse()
    ensures Close(Two, 0) == Pooled
    ensures GetSession(Pooled) == (Two, 0)
  {
    assert {0, 1} - {0} == {1};
    var (c, s) := GetSession(Pooled);
    assert s == 0 && c.idle == [];
    assert c.checkedOut == {0, 1};
    assert c == Two;
  }

  lemma FirstReset()
    ensures ResetCache(Pooled) == Reset1
  {
    var d := Pooled.(current := None, idle := []);
    var d1 := CloseChannel(d, 0);
    assert {0, 1} - {0} == {1};
    assert d1.conns[0] == Reset1.conns[0];
    assert d1.conns == Reset1.conns;
    assert d1.sessions[0] == Reset1.sessions[0];
    assert d1.sessions == Reset1.sessions;
    assert d1.disconnects == [];
    assert CloseAll(d, [0]) == CloseAll(d1, []);
    assert ResetCache(Pooled) == d1.(gen := 1);
  }

  lemma SessionAfterReset()
    ensures GetSession(Reset1) == (Fresh, 2)
  {
    var (c, s) := GetSession(Reset1);
    assert !ReusesShared(Reset1);
    assert s == 2;
    assert |c.conns| == 2;
    assert c.conns[1].users == {2};
    assert c.conns[0] == Fresh.conns[0] && c.conns[1] == Fresh.conns[1];
    assert c.conns == Fresh.conns;
    assert c.sessions == Fresh.sessions;
    assert c.checkedOut == Fresh.checkedOut;
    assert c == Fresh;
  }

  lemma StaleRelease()
    ensures Close(Fresh, 1) == Stale
  {
    assert {1} - {1} == {} && {1, 2} - {1} == {2};
    var c := Close(Fresh, 1);
    assert c.conns[0] == Stale.conns[0];
    assert c.conns == Stale.conns;
    assert c.sessions[1] == Stale.sessions[1];
    assert c.sessions == Stale.sessions;
    assert c.checkedOut == Stale.checkedOut;
    assert c.disconnects == [0];
    assert c == Stale;
  }

  lemma SecondSession()
    ensures GetSession(Stale) == (Again, 3)
    ensures Close(Close(Again, 3), 2) == Released
  {
    var (c, s) := GetSession(Stale);
    assert ReusesShared(Stale);
    assert s == 3;
    assert |c.conns| == 2;
    assert c.conns[1].users == {2, 3};
    assert c.conns[0] == Again.conns[0] && c.conns[1] == Again.conns[1];
    assert c.conns == Again.conns;
    assert c.sessions == Again.sessions;
    assert c.checkedOut == Again.checkedOut;
    assert c == Again;
    assert {2, 3} - {3} == {2} && {2} - {2} == {};
    var r1 := Close(Again, 3);
    assert r1 == Again.(checkedOut := {2}, idle := [3]);
    assert Close(r1, 2) == Released;
  }

  lemma SecondReset()
    ensures ResetCache(Released).disconnects == [0, 1]
  {
    var d := Released.(current := None, idle := []);
    var d1 := CloseChannel(d, 3);
    assert {2, 3} - {3} == {2} && {2} - {2} == {};
    assert d1.conns == [Connection(false, 0, {}), Connection(true, 1, {2})];
    assert d1.disconnects == [0];
    assert CloseAll(d, [3, 2]) == CloseAll(d1, [2]);
    assert CloseChannel(d1, 2).disconnects == [0, 1];
  }

  /**
   * The cached shared-session reset sequence: two sessions share the first
   * connection; a released session is handed out again; resetCache leaves
   * that connection connected while a caller still holds a session over it;
   * the next session uses a second connection; releasing the held session
   * disconnects the first connection; after both callers release, a second
   * reset disconnects the second connection.
   */
  lemma SharedSessionCachedResetScenario()
    ensures GetSession(Init(true)) == (One, 0) && GetSession(One) == (Two, 1)
    ensures Two.sessions[0].conn == 0 && Two.sessions[1].conn == 0
    ensures Close(Two, 0) == Pooled && GetSession(Pooled) == (Two, 0)
    ensures ResetCache(Pooled).disconnects == []
    ensures GetSession(ResetCache(Pooled)) == (Fresh, 2) && Fresh.sessions[2].conn == 1
    ensures Close(Fresh, 1).disconnects == [0]
    ensures GetSession(Close(Fresh, 1)) == (Again, 3) && Again.sessions[3].conn == 1
    ensures Close(Close(Again, 3), 2).disconnects == [0]
    ensures ResetCache(Close(Close(Again, 3), 2)).disconnects == [0, 1]
  {
    FirstTwoSessions();
    ReleaseAndReuse();
    FirstReset();
    SessionAfterReset();
    StaleRelease();
    SecondSession();
    SecondReset();
  }
}
