# SFTP outbound transfer: directory creation, upload protocol, session caching

This project is a Dafny model of what the Spring Integration SFTP outbound tests
pin down about the SFTP module. It covers three things.

- **Directory auto-creation.** With `autoCreateDirectory` on, the
  file-transferring message handler walks the remote directory segment by
  segment. After each non-empty segment it calls `mkdir` on the accumulated
  path, so parents are created before their children. The test sees only the
  case where no directory exists. The model chooses to skip a path that
  already exists.
- **Upload protocol.** A payload is `put` under its final name plus
  `.writing` and then `rename`d to the final name. The final name therefore
  never holds a partially written file. The remote side is a set of
  directories and a map from path to bytes.
- **Session sharing and caching.**
  - The SFTP session factory opens SSH connections. In shared mode every new
    session runs over the one current connection while it stays connected.
    Otherwise each session gets its own connection.
  - The caching session factory hands out an idle session, when it has one,
    before creating a new one, and takes released sessions back into its
    pool. The model takes the oldest idle session first.
  - `resetCache` closes the idle sessions, makes the factory drop its shared
    connection and starts a new generation.
  - A session from an earlier generation is closed, not pooled, when its
    holder releases it.
  - A connection is disconnected when the last session over it closes.

Modules, one per file:

| file | module | contents |
|---|---|---|
| `wrappers.dfy` | `Wrappers` | `Option` and `Result` |
| `remote_paths.dfy` | `RemotePaths` | splitting and joining paths, the directory chain, the mkdir calls, and the accumulating loop that issues them |
| `remote_files.dfy` | `RemoteFiles` | the remote filesystem, the commands a transfer issues, and `Upload` |
| `session_cache.dfy` | `SessionCache` | connections, sessions, the pool, generations, the disconnect log, the invariant `Valid`, and the operations `GetSession`, `Close` and `ResetCache` |
| `cache_traces.dfy` | `CacheTraces` | arbitrary sequences of cache operations, and reset isolation over them |
| `transfer_handler.dfy` | `TransferHandler` | `handleMessage` over a plain and over the caching session factory: take a session, upload, close the session |
| `outbound_scenarios.dfy` | `OutboundScenarios` | the concrete situations the tests set up, replayed on the model |

The session cache's state records three extra things:
- for each connection, the set of open sessions over it;
- for each session and each connection, the generation in which it was created;
- the log of disconnects.

With that state, "disconnected when the last user closes" and "nothing from
before a reset is handed out after it" become properties of every reachable
state.

One might expect `resetCache` to disconnect the connections of the idle
sessions. The test asserts the opposite while a caller still holds a session
over such a connection: after `resetCache` the shared connection is *not*
disconnected (SftpOutboundTests.java lines 309-310). It is disconnected only
when that session is released (lines 314-315). The model follows the test.
Reset closes each idle session's channel, and a connection goes down only when
its last open session is closed.

## Model

Source paths are relative to the repository root.

| member | source | states |
|---|---|---|
| RemotePaths.Split | spring-integration-sftp/src/test/java/org/springframework/integration/sftp/outbound/SftpOutboundTests.java:203 | a path splits into at least one segment, and no segment contains the separator |
| RemotePaths.JoinSplit | spring-integration-sftp/src/test/java/org/springframework/integration/sftp/outbound/SftpOutboundTests.java:203 | joining the segments of any remote directory path gives the path back |
| RemotePaths.SplitJoin | spring-integration-sftp/src/test/java/org/springframework/integration/sftp/outbound/SftpOutboundTests.java:203 | separator-free segments come back unchanged when their join is split again |
| RemotePaths.DirectoryChain | spring-integration-sftp/src/test/java/org/springframework/integration/sftp/outbound/SftpOutboundTests.java:214-218 | the chain lists exactly the prefixes of the directory that end a non-empty segment, each a prefix of the directory, in strictly increasing length |
| RemotePaths.MkdirCalls | spring-integration-sftp/src/test/java/org/springframework/integration/sftp/outbound/SftpOutboundTests.java:214-218 | a path is created exactly when it is on the directory's chain and does not exist yet, and there are no more calls than chain entries |
| RemotePaths.ChainIsSegmentEnds | spring-integration-sftp/src/test/java/org/springframework/integration/sftp/outbound/SftpOutboundTests.java:214-218 | the directory chain holds exactly the prefixes of the directory that end a non-empty segment; each is a strictly shorter prefix of every later one |
| RemotePaths.ChainEndsAtDirectory | spring-integration-sftp/src/test/java/org/springframework/integration/sftp/outbound/SftpOutboundTests.java:218 | for a directory not ending in a separator, the last directory created is the target directory itself |
| RemotePaths.MissingKeepsOrder | spring-integration-sftp/src/test/java/org/springframework/integration/sftp/outbound/SftpOutboundTests.java:215-218 | skipping directories that already exist keeps the parents-first order: each remaining path is a proper prefix of every later one |
| RemotePaths.MissingNone | spring-integration-sftp/src/test/java/org/springframework/integration/sftp/outbound/SftpOutboundTests.java:197 | when no directory exists on the remote side, as the mocked `exists` answers, no path of the chain is skipped |
| RemotePaths.MkdirCallsSpec | spring-integration-sftp/src/test/java/org/springframework/integration/sftp/outbound/SftpOutboundTests.java:197-218 | mkdir is called for a path exactly when it ends a non-empty segment of the directory and does not exist yet; each path once; every call's path is a prefix of all later ones |
| RemotePaths.CreateDirectories | spring-integration-sftp/src/test/java/org/springframework/integration/sftp/outbound/SftpOutboundTests.java:202-218 | the segment-by-segment loop issues exactly those mkdir calls, and afterwards the existing directories plus the whole chain exist |
| RemoteFiles.Apply | spring-integration-sftp/src/test/java/org/springframework/integration/sftp/outbound/SftpOutboundTests.java:343-366 | a command never removes a directory and leaves every path it does not touch as it was; mkdir adds its directory and no file; put stores its data under its path; rename of an existing file moves its contents to the target and removes the source, and rename of a missing file changes nothing |
| RemoteFiles.Run | spring-integration-sftp/src/test/java/org/springframework/integration/sftp/outbound/SftpOutboundTests.java:343-366 | a sequence of commands never removes a directory, and a path none of the commands touches keeps its contents |
| RemoteFiles.RunMkdirs | spring-integration-sftp/src/test/java/org/springframework/integration/sftp/outbound/SftpOutboundTests.java:207-213 | mkdir commands add their directories and leave every file untouched |
| RemoteFiles.PutThenRename | spring-integration-sftp/src/test/java/org/springframework/integration/sftp/outbound/SftpOutboundTests.java:343-366 | a put under a temporary name followed by a rename leaves the data under the final name, no temporary file, and the other files as they were |
| RemoteFiles.Upload | spring-integration-sftp/src/test/java/org/springframework/integration/sftp/outbound/SftpOutboundTests.java:336-366 | fails with the missing directory exactly when auto-creation is off and the directory is absent; on success the final name holds exactly the data, the `.writing` name is gone, the other files are untouched, and the directory chain exists |
| RemoteFiles.UploadEffect | spring-integration-sftp/src/test/java/org/springframework/integration/sftp/outbound/SftpOutboundTests.java:343-366 | running a transfer's commands stores the data under the final name, removes the temporary name, and adds the chain's directories only when auto-creation is on |
| RemoteFiles.UploadWritesViaTemporary | spring-integration-sftp/src/test/java/org/springframework/integration/sftp/outbound/SftpOutboundTests.java:347-362 | the only put writes the data to a name ending in `.writing` other than the final name; the only rename moves that name onto the final name, last; everything before them is mkdir |
| RemoteFiles.FinalNameAtomic | spring-integration-sftp/src/test/java/org/springframework/integration/sftp/outbound/SftpOutboundTests.java:343-366 | at every point before the rename, the final name holds whatever it held before the transfer; afterwards it holds exactly the data |
| SessionCache.Init | spring-integration-sftp/src/test/java/org/springframework/integration/sftp/outbound/SftpOutboundTests.java:292-296 | a fresh caching factory satisfies the invariant, holds no sessions and has an empty pool |
| SessionCache.OpenSession | spring-integration-sftp/src/test/java/org/springframework/integration/sftp/outbound/SftpOutboundTests.java:236-244 | the session factory adds exactly one session; it runs over the shared connection when that can be reused and over one newly opened connection otherwise; in shared mode that connection becomes the shared one; the connection is connected; earlier sessions are unchanged |
| SessionCache.CloseChannel | spring-integration-sftp/src/test/java/org/springframework/integration/sftp/outbound/SftpOutboundTests.java:314-315 | closing a channel changes no session's connection or generation and no connection's generation, and leaves the pool, the holders, the shared connection and the generation alone |
| SessionCache.GetSession | spring-integration-sftp/src/test/java/org/springframework/integration/sftp/outbound/SftpOutboundTests.java:301-307 | the returned session becomes held; it is the oldest pooled session, which leaves the pool, when there is one, and a new session otherwise |
| SessionCache.Close | spring-integration-sftp/src/test/java/org/springframework/integration/sftp/outbound/SftpOutboundTests.java:305-320 | the session is no longer held; it joins the end of the pool exactly when it was held and is of the current generation; closing a session nobody holds changes nothing |
| SessionCache.ResetCache | spring-integration-sftp/src/test/java/org/springframework/integration/sftp/outbound/SftpOutboundTests.java:309-323 | reset starts the next generation with an empty pool and no shared connection; held sessions stay held, and no session changes connection or generation |
| SessionCache.OpenSessionSpec | spring-integration-sftp/src/test/java/org/springframework/integration/sftp/outbound/SftpOutboundTests.java:236-244 | the session factory keeps the invariant; the new session is open, of the current generation, and over a connected connection; a connection is opened exactly when the shared one cannot be reused; earlier sessions are unchanged |
| SessionCache.GetSessionSpec | spring-integration-sftp/src/test/java/org/springframework/integration/sftp/outbound/SftpOutboundTests.java:301-307 | getSession keeps the invariant and hands out a session no caller holds, open, of the current generation and over a connected connection; nothing is disconnected |
| SessionCache.CloseChannelSpec | spring-integration-sftp/src/test/java/org/springframework/integration/sftp/outbound/SftpOutboundTests.java:314-315 | closing a channel keeps the invariant; its connection stays connected exactly when another session still uses it, and is logged as disconnected exactly when it goes down; nothing else changes |
| SessionCache.CloseAllSpec | spring-integration-sftp/src/test/java/org/springframework/integration/sftp/outbound/SftpOutboundTests.java:322-323 | closing the channels of a list of distinct sessions being closed keeps the invariant for the sessions not yet closed |
| SessionCache.CloseCurrentSpec | spring-integration-sftp/src/test/java/org/springframework/integration/sftp/outbound/SftpOutboundTests.java:319-321 | releasing a current-generation session puts it at the end of the pool and changes no session, connection or disconnect |
| SessionCache.CloseStaleSpec | spring-integration-sftp/src/test/java/org/springframework/integration/sftp/outbound/SftpOutboundTests.java:314-315 | releasing a session from before the last reset closes it; its connection is disconnected, and logged, exactly when no other open session uses it; nothing else changes |
| SessionCache.CloseSpec | spring-integration-sftp/src/test/java/org/springframework/integration/sftp/outbound/SftpOutboundTests.java:305-320 | close keeps the invariant, the caller no longer holds the session, and no session changes connection or generation |
| SessionCache.ResetKeepsInv | spring-integration-sftp/src/test/java/org/springframework/integration/sftp/outbound/SftpOutboundTests.java:309-313 | resetCache keeps the invariant, and every existing session and connection belongs to a generation before the new one |
| SessionCache.ResetSpec | spring-integration-sftp/src/test/java/org/springframework/integration/sftp/outbound/SftpOutboundTests.java:309-323 | resetCache empties the pool, drops the shared connection and starts a new generation; held sessions are untouched; pooled ones are closed; a connection stays connected exactly when a held session uses it |
| SessionCache.ResetConnection | spring-integration-sftp/src/test/java/org/springframework/integration/sftp/outbound/SftpOutboundTests.java:309-310 | after resetCache a connection is connected exactly when a session held by a caller runs over it |
| SessionCache.SharedSessionsShareConnection | spring-integration-sftp/src/test/java/org/springframework/integration/sftp/outbound/SftpOutboundTests.java:242-244 | in shared mode two successive sessions are distinct but run over the same connection, and at most one connection is opened |
| SessionCache.NotSharedSessionsDistinct | spring-integration-sftp/src/test/java/org/springframework/integration/sftp/outbound/SftpOutboundTests.java:269-271 | without sharing, two successive sessions each get a newly opened connection of their own |
| SessionCache.ReleasedSessionReused | spring-integration-sftp/src/test/java/org/springframework/integration/sftp/outbound/SftpOutboundTests.java:305-307 | a released session is the next one handed out when the pool was empty; otherwise the oldest pooled session is |
| SessionCache.ResetGivesFresh | spring-integration-sftp/src/test/java/org/springframework/integration/sftp/outbound/SftpOutboundTests.java:311-313 | the first getSession after resetCache creates a new session over a newly opened connection, even in shared mode |
| CacheTraces.RunKeepsBefore | spring-integration-sftp/src/test/java/org/springframework/integration/sftp/outbound/SftpOutboundTests.java:301-323 | across any sequence of operations every getSession records one handed-out session; sessions and connections from before a generation stay in it, and none of them is handed out |
| CacheTraces.RunValid | spring-integration-sftp/src/test/java/org/springframework/integration/sftp/outbound/SftpOutboundTests.java:301-323 | any sequence of getSession, close and resetCache keeps the invariant |
| CacheTraces.ResetIsolation | spring-integration-sftp/src/test/java/org/springframework/integration/sftp/outbound/SftpOutboundTests.java:311-318 | after resetCache, whatever the callers do, one session is recorded per getSession, and every one of them was created after the reset over a connection opened after it |
| TransferHandler.HandleMessagePlain | spring-integration-sftp/src/test/java/org/springframework/integration/sftp/outbound/SftpOutboundTests.java:86-102 | over a non-caching session factory, like the one the handler tests use, handling a message opens a new session; it succeeds exactly when auto-creation is on or the directory exists, and otherwise fails naming the directory |
| TransferHandler.HandlePlainEndsSession | spring-integration-sftp/src/test/java/org/springframework/integration/sftp/outbound/SftpOutboundTests.java:86-102 | over the default session factory without sharing, the transfer's session is closed afterwards on both paths; the connection the model opens for it is disconnected and logged; no held session or earlier connection changes |
| TransferHandler.HandleMessage | spring-integration-sftp/src/test/java/org/springframework/integration/sftp/outbound/SftpOutboundTests.java:301-307 | over the caching factory, handling a message succeeds exactly when auto-creation is on or the directory exists; otherwise it fails naming the directory |
| TransferHandler.HandleReleasesSession | spring-integration-sftp/src/test/java/org/springframework/integration/sftp/outbound/SftpOutboundTests.java:301-307 | over the caching factory the session used for the transfer is released on both paths, like the test's own getSession and close: callers hold what they held before, nothing is disconnected, and the session waits at the end of the pool |
| TransferHandler.HandleStoresPayload | spring-integration-sftp/src/test/java/org/springframework/integration/sftp/outbound/SftpOutboundTests.java:122-148 | with either factory, when the directory exists or may be created, the message succeeds; the final name holds the encoded text, the bytes or the file's contents; no `.writing` file remains |
| OutboundScenarios.FooBarBazChain | spring-integration-sftp/src/test/java/org/springframework/integration/sftp/outbound/SftpOutboundTests.java:214-218 | the chain of `/foo/bar/baz` is `/foo`, `/foo/bar`, `/foo/bar/baz` |
| OutboundScenarios.MkDirScenario | spring-integration-sftp/src/test/java/org/springframework/integration/sftp/outbound/SftpOutboundTests.java:194-219 | uploading to `/foo/bar/baz` with auto-creation and no directories succeeds, and its first three commands are mkdir `/foo`, `/foo/bar`, `/foo/bar/baz` |
| OutboundScenarios.HandleMessageScenario | spring-integration-sftp/src/test/java/org/springframework/integration/sftp/outbound/SftpOutboundTests.java:107-150 | a text or byte payload sent to the existing `remote-target-dir` lands under `remote-target-dir/` plus its name, holding the payload's bytes |
| OutboundScenarios.FileMessageScenario | spring-integration-sftp/src/test/java/org/springframework/integration/sftp/outbound/SftpOutboundTests.java:82-104 | a local file whose generated name is its name plus `.test` lands under that name with the file's contents |
| OutboundScenarios.MissingDirectoryScenario | spring-integration-sftp/src/test/java/org/springframework/integration/sftp/outbound/SftpOutboundTests.java:83-88 | the handler configured as in the file-message test, with the literal directory `remote-target-dir` and auto-creation left off, fails naming that directory when it is missing, and still closes its session and disconnects its connection |
| OutboundScenarios.FirstTwoSessions | spring-integration-sftp/src/test/java/org/springframework/integration/sftp/outbound/SftpOutboundTests.java:301-304 | two getSession calls on a shared caching factory yield sessions 0 and 1 over connection 0 |
| OutboundScenarios.ReleaseAndReuse | spring-integration-sftp/src/test/java/org/springframework/integration/sftp/outbound/SftpOutboundTests.java:305-307 | releasing session 0 pools it, and the next getSession hands it out again |
| OutboundScenarios.FirstReset | spring-integration-sftp/src/test/java/org/springframework/integration/sftp/outbound/SftpOutboundTests.java:308-310 | resetting with session 0 pooled and session 1 held closes session 0 and leaves connection 0 connected |
| OutboundScenarios.SessionAfterReset | spring-integration-sftp/src/test/java/org/springframework/integration/sftp/outbound/SftpOutboundTests.java:311-313 | the next session is the new session 2 over the new connection 1 |
| OutboundScenarios.StaleRelease | spring-integration-sftp/src/test/java/org/springframework/integration/sftp/outbound/SftpOutboundTests.java:314-315 | releasing the pre-reset session 1 closes it and disconnects connection 0 |
| OutboundScenarios.SecondSession | spring-integration-sftp/src/test/java/org/springframework/integration/sftp/outbound/SftpOutboundTests.java:316-321 | the next session is the new session 3 over connection 1; releasing sessions 3 and 2 pools both and disconnects nothing |
| OutboundScenarios.SecondReset | spring-integration-sftp/src/test/java/org/springframework/integration/sftp/outbound/SftpOutboundTests.java:322-323 | resetting with both sessions pooled disconnects connection 1 |
| OutboundScenarios.SharedSessionCachedResetScenario | spring-integration-sftp/src/test/java/org/springframework/integration/sftp/outbound/SftpOutboundTests.java:275-323 | the whole cached shared-session reset sequence: the sessions handed out, the connections they use, and the disconnect log `[]`, `[0]`, `[0]`, `[0, 1]` at the points the test checks it |

## Left out

- The Spring-context chain tests (SftpOutboundTests.java lines 152-191) are left out. Their behaviour lives in XML configuration, which is not part of this model, and in the outbound gateway's `ls`.
- The file-name generator's expressions are left out. The generated name is a parameter of `HandleMessage`.
- The charset used to turn text into bytes is left out. It is the parameter `encode`.
- JSch is left out: transport, authentication, channel `connect`, and failures to connect or to transfer. The model has no error other than a missing remote directory.
- The remote "directory exists" check is not taken from the session's implementation, which is not part of this model. A directory counts as present when every directory on its chain is in the remote directory set.
- Local files are modelled by their contents only. Reading them, temporary local files and deleting them are left out.
- Pool size limits, blocking waits for a free session, and thread safety are left out. The model is sequential.
- `PropertiesPersistingMetadataStore` and `GroovySplitterTests` are left out. They are local-file persistence and Groovy/XML wiring, unrelated to the transfer path.
- SessionCache.Close: a handed-out session is identified by its number only, so the model assumes each holder closes its session at most once. A second close through a stale reference, after the session was handed out again, would release the new holder's session.
- OutboundScenarios.MissingDirectoryScenario: no test runs the handler against a missing directory. Line 84 is the test's own check that the directory exists. The failure modelled here is what the handler does without auto-creation, and no test asserts it.
- TransferHandler.HandleMessage: the failure on a missing directory without auto-creation is part of the model, not something a test asserts.
- TransferHandler.HandleReleasesSession: no test runs the handler over the caching factory. The handler tests use a non-caching factory (lines 86, 112, 135), and `HandleMessagePlain` stands in for it. The caching case is stated because the handler closes its session in the same way whichever factory it is given.
- RemotePaths.MkdirCalls: skipping a directory that already exists is a modelling choice. The mkdir test makes `exists` answer false for every path (line 197), so only the all-missing sequence at lines 215-218 is observed.
- SessionCache.GetSession: taking the oldest idle session first is a modelling choice. No getSession in lines 301-318 finds more than one pooled session, so the order is never observed.
- TransferHandler.HandlePlainEndsSession: the handler tests' `TestSftpSessionFactory` builds every session over one static mocked SSH session (lines 79, 379-380), so no connection is opened or disconnected per message there. The member models the default session factory without sharing, which opens a connection per session.
