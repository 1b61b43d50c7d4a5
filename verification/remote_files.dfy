/**
 * The remote side of an upload and the command sequence the outbound
 * file-transferring handler issues for one payload.
 *
 * The remote filesystem is a set of directories and a map from path to file
 * contents. A payload is written under its final name plus the ".writing"
 * suffix and only then renamed to its final name, so no reader ever sees a
 * partially written file under the final name.
 */
module RemoteFiles {
  import opened Wrappers
  import opened RemotePaths

  /** An octet of file content. */
  newtype byte = b: int | 0 <= b < 256

  /** The suffix marking an upload still in progress. */
  const WritingSuffix: string := ".writing"

  /** The remote filesystem as the session sees it. */
  datatype Remote = Remote(dirs: set<string>, files: map<string, seq<byte>>)

  /** The remote operations a transfer issues over its session. */
  datatype Command =
    | Mkdir(path: string)
    | Put(path: string, data: seq<byte>)
    | Rename(from: string, to: string)

  /** What a message carries: text, raw bytes, or a local file whose contents
      have already been read. */
  datatype Payload =
    | Text(text: string)
    | Bytes(bytes: seq<byte>)
    | LocalFile(name: string, contents: seq<byte>)

  /** The outbound handler's settings that shape the transfer. */
  datatype Handler = Handler(remoteDirectory: string, autoCreateDirectory: bool)

  /** Why a transfer did not happen. */
  datatype TransferError = RemoteDirectoryMissing(directory: string)

  /** A completed transfer: the commands issued and the remote side afterwards. */
  datatype Transfer = Transfer(commands: seq<Command>, remote: Remote)

  /** s ends with suffix. */
  predicate EndsWith(s: string, suffix: string) {
    |suffix| <= |s| && s[|s| - |suffix|..] == suffix
  }

  /** The file stored under path, if any. */
  function Lookup(files: map<string, seq<byte>>, path: string): (contents: Option<seq<byte>>) {
    if path in files then Some(files[path]) else None
  }

  /** The bytes a payload stands for; text is converted by the handler's
      charset encoding, which is given. */
  function Content(p: Payload, encode: string -> seq<byte>): (bytes: seq<byte>) {
    match p
    case Text(t) => encode(t)
    case Bytes(b) => b
    case LocalFile(_, c) => c
  }

  /** The path of file name inside remote directory dir. */
  function RemoteFilePath(dir: string, name: string): (path: string)
    ensures EndsWith(path, name)
    ensures IsPrefix(dir, path)
  {
    var path := if dir == "" || dir[|dir| - 1] == Separator then dir + name
                else dir + [Separator] + name;
    assert path[|path| - |name|..] == name;
    assert path[..|dir|] == dir;
    path
  }

  /** The name a payload is written under before it is renamed into place. */
  function TemporaryPath(path: string): (temp: string)
    ensures EndsWith(temp, WritingSuffix)
    ensures IsPrefix(path, temp) && temp != path
  {
    var temp := path + WritingSuffix;
    assert temp[|temp| - |WritingSuffix|..] == WritingSuffix;
    assert temp[..|path|] == path;
    temp
  }

  /** The file paths a command may change. */
  function Touches(cmd: Command): (paths: set<string>) {
    match cmd
    case Mkdir(_) => {}
    case Put(p, _) => {p}
    case Rename(f, t) => {f, t}
  }

  /** The effect of one command on the remote side. Renaming replaces an
      existing target; renaming a missing source changes nothing. No file
      outside the paths the command names changes, and no directory goes away. */
  function Apply(r: Remote, cmd: Command): (a: Remote)
    ensures r.dirs <= a.dirs
    ensures forall q :: q !in Touches(cmd) ==> Lookup(a.files, q) == Lookup(r.files, q)
    ensures cmd.Mkdir? ==> a.files == r.files && cmd.path in a.dirs
    ensures cmd.Put? ==> Lookup(a.files, cmd.path) == Some(cmd.data)
    ensures cmd.Rename? && cmd.from in r.files ==>
              && Lookup(a.files, cmd.to) == Some(r.files[cmd.from])
              && (cmd.from != cmd.to ==> cmd.from !in a.files)
    ensures cmd.Rename? && cmd.from !in r.files ==> a == r
  {
    match cmd
    case Mkdir(p) => r.(dirs := r.dirs + {p})
    case Put(p, d) => r.(files := r.files[p := d])
    case Rename(f, t) =>
      if f in r.files then r.(files := (r.files - {f})[t := r.files[f]]) else r
  }

  /** The remote side after issuing cmds in order: directories only accumulate,
      and a file no command names is left as it was. */
  function Run(r: Remote, cmds: seq<Command>): (out: Remote)
    ensures r.dirs <= out.dirs
    ensures forall q :: (forall i :: 0 <= i < |cmds| ==> q !in Touches(cmds[i])) ==>
              Lookup(out.files, q) == Lookup(r.files, q)
    decreases |cmds|
  {
    if |cmds| == 0 then r
    else Apply(Run(r, cmds[..|cmds| - 1]), cmds[|cmds| - 1])
  }

  /** One mkdir per path, in order. */
  function Mkdirs(paths: seq<string>): (cmds: seq<Command>)
    ensures |cmds| == |paths|
    ensures forall i :: 0 <= i < |cmds| ==> cmds[i] == Mkdir(paths[i])
  {
    seq(|paths|, i requires 0 <= i < |paths| => Mkdir(paths[i]))
  }

  /** Running a batch of mkdirs adds exactly those directories and leaves the
      files alone. */
  lemma {:induction false} RunMkdirs(r: Remote, paths: seq<string>)
    ensures Run(r, Mkdirs(paths)).files == r.files
    ensures Run(r, Mkdirs(paths)).dirs == r.dirs + Elems(paths)
    decreases |paths|
  {
    if |paths| > 0 {
      var init := paths[..|paths| - 1];
      assert Mkdirs(paths)[..|paths| - 1] == Mkdirs(init);
      RunMkdirs(r, init);
      assert Elems(paths) == Elems(init) + {paths[|paths| - 1]} by {
        assert paths == init + [paths[|paths| - 1]];
      }
    }
  }

  /** Running a + b runs a, then b. */
  lemma {:induction false} RunAppend(r: Remote, a: seq<Command>, b: seq<Command>)
    ensures Run(r, a + b) == Run(Run(r, a), b)
    decreases |b|
  {
    if |b| == 0 {
      assert a + b == a;
    } else {
      var b' := b[..|b| - 1];
      assert (a + b)[..|a + b| - 1] == a + b';
      RunAppend(r, a, b');
    }
  }

  /** Writing to a temporary name and renaming it to path leaves data under path
      and no temporary file, whatever either name held before. */
  lemma PutThenRename(r: Remote, temp: string, path: string, data: seq<byte>)
    requires temp != path
    ensures Run(r, [Put(temp, data), Rename(temp, path)]).files == (r.files - {temp})[path := data]
    ensures Run(r, [Put(temp, data), Rename(temp, path)]).dirs == r.dirs
  {
    var cmds := [Put(temp, data), Rename(temp, path)];
    assert cmds[..1][..0] == [];
    assert cmds[..1] == [Put(temp, data)];
    var r1 := Apply(r, Put(temp, data));
    assert Run(r, cmds[..1]) == r1;
    assert Run(r, cmds) == Apply(r1, Rename(temp, path));
    assert r1.files - {temp} == r.files - {temp};
  }

  /** The directory counts as present when every directory on its chain exists. */
  predicate DirectoryPresent(r: Remote, dir: string) {
    forall p :: p in DirectoryChain(dir) ==> p in r.dirs
  }

  /** The commands a transfer of data under name issues over an existing remote
      side r: directories first when auto-creation is on, then the write to the
      temporary name, then the rename to the final name. */
  function UploadCommands(r: Remote, h: Handler, name: string, data: seq<byte>): (cmds: seq<Command>) {
    var made := if h.autoCreateDirectory then MkdirCalls(h.remoteDirectory, r.dirs) else [];
    var path := RemoteFilePath(h.remoteDirectory, name);
    var temp := TemporaryPath(path);
    Mkdirs(made) + [Put(temp, data), Rename(temp, path)]
  }

  /**
   * Transfers data under name into the handler's remote directory. Fails,
   * issuing nothing, when the directory is missing and auto-creation is off.
   * On success the final name holds exactly data, the temporary name is gone,
   * every other file is untouched, and the directory exists.
   */
  function Upload(r: Remote, h: Handler, name: string, data: seq<byte>)
    : (res: Result<Transfer, TransferError>)
    ensures res.Failure? <==> !h.autoCreateDirectory && !DirectoryPresent(r, h.remoteDirectory)
    ensures res.Failure? ==> res.error == RemoteDirectoryMissing(h.remoteDirectory)
    ensures res.Success? ==>
              var path := RemoteFilePath(h.remoteDirectory, name);
              && res.value.remote.files == (r.files - {TemporaryPath(path)})[path := data]
              && res.value.remote.dirs ==
                   r.dirs + (if h.autoCreateDirectory then Elems(DirectoryChain(h.remoteDirectory)) else {})
              && DirectoryPresent(res.value.remote, h.remoteDirectory)
  {
    var dir := h.remoteDirectory;
    if !h.autoCreateDirectory && !DirectoryPresent(r, dir) then
      Failure(RemoteDirectoryMissing(dir))
    else
      var cmds := UploadCommands(r, h, name, data);
      UploadEffect(r, h, name, data);
      Success(Transfer(cmds, Run(r, cmds)))
  }

  /** The remote side after the commands of a transfer. */
  lemma UploadEffect(r: Remote, h: Handler, name: string, data: seq<byte>)
    ensures var path := RemoteFilePath(h.remoteDirectory, name);
            var after := Run(r, UploadCommands(r, h, name, data));
            && after.files == (r.files - {TemporaryPath(path)})[path := data]
            && after.dirs ==
                 r.dirs + (if h.autoCreateDirectory then Elems(DirectoryChain(h.remoteDirectory)) else {})
  {
    var dir := h.remoteDirectory;
    var chain := DirectoryChain(dir);
    var made := if h.autoCreateDirectory then MkdirCalls(dir, r.dirs) else [];
    var path := RemoteFilePath(dir, name);
    var temp := TemporaryPath(path);
    var mk := Mkdirs(made);
    var tail := [Put(temp, data), Rename(temp, path)];
    assert UploadCommands(r, h, name, data) == mk + tail;
    RunAppend(r, mk, tail);
    RunMkdirs(r, made);
    PutThenRename(Run(r, mk), temp, path, data);
    assert Elems(made) == (if h.autoCreateDirectory then Elems(chain) - r.dirs else {});
    assert r.dirs + Elems(made) ==
           r.dirs + (if h.autoCreateDirectory then Elems(chain) else {});
  }

  /** The write goes only to a ".writing" name other than the final one, the
      only rename moves that name onto the final one, and both follow the
      mkdir calls of the directory chain. */
  lemma UploadWritesViaTemporary(r: Remote, h: Handler, name: string, data: seq<byte>)
    requires Upload(r, h, name, data).Success?
    ensures var path := RemoteFilePath(h.remoteDirectory, name);
            var cmds := Upload(r, h, name, data).value.commands;
            var n := |cmds|;
            && n >= 2
            && cmds[n - 2] == Put(cmds[n - 2].path, data)
            && cmds[n - 1] == Rename(cmds[n - 2].path, path)
            && EndsWith(cmds[n - 2].path, WritingSuffix) && cmds[n - 2].path != path
            && (forall i :: 0 <= i < n - 2 ==> cmds[i].Mkdir?)
            && (forall i :: 0 <= i < n && cmds[i].Put? ==> i == n - 2)
            && (forall i :: 0 <= i < n && cmds[i].Rename? ==> i == n - 1)
            && (h.autoCreateDirectory ==> cmds[..n - 2] == Mkdirs(MkdirCalls(h.remoteDirectory, r.dirs)))
            && (!h.autoCreateDirectory ==> n == 2)
  {
    var made := if h.autoCreateDirectory then MkdirCalls(h.remoteDirectory, r.dirs) else [];
    var path := RemoteFilePath(h.remoteDirectory, name);
    var cmds := Upload(r, h, name, data).value.commands;
    assert cmds == Mkdirs(made) + [Put(TemporaryPath(path), data), Rename(TemporaryPath(path), path)];
    TransferShape(made, TemporaryPath(path), path, data);
  }

  /** The shape of mkdirs followed by a put to temp and a rename onto path. */
  lemma TransferShape(made: seq<string>, temp: string, path: string, data: seq<byte>)
    ensures var cmds := Mkdirs(made) + [Put(temp, data), Rename(temp, path)];
            var n := |cmds|;
            && n == |made| + 2
            && cmds[n - 2] == Put(temp, data) && cmds[n - 1] == Rename(temp, path)
            && (forall i :: 0 <= i < n - 2 ==> cmds[i].Mkdir?)
            && (forall i :: 0 <= i < n && cmds[i].Put? ==> i == n - 2)
            && (forall i :: 0 <= i < n && cmds[i].Rename? ==> i == n - 1)
            && cmds[..n - 2] == Mkdirs(made)
  {
    var cmds := Mkdirs(made) + [Put(temp, data), Rename(temp, path)];
    assert cmds[..|cmds| - 2] == Mkdirs(made);
  }

  /** Atomic placement: before the rename every intermediate remote side shows
      whatever the final name held before the transfer; after it, exactly data. */
  lemma FinalNameAtomic(r: Remote, h: Handler, name: string, data: seq<byte>)
    requires Upload(r, h, name, data).Success?
    ensures var path := RemoteFilePath(h.remoteDirectory, name);
            var cmds := Upload(r, h, name, data).value.commands;
            && (forall k :: 0 <= k < |cmds| ==>
                  Lookup(Run(r, cmds[..k]).files, path) == Lookup(r.files, path))
            && Lookup(Run(r, cmds).files, path) == Some(data)
  {
    var dir := h.remoteDirectory;
    var made := if h.autoCreateDirectory then MkdirCalls(dir, r.dirs) else [];
    var path := RemoteFilePath(dir, name);
    var temp := TemporaryPath(path);
    var mk := Mkdirs(made);
    var cmds := Upload(r, h, name, data).value.commands;
    assert cmds == mk + [Put(temp, data), Rename(temp, path)];
    forall k | 0 <= k < |cmds|
      ensures Lookup(Run(r, cmds[..k]).files, path) == Lookup(r.files, path)
    {
      BeforeRename(r, made, temp, path, data, k);
    }
    UploadEffect(r, h, name, data);
  }

  /** Every proper prefix of a transfer's commands leaves the final name as it
      was: mkdirs touch no file and the write goes to the temporary name. */
  lemma BeforeRename(r: Remote, made: seq<string>, temp: string, path: string, data: seq<byte>, k: nat)
    requires temp != path
    requires k < |made| + 2
    ensures var cmds := Mkdirs(made) + [Put(temp, data), Rename(temp, path)];
            Lookup(Run(r, cmds[..k]).files, path) == Lookup(r.files, path)
  {
    var mk := Mkdirs(made);
    var cmds := mk + [Put(temp, data), Rename(temp, path)];
    if k <= |mk| {
      assert cmds[..k] == Mkdirs(made[..k]);
      RunMkdirs(r, made[..k]);
    } else {
      assert cmds[..k] == mk + [Put(temp, data)];
      assert cmds[..k][..|mk|] == mk;
      RunMkdirs(r, made);
      assert Run(r, cmds[..k]).files == r.files[temp := data];
    }
  }
}
