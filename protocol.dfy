/** The session protocol of `SyncSocket` as functions of one end's state:
    the Responder's dispatcher (`listen_loop` and the handlers `file`,
    `get`, `peek` and `close` of the `commands` table) and the Initiator's
    reconciler (`sync`, `sync_folder`, `sync_file`). Each end is a `Host`:
    its filesystem, what the peer has sent it and what it has sent. */
module Protocol {
  import opened Base
  import opened Paths
  import opened Tree
  import opened Wire
  import opened Storage

  /** One end of the connection: its filesystem, the bytes the peer has
      sent that are not read yet, and every byte this end has sent. */
  datatype Host = Host(disk: Disk, incoming: seq<byte>, outgoing: seq<byte>)

  /** `send`: one frame more on the connection; OverflowError when a
      length does not fit in eight bytes (what has gone out by then is
      stated by the `SyncSocket.Send` method). */
  function Transmit(h: Host, command: string, argument: string, payload: seq<byte>): (r: Result<Host>)
    requires IsAscii(command) && IsAscii(argument)
    ensures r.Ok? <==> Fits(command, argument, payload)
    ensures r.Ok? ==> r.value == h.(outgoing := h.outgoing + Frame(command, argument, payload))
  {
    if Fits(command, argument, payload) then Ok(h.(outgoing := h.outgoing + Frame(command, argument, payload)))
    else Err(OverflowError)
  }

  /** `receive`: the next frame of the incoming stream. */
  function Take(h: Host): (r: Result<(Message, Host)>)
    ensures r.Ok? ==> r.value.1.disk == h.disk && r.value.1.outgoing == h.outgoing
    ensures r.Ok? ==> |r.value.1.incoming| + 16 <= |h.incoming|
    ensures r.Ok? ==> IsAscii(r.value.0.argument)
  {
    match DecodeFrame(h.incoming)
    case Err(e) => Err(e)
    case Ok((m, rest)) => Ok((m, h.(incoming := rest)))
  }

  /** The reply payload b't' of `file` and of a `peek` that finds a newer file. */
  const Yes: seq<byte> := [116]

  /** The reply payload b'f' of a `peek` that finds no newer file. */
  const No: seq<byte> := [102]

  /** The commands of the protocol are ASCII words. Members that frame a
      literal command call this first, so that `Transmit`'s precondition
      holds without the solver going over each literal character by
      character. */
  lemma CommandsAscii()
    ensures IsAscii("FILE") && IsAscii("GET") && IsAscii("PEEK") && IsAscii("CLOSE") && IsAscii("RESPONSE") && IsAscii("")
  {
  }

  /** The frame `file` answers with: RESPONSE, no argument, b't'. */
  const Acknowledgement: seq<byte> := Frame("RESPONSE", "", Yes)

  /** The frame `peek` answers with when nothing newer is there: b'f'. */
  const Refusal: seq<byte> := Frame("RESPONSE", "", No)

  // ---------------------------------------------------------------------
  // The handlers of the commands table
  // ---------------------------------------------------------------------

  /** `file`: creates the directory of `header` below the root when it does
      not exist, writes `buffer` to `File.join(root, *header.split("/"))`
      and answers RESPONSE b't'. */
  function FileHandler(rootPath: string, now: nat, h: Host, header: string, buffer: seq<byte>): (r: Result<Host>)
    ensures r.Ok? ==> r.value.incoming == h.incoming && r.value.outgoing == h.outgoing + Acknowledgement
  {
    var segments := Split(header, '/');
    var dir :- JoinOrFail([rootPath] + segments[..|segments| - 1]);
    var made :- EnsureDir(h.disk, dir, now);
    var target :- JoinOrFail([rootPath] + segments);
    var written :- WriteFile(made, target, buffer, now);
    CommandsAscii();
    Transmit(h.(disk := written), "RESPONSE", "", Yes)
  }

  /** The file `file` writes for `header`: `File.join(root, *header.split("/"))`. */
  function FileTarget(rootPath: string, header: string): string {
    HandlerJoinsSucceed(rootPath, header);
    Joined([rootPath] + Split(header, '/')).value
  }

  /** The directory `file` makes sure of for `header`: the join without the
      last segment of the split. */
  function FileDir(rootPath: string, header: string): string {
    HandlerJoinsSucceed(rootPath, header);
    var segments := Split(header, '/');
    Joined([rootPath] + segments[..|segments| - 1]).value
  }

  /** What a `file` that succeeds leaves on the filesystem, for any header:
      the bytes received, stamped with the current time, at `FileTarget`;
      the directory `FileDir` in place, and every directory of it made when
      it was missing; the containing directory of the target a directory;
      every other entry as it was, and nothing new but directories. */
  lemma FileHandlerWrites(rootPath: string, now: nat, h: Host, header: string, buffer: seq<byte>)
    requires FileHandler(rootPath, now, h, header, buffer).Ok?
    ensures var d' := FileHandler(rootPath, now, h, header, buffer).value.disk;
      var target := FileTarget(rootPath, header);
      var dir := FileDir(rootPath, header);
      && ReadFile(d', target) == Ok(buffer) && MTime(d', target) == Ok(now)
      && Exists(d', dir)
      && (!Exists(h.disk, dir) ==> DirsOf(dir) <= DirSet(d'))
      && (Parent(target) == "" || (Parent(target) in d' && d'[Parent(target)].Directory?))
      && (forall q | q in h.disk && q != target :: q in d' && d'[q] == h.disk[q])
      && (forall q | q in d' && q !in h.disk && q != target :: d'[q].Directory?)
  {
    EnsureDirThenWrite(h.disk, FileDir(rootPath, header), FileTarget(rootPath, header), buffer, now);
  }

  /** `file` succeeds exactly when its `os.makedirs` (if the directory is
      missing) and its write both succeed; the answer always fits its
      frame. What it leaves on disk is what the write produced. */
  lemma FileHandlerSucceeds(rootPath: string, now: nat, h: Host, header: string, buffer: seq<byte>)
    ensures var made := EnsureDir(h.disk, FileDir(rootPath, header), now);
      var r := FileHandler(rootPath, now, h, header, buffer);
      && (r.Ok? <==> made.Ok? && WriteFile(made.value, FileTarget(rootPath, header), buffer, now).Ok?)
      && (r.Ok? ==> r.value.disk == WriteFile(made.value, FileTarget(rootPath, header), buffer, now).value)
  {
    HandlerJoinsSucceed(rootPath, header);
    CommandsAscii();
  }

  /** A root made only of '/' and a header without '/' (what an Initiator
      whose root ends in '/' sends for a top-level file): the directory
      `file` makes sure of is `File.join(root)`, the empty path, and
      `os.makedirs("")` raises FileNotFoundError. */
  lemma FileHandlerRejectsEmptyDir(rootPath: string, now: nat, h: Host, name: string, buffer: seq<byte>)
    requires forall i | 0 <= i < |rootPath| :: rootPath[i] == '/'
    requires '/' !in name
    ensures FileDir(rootPath, name) == ""
    ensures FileHandler(rootPath, now, h, name, buffer) == Err(NotFound(""))
  {
    assert Split(name, '/') == [name];
    assert [rootPath] + [name][..0] == [rootPath];
    RemoveOnly(rootPath, '/');
    assert [rootPath][..0] == [] && JoinedPrefix([rootPath][..0]) == Some("");
    assert "" + Remove(rootPath, '/') == "";
    assert Joined([rootPath]) == Some("");
  }

  /** `File.join` with its IndexError as a failure. */
  function JoinOrFail(paths: seq<string>): (r: Result<string>)
    ensures r.Ok? <==> Joined(paths).Some?
    ensures r.Ok? ==> r.value == Joined(paths).value
  {
    match Joined(paths)
    case None => Err(IndexError)
    case Some(p) => Ok(p)
  }

  /** The joins of `file` and `get` never raise: the segments of a split
      hold no '/', so none of them is the lone "/" that `File.join` trips on. */
  lemma HandlerJoinsSucceed(rootPath: string, header: string)
    ensures var segments := Split(header, '/');
      && Joined([rootPath] + segments).Some?
      && Joined([rootPath] + segments[..|segments| - 1]).Some?
  {
    var segments := Split(header, '/');
    JoinWithoutLoneSlash(rootPath, segments);
    JoinWithoutLoneSlash(rootPath, segments[..|segments| - 1]);
  }

  lemma JoinWithoutLoneSlash(rootPath: string, segments: seq<string>)
    requires forall k | 0 <= k < |segments| :: '/' !in segments[k]
    ensures Joined([rootPath] + segments).Some?
  {
    var all := [rootPath] + segments;
    forall k | 0 < k < |all| ensures all[k] != "/" {
      assert all[k] == segments[k - 1];
      assert '/' in "/";
    }
    JoinFails(all);
  }

  /** `get`: the node of `File.file_from_path(File.join(root, *header.split("/")))`
      and then `send_file` of it: FILE, its path relative to the root and
      its bytes. The node is built as a regular entry: its children, which
      `File.__init__` would list for a directory, never reach the reply. */
  function GetHandler(rootPath: string, h: Host, header: string): (r: Result<Host>)
    requires IsAscii(rootPath) && IsAscii(header)
    ensures r.Ok? ==> r.value.disk == h.disk && r.value.incoming == h.incoming
    ensures r.Ok? ==> h.outgoing <= r.value.outgoing
  {
    var path :- Locate(rootPath, header);
    SendFile(rootPath, h, path)
  }

  /** The path of the node `get` builds: the joined header, with its
      location normalised by `File.file_from_path`. */
  function Locate(rootPath: string, header: string): (r: Result<string>)
    requires IsAscii(rootPath) && IsAscii(header)
    ensures r.Ok? ==> IsAscii(Drop(r.value, |rootPath|))
  {
    var path :- JoinOrFail([rootPath] + Split(header, '/'));
    match FileFromPath(path, Reg(SplitLast(path).1))
    case None => Err(IndexError)
    case Some(node) => GetPathsAscii(rootPath, header); Ok(node.path)
  }

  /** `send_file`: FILE with the path relative to the root, as
      `path_from_root` cuts it, and the bytes of the file. */
  function SendFile(rootPath: string, h: Host, path: string): (r: Result<Host>)
    requires IsAscii(Drop(path, |rootPath|))
    ensures r.Ok? ==> ReadFile(h.disk, path).Ok? && Fits("FILE", Drop(path, |rootPath|), ReadFile(h.disk, path).value)
    ensures r.Ok? ==> r.value == h.(outgoing := h.outgoing + Frame("FILE", Drop(path, |rootPath|), ReadFile(h.disk, path).value))
  {
    var content :- ReadFile(h.disk, path);
    CommandsAscii();
    Transmit(h, "FILE", Drop(path, |rootPath|), content)
  }

  lemma GetPathsAscii(rootPath: string, header: string)
    requires IsAscii(rootPath) && IsAscii(header)
    ensures var j := Joined([rootPath] + Split(header, '/'));
      j.Some? && FileFromPath(j.value, Reg(SplitLast(j.value).1)).Some? ==>
      IsAscii(Drop(FileFromPath(j.value, Reg(SplitLast(j.value).1)).value.path, |rootPath|))
  {
    var paths := [rootPath] + Split(header, '/');
    SplitPartsAscii(header);
    assert forall k | 0 < k < |paths| :: paths[k] == Split(header, '/')[k - 1];
    JoinedAscii(paths);
    var j := Joined(paths);
    if j.Some? && Strip(SplitLast(j.value).0) != "" {
      LocatedPathAscii(j.value, |rootPath|);
      var parts := SplitLast(j.value);
      assert FileFromPath(j.value, Reg(parts.1)).value.path == NormalizeLocation(parts.0).value + parts.1;
    }
  }

  lemma SplitPartsAscii(header: string)
    requires IsAscii(header)
    ensures forall k | 0 <= k < |Split(header, '/')| :: IsAscii(Split(header, '/')[k])
  {
    SplitChars(header, '/');
    forall k | 0 <= k < |Split(header, '/')| ensures IsAscii(Split(header, '/')[k]) {
      var part := Split(header, '/')[k];
      forall c | c in part ensures c as int < 128 {
        assert c in header;
      }
    }
  }

  lemma LocatedPathAscii(path: string, k: nat)
    requires IsAscii(path) && Strip(SplitLast(path).0) != ""
    ensures IsAscii(Drop(NormalizeLocation(SplitLast(path).0).value + SplitLast(path).1, k))
  {
    var parts := SplitLast(path);
    assert IsAscii(parts.0) && IsAscii(parts.1) by {
      if '/' in path {
        assert forall c | c in parts.0 :: c in path;
        assert forall c | c in parts.1 :: c in path;
      }
    }
    NormalizeLocationAscii(parts.0);
    AsciiDrop(NormalizeLocation(parts.0).value + parts.1, k);
  }

  /** The answer of `peek`: b't' when something exists at `path` and its
      modification time is strictly later than `t`, otherwise b'f'. */
  function PeekReply(d: Disk, path: string, t: nat): (b: seq<byte>)
    ensures b == Yes || b == No
  {
    match MTime(d, path)
    case Ok(m) => if m > t then Yes else No
    case Err(_) => No
  }

  /** `peek`: reads the Initiator's time from the payload (ValueError when
      it is not a number) and answers with `PeekReply` for
      `File.join(root, header[1:])`. */
  function PeekHandler(rootPath: string, h: Host, header: string, buffer: seq<byte>): (r: Result<Host>)
    ensures r.Ok? ==> r.value.disk == h.disk && r.value.incoming == h.incoming
  {
    var t :- match ParseTime(buffer) case None => Err(ValueError) case Some(t) => Ok(t);
    var path :- JoinOrFail([rootPath, Drop(header, 1)]);
    CommandsAscii();
    Transmit(h, "RESPONSE", "", PeekReply(h.disk, path, t))
  }

  /** What `File.join(root, x)` starts with: the root with '\\' turned into
      '/' and a '/' at the end. */
  function RootDir(rootPath: string): (dir: string)
    ensures rootPath != "" ==> dir != "" && dir[|dir| - 1] == '/'
  {
    Segment(rootPath, true).value
  }

  /** `File.join(root, x)` is the root directory followed by `x` with every
      '/' deleted. */
  lemma JoinUnderRoot(rootPath: string, x: string)
    ensures Joined([rootPath, x]) == Some(RootDir(rootPath) + Remove(x, '/'))
  {
    var paths := [rootPath, x];
    assert paths[..|paths| - 1] == [rootPath] && paths[|paths| - 1] == x;
    assert [rootPath][..0] == [];
    assert JoinedPrefix([rootPath]) == Some("" + RootDir(rootPath));
    assert "" + RootDir(rootPath) == RootDir(rootPath);
  }

  /** Where `peek` looks for the argument `header`: the root directory
      followed by the argument without its first character and with every
      other '/' deleted. */
  function PeekPath(rootPath: string, header: string): (path: string)
    ensures IsPrefix(RootDir(rootPath), path) && '/' !in path[|RootDir(rootPath)|..]
  {
    var rest := Remove(Drop(header, 1), '/');
    assert (RootDir(rootPath) + rest)[|RootDir(rootPath)|..] == rest;
    RootDir(rootPath) + rest
  }

  /** `peek` fails with ValueError when the payload is not a time. */
  lemma PeekRejectsTime(rootPath: string, h: Host, header: string, buffer: seq<byte>)
    requires ParseTime(buffer).None?
    ensures PeekHandler(rootPath, h, header, buffer) == Err(ValueError)
  {
  }

  /** Given a time, `peek` answers with `PeekReply` for `PeekPath` and
      leaves the filesystem as it is. */
  lemma PeekAnswers(rootPath: string, h: Host, header: string, buffer: seq<byte>, t: nat)
    requires ParseTime(buffer) == Some(t)
    ensures PeekHandler(rootPath, h, header, buffer)
      == Transmit(h, "RESPONSE", "", PeekReply(h.disk, PeekPath(rootPath, header), t))
  {
    JoinUnderRoot(rootPath, Drop(header, 1));
  }

  /** `peek` answers b't' exactly when something exists at the path and is
      strictly newer than the time received, and b'f' on a tie or when
      nothing is there. */
  lemma PeekReplyRule(d: Disk, path: string, t: nat)
    ensures PeekReply(d, path, t) == Yes <==> Exists(d, path) && MTime(d, path).value > t
    ensures PeekReply(d, path, t) == No <==> !(Exists(d, path) && MTime(d, path).value > t)
  {
    assert Yes != No by {
      assert Yes[0] != No[0];
    }
  }

  /** The flattening of nested paths by `peek`: for "/dir/name" it looks at
      the root directory followed by "dirname", so with nothing there it
      answers b'f' whatever the file "dir/name" below the root is like. */
  lemma PeekFlattensNestedPath(rootPath: string, h: Host, dir: string, name: string, buffer: seq<byte>)
    requires '/' !in dir && '/' !in name && ParseTime(buffer).Some?
    requires !Exists(h.disk, RootDir(rootPath) + dir + name)
    ensures PeekPath(rootPath, "/" + dir + "/" + name) == RootDir(rootPath) + dir + name
    ensures PeekHandler(rootPath, h, "/" + dir + "/" + name, buffer) == Ok(h.(outgoing := h.outgoing + Refusal))
  {
    CommandsAscii();
    var header := "/" + dir + "/" + name;
    PeekPathFlattens(rootPath, dir, name);
    PeekAnswers(rootPath, h, header, buffer, ParseTime(buffer).value);
    PeekReplyRule(h.disk, PeekPath(rootPath, header), ParseTime(buffer).value);
  }

  lemma PeekPathFlattens(rootPath: string, dir: string, name: string)
    requires '/' !in dir && '/' !in name
    ensures PeekPath(rootPath, "/" + dir + "/" + name) == RootDir(rootPath) + dir + name
  {
    FlattenedArgument(dir, name);
  }

  lemma FlattenedArgument(dir: string, name: string)
    requires '/' !in dir && '/' !in name
    ensures Remove(Drop("/" + dir + "/" + name, 1), '/') == dir + name
  {
    var header := "/" + dir + "/" + name;
    assert Drop(header, 1) == dir + ("/" + name);
    RemoveAppend(dir, "/" + name, '/');
    RemoveAppend("/", name, '/');
    assert Remove("/", '/') == "" by {
      assert "/"[..0] == [];
    }
    assert "" + name == name;
  }

  // ---------------------------------------------------------------------
  // listen_loop
  // ---------------------------------------------------------------------

  /** The entry of the `commands` table for a non-empty command other than
      CLOSE; a command missing from the table is a KeyError. */
  function Dispatch(rootPath: string, now: nat, h: Host, m: Message): (r: Result<Host>)
    requires IsAscii(rootPath) && IsAscii(m.argument)
    ensures r.Ok? ==> r.value.incoming == h.incoming
  {
    if m.command == "FILE" then FileHandler(rootPath, now, h, m.argument, m.payload)
    else if m.command == "GET" then GetHandler(rootPath, h, m.argument)
    else if m.command == "PEEK" then PeekHandler(rootPath, h, m.argument, m.payload)
    else Err(KeyError(m.command))
  }

  /** `listen_loop` until the session ends: `Ok` with the state in which
      CLOSE arrived, or the failure that ended it. */
  function Serve(rootPath: string, now: nat, h: Host): (r: Result<Host>)
    requires IsAscii(rootPath)
    decreases |h.incoming|, 0
  {
    match Take(h)
    case Err(e) => Err(e)
    case Ok((m, h')) => Step(rootPath, now, h', m)
  }

  /** What `listen_loop` does with a frame it has read: an empty command is
      skipped and the next frame read, CLOSE ends the session, anything
      else goes through the table. */
  function Step(rootPath: string, now: nat, h: Host, m: Message): (r: Result<Host>)
    requires IsAscii(rootPath) && IsAscii(m.argument)
    decreases |h.incoming|, 1
  {
    if m.command == "" then Serve(rootPath, now, h)
    else if m.command == "CLOSE" then Ok(h)
    else
      var h' :- Dispatch(rootPath, now, h, m);
      Serve(rootPath, now, h')
  }

  /** Every frame with a non-empty command is read and acted on in turn. */
  lemma ServeReadsFrame(rootPath: string, now: nat, h: Host, command: string, argument: string, payload: seq<byte>)
    requires IsAscii(rootPath) && IsAscii(command) && IsAscii(argument) && Fits(command, argument, payload)
    requires ' ' !in command
    ensures Serve(rootPath, now, h.(incoming := Frame(command, argument, payload) + h.incoming))
      == Step(rootPath, now, h, Message(command, argument, payload))
  {
    FrameRoundTrip(command, argument, payload, h.incoming);
  }

  /** A FILE frame the handler accepts is written, and the loop goes on. */
  lemma StepFile(rootPath: string, now: nat, h: Host, argument: string, payload: seq<byte>)
    requires IsAscii(rootPath) && IsAscii(argument) && FileHandler(rootPath, now, h, argument, payload).Ok?
    ensures Step(rootPath, now, h, Message("FILE", argument, payload))
      == Serve(rootPath, now, FileHandler(rootPath, now, h, argument, payload).value)
  {
    assert "FILE"[0] != "CLOSE"[0];
  }

  /** A CLOSE frame ends the session with nothing written and nothing sent. */
  lemma ServeClose(rootPath: string, now: nat, d: Disk, rest: seq<byte>, sent: seq<byte>)
    requires IsAscii(rootPath)
    ensures Serve(rootPath, now, Host(d, Frame("CLOSE", "", []) + rest, sent)) == Ok(Host(d, rest, sent))
  {
    FrameRoundTrip("CLOSE", "", [], rest);
  }

  /** A frame with an empty command is read and ignored. */
  lemma ServeSkipsEmptyCommand(rootPath: string, now: nat, h: Host, argument: string, payload: seq<byte>)
    requires IsAscii(rootPath) && IsAscii(argument) && Fits("", argument, payload)
    ensures Serve(rootPath, now, h.(incoming := Frame("", argument, payload) + h.incoming))
      == Serve(rootPath, now, h)
  {
    FrameRoundTrip("", argument, payload, h.incoming);
  }

  /** Any command outside the table, RESPONSE among them, ends the
      Responder with a KeyError. */
  lemma ServeRejectsUnknownCommand(rootPath: string, now: nat, h: Host, command: string, argument: string, payload: seq<byte>)
    requires IsAscii(rootPath) && IsAscii(command) && IsAscii(argument) && Fits(command, argument, payload)
    requires ' ' !in command && command !in {"", "FILE", "GET", "PEEK", "CLOSE"}
    ensures Serve(rootPath, now, h.(incoming := Frame(command, argument, payload) + h.incoming))
      == Err(KeyError(command))
  {
    FrameRoundTrip(command, argument, payload, h.incoming);
  }

  /** The acknowledgement the Initiator's `file` sends after a pull reaches
      the Responder as a RESPONSE command, which ends it with a KeyError. */
  lemma PullAcknowledgementCrashesResponder(rootPath: string, now: nat, h: Host)
    requires IsAscii(rootPath)
    ensures Serve(rootPath, now, h.(incoming := Acknowledgement + h.incoming))
      == Err(KeyError("RESPONSE"))
  {
    ServeRejectsUnknownCommand(rootPath, now, h, "RESPONSE", "", Yes);
  }

  /** A root path as an absolute-looking folder name: not empty, no
      backslash, no '/' or whitespace at either end. */
  predicate PlainRoot(rootPath: string) {
    && rootPath != "" && '\\' !in rootPath
    && rootPath[|rootPath| - 1] != '/'
    && !IsSpace(rootPath[0]) && !IsSpace(rootPath[|rootPath| - 1])
  }

  lemma PlainRootDir(rootPath: string)
    requires PlainRoot(rootPath)
    ensures RootDir(rootPath) == rootPath + "/"
  {
    assert Replace(rootPath, '\\', '/') == rootPath;
  }

  /** A pushed file at the top of the tree ("/" and a name) lands below the
      Responder's root with the bytes received, stamped with the current
      time, and the Responder acknowledges it with RESPONSE b't'. */
  lemma FileHandlerWritesTopLevel(rootPath: string, now: nat, h: Host, name: string, content: seq<byte>)
    requires PlainRoot(rootPath) && IsDir(h.disk, rootPath)
    requires name != "" && '/' !in name && !IsDir(h.disk, rootPath + "/" + name)
    ensures FileHandler(rootPath, now, h, "/" + name, content)
      == Ok(Host(h.disk[rootPath + "/" + name := RegularFile(content, now)], h.incoming,
                 h.outgoing + Acknowledgement))
  {
    FileJoinsTopLevel(rootPath, name);
    TopLevelWrite(rootPath, now, h.disk, name, content);
  }

  /** Under an existing root, the directory "root/" is there already and
      root/name is written in place. */
  lemma TopLevelWrite(rootPath: string, now: nat, d: Disk, name: string, content: seq<byte>)
    requires PlainRoot(rootPath) && IsDir(d, rootPath)
    requires name != "" && '/' !in name && !IsDir(d, rootPath + "/" + name)
    ensures EnsureDir(d, rootPath + "/", now) == Ok(d)
    ensures WriteFile(d, rootPath + "/" + name, content, now) == Ok(d[rootPath + "/" + name := RegularFile(content, now)])
  {
    TopLevelParent(rootPath, name);
    assert Exists(d, rootPath + "/");
  }

  lemma FileJoinsTopLevel(rootPath: string, name: string)
    requires PlainRoot(rootPath) && name != "" && '/' !in name
    ensures var segments := Split("/" + name, '/');
      && JoinOrFail([rootPath] + segments[..|segments| - 1]) == Ok(rootPath + "/")
      && JoinOrFail([rootPath] + segments) == Ok(rootPath + "/" + name)
  {
    var segments := Split("/" + name, '/');
    TopLevelSplit(name);
    TopLevelJoins(rootPath, name);
    assert [rootPath] + segments[..|segments| - 1] == [rootPath, ""];
    assert [rootPath] + segments == [rootPath, "", name];
  }

  /** The two joins `file` makes for "/" and a name. */
  lemma TopLevelJoins(rootPath: string, name: string)
    requires PlainRoot(rootPath) && '/' !in name
    ensures Joined([rootPath, ""]) == Some(rootPath + "/")
    ensures Joined([rootPath, "", name]) == Some(rootPath + "/" + name)
  {
    TopLevelDir(rootPath);
    var paths := [rootPath, "", name];
    assert paths[..|paths| - 1] == [rootPath, ""] && paths[|paths| - 1] == name;
    assert Joined(paths) == Some(rootPath + "/" + Remove(name, '/'));
  }

  lemma TopLevelSplit(name: string)
    requires '/' !in name
    ensures Split("/" + name, '/') == ["", name]
  {
    var header := "/" + name;
    assert FirstIndex(header, '/') == 0;
    assert header[1..] == name && header[..0] == "";
    assert Split(header, '/') == [""] + Split(name, '/');
  }

  lemma TopLevelDir(rootPath: string)
    requires PlainRoot(rootPath)
    ensures JoinedPrefix([rootPath]) == Some(rootPath + "/")
    ensures JoinedPrefix([rootPath, ""]) == Some(rootPath + "/")
    ensures Joined([rootPath, ""]) == Some(rootPath + "/")
  {
    PlainRootDir(rootPath);
    JoinUnderRoot(rootPath, "");
    var dir := rootPath + "/";
    assert Remove("", '/') == "" && dir + "" == dir;
    assert [rootPath, ""][..1] == [rootPath] && [rootPath][..0] == [];
    assert JoinedPrefix([rootPath]) == Some("" + dir);
    assert "" + dir == dir;
  }

  /** The file "root/name" has the root as its directory. */
  lemma TopLevelParent(rootPath: string, name: string)
    requires PlainRoot(rootPath) && name != "" && '/' !in name
    ensures Canon(rootPath + "/") == Canon(rootPath)
    ensures Canon(rootPath + "/" + name) == rootPath + "/" + name
    ensures Parent(rootPath + "/" + name) == rootPath
  {
    ParentOf(rootPath, name);
    assert (rootPath + "/")[..|rootPath|] == rootPath;
  }

  /** A request for a top-level file ("/" and a name) is answered with
      FILE, the same relative path and the bytes of the file below the
      Responder's root (an OverflowError only when they do not fit the
      frame). */
  lemma GetHandlerSendsTopLevel(rootPath: string, h: Host, name: string)
    requires PlainRoot(rootPath) && IsAscii(rootPath) && IsAscii(name)
    requires name != "" && '/' !in name
    requires ReadFile(h.disk, rootPath + "/" + name).Ok?
    ensures GetHandler(rootPath, h, "/" + name)
      == Transmit(h, "FILE", "/" + name, ReadFile(h.disk, rootPath + "/" + name).value)
  {
    LocateTopLevel(rootPath, name);
    ConcatAssoc(rootPath, "/", name);
    SendFileBelow(rootPath, h, "/" + name);
  }

  lemma GetJoinsTopLevel(rootPath: string, name: string)
    requires PlainRoot(rootPath) && name != "" && '/' !in name
    ensures Joined([rootPath] + Split("/" + name, '/')) == Some(rootPath + "/" + name)
  {
    TopLevelSplit(name);
    TopLevelJoins(rootPath, name);
    assert [rootPath] + Split("/" + name, '/') == [rootPath, "", name];
  }

  /** `send_file` for a path under the root sends the part after the root. */
  lemma SendFileBelow(rootPath: string, h: Host, rel: string)
    requires IsAscii(rel)
    requires ReadFile(h.disk, rootPath + rel).Ok?
    ensures Drop(rootPath + rel, |rootPath|) == rel
    ensures SendFile(rootPath, h, rootPath + rel)
      == Transmit(h, "FILE", rel, ReadFile(h.disk, rootPath + rel).value)
  {
    assert (rootPath + rel)[|rootPath|..] == rel;
  }

  lemma TopLevelFile(rootPath: string, name: string)
    requires PlainRoot(rootPath) && '/' !in name
    ensures SplitLast(rootPath + "/" + name) == (rootPath, name)
    ensures FileFromPath(rootPath + "/" + name, Reg(name)) == Some(Node(name, rootPath + "/", rootPath + "/" + name, []))
  {
    SplitLastOf(rootPath, name);
  }

  /** At the top level the node `get` builds is the file joined. */
  lemma LocateTopLevel(rootPath: string, name: string)
    requires PlainRoot(rootPath) && IsAscii(rootPath) && IsAscii(name)
    requires name != "" && '/' !in name
    ensures Locate(rootPath, "/" + name) == Ok(rootPath + "/" + name)
  {
    GetJoinsTopLevel(rootPath, name);
    TopLevelFile(rootPath, name);
  }

  /** The split of `file_from_path` cuts at the '/' before a name. */
  lemma SplitLastOf(rootPath: string, name: string)
    requires '/' !in name
    ensures SplitLast(rootPath + "/" + name) == (rootPath, name)
  {
    var path := rootPath + "/" + name;
    var r := SplitLast(path);
    assert r.0 + "/" + r.1 == path;
    assert forall j | |rootPath| < j < |path| :: path[j] == name[j - |rootPath| - 1];
    assert forall j | |path| - |r.1| <= j < |path| :: path[j] == r.1[j - (|path| - |r.1|)];
    var a := |path| - |r.1| - 1;
    assert path[a] == '/';
    assert a <= |rootPath|;
    assert path[|rootPath|] == '/';
    assert |rootPath| <= a;
    assert |r.1| == |name|;
    assert r.1 == path[|path| - |name|..] == name;
    assert r.0 == path[..|rootPath|] == rootPath;
  }

  // ---------------------------------------------------------------------
  // Nested paths below a plain root
  // ---------------------------------------------------------------------

  /** A name a path below a plain root is made of: not empty, no '/', no
      backslash, and not ending in whitespace. */
  predicate PlainName(n: string) {
    n != "" && '/' !in n && '\\' !in n && !IsSpace(n[|n| - 1])
  }

  /** The directory names `ns`, each followed by '/'. */
  function Slashed(ns: seq<string>): string {
    if ns == [] then "" else Slashed(ns[..|ns| - 1]) + ns[|ns| - 1] + "/"
  }

  lemma {:induction false} SlashedJoin(ns: seq<string>, x: string)
    ensures Slashed(ns) + x == JoinWith(ns + [x], '/')
  {
    if ns != [] {
      var n := |ns| - 1;
      SlashedJoin(ns[..n], ns[n]);
      assert (ns + [x])[..|ns|] == ns;
      assert ns[..n] + [ns[n]] == ns;
    } else {
      assert [] + [x] == [x];
    }
  }

  /** A plain name in the loop of `File.join` is followed by one '/'. */
  lemma SegmentOfName(n: string)
    requires PlainName(n)
    ensures Segment(n, false) == Some(n + "/")
  {
    assert n[0] in n && n[|n| - 1] in n;
    assert Replace(n, '\\', '/') == n;
  }

  /** The loop of `File.join(root, "", n1, ..., nk)` over plain names. */
  lemma {:induction false} JoinedDirs(rootPath: string, ns: seq<string>)
    requires PlainRoot(rootPath) && forall k | 0 <= k < |ns| :: PlainName(ns[k])
    ensures JoinedPrefix([rootPath, ""] + ns) == Some(rootPath + "/" + Slashed(ns))
  {
    if ns == [] {
      JoinedDirsEmpty(rootPath);
    } else {
      var n := |ns| - 1;
      var front := ns[..n];
      assert forall k | 0 <= k < |front| :: front[k] == ns[k];
      JoinedDirs(rootPath, front);
      SegmentOfName(ns[n]);
      JoinedDirsStep(rootPath, ns);
    }
  }

  lemma JoinedDirsEmpty(rootPath: string)
    requires PlainRoot(rootPath)
    ensures JoinedPrefix([rootPath, ""] + []) == Some(rootPath + "/" + Slashed([]))
  {
    TopLevelDir(rootPath);
    assert [rootPath, ""] + [] == [rootPath, ""];
    assert rootPath + "/" + "" == rootPath + "/";
  }

  lemma JoinedDirsStep(rootPath: string, ns: seq<string>)
    requires ns != []
    requires JoinedPrefix([rootPath, ""] + ns[..|ns| - 1]) == Some(rootPath + "/" + Slashed(ns[..|ns| - 1]))
    requires Segment(ns[|ns| - 1], false) == Some(ns[|ns| - 1] + "/")
    ensures JoinedPrefix([rootPath, ""] + ns) == Some(rootPath + "/" + Slashed(ns))
  {
    var n := |ns| - 1;
    AppendLast([rootPath, ""], ns);
    var out := rootPath + "/" + Slashed(ns[..n]);
    PrefixSnoc([rootPath, ""] + ns[..n], ns[n], out, ns[n] + "/");
    SlashedSnoc(rootPath, ns);
  }

  lemma SlashedSnoc(rootPath: string, ns: seq<string>)
    requires ns != []
    ensures rootPath + "/" + Slashed(ns[..|ns| - 1]) + (ns[|ns| - 1] + "/") == rootPath + "/" + Slashed(ns)
  {
    var n := |ns| - 1;
    var front := Slashed(ns[..n]);
    assert Slashed(ns) == front + ns[n] + "/";
    ConcatAssoc(front, ns[n], "/");
    ConcatAssoc(rootPath + "/", front, ns[n] + "/");
  }

  lemma AppendLast(a: seq<string>, s: seq<string>)
    requires s != []
    ensures a + s == (a + s[..|s| - 1]) + [s[|s| - 1]]
  {
    assert s == s[..|s| - 1] + [s[|s| - 1]];
  }

  lemma ConcatAssoc(a: string, b: string, c: string)
    ensures a + b + c == a + (b + c)
  {
  }

  /** One more segment, not the first, in the loop of `File.join`. */
  lemma PrefixSnoc(front: seq<string>, x: string, out: string, seg: string)
    requires front != [] && JoinedPrefix(front) == Some(out) && Segment(x, false) == Some(seg)
    ensures JoinedPrefix(front + [x]) == Some(out + seg)
  {
    assert (front + [x])[..|front|] == front;
  }

  /** Python's `s.split(sep)` undoes `sep.join(names)` when no name holds
      the separator. */
  lemma {:induction false} SplitJoinWith(names: seq<string>, sep: char)
    requires names != [] && forall k | 0 <= k < |names| :: sep !in names[k]
    ensures Split(JoinWith(names, sep), sep) == names
    decreases |names|
  {
    if |names| > 1 {
      var rest := names[1..];
      assert names == [names[0]] + rest;
      JoinWithCons(names[0], rest, sep);
      var s := JoinWith(names, sep);
      var a := names[0];
      assert s[|a|] == sep && s[..|a|] == a;
      assert forall j | 0 <= j < |a| :: s[j] == a[j];
      assert FirstIndex(s, sep) == |a|;
      assert s[|a| + 1..] == JoinWith(rest, sep);
      SplitJoinWith(rest, sep);
    }
  }

  /** The header "/n1/.../nk" splits into "" and the names. */
  lemma NestedSplit(names: seq<string>)
    requires names != [] && forall k | 0 <= k < |names| :: '/' !in names[k]
    ensures Split("/" + JoinWith(names, '/'), '/') == [""] + names
  {
    var s := JoinWith(names, '/');
    var header := "/" + s;
    assert FirstIndex(header, '/') == 0;
    assert header[1..] == s && header[..0] == "";
    SplitJoinWith(names, '/');
  }

  /** The joins of `file` and `get` for the header "/n1/.../nk" name the
      file root/n1/.../nk. */
  lemma NestedJoin(rootPath: string, names: seq<string>)
    requires PlainRoot(rootPath) && names != [] && forall k | 0 <= k < |names| :: PlainName(names[k])
    ensures Joined([rootPath] + Split("/" + JoinWith(names, '/'), '/')) == Some(rootPath + "/" + JoinWith(names, '/'))
  {
    NestedSplit(names);
    RootFirst(rootPath, names);
    JoinedUnder(rootPath, names);
  }

  lemma RootFirst(rootPath: string, names: seq<string>)
    ensures [rootPath] + ([""] + names) == [rootPath, ""] + names
  {
  }

  /** `File.join(root, "", n1, ..., nk)` over plain names is
      root/n1/.../nk. */
  lemma JoinedUnder(rootPath: string, ns: seq<string>)
    requires PlainRoot(rootPath) && ns != [] && forall k | 0 <= k < |ns| :: PlainName(ns[k])
    ensures Joined([rootPath, ""] + ns) == Some(rootPath + "/" + JoinWith(ns, '/'))
  {
    var k := |ns| - 1;
    var paths := [rootPath, ""] + ns;
    UnderPaths(rootPath, ns);
    JoinedDirs(rootPath, ns[..k]);
    JoinedLast(paths, rootPath + "/" + Slashed(ns[..k]));
    SlashedAll(ns);
    ConcatAssoc(rootPath + "/", Slashed(ns[..k]), ns[k]);
  }

  lemma JoinedLast(paths: seq<string>, out: string)
    requires paths != [] && JoinedPrefix(paths[..|paths| - 1]) == Some(out) && '/' !in paths[|paths| - 1]
    ensures Joined(paths) == Some(out + paths[|paths| - 1])
  {
  }

  lemma UnderPaths(rootPath: string, ns: seq<string>)
    requires ns != []
    ensures var paths := [rootPath, ""] + ns;
      && paths[..|paths| - 1] == [rootPath, ""] + ns[..|ns| - 1]
      && paths[|paths| - 1] == ns[|ns| - 1]
  {
  }

  lemma SlashedAll(names: seq<string>)
    requires names != []
    ensures Slashed(names[..|names| - 1]) + names[|names| - 1] == JoinWith(names, '/')
  {
    var k := |names| - 1;
    SlashedJoin(names[..k], names[k]);
    assert names[..k] + [names[k]] == names;
  }

  /** The location `file_from_path` cuts from root/n1/.../nk: everything
      before the last name. */
  function NestedLocation(rootPath: string, names: seq<string>): string
    requires names != []
  {
    var k := |names| - 1;
    if k == 0 then rootPath else rootPath + "/" + Slashed(names[..k - 1]) + names[k - 1]
  }

  lemma NestedLocationFacts(rootPath: string, names: seq<string>) returns (loc: string)
    requires PlainRoot(rootPath) && names != [] && forall k | 0 <= k < |names| :: PlainName(names[k])
    ensures rootPath + "/" + JoinWith(names, '/') == loc + "/" + names[|names| - 1]
    ensures loc != "" && !IsSpace(loc[0]) && !IsSpace(loc[|loc| - 1]) && loc[|loc| - 1] != '/'
  {
    loc := NestedLocation(rootPath, names);
    NestedLocationPath(rootPath, names);
    NestedLocationEnds(rootPath, names);
  }

  lemma NestedLocationPath(rootPath: string, names: seq<string>)
    requires names != []
    ensures rootPath + "/" + JoinWith(names, '/') == NestedLocation(rootPath, names) + "/" + names[|names| - 1]
  {
    var k := |names| - 1;
    SlashedAll(names);
    if k > 0 {
      SlashedPrefix(names, k);
      Regroup(rootPath + "/", Slashed(names[..k - 1]), names[k - 1], names[k]);
    } else {
      assert names[..k] == [];
    }
  }

  lemma SlashedPrefix(names: seq<string>, k: nat)
    requires 0 < k <= |names|
    ensures Slashed(names[..k]) == Slashed(names[..k - 1]) + names[k - 1] + "/"
  {
    assert names[..k][..k - 1] == names[..k - 1];
  }

  lemma Regroup(a: string, f: string, x: string, y: string)
    ensures a + (f + x + "/" + y) == a + f + x + "/" + y
  {
  }

  lemma NestedLocationEnds(rootPath: string, names: seq<string>)
    requires PlainRoot(rootPath) && names != [] && forall k | 0 <= k < |names| :: PlainName(names[k])
    ensures var loc := NestedLocation(rootPath, names);
      && loc != "" && !IsSpace(loc[0]) && !IsSpace(loc[|loc| - 1]) && loc[|loc| - 1] != '/'
  {
    var k := |names| - 1;
    if k > 0 {
      var last := names[k - 1];
      assert PlainName(last);
      assert last[|last| - 1] in last;
      EndsOf(rootPath + "/" + Slashed(names[..k - 1]), last);
    }
  }

  /** The first and last character of `a + b` with both non-empty. */
  lemma EndsOf(a: string, b: string)
    requires a != [] && b != []
    ensures (a + b)[0] == a[0] && (a + b)[|a + b| - 1] == b[|b| - 1]
  {
  }

  /** For the header "/n1/.../nk", `get` looks up root/n1/.../nk. */
  lemma LocateNested(rootPath: string, names: seq<string>)
    requires PlainRoot(rootPath) && IsAscii(rootPath)
    requires names != [] && forall k | 0 <= k < |names| :: PlainName(names[k])
    requires IsAscii(JoinWith(names, '/'))
    ensures Locate(rootPath, "/" + JoinWith(names, '/')) == Ok(rootPath + "/" + JoinWith(names, '/'))
  {
    NestedJoin(rootPath, names);
    var loc := NestedLocationFacts(rootPath, names);
    FileFromPathKeeps(rootPath + "/" + JoinWith(names, '/'), loc, names[|names| - 1]);
  }

  /** `File.file_from_path` keeps a path whose location needs no
      normalising. */
  lemma FileFromPathKeeps(path: string, loc: string, name: string)
    requires loc != "" && !IsSpace(loc[0]) && !IsSpace(loc[|loc| - 1]) && loc[|loc| - 1] != '/'
    requires '/' !in name && path == loc + "/" + name
    ensures SplitLast(path).1 == name
    ensures FileFromPath(path, Reg(name)).Some? && FileFromPath(path, Reg(name)).value.path == path
  {
    SplitLastOf(loc, name);
    assert Strip(loc) == loc;
    assert path[|loc|] == '/';
  }

  /** A request for any file below the root ("/n1/.../nk" with plain
      names) is answered with FILE, the same relative path and the bytes
      of root/n1/.../nk. */
  lemma GetHandlerSendsNested(rootPath: string, h: Host, names: seq<string>)
    requires PlainRoot(rootPath) && IsAscii(rootPath)
    requires names != [] && forall k | 0 <= k < |names| :: PlainName(names[k])
    requires IsAscii(JoinWith(names, '/'))
    requires ReadFile(h.disk, rootPath + "/" + JoinWith(names, '/')).Ok?
    ensures GetHandler(rootPath, h, "/" + JoinWith(names, '/'))
      == Transmit(h, "FILE", "/" + JoinWith(names, '/'), ReadFile(h.disk, rootPath + "/" + JoinWith(names, '/')).value)
  {
    LocateNested(rootPath, names);
    ConcatAssoc(rootPath, "/", JoinWith(names, '/'));
    SendFileBelow(rootPath, h, "/" + JoinWith(names, '/'));
  }

  /** `file` with the header "/n1/.../nk" succeeds whenever no regular
      file stands on the way to root/n1/.../n(k-1) and root/n1/.../nk is
      not a directory: the missing directories are made, the bytes are
      written at root/n1/.../nk, and RESPONSE b't' goes out. */
  lemma FileHandlerWritesNested(rootPath: string, now: nat, h: Host, names: seq<string>, buffer: seq<byte>)
    requires PlainRoot(rootPath) && names != [] && forall k | 0 <= k < |names| :: PlainName(names[k])
    requires forall q | q in DirsOf(rootPath + "/" + JoinWith(names[..|names| - 1], '/')) && q in h.disk ::
      h.disk[q].Directory?
    requires !IsDir(h.disk, rootPath + "/" + JoinWith(names, '/'))
    ensures var header := "/" + JoinWith(names, '/');
      var dir := rootPath + "/" + JoinWith(names[..|names| - 1], '/');
      var target := rootPath + "/" + JoinWith(names, '/');
      && FileDir(rootPath, header) == dir && FileTarget(rootPath, header) == target
      && EnsureDir(h.disk, dir, now).Ok?
      && FileHandler(rootPath, now, h, header, buffer)
         == Ok(Host(EnsureDir(h.disk, dir, now).value[target := RegularFile(buffer, now)],
                    h.incoming, h.outgoing + Acknowledgement))
  {
    var header := "/" + JoinWith(names, '/');
    var dir := NestedFileJoins(rootPath, names);
    var target := rootPath + "/" + JoinWith(names, '/');
    var parent := NestedTarget(rootPath, names, dir);
    ParentOf(parent, names[|names| - 1]);
    EnsureDirWriteSucceeds(h.disk, dir, target, buffer, now);
    FileHandlerSucceeds(rootPath, now, h, header, buffer);
  }

  /** The two joins of `file` for "/n1/.../nk": root/n1/.../n(k-1) (just
      "root/" when k is 1) and root/n1/.../nk. */
  lemma NestedFileJoins(rootPath: string, names: seq<string>) returns (dir: string)
    requires PlainRoot(rootPath) && names != [] && forall k | 0 <= k < |names| :: PlainName(names[k])
    ensures dir == rootPath + "/" + JoinWith(names[..|names| - 1], '/')
    ensures FileDir(rootPath, "/" + JoinWith(names, '/')) == dir
    ensures FileTarget(rootPath, "/" + JoinWith(names, '/')) == rootPath + "/" + JoinWith(names, '/')
  {
    NestedJoin(rootPath, names);
    NestedSplit(names);
    DirSegments(rootPath, names);
    dir := JoinedDirPart(rootPath, names[..|names| - 1]);
  }

  /** `File.join(root, "", n1, ..., nj)`, for no names at all too. */
  lemma JoinedDirPart(rootPath: string, ns: seq<string>) returns (dir: string)
    requires PlainRoot(rootPath) && forall k | 0 <= k < |ns| :: PlainName(ns[k])
    ensures dir == rootPath + "/" + JoinWith(ns, '/')
    ensures Joined([rootPath, ""] + ns) == Some(dir)
  {
    dir := rootPath + "/" + JoinWith(ns, '/');
    if ns == [] {
      TopLevelDir(rootPath);
      assert [rootPath, ""] + ns == [rootPath, ""];
      assert dir == rootPath + "/";
    } else {
      JoinedUnder(rootPath, ns);
    }
  }

  lemma DirSegments(rootPath: string, names: seq<string>)
    requires names != []
    ensures var segments := [""] + names;
      [rootPath] + segments[..|segments| - 1] == [rootPath, ""] + names[..|names| - 1]
  {
  }

  /** root/n1/.../nk is the name nk directly inside the directory that
      `os.makedirs` leaves for root/n1/.../n(k-1). */
  lemma NestedTarget(rootPath: string, names: seq<string>, dir: string) returns (parent: string)
    requires PlainRoot(rootPath) && names != [] && forall k | 0 <= k < |names| :: PlainName(names[k])
    requires dir == rootPath + "/" + JoinWith(names[..|names| - 1], '/')
    ensures parent == Canon(dir) && parent != ""
    ensures rootPath + "/" + JoinWith(names, '/') == parent + "/" + names[|names| - 1]
  {
    var k := |names| - 1;
    if k == 0 {
      assert names[..0] == [] && dir == rootPath + "/";
      TopLevelParent(rootPath, names[0]);
      parent := rootPath;
    } else {
      var front := names[..k];
      assert names[..|names| - 1] == front;
      assert PlainName(front[k - 1]);
      JoinWithEnds(front);
      var j := JoinWith(front, '/');
      assert JoinWith(names, '/') == j + "/" + names[k];
      ConcatAssoc(rootPath + "/", j + "/", names[k]);
      ConcatAssoc(rootPath + "/", j, "/");
      parent := dir;
    }
  }

  /** The last character of a join is that of its last part. */
  lemma JoinWithEnds(ns: seq<string>)
    requires ns != [] && ns[|ns| - 1] != ""
    ensures var j := JoinWith(ns, '/'); j != "" && j[|j| - 1] == ns[|ns| - 1][|ns[|ns| - 1]| - 1]
  {
  }

  /** The containing directory of loc/name is loc. */
  lemma ParentOf(loc: string, name: string)
    requires loc != "" && name != "" && '/' !in name
    ensures Canon(loc + "/" + name) == loc + "/" + name
    ensures Parent(loc + "/" + name) == loc
  {
    var target := loc + "/" + name;
    assert target[|target| - 1] == name[|name| - 1];
    assert target[|loc|] == '/';
    assert target[|loc| + 1..] == name;
    assert target[..|loc|] == loc;
  }

  /** A Responder with its root in place that receives a pushed top-level
      file and then CLOSE ends the session with the file written and one
      acknowledgement sent. */
  lemma ServePushSession(rootPath: string, now: nat, d: Disk, sent: seq<byte>, name: string, content: seq<byte>)
    requires PlainRoot(rootPath) && IsAscii(rootPath) && IsDir(d, rootPath)
    requires name != "" && '/' !in name && IsAscii(name) && !IsDir(d, rootPath + "/" + name)
    requires Fits("FILE", "/" + name, content)
    ensures Serve(rootPath, now, Host(d, Frame("FILE", "/" + name, content) + Frame("CLOSE", "", []), sent))
      == Ok(Host(d[rootPath + "/" + name := RegularFile(content, now)], [], sent + Acknowledgement))
  {
    ServeWritesTopLevel(rootPath, now, d, Frame("CLOSE", "", []), sent, name, content);
    ServeLastClose(rootPath, now, d[rootPath + "/" + name := RegularFile(content, now)], sent + Acknowledgement);
  }

  lemma ServeLastClose(rootPath: string, now: nat, d: Disk, sent: seq<byte>)
    requires IsAscii(rootPath)
    ensures Serve(rootPath, now, Host(d, Frame("CLOSE", "", []), sent)) == Ok(Host(d, [], sent))
  {
    var close := Frame("CLOSE", "", []);
    assert close + [] == close;
    ServeClose(rootPath, now, d, [], sent);
  }

  /** The Responder writes a pushed top-level file, acknowledges it, and
      goes on with the rest of the stream. */
  lemma ServeWritesTopLevel(rootPath: string, now: nat, d: Disk, rest: seq<byte>, sent: seq<byte>, name: string, content: seq<byte>)
    requires PlainRoot(rootPath) && IsAscii(rootPath) && IsDir(d, rootPath)
    requires name != "" && '/' !in name && IsAscii(name) && !IsDir(d, rootPath + "/" + name)
    requires Fits("FILE", "/" + name, content)
    ensures Serve(rootPath, now, Host(d, Frame("FILE", "/" + name, content) + rest, sent))
      == Serve(rootPath, now, Host(d[rootPath + "/" + name := RegularFile(content, now)], rest, sent + Acknowledgement))
  {
    var h := Host(d, rest, sent);
    ServeReadsFrame(rootPath, now, h, "FILE", "/" + name, content);
    FileHandlerWritesTopLevel(rootPath, now, h, name, content);
    StepFile(rootPath, now, h, "/" + name, content);
  }

  // ---------------------------------------------------------------------
  // sync, sync_folder, sync_file
  // ---------------------------------------------------------------------

  /** What `sync_file` did with a file: pulled it from the Responder or
      pushed it there; `path` is its path relative to the root. */
  datatype Action = Pulled(path: string) | Pushed(path: string)

  /** The state an Initiator reaches and the files it handled, in order. */
  datatype Visit = Visit(host: Host, trace: seq<Action>)

  /** Every node of the tree has an ASCII path. */
  ghost predicate AsciiTree(n: Node) {
    IsAscii(n.path) && forall c | c in n.children :: AsciiTree(c)
  }

  /** `sync_file`: PEEK with the local modification time; on b't' GET the
      file and write what comes back with `file` (a pull), otherwise send
      the local bytes with FILE and wait for the acknowledgement (a push). */
  function SyncFile(root: Node, now: nat, h: Host, file: Node): (r: Result<(Host, Action)>)
    requires IsAscii(root.path) && IsAscii(file.path)
    ensures r.Ok? ==> r.value.1.path == PathFromRoot(file, root)
    ensures r.Ok? ==> h.outgoing <= r.value.0.outgoing && DirSet(h.disk) <= DirSet(r.value.0.disk)
  {
    AsciiDrop(file.path, |root.path|);
    var answer :- Ask(root, h, file);
    if answer.0.payload == Yes then Pull(root.path, now, answer.1, PathFromRoot(file, root))
    else Push(root.path, answer.1, file.path)
  }

  /** The PEEK exchange that opens `sync_file`: the local modification time
      out, the Responder's answer in. */
  function Ask(root: Node, h: Host, file: Node): (r: Result<(Message, Host)>)
    requires IsAscii(PathFromRoot(file, root))
    ensures r.Ok? ==> MTime(h.disk, file.path).Ok? && Fits("PEEK", PathFromRoot(file, root), TimeText(MTime(h.disk, file.path).value))
    ensures r.Ok? ==> DecodeFrame(h.incoming).Ok? && r.value.0 == DecodeFrame(h.incoming).value.0
    ensures r.Ok? ==>
      && r.value.1.disk == h.disk
      && r.value.1.outgoing == h.outgoing + Frame("PEEK", PathFromRoot(file, root), TimeText(MTime(h.disk, file.path).value))
  {
    var mtime :- MTime(h.disk, file.path);
    CommandsAscii();
    var asked :- Transmit(h, "PEEK", PathFromRoot(file, root), TimeText(mtime));
    Take(asked)
  }

  /** The pull branch of `sync_file`: GET, then `file` on the reply. */
  function Pull(rootPath: string, now: nat, h: Host, rel: string): (r: Result<(Host, Action)>)
    requires IsAscii(rel)
    ensures r.Ok? ==> r.value.1 == Pulled(rel)
    ensures r.Ok? ==> Fits("GET", rel, []) && r.value.0.outgoing == h.outgoing + Frame("GET", rel, []) + Acknowledgement
    ensures r.Ok? ==> DirSet(h.disk) <= DirSet(r.value.0.disk)
  {
    CommandsAscii();
    var requested :- Transmit(h, "GET", rel, []);
    var reply :- Take(requested);
    var written :- FileHandler(rootPath, now, reply.1, reply.0.argument, reply.0.payload);
    FileHandlerKeepsDirectories(rootPath, now, reply.1, reply.0.argument, reply.0.payload);
    Ok((written, Pulled(rel)))
  }

  /** A pull writes what the Responder sends back: the payload of the next
      frame received, at `FileTarget` of its argument, stamped with the
      current time. */
  lemma PullWrites(rootPath: string, now: nat, h: Host, rel: string)
    requires IsAscii(rel) && Pull(rootPath, now, h, rel).Ok?
    ensures DecodeFrame(h.incoming).Ok?
    ensures var reply := DecodeFrame(h.incoming).value.0;
      var d' := Pull(rootPath, now, h, rel).value.0.disk;
      ReadFile(d', FileTarget(rootPath, reply.argument)) == Ok(reply.payload)
      && MTime(d', FileTarget(rootPath, reply.argument)) == Ok(now)
  {
    CommandsAscii();
    var requested := Transmit(h, "GET", rel, []).value;
    var reply := Take(requested).value;
    FileHandlerWrites(rootPath, now, reply.1, reply.0.argument, reply.0.payload);
  }

  /** The push branch of `sync_file`: `send_file`, then the acknowledgement. */
  function Push(rootPath: string, h: Host, path: string): (r: Result<(Host, Action)>)
    requires IsAscii(Drop(path, |rootPath|))
    ensures r.Ok? ==> r.value.1 == Pushed(Drop(path, |rootPath|)) && r.value.0.disk == h.disk
    ensures r.Ok? ==> ReadFile(h.disk, path).Ok? && Fits("FILE", Drop(path, |rootPath|), ReadFile(h.disk, path).value)
    ensures r.Ok? ==> r.value.0.outgoing == h.outgoing + Frame("FILE", Drop(path, |rootPath|), ReadFile(h.disk, path).value)
  {
    var pushed :- SendFile(rootPath, h, path);
    var acknowledged :- Take(pushed);
    Ok((acknowledged.1, Pushed(Drop(path, |rootPath|))))
  }

  lemma AsciiDrop(s: string, k: nat)
    requires IsAscii(s)
    ensures IsAscii(Drop(s, k))
  {
    if k <= |s| {
      AsciiSlice(s, k, |s|);
      assert s[k..|s|] == s[k..];
    }
  }

  /** `sync_folder` over the children `cs`, in order. */
  function SyncNodes(root: Node, now: nat, h: Host, cs: seq<Node>): (r: Result<Visit>)
    requires IsAscii(root.path) && forall c | c in cs :: AsciiTree(c)
    decreases cs, 0
  {
    if cs == [] then Ok(Visit(h, []))
    else
      var n := |cs| - 1;
      var before :- SyncNodes(root, now, h, cs[..n]);
      var after :- SyncChild(root, now, before.host, cs[n]);
      Ok(Visit(after.host, before.trace + after.trace))
  }

  /** One child in `sync_folder`: a directory on the filesystem at the time
      it is reached is descended into, anything else goes to `sync_file`. */
  function SyncChild(root: Node, now: nat, h: Host, c: Node): (r: Result<Visit>)
    requires IsAscii(root.path) && AsciiTree(c)
    decreases c, 1
  {
    if IsDir(h.disk, c.path) then SyncNodes(root, now, h, c.children)
    else
      var done :- SyncFile(root, now, h, c);
      Ok(Visit(done.0, [done.1]))
  }

  /** `sync`: the whole tree, then CLOSE. */
  function Sync(root: Node, now: nat, h: Host): (r: Result<Visit>)
    requires AsciiTree(root)
  {
    var visited :- SyncNodes(root, now, h, root.children);
    CommandsAscii();
    var closed :- Transmit(visited.host, "CLOSE", "", []);
    Ok(Visit(closed, visited.trace))
  }

  // ---------------------------------------------------------------------
  // What a sync does
  // ---------------------------------------------------------------------

  /** `sync_file` could ask: the file has a modification time and the PEEK
      for it fits the frame. */
  predicate Askable(root: Node, h: Host, file: Node) {
    var rel := PathFromRoot(file, root);
    IsAscii(rel) && MTime(h.disk, file.path).Ok? && Fits("PEEK", rel, TimeText(MTime(h.disk, file.path).value))
  }

  /** The PEEK frame of `sync_file`: the path relative to the root and the
      local modification time. */
  function PeekFrame(root: Node, h: Host, file: Node): seq<byte>
    requires Askable(root, h, file)
  {
    Frame("PEEK", PathFromRoot(file, root), TimeText(MTime(h.disk, file.path).value))
  }

  /** `sync_file` always opens with PEEK, and it pulls exactly when the
      payload of the Responder's answer is b't'. */
  lemma SyncFileAsks(root: Node, now: nat, h: Host, file: Node)
    requires IsAscii(root.path) && IsAscii(file.path) && SyncFile(root, now, h, file).Ok?
    ensures Askable(root, h, file) && DecodeFrame(h.incoming).Ok?
    ensures SyncFile(root, now, h, file).value.1.Pulled? <==> DecodeFrame(h.incoming).value.0.payload == Yes
  {
    AsciiDrop(file.path, |root.path|);
  }

  /** A push sends PEEK and then FILE with the bytes of the local file, and
      leaves the filesystem untouched. */
  lemma SyncFilePushes(root: Node, now: nat, h: Host, file: Node)
    requires IsAscii(root.path) && IsAscii(file.path) && SyncFile(root, now, h, file).Ok?
    requires SyncFile(root, now, h, file).value.1.Pushed?
    ensures Askable(root, h, file) && ReadFile(h.disk, file.path).Ok?
    ensures var rel := PathFromRoot(file, root);
      var content := ReadFile(h.disk, file.path).value;
      var h' := SyncFile(root, now, h, file).value.0;
      && Fits("FILE", rel, content) && h'.disk == h.disk
      && h'.outgoing == h.outgoing + PeekFrame(root, h, file) + Frame("FILE", rel, content)
  {
    AsciiDrop(file.path, |root.path|);
    var answer := Ask(root, h, file).value;
    assert answer.0.payload != Yes;
    assert SyncFile(root, now, h, file) == Push(root.path, answer.1, file.path);
  }

  /** A pull sends PEEK, then GET for the same relative path, then the
      acknowledgement of writing the reply with `file`; the file written
      holds the payload of the second frame received. */
  lemma SyncFilePulls(root: Node, now: nat, h: Host, file: Node)
    requires IsAscii(root.path) && IsAscii(file.path) && SyncFile(root, now, h, file).Ok?
    requires SyncFile(root, now, h, file).value.1.Pulled?
    ensures Askable(root, h, file) && Fits("GET", PathFromRoot(file, root), [])
    ensures SyncFile(root, now, h, file).value.0.outgoing
      == h.outgoing + PeekFrame(root, h, file) + Frame("GET", PathFromRoot(file, root), []) + Acknowledgement
    ensures DecodeFrame(h.incoming).Ok? && DecodeFrame(DecodeFrame(h.incoming).value.1).Ok?
    ensures var reply := DecodeFrame(DecodeFrame(h.incoming).value.1).value.0;
      ReadFile(SyncFile(root, now, h, file).value.0.disk, FileTarget(root.path, reply.argument)) == Ok(reply.payload)
  {
    AsciiDrop(file.path, |root.path|);
    var answer := Ask(root, h, file).value;
    assert answer.0.payload == Yes;
    assert SyncFile(root, now, h, file) == Pull(root.path, now, answer.1, PathFromRoot(file, root));
    PullWrites(root.path, now, answer.1, PathFromRoot(file, root));
  }

  lemma FileHandlerKeepsDirectories(rootPath: string, now: nat, h: Host, header: string, buffer: seq<byte>)
    requires FileHandler(rootPath, now, h, header, buffer).Ok?
    ensures DirSet(h.disk) <= DirSet(FileHandler(rootPath, now, h, header, buffer).value.disk)
  {
    var segments := Split(header, '/');
    var dir := Joined([rootPath] + segments[..|segments| - 1]).value;
    DirectoriesPersist(h.disk, dir, buffer, now);
    var made := EnsureDir(h.disk, dir, now).value;
    var target := Joined([rootPath] + segments).value;
    DirectoriesPersist(made, target, buffer, now);
  }

  /** Directories only ever appear during a sync, and what was sent stays
      sent. */
  lemma {:induction false} SyncNodesGrow(root: Node, now: nat, h: Host, cs: seq<Node>)
    requires IsAscii(root.path) && (forall c | c in cs :: AsciiTree(c)) && SyncNodes(root, now, h, cs).Ok?
    ensures var h' := SyncNodes(root, now, h, cs).value.host;
      DirSet(h.disk) <= DirSet(h'.disk) && h.outgoing <= h'.outgoing
    decreases cs, 0
  {
    if cs != [] {
      var n := |cs| - 1;
      SyncNodesGrow(root, now, h, cs[..n]);
      var before := SyncNodes(root, now, h, cs[..n]).value;
      SyncChildGrows(root, now, before.host, cs[n]);
    }
  }

  lemma {:induction false} SyncChildGrows(root: Node, now: nat, h: Host, c: Node)
    requires IsAscii(root.path) && AsciiTree(c) && SyncChild(root, now, h, c).Ok?
    ensures var h' := SyncChild(root, now, h, c).value.host;
      DirSet(h.disk) <= DirSet(h'.disk) && h.outgoing <= h'.outgoing
    decreases c, 1
  {
    if IsDir(h.disk, c.path) {
      SyncNodesGrow(root, now, h, c.children);
    }
  }

  /** The relative paths the files below `cs` are synced under, in the
      order `sync_folder` reaches them when the directories on the
      filesystem are `dirs` throughout: depth first, in children order,
      each non-directory exactly once. */
  function Leaves(root: Node, cs: seq<Node>, dirs: set<string>): seq<string>
    decreases cs, 0
  {
    if cs == [] then []
    else
      var n := |cs| - 1;
      Leaves(root, cs[..n], dirs) + LeavesOf(root, cs[n], dirs)
  }

  function LeavesOf(root: Node, c: Node, dirs: set<string>): seq<string>
    decreases c, 1
  {
    if Canon(c.path) in dirs then Leaves(root, c.children, dirs) else [PathFromRoot(c, root)]
  }

  /** The paths of a trace. */
  function PathsOf(trace: seq<Action>): (ps: seq<string>)
    ensures |ps| == |trace| && forall i | 0 <= i < |trace| :: ps[i] == trace[i].path
  {
    seq(|trace|, i requires 0 <= i < |trace| => trace[i].path)
  }

  /** When no directory appears during the sync (so every directory check
      gives the answer it gives at the start), the files handled are
      exactly the leaves of the tree in depth-first order. */
  lemma {:induction false} SyncNodesFollowLeaves(root: Node, now: nat, h: Host, cs: seq<Node>)
    requires IsAscii(root.path) && (forall c | c in cs :: AsciiTree(c)) && SyncNodes(root, now, h, cs).Ok?
    requires DirSet(SyncNodes(root, now, h, cs).value.host.disk) == DirSet(h.disk)
    ensures PathsOf(SyncNodes(root, now, h, cs).value.trace) == Leaves(root, cs, DirSet(h.disk))
    decreases cs, 0
  {
    if cs != [] {
      var n := |cs| - 1;
      var before := SyncNodes(root, now, h, cs[..n]).value;
      var after := SyncChild(root, now, before.host, cs[n]).value;
      SyncNodesGrow(root, now, h, cs[..n]);
      SyncChildGrows(root, now, before.host, cs[n]);
      assert DirSet(before.host.disk) == DirSet(h.disk);
      SyncNodesFollowLeaves(root, now, h, cs[..n]);
      SyncChildFollowsLeaves(root, now, before.host, cs[n]);
      assert SyncNodes(root, now, h, cs).value.trace == before.trace + after.trace;
      PathsOfAppend(before.trace, after.trace);
    }
  }

  lemma PathsOfAppend(a: seq<Action>, b: seq<Action>)
    ensures PathsOf(a + b) == PathsOf(a) + PathsOf(b)
  {
  }

  lemma {:induction false} SyncChildFollowsLeaves(root: Node, now: nat, h: Host, c: Node)
    requires IsAscii(root.path) && AsciiTree(c) && SyncChild(root, now, h, c).Ok?
    requires DirSet(SyncChild(root, now, h, c).value.host.disk) == DirSet(h.disk)
    ensures PathsOf(SyncChild(root, now, h, c).value.trace) == LeavesOf(root, c, DirSet(h.disk))
    decreases c, 1
  {
    IsDirInDirSet(h.disk, c.path);
    if IsDir(h.disk, c.path) {
      SyncNodesFollowLeaves(root, now, h, c.children);
    }
  }

  /** `sync` handles the files of the tree in depth-first children order
      (when no directory appears on the way), sends everything the
      traversal sends, and only then CLOSE, as its last frame. */
  lemma SyncThenClose(root: Node, now: nat, h: Host)
    requires AsciiTree(root) && Sync(root, now, h).Ok?
    requires DirSet(Sync(root, now, h).value.host.disk) == DirSet(h.disk)
    ensures var visited := SyncNodes(root, now, h, root.children).value;
      && PathsOf(Sync(root, now, h).value.trace) == Leaves(root, root.children, DirSet(h.disk))
      && h.outgoing <= visited.host.outgoing
      && Sync(root, now, h).value.host.outgoing == visited.host.outgoing + Frame("CLOSE", "", [])
  {
    SyncNodesGrow(root, now, h, root.children);
    SyncNodesFollowLeaves(root, now, h, root.children);
  }
}
