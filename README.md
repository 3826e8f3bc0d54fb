# Folder Sync, modelled in Dafny

`folder_sync.py` keeps two copies of a folder in step over one TCP
connection. Each end builds a snapshot of its folder as a tree of `File`
nodes. The server is the **Initiator**: it walks its own tree, and for
every file it asks the other end (PEEK) whether that end's copy is newer.
If so it fetches that copy (GET). If not it sends its own (FILE). When
the walk is done it sends CLOSE. The client is the **Responder**: it runs
`listen_loop`, reads frames and calls the handler that the `commands`
table names for each command. Every frame is two 8-byte big-endian
lengths, then the header text `command + " " + argument`, then the
payload.

This project models that core:

- `base.dfy` (module `Base`): bytes, `Option`/`Result`, the exceptions
  that end a session, and the few string operations of Python's `str` the
  program uses.
- `paths.dfy` (module `Paths`): `File.join` as a function and as the loop
  method `Join` proved equal to it, the split of `File.file_from_path`,
  and the `strip()`-and-slash normalisation of a location.
- `snapshot.dfy` (module `Tree`): the filesystem as a tree `FsTree` and
  the `File` node (`Node`).
  - `File.__init__` appears twice: as the function `Snapshot`, and as the
    recursive method `Build`, proved to agree with it.
  - The stable sort by the key `(len(children) > 0, name)`.
  - `File.file_from_path` and `File.path_from_root`.
- `wire.dfy` (module `Wire`): the frame format of `send`/`receive` with
  its round trip, and the text of a modification time.
- `disk.dfy` (module `Storage`): the filesystem as a map from paths to
  entries, with `os.path.exists`, `os.path.isdir`, `os.path.getmtime`,
  `os.makedirs`, and reading and writing a file.
- `protocol.dfy` (module `Protocol`): each end as a value `Host`, made of
  its filesystem, the bytes not yet read and the bytes sent.
  - Functions for the handlers `file`, `get` and `peek`.
  - `listen_loop` as `Serve`/`Step`, with the `commands` table as
    `Dispatch`.
  - `sync`, `sync_folder` and `sync_file` as `Sync`, `SyncNodes`/`SyncChild`
    and `SyncFile`.
  - The lemmas about what a session does.
- `sync_socket.dfy` (module `Socket`): class `SyncSocket`, whose fields are
  the filesystem, the incoming stream and the outgoing stream. Each of its
  methods makes the reads, writes and checks of the Python method in the
  same order. The pure parts of a method, such as a join or a snapshot,
  call the functions of the other modules. Its `ensures` ties the new
  state, or the error, to the `Protocol` function of the old state.

Where the code and the design text around it differ, the model follows
the code:

- `peek` joins `header[1:]` as one last segment, and `File.join` deletes
  every '/' of a last segment. So for the nested file "/dir/name" the
  Responder looks at "root/dirname". When nothing is there it answers
  b'f', whatever "root/dir/name" is like (`PeekFlattensNestedPath`). So
  for a nested file the Initiator pulls only when "root/dirname" exists on
  the Responder's side and is newer. Otherwise it pushes.
- After a pull, the Initiator's `file` answers RESPONSE b't'. The
  Responder's `listen_loop` reads that as a command. RESPONSE is not in
  the `commands` table, so the Responder ends with a KeyError
  (`PullAcknowledgementCrashesResponder`).
- `send` always writes the space, even with an empty argument. So CLOSE
  goes out as the header "CLOSE " and comes back as the command "CLOSE"
  with the argument "".
- Children are sorted by whether they have children and then by name, not
  by whether they are directories. An empty directory sorts among the
  files.
- `File.join("a/", "", "/b", "c.txt")` is covered by the general lemma
  `JoinNested`.

## Model

| member | source | states |
|---|---|---|
| `Paths.Join` | folder_sync.py:45-57 | The loop of `File.join` returns what `Joined` gives for the same segments, `None` standing for the IndexError. |
| `Paths.NextSegment` | folder_sync.py:48-56 | One pass of the loop body gives `Segment`: an empty segment adds nothing; a later segment loses one leading '/'; backslashes become '/'; a trailing '/' is ensured. Stripping down to nothing is the IndexError. |
| `Paths.Segment` | folder_sync.py:48-56 | A segment fails exactly when it is the lone "/" at a position other than 0. An empty segment adds "". Any other segment adds text ending in '/' with no backslash. |
| `Paths.SegmentText` | folder_sync.py:48-56 | The text a segment adds, character by character: the segment without the leading '/' a later segment loses, with each backslash turned into '/'. One '/' follows exactly when the segment does not already end in '/' or a backslash. |
| `Paths.JoinFails` | folder_sync.py:45-57 | `File.join` raises exactly when it gets no argument, or when a non-final segment other than the first is the lone "/". |
| `Paths.JoinShape` | folder_sync.py:45-57 | The result is a directory part that is empty or ends in '/' and holds no backslash, followed by the last segment with every '/' removed. |
| `Paths.JoinedAscii` | folder_sync.py:45-57 | Joining ASCII segments gives ASCII text. |
| `Paths.JoinNested` | folder_sync.py:45-57 | `join(dir + "/", "", "/" + sub, name)` gives `dir/sub/name`: the empty segment is skipped, the extra leading '/' dropped, and one '/' put between parts. |
| `Paths.SplitJoinRoundTrip` | folder_sync.py:27-28 | `"/".join(s.split("/"))` gives back `s`. |
| `Paths.SplitLast` | folder_sync.py:26-28 | The name holds no '/'. With a '/' in the path, location + "/" + name is the path. Without one, the location is "" and the name is the whole path. |
| `Paths.Strip` | folder_sync.py:11 | `str.strip()`: no whitespace at either end, only characters of the input, non-empty when the input has a non-space character, and the identity on text with no whitespace at its ends. |
| `Paths.StripCutsSpaces` | folder_sync.py:11 | The stripped text is a slice of the input, and everything cut off before and after it is whitespace. |
| `Paths.NormalizeLocation` | folder_sync.py:11-13 | The stored location fails (IndexError) exactly when stripping leaves nothing. Otherwise it is non-empty and ends in '/'. |
| `Paths.NormalizeLocationText` | folder_sync.py:11-13 | The stored location starts with the stripped location and is at most one character longer. It is the stripped location itself when that already ends in '/'. |
| `Tree.Insert` | folder_sync.py:24 | Inserting into the sorted list adds exactly that element: the multiset grows by it. |
| `Tree.StrLessTransitive` | folder_sync.py:24 | Python's string order is transitive. |
| `Tree.StrLessTotal` | folder_sync.py:24 | Python's string order is total on distinct strings. |
| `Tree.SortByKeySorts` | folder_sync.py:24 | The sort by key gives a sorted permutation of the children. |
| `Tree.SortedGroups` | folder_sync.py:24 | In sorted children, nodes without children come before nodes with children. Within a group, distinct names ascend. |
| `Tree.Children` | folder_sync.py:19-23 | The loop over `os.listdir` builds at most one child per listed entry. |
| `Tree.Build` | folder_sync.py:10-24 | `File.__init__` builds the node `Snapshot` describes: normalised location, path = location + name, and, for a directory, the non-excluded listed entries built recursively and sorted by key. |
| `Tree.ChildrenNames` | folder_sync.py:19-23 | The children's names are the listed names other than `desktop.ini`, each as often as it is listed. |
| `Tree.SnapshotInvariants` | folder_sync.py:19-24 | At every depth of a snapshot the children are in key order and none is named `desktop.ini`. A directory's children carry exactly its listed names other than `desktop.ini`; a non-directory has none. |
| `Tree.FileFromPath` | folder_sync.py:26-29 | `File.file_from_path` fails exactly when the location before the last '/' is blank. The node has the path's last component as its name and a location ending in '/'. When the location needs no normalising, the node's path is the input path. |
| `Tree.PathFromRoot` | folder_sync.py:31-32 | For a node under the root, root path + relative path is the node's path. A path no longer than the root's gives "". |
| `Tree.SnapshotPathsBelowRoot` | folder_sync.py:14-23 | When no name is empty, holds '/', or ends in whitespace, every node below the root has a path that extends the root's path + "/". |
| `Wire.FromBigEndian` | folder_sync.py:104-105 | Eight bytes read as a number stay below 2^64. |
| `Wire.BigEndianRoundTrip` | folder_sync.py:141-142 | `int.from_bytes` of `int.to_bytes(n, length = w)` gives back `n` for every `n` that fits. |
| `Wire.AsciiRoundTrip` | folder_sync.py:106 | Decoding the encoding of ASCII text gives the text back. |
| `Wire.Frame` | folder_sync.py:138-144 | One `send` writes 16 + header + payload bytes, the header being command, space, argument. |
| `Wire.SplitHeader` | folder_sync.py:108-111 | The command holds no space. With a space, command + " " + argument is the header. Without one, the command is the whole header and the argument is "". |
| `Wire.SplitHeaderOfFrame` | folder_sync.py:108-111 | The header `send` writes splits back into its command and argument for any command without a space. |
| `Wire.DecodeFrame` | folder_sync.py:103-111 | A frame read leaves a suffix of the stream at least 16 bytes shorter. Its command and argument are ASCII, the command has no space, and the payload is below 2^64 bytes. |
| `Wire.FrameRoundTrip` | folder_sync.py:103-111 | `receive` of what `send` wrote gives back the command, the argument and the payload, and leaves the rest of the stream. |
| `Wire.TimeRoundTrip` | folder_sync.py:130 | The time `sync_file` writes is parsed back by `peek` as the same time. |
| `Storage.Lookup` | folder_sync.py:114 | A path finds an entry exactly when it is not empty, its key is stored, and the path is the key itself or names a directory. A trailing '/' after a regular file finds nothing. |
| `Storage.MTime` | folder_sync.py:133 | `os.path.getmtime` succeeds exactly when the path exists, and gives that entry's time. |
| `Storage.ReadFile` | folder_sync.py:147 | Reading succeeds exactly on an existing path that is not a directory. The path is then the file's key itself, so "a/" never reads the file "a". |
| `Storage.MakeDirs` | folder_sync.py:115 | `os.makedirs` succeeds exactly when the path is not empty, is not there itself, and no directory above it is a file. The empty path is a FileNotFoundError and an existing path a FileExistsError. It then makes the path a directory and changes no existing entry. |
| `Storage.WriteFile` | folder_sync.py:116-117 | A write succeeds exactly when the path is not empty (the empty path is a FileNotFoundError), is its own key (no trailing '/'), is not a directory, and its containing directory is a directory (or it has none). It then stores the bytes and the current time at the path. |
| `Storage.EnsureDir` | folder_sync.py:114-115 | Behind the `os.path.exists` guard, `os.makedirs` leaves the directory in place and changes no existing entry. |
| `Storage.EnsureDirWriteSucceeds` | folder_sync.py:114-117 | The guarded `os.makedirs` and the write that follows both succeed when no regular file stands on any directory of the path made, the file is not a directory, and it sits directly in that directory. |
| `Storage.EnsureDirThenWrite` | folder_sync.py:114-117 | After the guarded `os.makedirs` and the write, the file reads back the bytes written with the time of the write, and the directory exists. A missing directory is made with every directory above it. The containing directory of the file is a directory. Every other entry is as it was, and every new entry besides the file is a directory. |
| `Storage.WriteThenRead` | folder_sync.py:116-117 | After a write, the path reads back the bytes written and the time of the write. Every other path reads as before. |
| `Storage.DirectoriesPersist` | folder_sync.py:114-117 | Neither `os.makedirs` nor a write removes or replaces a directory. A write leaves the set of directories as it was. |
| `Protocol.Transmit` | folder_sync.py:138-144 | `send` succeeds exactly when both lengths fit in eight bytes. It then appends the frame to what was sent and changes nothing else. |
| `Protocol.Take` | folder_sync.py:103-111 | `receive` consumes at least 16 bytes and never touches the filesystem or what was sent. |
| `Protocol.JoinOrFail` | folder_sync.py:45-57 | The join of a handler fails exactly when `File.join` raises, and otherwise gives its value. |
| `Protocol.HandlerJoinsSucceed` | folder_sync.py:114-116 | The joins `file` makes never raise, whatever the header. |
| `Protocol.FileHandler` | folder_sync.py:113-118 | A `file` that succeeds reads nothing and sends exactly the acknowledgement RESPONSE b't'. |
| `Protocol.FileHandlerWrites` | folder_sync.py:113-118 | For any header, a `file` that succeeds leaves the payload, stamped with the current time, at `File.join(root, *header.split("/"))`. The join of all segments but the last exists, and a missing one is made with every directory above it. The file's containing directory is a directory. Nothing else changes except for new directories. |
| `Protocol.FileHandlerRejectsEmptyDir` | folder_sync.py:113-115 | With a root made only of '/' and a header without '/', the directory `file` makes sure of is the empty path, and `file` fails with FileNotFoundError. |
| `Protocol.FileHandlerSucceeds` | folder_sync.py:113-118 | `file` succeeds exactly when its guarded `os.makedirs` and its write both succeed. The acknowledgement always fits its frame. The disk it leaves is the one the write produced. |
| `Protocol.FileHandlerWritesNested` | folder_sync.py:113-118 | For the header "/n1/.../nk" with plain names, `file` succeeds whenever no regular file stands on the way to root/n1/.../n(k-1) and root/n1/.../nk is not a directory. The missing directories are made, the bytes are stored with the current time at root/n1/.../nk, and RESPONSE b't' is sent. |
| `Protocol.NestedFileJoins` | folder_sync.py:114-116 | For "/n1/.../nk", the directory `file` makes sure of is root/n1/.../n(k-1) (root + "/" when k is 1) and the file it writes is root/n1/.../nk. |
| `Protocol.FileHandlerWritesTopLevel` | folder_sync.py:113-118 | For the header "/name" under an existing root, `file` stores the bytes with the current time at root/name and sends RESPONSE b't'. |
| `Protocol.GetHandler` | folder_sync.py:125-126 | `get` never changes the filesystem or reads a frame, and only appends to what was sent. |
| `Protocol.Locate` | folder_sync.py:126 | The path of the node `get` builds is ASCII after the root. |
| `Protocol.SendFile` | folder_sync.py:146-148 | `send_file` succeeds only on a readable file. It sends FILE with the path relative to the root and the file's bytes. |
| `Protocol.GetHandlerSendsTopLevel` | folder_sync.py:125-126 | A GET for "/name" is answered with FILE, the same "/name" and the bytes of root/name. |
| `Protocol.LocateTopLevel` | folder_sync.py:126 | For "/name", `get` looks up root/name. |
| `Protocol.SplitJoinWith` | folder_sync.py:116 | `s.split(sep)` gives back the names that `sep.join` put together, when no name holds the separator. |
| `Protocol.NestedSplit` | folder_sync.py:116 | The header "/n1/.../nk" splits into "" followed by the names. |
| `Protocol.JoinedDirs` | folder_sync.py:45-57 | The loop of `File.join(root, "", n1, ..., nk)` over plain names builds root + "/" and each name followed by '/'. |
| `Protocol.JoinedUnder` | folder_sync.py:45-57 | `File.join(root, "", n1, ..., nk)` over plain names is root/n1/.../nk. |
| `Protocol.NestedJoin` | folder_sync.py:116 | For the header "/n1/.../nk" with plain names, `File.join(root, *header.split("/"))` is root/n1/.../nk. |
| `Protocol.NestedLocationFacts` | folder_sync.py:26-29 | root/n1/.../nk is a location followed by '/' and the last name. That location has no whitespace at its ends and does not end in '/'. |
| `Protocol.LocateNested` | folder_sync.py:126 | For "/n1/.../nk" with plain names, `get` looks up root/n1/.../nk. |
| `Protocol.GetHandlerSendsNested` | folder_sync.py:125-126 | A GET for any file below the root, "/n1/.../nk" with plain names, is answered with FILE, the same relative path and the bytes of root/n1/.../nk. |
| `Protocol.PeekReply` | folder_sync.py:129-136 | The answer of `peek` is b't' or b'f'. |
| `Protocol.PeekReplyRule` | folder_sync.py:132-136 | The answer is b't' exactly when something exists at the path and is strictly newer than the time received. Otherwise it is b'f', a tie included. |
| `Protocol.PeekRejectsTime` | folder_sync.py:130 | A payload that is not a time ends `peek` with a ValueError. |
| `Protocol.PeekAnswers` | folder_sync.py:128-136 | With a time received, `peek` sends one RESPONSE holding `PeekReply` for the root directory followed by the argument without its first character and its '/'s. |
| `Protocol.PeekHandler` | folder_sync.py:128-136 | `peek` never changes the filesystem or reads a frame. |
| `Protocol.PeekPath` | folder_sync.py:131 | The path `peek` looks at is the root directory followed by text with no '/'. |
| `Protocol.JoinUnderRoot` | folder_sync.py:131 | `File.join(root, x)` is the root as a directory followed by `x` with every '/' deleted. |
| `Protocol.PeekFlattensNestedPath` | folder_sync.py:131 | For "/dir/name", `peek` looks at root/dirname. With nothing there it sends the frame RESPONSE b'f'. |
| `Protocol.Dispatch` | folder_sync.py:179 | A handler from the `commands` table that succeeds reads no frame of its own. |
| `Protocol.ServeReadsFrame` | folder_sync.py:83-88 | `listen_loop` reads the next frame and acts on exactly the message it holds. |
| `Protocol.StepFile` | folder_sync.py:88 | A FILE that the handler accepts is written and the loop goes on. |
| `Protocol.ServeClose` | folder_sync.py:120-123 | A CLOSE frame ends the session with nothing written and nothing sent. |
| `Protocol.ServeSkipsEmptyCommand` | folder_sync.py:86-87 | A frame with an empty command is read and ignored. |
| `Protocol.ServeRejectsUnknownCommand` | folder_sync.py:88 | A command missing from the `commands` table ends the Responder with a KeyError. |
| `Protocol.PullAcknowledgementCrashesResponder` | folder_sync.py:174 | The RESPONSE b't' that the Initiator's `file` sends after a pull ends the Responder with a KeyError. |
| `Protocol.ServeWritesTopLevel` | folder_sync.py:113-118 | A pushed top-level file is written under the root, acknowledged, and the loop goes on with the rest of the stream. |
| `Protocol.ServePushSession` | folder_sync.py:83-88 | A session of one pushed top-level file and CLOSE ends with the file written and exactly one acknowledgement sent. |
| `Protocol.SyncFile` | folder_sync.py:167-177 | A `sync_file` that succeeds reports the file's path relative to the root. It only appends to what was sent and never removes a directory. |
| `Protocol.Ask` | folder_sync.py:168-171 | The PEEK exchange needs the file's modification time. It sends exactly the PEEK frame with that time, and returns the next frame received. |
| `Protocol.Pull` | folder_sync.py:173-174 | A pull sends GET for the relative path and then the acknowledgement of `file`. It never removes a directory. |
| `Protocol.PullWrites` | folder_sync.py:173-174 | A pull writes the payload of the reply, stamped with the current time, at `File.join(root, *argument.split("/"))` for the reply's argument. |
| `Protocol.Push` | folder_sync.py:176-177 | A push sends FILE with the file's relative path and bytes, and leaves the filesystem alone. |
| `Protocol.SyncFileAsks` | folder_sync.py:167-172 | `sync_file` always opens with a PEEK, and pulls exactly when the answer's payload is b't'. |
| `Protocol.SyncFilePushes` | folder_sync.py:175-177 | A push sends PEEK and then FILE with the local bytes, and changes no file. |
| `Protocol.SyncFilePulls` | folder_sync.py:172-174 | A pull sends PEEK, GET for the same relative path, then RESPONSE b't'. The file written at the join of the second reply's argument holds that reply's payload. |
| `Protocol.FileHandlerKeepsDirectories` | folder_sync.py:114-117 | `file` never removes a directory. |
| `Protocol.SyncNodesGrow` | folder_sync.py:160-165 | During `sync_folder`, directories only appear, and what was sent stays sent. |
| `Protocol.SyncNodesFollowLeaves` | folder_sync.py:160-165 | When no directory appears during the walk, the files handled are the leaves of the tree, depth first, in children order, each once. |
| `Protocol.SyncThenClose` | folder_sync.py:156-158 | `sync` handles the leaves in order, keeps everything the walk sent, and sends CLOSE as its last frame. |
| `Socket.SyncSocket.Send` | folder_sync.py:138-144 | The four writes of `send` put exactly `Transmit`'s frame on the connection. A header too long raises OverflowError before any byte goes out. A payload too long raises it after the header's 8 length bytes have gone out. |
| `Socket.SyncSocket.ReceivePacket` | folder_sync.py:90-94 | Reading chunks of any size until `n` bytes have arrived returns the next `n` bytes and consumes exactly them. It fails exactly when the stream ends first. |
| `Socket.SyncSocket.ReceiveBuffer` | folder_sync.py:96-101 | `n / 1024` blocks and then `n % 1024` bytes are exactly the next `n` bytes. It fails exactly when the stream ends first. |
| `Socket.SyncSocket.Receive` | folder_sync.py:103-111 | The reads of `receive` give the message and the rest of the stream that `Take` gives, or its error. |
| `Socket.SyncSocket.File` | folder_sync.py:113-118 | The method `file` reaches the state, or the error, that `FileHandler` gives. |
| `Socket.SyncSocket.SendFile` | folder_sync.py:146-148 | The method `send_file` reaches the state, or the error, that `SendFile` gives. |
| `Socket.SyncSocket.Get` | folder_sync.py:125-126 | The method `get` reaches the state, or the error, that `GetHandler` gives. |
| `Socket.SyncSocket.Peek` | folder_sync.py:128-136 | The method `peek` reaches the state, or the error, that `PeekHandler` gives. |
| `Socket.SyncSocket.Dispatch` | folder_sync.py:88 | The table lookup and the handler call reach what `Dispatch` gives. |
| `Socket.SyncSocket.ListenLoop` | folder_sync.py:83-88 | The nested loops of `listen_loop` end in the state, or with the error, that `Serve` gives for the state they start from. |
| `Socket.SyncSocket.SyncFile` | folder_sync.py:167-177 | The method `sync_file` reaches what `SyncFile` gives. |
| `Socket.SyncSocket.Ask` | folder_sync.py:168-171 | The PEEK and the read of its answer reach what `Ask` gives. |
| `Socket.SyncSocket.Pull` | folder_sync.py:173-174 | The GET and the `file` on the reply reach what `Pull` gives. |
| `Socket.SyncSocket.Push` | folder_sync.py:176-177 | The `send_file` and the read of the acknowledgement reach what `Push` gives. |
| `Socket.SyncSocket.SyncFolder` | folder_sync.py:160-165 | The loop of `sync_folder`, recursing into directories, reaches what `SyncNodes` gives, together with the trace of files handled. |
| `Socket.SyncSocket.SendClose` | folder_sync.py:150-151 | `send_close` sends exactly the CLOSE frame. |
| `Socket.SyncSocket.Sync` | folder_sync.py:156-158 | The method `sync` reaches what `Sync` gives. |
| `Socket.SyncSocket.constructor` | folder_sync.py:69-72 | A connected end holds its snapshot, its filesystem and the incoming stream, and has sent nothing. |

## Left out

- Sockets, binding, `listen`, `accept`, `connect` and the port: the
  connection is the stream of bytes the peer sends and the stream this end
  sends. `recv` returning nothing is reported as ConnectionClosed, where
  the program would loop for ever.
- Each end is modelled on its own. A two-party interleaving of the
  Initiator and the Responder is not modelled.
- `connection.send` is taken to send all it is given. Partial sends are
  not modelled.
- `connection.close()`, the messages written to the console and `quit()`
  in `close` and `send_close`: CLOSE ends the Responder's loop.
- Text is ASCII only. Non-ASCII header bytes decode to a DecodeError.
  UTF-8 is not modelled.
- Modification times are whole numbers, sent as their decimal digits.
  `float` and the fractional part of `str(m_time)` are not modelled, and
  `peek` accepts only digit strings.
- The clock is the constant `now` that every write is stamped with.
- `os.chdir(root.path)` (folder_sync.py:71): every path in the model is
  used as given, from a fixed working directory. So the model matches the
  program only for an absolute root. With a relative root, the program
  resolves each path it builds from `root.path` inside the root a second
  time, after the change of directory: the file system calls at lines
  19-20 (for nodes built after it), 114-116, 126, 132-133, 147, 162 and
  169 are affected.
- The filesystem's own path normalisation is limited to trailing '/'. A
  path ending in '/' names a directory. After a regular file it names
  nothing, and reading or writing it fails. `..`, `.` and doubled
  separators are not resolved.
- `Protocol.Dispatch`, `Socket.Outcome` and the methods of `SyncSocket`: the
  state after a failure is not described, because the program ends the
  session there.
- `Tree.Snapshot`, `Tree.Build`: whether a node is a directory, and what it
  lists, come from the node's own tree entry, not from a lookup of its
  path. The program asks `os.path.isdir` and `os.listdir` about a path built
  from the stripped location (folder_sync.py:11,16,19-20). Below a
  directory whose name ends in whitespace, that path loses the whitespace,
  so the program finds other contents there (or none), where the model
  lists the entry's own. `Tree.SnapshotInvariants` describes the model; it
  describes the program when no name ends in whitespace, the `PlainNames`
  condition of `Tree.SnapshotPathsBelowRoot`.
- `Tree.Build`: a location that is all whitespace, where `location[-1]`
  raises IndexError, is excluded by its precondition. `Tree.FileFromPath`
  models that IndexError.
- `Protocol.Locate`: the node that `get` builds is built as a regular
  entry. Its children, which `File.__init__` would list for a directory,
  never reach the reply, because `send_file` only reads the path.
- `Protocol.SyncNodesFollowLeaves`: proved only for walks during which no
  directory appears. A pull can create a directory that is then visited
  under `os.path.isdir`.
- `Protocol.SyncThenClose`: the order of the leaves is proved under the
  same condition as `SyncNodesFollowLeaves`, that no directory appears
  during the walk.
- `File.to_string`, `__repr__`, `__str__`, the helpers `a`, `o` and
  `pack`, the interactive prompts of `__main__` and
  `sys.setrecursionlimit` are not part of this model.
