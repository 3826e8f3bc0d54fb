/** Class `SyncSocket`, one end of a session, with its connection as the
    byte stream the peer has sent and the bytes this end has sent, and its
    filesystem as a map. Every method is proved to do what the functions
    of module `Protocol` say of the state before it. */
module Socket {
  import opened Base
  import opened Paths
  import opened Tree
  import opened Wire
  import opened Storage
  import opened Protocol

  /** A state change that either succeeded, giving `h`, or failed with the
      error in `err` (the state then left is not described). */
  function Outcome(err: Option<Error>, h: Host): Result<Host> {
    if err.None? then Ok(h) else Err(err.value)
  }

  function VisitOutcome(err: Option<Error>, h: Host, trace: seq<Action>): Result<Visit> {
    if err.None? then Ok(Visit(h, trace)) else Err(err.value)
  }

  class SyncSocket {
    /** The snapshot of the folder being synced, `self.root`. */
    const root: Node
    /** The time the filesystem stamps on what is written. */
    const now: nat
    var disk: Disk
    var incoming: seq<byte>
    var outgoing: seq<byte>

    function State(): Host
      reads this
    {
      Host(disk, incoming, outgoing)
    }

    /** A connected end: nothing sent yet. */
    constructor (root: Node, now: nat, disk: Disk, incoming: seq<byte>)
      ensures this.root == root && this.now == now
      ensures State() == Host(disk, incoming, [])
    {
      this.root := root;
      this.now := now;
      this.disk := disk;
      this.incoming := incoming;
      this.outgoing := [];
    }

    // -------------------------------------------------------------------
    // Framing
    // -------------------------------------------------------------------

    /** `send`: the two lengths, the header and the payload, in that order.
        Each length is converted as it is written, so a header that is too
        long fails before anything goes out, while a payload that is too
        long fails after the header's length has been written. */
    method Send(command: string, argument: string, payload: seq<byte>) returns (err: Option<Error>)
      requires IsAscii(command) && IsAscii(argument)
      modifies this
      ensures Transmit(old(State()), command, argument, payload) == Outcome(err, State())
      ensures disk == old(disk) && incoming == old(incoming)
      ensures |HeaderText(command, argument)| >= Limit ==> outgoing == old(outgoing)
      ensures |HeaderText(command, argument)| < Limit <= |payload|
        ==> outgoing == old(outgoing) + BigEndian(|HeaderText(command, argument)|, 8)
    {
      AsciiHeader(command, argument);
      LimitIsPow256();
      var header := AsciiBytes(HeaderText(command, argument));
      if |header| >= Limit {
        return Some(OverflowError);
      }
      ghost var before := outgoing;
      outgoing := outgoing + BigEndian(|header|, 8);
      if |payload| >= Limit {
        return Some(OverflowError);
      }
      outgoing := outgoing + BigEndian(|payload|, 8);
      outgoing := outgoing + header;
      outgoing := outgoing + payload;
      assert outgoing == before + Frame(command, argument, payload);
      err := None;
    }

    /** `receive_packet(n)`: reads chunks of between one byte and what is
        still missing until `n` bytes have arrived. A peer that has closed
        the connection makes `recv` return nothing, which the model reports
        as ConnectionClosed. */
    method ReceivePacket(n: nat) returns (packet: seq<byte>, err: Option<Error>)
      modifies this
      ensures disk == old(disk) && outgoing == old(outgoing)
      ensures err.None? <==> n <= |old(incoming)|
      ensures err.None? ==> packet == old(incoming)[..n] && incoming == old(incoming)[n..]
      ensures err.Some? ==> err == Some(ConnectionClosed)
    {
      packet := [];
      while |packet| < n
        invariant |packet| <= n && old(incoming) == packet + incoming
        invariant disk == old(disk) && outgoing == old(outgoing)
        decreases n - |packet|
      {
        if incoming == [] {
          return packet, Some(ConnectionClosed);
        }
        var k :| 1 <= k <= n - |packet| && k <= |incoming|;
        assert incoming == incoming[..k] + incoming[k..];
        packet := packet + incoming[..k];
        incoming := incoming[k..];
      }
      assert old(incoming)[..n] == packet;
      err := None;
    }

    /** `receive_buffer(n)`: `n / 1024` packets of 1024 bytes, then one of
        `n % 1024` bytes. */
    method ReceiveBuffer(n: nat) returns (buffer: seq<byte>, err: Option<Error>)
      modifies this
      ensures disk == old(disk) && outgoing == old(outgoing)
      ensures err.None? <==> n <= |old(incoming)|
      ensures err.None? ==> buffer == old(incoming)[..n] && incoming == old(incoming)[n..]
      ensures err.Some? ==> err == Some(ConnectionClosed)
    {
      buffer := [];
      var blocks := n / 1024;
      assert 1024 * blocks + n % 1024 == n;
      for i := 0 to blocks
        invariant |buffer| == 1024 * i && old(incoming) == buffer + incoming
        invariant disk == old(disk) && outgoing == old(outgoing)
      {
        var block, e := ReceivePacket(1024);
        if e.Some? {
          assert 1024 * (i + 1) <= 1024 * blocks;
          return buffer, e;
        }
        assert incoming == old(incoming)[|buffer| + 1024..] by {
          assert old(incoming) == buffer + block + incoming;
        }
        buffer := buffer + block;
      }
      var tail, e := ReceivePacket(n % 1024);
      if e.Some? {
        return buffer, e;
      }
      assert old(incoming) == buffer + tail + incoming;
      buffer := buffer + tail;
      assert old(incoming)[..n] == buffer;
      err := None;
    }

    /** `receive`: both lengths, the header, the payload, and the split of
        the header at its first space. */
    method Receive() returns (m: Message, err: Option<Error>)
      modifies this
      ensures disk == old(disk) && outgoing == old(outgoing)
      ensures Take(old(State())) == (if err.None? then Ok((m, State())) else Err(err.value))
    {
      ghost var s := incoming;
      m := Message("", "", []);
      var first, e1 := ReceivePacket(8);
      if e1.Some? {
        return m, e1;
      }
      var headerLength := FromBigEndian(first);
      var second, e2 := ReceivePacket(8);
      if e2.Some? {
        return m, e2;
      }
      var bufferLength := FromBigEndian(second);
      assert first == s[..8] && second == s[8..16] && incoming == s[16..];
      var raw, e3 := ReceivePacket(headerLength);
      if e3.Some? {
        return m, e3;
      }
      assert raw == s[16..16 + headerLength] && incoming == s[16 + headerLength..];
      var header := AsciiText(raw);
      if header.None? {
        return m, Some(DecodeError);
      }
      var buffer, e4 := ReceiveBuffer(bufferLength);
      if e4.Some? {
        return m, e4;
      }
      assert buffer == s[16 + headerLength..16 + headerLength + bufferLength];
      assert incoming == s[16 + headerLength + bufferLength..];
      var parts := SplitHeader(header.value);
      m := Message(parts.0, parts.1, buffer);
      err := None;
      DecodeFrameOf(s, headerLength, bufferLength, header.value);
    }

    // -------------------------------------------------------------------
    // The Responder's handlers
    // -------------------------------------------------------------------

    /** `file`: `os.makedirs` for the directory of `header` when it does not
        exist, the write, then RESPONSE b't'. */
    method File(header: string, buffer: seq<byte>) returns (err: Option<Error>)
      modifies this
      ensures FileHandler(root.path, now, old(State()), header, buffer) == Outcome(err, State())
    {
      var segments := Split(header, '/');
      var dir := Join([root.path] + segments[..|segments| - 1]);
      if dir.None? {
        return Some(IndexError);
      }
      if !Exists(disk, dir.value) {
        var made := MakeDirs(disk, dir.value, now);
        if made.Err? {
          return Some(made.error);
        }
        disk := made.value;
      }
      var target := Join([root.path] + segments);
      if target.None? {
        return Some(IndexError);
      }
      var written := WriteFile(disk, target.value, buffer, now);
      if written.Err? {
        return Some(written.error);
      }
      disk := written.value;
      CommandsAscii();
      err := Send("RESPONSE", "", Yes);
    }

    /** `send_file` of the file at `path`. */
    method SendFile(path: string) returns (err: Option<Error>)
      requires IsAscii(Drop(path, |root.path|))
      modifies this
      ensures Protocol.SendFile(root.path, old(State()), path) == Outcome(err, State())
    {
      var rel := Drop(path, |root.path|);
      var content := ReadFile(disk, path);
      if content.Err? {
        return Some(content.error);
      }
      CommandsAscii();
      err := Send("FILE", rel, content.value);
    }

    /** `get`: `File.file_from_path` of `File.join(root, *header.split("/"))`,
        sent back with `send_file`. */
    method Get(header: string) returns (err: Option<Error>)
      requires IsAscii(root.path) && IsAscii(header)
      modifies this
      ensures GetHandler(root.path, old(State()), header) == Outcome(err, State())
    {
      var path := Join([root.path] + Split(header, '/'));
      if path.None? {
        return Some(IndexError);
      }
      var location := SplitLast(path.value).0;
      var name := SplitLast(path.value).1;
      if Strip(location) == "" {
        return Some(IndexError);
      }
      var file := Build(Reg(name), location);
      GetPathsAscii(root.path, header);
      err := SendFile(file.path);
    }

    /** `peek`: b't' when the file at `File.join(root, header[1:])` exists
        and is newer than the time received, b'f' otherwise. */
    method Peek(header: string, buffer: seq<byte>) returns (err: Option<Error>)
      modifies this
      ensures PeekHandler(root.path, old(State()), header, buffer) == Outcome(err, State())
    {
      var time := ParseTime(buffer);
      if time.None? {
        return Some(ValueError);
      }
      var path := Join([root.path, Drop(header, 1)]);
      if path.None? {
        return Some(IndexError);
      }
      var output := false;
      if Exists(disk, path.value) {
        output := MTime(disk, path.value).value > time.value;
      }
      CommandsAscii();
      err := Send("RESPONSE", "", if output then Yes else No);
    }

    /** The lookup in the `commands` table and the call of the handler found. */
    method Dispatch(m: Message) returns (err: Option<Error>)
      requires IsAscii(root.path) && IsAscii(m.argument)
      modifies this
      ensures Protocol.Dispatch(root.path, now, old(State()), m) == Outcome(err, State())
    {
      if m.command == "FILE" {
        err := File(m.argument, m.payload);
      } else if m.command == "GET" {
        err := Get(m.argument);
      } else if m.command == "PEEK" {
        err := Peek(m.argument, m.payload);
      } else {
        err := Some(KeyError(m.command));
      }
    }

    /** `listen_loop`: frames with an empty command are skipped, CLOSE ends
        the session, every other command goes through the table until one
        fails. */
    method ListenLoop() returns (err: Option<Error>)
      requires IsAscii(root.path)
      modifies this
      ensures Serve(root.path, now, old(State())) == Outcome(err, State())
    {
      while true
        invariant Serve(root.path, now, old(State())) == Serve(root.path, now, State())
        decreases |incoming|
      {
        ghost var start := State();
        var m, e := Receive();
        if e.Some? {
          return e;
        }
        while m.command == ""
          invariant IsAscii(m.argument) && |incoming| < |start.incoming|
          invariant Serve(root.path, now, old(State())) == Step(root.path, now, State(), m)
          decreases |incoming|
        {
          m, e := Receive();
          if e.Some? {
            return e;
          }
        }
        if m.command == "CLOSE" {
          return None;
        }
        e := Dispatch(m);
        if e.Some? {
          return e;
        }
      }
    }

    // -------------------------------------------------------------------
    // The Initiator
    // -------------------------------------------------------------------

    /** `sync_file`: PEEK, then a pull or a push. */
    method SyncFile(file: Node) returns (ghost action: Action, err: Option<Error>)
      requires IsAscii(root.path) && IsAscii(file.path)
      modifies this
      ensures Protocol.SyncFile(root, now, old(State()), file)
        == (if err.None? then Ok((State(), action)) else Err(err.value))
    {
      action := Pushed("");
      AsciiDrop(file.path, |root.path|);
      var response;
      response, err := Ask(file);
      if err.Some? {
        return;
      }
      if response.payload == Yes {
        action, err := Pull(PathFromRoot(file, root));
      } else {
        action, err := Push(file.path);
      }
    }

    /** The PEEK of `sync_file` and the answer to it. */
    method Ask(file: Node) returns (response: Message, err: Option<Error>)
      requires IsAscii(PathFromRoot(file, root))
      modifies this
      ensures Protocol.Ask(root, old(State()), file)
        == (if err.None? then Ok((response, State())) else Err(err.value))
    {
      response := Message("", "", []);
      var mtime := MTime(disk, file.path);
      if mtime.Err? {
        return response, Some(mtime.error);
      }
      CommandsAscii();
      err := Send("PEEK", PathFromRoot(file, root), TimeText(mtime.value));
      if err.Some? {
        return;
      }
      response, err := Receive();
    }

    /** The pull of `sync_file`: GET, then `file` on what comes back. */
    method Pull(rel: string) returns (ghost action: Action, err: Option<Error>)
      requires IsAscii(rel)
      modifies this
      ensures Protocol.Pull(root.path, now, old(State()), rel)
        == (if err.None? then Ok((State(), action)) else Err(err.value))
    {
      action := Pulled(rel);
      CommandsAscii();
      err := Send("GET", rel, []);
      if err.Some? {
        return;
      }
      var reply;
      reply, err := Receive();
      if err.Some? {
        return;
      }
      err := File(reply.argument, reply.payload);
    }

    /** The push of `sync_file`: `send_file`, then the acknowledgement. */
    method Push(path: string) returns (ghost action: Action, err: Option<Error>)
      requires IsAscii(Drop(path, |root.path|))
      modifies this
      ensures Protocol.Push(root.path, old(State()), path)
        == (if err.None? then Ok((State(), action)) else Err(err.value))
    {
      action := Pushed(Drop(path, |root.path|));
      err := SendFile(path);
      if err.Some? {
        return;
      }
      var acknowledgement;
      acknowledgement, err := Receive();
    }

    /** `sync_folder`: each child in order, descending into the ones that
        are directories on the filesystem when they are reached. */
    method SyncFolder(folder: Node) returns (ghost trace: seq<Action>, err: Option<Error>)
      requires IsAscii(root.path) && forall c | c in folder.children :: AsciiTree(c)
      modifies this
      ensures SyncNodes(root, now, old(State()), folder.children) == VisitOutcome(err, State(), trace)
      decreases folder
    {
      trace := [];
      err := None;
      var children := folder.children;
      for i := 0 to |children|
        invariant err.None? && SyncNodes(root, now, old(State()), children[..i]) == Ok(Visit(State(), trace))
      {
        var child := children[i];
        assert children[..i + 1][..i] == children[..i];
        ghost var more: seq<Action>;
        ghost var before := State();
        assert AsciiTree(child);
        if IsDir(disk, child.path) {
          more, err := SyncFolder(child);
        } else {
          ghost var action;
          action, err := SyncFile(child);
          more := [action];
        }
        assert SyncChild(root, now, before, child) == VisitOutcome(err, State(), more);
        assert children[..i + 1][i] == child;
        if err.Some? {
          SyncFailureSticks(old(State()), children, i + 1);
          assert children[..|children|] == children;
          return;
        }
        trace := trace + more;
      }
      assert children[..|children|] == children;
    }

    /** `send_close` without the teardown of the connection. */
    method SendClose() returns (err: Option<Error>)
      modifies this
      ensures Transmit(old(State()), "CLOSE", "", []) == Outcome(err, State())
    {
      CommandsAscii();
      err := Send("CLOSE", "", []);
    }

    /** `sync`: the whole tree, then CLOSE. */
    method Sync() returns (ghost trace: seq<Action>, err: Option<Error>)
      requires AsciiTree(root)
      modifies this
      ensures Protocol.Sync(root, now, old(State())) == VisitOutcome(err, State(), trace)
    {
      trace, err := SyncFolder(root);
      if err.Some? {
        return;
      }
      err := SendClose();
    }

    /** Once a child of the traversal has failed, the whole traversal has. */
    lemma {:induction false} SyncFailureSticks(h: Host, cs: seq<Node>, i: nat)
      requires IsAscii(root.path) && forall c | c in cs :: AsciiTree(c)
      requires 0 < i <= |cs| && SyncNodes(root, now, h, cs[..i]).Err?
      ensures SyncNodes(root, now, h, cs) == SyncNodes(root, now, h, cs[..i])
      decreases |cs| - i
    {
      if i < |cs| {
        assert cs[..i + 1][..i] == cs[..i];
        SyncFailureSticks(h, cs, i + 1);
      } else {
        assert cs[..i] == cs;
      }
    }
  }
}
