/** The wire format of `SyncSocket.send` and `SyncSocket.receive`: two
    eight-byte big-endian lengths, the header text `command + " " +
    argument`, then the payload; and the text of a modification time as
    `peek` and `sync_file` exchange it. */
module Wire {
  import opened Base

  /** 256 to the power `k`: one more than the largest `k`-byte number. */
  function Pow256(k: nat): (p: nat)
    ensures p >= 1
  {
    if k == 0 then 1 else 256 * Pow256(k - 1)
  }

  /** 2^64: the lengths `int.to_bytes(..., length = 8)` accepts stay below it. */
  const Limit: nat := 0x1_0000_0000_0000_0000

  lemma LimitIsPow256()
    ensures Pow256(8) == Limit
  {
  }

  /** `int.to_bytes(n, length = width)`, big-endian: byte `i` is digit
      `width - 1 - i` of `n` in base 256. */
  function BigEndian(n: nat, width: nat): (bs: seq<byte>)
    requires n < Pow256(width)
    ensures |bs| == width
  {
    seq(width, i requires 0 <= i < width => Digit(n, width - 1 - i))
  }

  /** Digit `k` of `n` in base 256, counting from the least significant. */
  function Digit(n: nat, k: nat): byte {
    if k == 0 then n % 256 else Digit(n / 256, k - 1)
  }

  /** `int.from_bytes(bs)`, big-endian and unsigned. */
  function FromBigEndian(bs: seq<byte>): (n: nat)
    ensures n < Pow256(|bs|)
  {
    if bs == [] then 0
    else
      var high := FromBigEndian(bs[..|bs| - 1]);
      assert high * 256 + bs[|bs| - 1] < Pow256(|bs|) by {
        assert high <= Pow256(|bs| - 1) - 1;
        assert high * 256 <= Pow256(|bs| - 1) * 256 - 256;
      }
      high * 256 + bs[|bs| - 1]
  }

  /** The bytes of `n` are the bytes of `n / 256` followed by `n % 256`. */
  lemma BigEndianLast(n: nat, width: nat)
    requires 0 < width && n < Pow256(width)
    ensures n / 256 < Pow256(width - 1)
    ensures BigEndian(n, width) == BigEndian(n / 256, width - 1) + [n % 256]
  {
    var bs := BigEndian(n, width);
    var front := BigEndian(n / 256, width - 1);
    forall i | 0 <= i < width - 1 ensures bs[i] == front[i] {
      assert bs[i] == Digit(n, width - 1 - i);
      assert front[i] == Digit(n / 256, width - 2 - i);
    }
    assert bs[width - 1] == Digit(n, 0) == n % 256;
    assert bs == front + [n % 256];
  }

  lemma {:induction false} BigEndianRoundTrip(n: nat, width: nat)
    requires n < Pow256(width)
    ensures FromBigEndian(BigEndian(n, width)) == n
  {
    if width > 0 {
      BigEndianLast(n, width);
      var bs := BigEndian(n, width);
      assert bs[..width - 1] == BigEndian(n / 256, width - 1);
      BigEndianRoundTrip(n / 256, width - 1);
    }
  }

  /** `str.encode()` of ASCII text: one byte per character. */
  function AsciiBytes(s: string): (bs: seq<byte>)
    requires IsAscii(s)
    ensures |bs| == |s|
    ensures forall i :: 0 <= i < |s| ==> bs[i] == s[i] as int
  {
    seq(|s|, i requires 0 <= i < |s| => assert s[i] in s; ByteOf(s[i]))
  }

  function ByteOf(c: char): (b: byte)
    requires c as int < 128
    ensures b == c as int
  {
    c as int
  }

  /** `bytes.decode()` where the model reads only ASCII: `None` for a byte
      above 127. */
  function AsciiText(bs: seq<byte>): (r: Option<string>)
    ensures r.Some? ==> |r.value| == |bs| && IsAscii(r.value)
  {
    if forall i :: 0 <= i < |bs| ==> bs[i] < 128 then
      var s := seq(|bs|, i requires 0 <= i < |bs| => bs[i] as char);
      assert IsAscii(s) by {
        forall c | c in s ensures c as int < 128 {
          var i :| 0 <= i < |s| && s[i] == c;
        }
      }
      Some(s)
    else None
  }

  lemma AsciiRoundTrip(s: string)
    requires IsAscii(s)
    ensures AsciiText(AsciiBytes(s)) == Some(s)
  {
    var bs := AsciiBytes(s);
    forall i | 0 <= i < |bs| ensures bs[i] < 128 {
      assert s[i] in s;
    }
    var t := seq(|bs|, i requires 0 <= i < |bs| => bs[i] as char);
    assert t == s;
  }

  // ---------------------------------------------------------------------
  // Frames
  // ---------------------------------------------------------------------

  /** What `receive` hands back: the command, the argument, the payload. */
  datatype Message = Message(command: string, argument: string, payload: seq<byte>)

  /** The header text `send` writes: the space is there even when the
      argument is empty. */
  function HeaderText(command: string, argument: string): string {
    command + " " + argument
  }

  /** Both lengths fit in the eight bytes `int.to_bytes` is given;
      otherwise it raises OverflowError. */
  predicate Fits(command: string, argument: string, payload: seq<byte>) {
    |HeaderText(command, argument)| < Limit && |payload| < Limit
  }

  lemma AsciiHeader(command: string, argument: string)
    requires IsAscii(command) && IsAscii(argument)
    ensures IsAscii(HeaderText(command, argument))
  {
  }

  /** The bytes one call of `send` puts on the connection. */
  function Frame(command: string, argument: string, payload: seq<byte>): (bs: seq<byte>)
    requires IsAscii(command) && IsAscii(argument) && Fits(command, argument, payload)
    ensures |bs| == 16 + |command| + 1 + |argument| + |payload|
  {
    AsciiHeader(command, argument);
    LimitIsPow256();
    var header := AsciiBytes(HeaderText(command, argument));
    BigEndian(|header|, 8) + BigEndian(|payload|, 8) + header + payload
  }

  /** The split at the end of `receive`: at the first space, or the whole
      header and an empty argument when there is none. */
  function SplitHeader(header: string): (r: (string, string))
    ensures ' ' !in r.0
    ensures ' ' in header ==> r.0 + " " + r.1 == header
    ensures ' ' !in header ==> r == (header, "")
  {
    if ' ' in header then
      var i := FirstIndex(header, ' ');
      assert header == header[..i] + " " + header[i + 1..];
      (header[..i], header[i + 1..])
    else (header, "")
  }

  /** `receive` on the byte stream `s` the peer sends: the message and
      what is left of the stream. Reads, and failures, come in the order of
      the program: both lengths, the header, its decoding, the payload. */
  function DecodeFrame(s: seq<byte>): (r: Result<(Message, seq<byte>)>)
    ensures r.Ok? ==> |r.value.1| + 16 <= |s| && r.value.1 == s[|s| - |r.value.1|..]
    ensures r.Ok? ==> IsAscii(r.value.0.command) && IsAscii(r.value.0.argument) && ' ' !in r.value.0.command
    ensures r.Ok? ==> |r.value.0.payload| < Limit
  {
    if |s| < 16 then Err(ConnectionClosed)
    else
      var hl := FromBigEndian(s[..8]);
      var pl := FromBigEndian(s[8..16]);
      LimitIsPow256();
      if |s| < 16 + hl then Err(ConnectionClosed)
      else
        match AsciiText(s[16..16 + hl])
        case None => Err(DecodeError)
        case Some(h) =>
          if |s| < 16 + hl + pl then Err(ConnectionClosed)
          else
            var parts := SplitHeader(h);
            assert IsAscii(parts.0) && IsAscii(parts.1) by {
              if ' ' in h {
                assert forall c | c in parts.0 :: c in h;
                assert forall c | c in parts.1 :: c in h;
              }
            }
            Ok((Message(parts.0, parts.1, s[16 + hl..16 + hl + pl]), s[16 + hl + pl..]))
  }

  lemma {:induction false} SplitHeaderOfFrame(command: string, argument: string)
    requires ' ' !in command
    ensures SplitHeader(HeaderText(command, argument)) == (command, argument)
  {
    var h := HeaderText(command, argument);
    assert h[|command|] == ' ';
    var i := FirstIndex(h, ' ');
    assert h[..|command|] == command;
    assert forall k :: 0 <= k < |command| ==> h[k] == command[k] && h[k] != ' ';
    assert i == |command|;
    assert h[i + 1..] == argument;
  }

  /** Decoding a sent frame gives back its command, argument and payload
      and leaves the rest of the stream, for any command without a space. */
  lemma FrameRoundTrip(command: string, argument: string, payload: seq<byte>, rest: seq<byte>)
    requires IsAscii(command) && IsAscii(argument) && Fits(command, argument, payload)
    requires ' ' !in command
    ensures DecodeFrame(Frame(command, argument, payload) + rest) == Ok((Message(command, argument, payload), rest))
  {
    AsciiHeader(command, argument);
    var h := HeaderText(command, argument);
    var s := Frame(command, argument, payload) + rest;
    FrameLengths(command, argument, payload, rest);
    FrameContents(command, argument, payload, rest);
    AsciiRoundTrip(h);
    SplitHeaderOfFrame(command, argument);
    DecodeFrameOf(s, |h|, |payload|, h);
  }

  /** `receive` on a stream whose lengths read `hl` and `pl` and whose
      header bytes are the ASCII text `h`. */
  lemma DecodeFrameOf(s: seq<byte>, hl: nat, pl: nat, h: string)
    requires |s| >= 16 + hl + pl
    requires FromBigEndian(s[..8]) == hl && FromBigEndian(s[8..16]) == pl
    requires AsciiText(s[16..16 + hl]) == Some(h)
    ensures DecodeFrame(s) == Ok((Message(SplitHeader(h).0, SplitHeader(h).1, s[16 + hl..16 + hl + pl]), s[16 + hl + pl..]))
  {
  }

  /** The two lengths at the front of a frame read back as the lengths of
      the header and of the payload. */
  lemma FrameLengths(command: string, argument: string, payload: seq<byte>, rest: seq<byte>)
    requires IsAscii(command) && IsAscii(argument) && Fits(command, argument, payload)
    ensures var s := Frame(command, argument, payload) + rest;
      && FromBigEndian(s[..8]) == |HeaderText(command, argument)|
      && FromBigEndian(s[8..16]) == |payload|
  {
    AsciiHeader(command, argument);
    LimitIsPow256();
    var header := AsciiBytes(HeaderText(command, argument));
    var s := Frame(command, argument, payload) + rest;
    assert s[..8] == BigEndian(|header|, 8);
    assert s[8..16] == BigEndian(|payload|, 8);
    BigEndianRoundTrip(|header|, 8);
    BigEndianRoundTrip(|payload|, 8);
  }

  /** After the lengths come the header bytes, the payload and whatever
      the stream holds next. */
  lemma FrameContents(command: string, argument: string, payload: seq<byte>, rest: seq<byte>)
    requires IsAscii(command) && IsAscii(argument) && Fits(command, argument, payload)
    ensures IsAscii(HeaderText(command, argument))
    ensures var s := Frame(command, argument, payload) + rest;
      var hl := |HeaderText(command, argument)|;
      && s[16..16 + hl] == AsciiBytes(HeaderText(command, argument))
      && s[16 + hl..16 + hl + |payload|] == payload
      && s[16 + hl + |payload|..] == rest
  {
    AsciiHeader(command, argument);
    LimitIsPow256();
    var header := AsciiBytes(HeaderText(command, argument));
    var lengths := BigEndian(|header|, 8) + BigEndian(|payload|, 8);
    var s := Frame(command, argument, payload) + rest;
    assert s == lengths + header + payload + rest;
  }

  // ---------------------------------------------------------------------
  // Modification times on the wire
  // ---------------------------------------------------------------------

  predicate IsDigits(bs: seq<byte>) {
    forall i :: 0 <= i < |bs| ==> 48 <= bs[i] <= 57
  }

  /** `str(m_time).encode()` for a whole-number time: its decimal digits. */
  function TimeText(t: nat): (bs: seq<byte>)
    ensures bs != [] && IsDigits(bs)
  {
    if t < 10 then [48 + t] else TimeText(t / 10) + [48 + t % 10]
  }

  function DigitsValue(bs: seq<byte>): nat
    requires IsDigits(bs)
  {
    if bs == [] then 0 else DigitsValue(bs[..|bs| - 1]) * 10 + (bs[|bs| - 1] - 48)
  }

  /** `float(buffer.decode())` on the digit strings the model reads;
      `None` is the ValueError of anything else, the empty payload
      included. */
  function ParseTime(bs: seq<byte>): Option<nat> {
    if bs != [] && IsDigits(bs) then Some(DigitsValue(bs)) else None
  }

  /** A time sent by `sync_file` is read back unchanged by `peek`. */
  lemma {:induction false} TimeRoundTrip(t: nat)
    ensures ParseTime(TimeText(t)) == Some(t)
  {
    var bs := TimeText(t);
    if t >= 10 {
      TimeRoundTrip(t / 10);
      assert bs[..|bs| - 1] == TimeText(t / 10);
      assert DigitsValue(bs) == (t / 10) * 10 + t % 10;
    } else {
      assert bs[..0] == [];
      assert DigitsValue(bs) == t;
    }
  }
}
