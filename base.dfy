/** Shared vocabulary of the folder-sync model: bytes, failure-carrying
    results, the exceptions the Python program can raise, and the few
    string operations of Python's `str` that the program relies on. */
module Base {

  /** One octet on the wire or in a file. */
  type byte = b: int | 0 <= b < 256

  datatype Option<T> = None | Some(value: T)

  /** The exceptions that end a session of the Python program. */
  datatype Error =
    | IndexError                     // `s[-1]` or `s[0]` on an empty string
    | ConnectionClosed               // the peer closed the stream in the middle of a frame
    | DecodeError                    // header bytes that are not ASCII text
    | OverflowError                  // a length that does not fit in eight bytes
    | ValueError                     // a timestamp payload that is not a number
    | NotFound(path: string)         // FileNotFoundError
    | IsADirectory(path: string)     // IsADirectoryError
    | NotADirectory(path: string)    // NotADirectoryError
    | FileExists(path: string)       // FileExistsError
    | KeyError(command: string)      // a command missing from the dispatch table

  datatype Result<T> = Ok(value: T) | Err(error: Error) {
    predicate IsFailure() {
      Err?
    }

    function PropagateFailure<U>(): Result<U>
      requires Err?
    {
      Err(error)
    }

    function Extract(): T
      requires Ok?
    {
      value
    }
  }

  /** Every character is 7-bit ASCII, so that it is one byte on the wire. */
  predicate IsAscii(s: string) {
    forall c | c in s :: c as int < 128
  }

  /** Python's `s.index(c)`: the first position of `c`. */
  function FirstIndex(s: string, c: char): (i: nat)
    requires c in s
    ensures i < |s| && s[i] == c && c !in s[..i]
  {
    if s[0] == c then 0 else 1 + FirstIndex(s[1..], c)
  }

  /** The last position of `c` in `s`. */
  function LastIndex(s: string, c: char): (i: nat)
    requires c in s
    ensures i < |s| && s[i] == c && c !in s[i + 1..]
  {
    if s[|s| - 1] == c then |s| - 1 else LastIndex(s[..|s| - 1], c)
  }

  /** Python's `s.split(sep)` for a one-character separator. */
  function Split(s: string, sep: char): (parts: seq<string>)
    ensures |parts| >= 1
    ensures forall k :: 0 <= k < |parts| ==> sep !in parts[k]
    decreases |s|
  {
    if sep !in s then [s]
    else
      var i := FirstIndex(s, sep);
      [s[..i]] + Split(s[i + 1..], sep)
  }

  /** Python's `sep.join(parts)`. */
  function JoinWith(parts: seq<string>, sep: char): string {
    if |parts| <= 1 then (if parts == [] then "" else parts[0])
    else JoinWith(parts[..|parts| - 1], sep) + [sep] + parts[|parts| - 1]
  }

  /** Python's `s.replace(a, b)` for single characters. */
  function Replace(s: string, a: char, b: char): (r: string)
    ensures |r| == |s|
    ensures forall i :: 0 <= i < |s| ==> r[i] == (if s[i] == a then b else s[i])
  {
    if s == [] then [] else Replace(s[..|s| - 1], a, b) + [if s[|s| - 1] == a then b else s[|s| - 1]]
  }

  /** Python's `s.replace(c, "")`. */
  function Remove(s: string, c: char): (r: string)
    ensures c !in r
    ensures forall x | x in r :: x in s
    ensures c !in s ==> r == s
  {
    if s == [] then [] else Remove(s[..|s| - 1], c) + (if s[|s| - 1] == c then [] else [s[|s| - 1]])
  }

  /** Removing the only character a text holds leaves nothing. */
  lemma {:induction false} RemoveOnly(s: string, c: char)
    requires forall i | 0 <= i < |s| :: s[i] == c
    ensures Remove(s, c) == ""
  {
    if s != [] {
      RemoveOnly(s[..|s| - 1], c);
    }
  }

  /** Python's slice `s[k:]`, which is empty when `k` is past the end. */
  function Drop(s: string, k: nat): (r: string)
    ensures k <= |s| ==> s[..k] + r == s
    ensures k >= |s| ==> r == ""
  {
    if k <= |s| then s[k..] else ""
  }

  /** Removing `c` from a concatenation removes it from each part. */
  lemma {:induction false} RemoveAppend(a: string, b: string, c: char)
    ensures Remove(a + b, c) == Remove(a, c) + Remove(b, c)
    decreases |b|
  {
    if b != [] {
      var n := |b| - 1;
      assert (a + b)[..|a + b| - 1] == a + b[..n];
      RemoveAppend(a, b[..n], c);
    } else {
      assert a + b == a;
    }
  }

  /** Each part of `s.split(sep)` is made of characters of `s`. */
  lemma {:induction false} SplitChars(s: string, sep: char)
    ensures forall k, x | 0 <= k < |Split(s, sep)| && x in Split(s, sep)[k] :: x in s
    decreases |s|
  {
    if sep in s {
      var i := FirstIndex(s, sep);
      var rest := Split(s[i + 1..], sep);
      SplitChars(s[i + 1..], sep);
      forall k, x | 0 <= k < |Split(s, sep)| && x in Split(s, sep)[k] ensures x in s {
        if k == 0 {
          assert x in s[..i];
        } else {
          assert Split(s, sep)[k] == rest[k - 1];
          assert x in s[i + 1..];
        }
      }
    }
  }

  lemma AsciiSlice(s: string, i: nat, j: nat)
    requires IsAscii(s) && i <= j <= |s|
    ensures IsAscii(s[i..j])
  {
    forall c | c in s[i..j] ensures c as int < 128 {
      var k :| i <= k < j && s[k] == c;
      assert s[k] in s;
    }
  }
}
