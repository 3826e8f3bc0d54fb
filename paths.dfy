/** The path helpers of class `File`: `File.join`, the split done by
    `File.file_from_path`, and the whitespace stripping of a location in
    `File.__init__`. All of them are purely textual. */
module Paths {
  import opened Base

  // ---------------------------------------------------------------------
  // File.join
  // ---------------------------------------------------------------------

  /** What the loop of `File.join` appends for a non-final segment `p`;
      `first` says whether `p` is the segment at index 0. `None` is the
      IndexError raised by `path[-1]` when stripping left nothing. */
  function Segment(p: string, first: bool): (r: Option<string>)
    ensures r.None? <==> !first && p == "/"
    ensures p == "" ==> r == Some("")
    ensures r.Some? && p != "" ==> |r.value| > 0 && r.value[|r.value| - 1] == '/' && '\\' !in r.value
  {
    if p == "" then Some("")
    else
      var q := if !first && p[0] == '/' then p[1..] else p;
      if q == "" then None
      else
        var q' := Replace(q, '\\', '/');
        assert '\\' !in q' by {
          forall i | 0 <= i < |q'| ensures q'[i] != '\\' { }
        }
        Some(if q'[|q'| - 1] == '/' then q' else q' + "/")
  }

  /** The text of a segment: `p` without the leading '/' a later segment
      loses (d = 1), every backslash turned into '/', and one '/' added
      only where `p` does not already end in a separator. */
  lemma SegmentText(p: string, first: bool)
    requires p != ""
    ensures Segment(p, first).Some? ==>
      var d := if !first && p[0] == '/' then 1 else 0;
      && (|Segment(p, first).value| == |p| - d <==> p[|p| - 1] in "/\\")
      && (|Segment(p, first).value| == |p| - d + 1 <==> p[|p| - 1] !in "/\\")
      && (forall i | 0 <= i < |p| - d :: Segment(p, first).value[i] == (if p[i + d] == '\\' then '/' else p[i + d]))
  {
  }

  /** The text `File.join` has built after its loop has gone over `front`,
      the segments before the last one. */
  function JoinedPrefix(front: seq<string>): Option<string> {
    if front == [] then Some("")
    else
      var n := |front| - 1;
      match JoinedPrefix(front[..n])
      case None => None
      case Some(out) =>
        match Segment(front[n], n == 0)
        case None => None
        case Some(seg) => Some(out + seg)
  }

  /** The value of `File.join(*paths)`; `None` when it raises IndexError. */
  function Joined(paths: seq<string>): Option<string> {
    if paths == [] then None
    else
      match JoinedPrefix(paths[..|paths| - 1])
      case None => None
      case Some(out) => Some(out + Remove(paths[|paths| - 1], '/'))
  }

  /** `File.join`, the loop as the program runs it. */
  method Join(paths: seq<string>) returns (r: Option<string>)
    ensures r == Joined(paths)
  {
    var front := if paths == [] then [] else paths[..|paths| - 1];
    var output := "";
    for i := 0 to |front|
      invariant JoinedPrefix(front[..i]) == Some(output)
    {
      JoinedPrefixStep(front, i);
      var segment := NextSegment(front[i], i == 0);
      if segment.None? {
        PrefixFailureSticks(front, i + 1);
        assert front[..|front|] == front;
        return None;
      }
      output := output + segment.value;
    }
    assert front[..|front|] == front;
    if paths == [] {
      return None;
    }
    r := Some(output + Remove(paths[|paths| - 1], '/'));
  }

  /** The body of the loop of `File.join` for one segment: the text it
      appends, or `None` where `path[-1]` raises. */
  method NextSegment(path: string, first: bool) returns (r: Option<string>)
    ensures r == Segment(path, first)
  {
    if path == "" {
      return Some("");
    }
    var p := path;
    if !first && p[0] == '/' {
      p := p[1..];
    }
    p := Replace(p, '\\', '/');
    if p == "" {
      return None;
    }
    if p[|p| - 1] != '/' {
      p := p + "/";
    }
    r := Some(p);
  }

  /** One turn of the loop of `File.join`. */
  lemma JoinedPrefixStep(front: seq<string>, i: nat)
    requires i < |front|
    ensures JoinedPrefix(front[..i + 1]) == match JoinedPrefix(front[..i])
      case None => None
      case Some(out) => match Segment(front[i], i == 0)
        case None => None
        case Some(seg) => Some(out + seg)
  {
    assert front[..i + 1][..i] == front[..i];
  }

  /** Once the loop of `File.join` has raised, the whole call has raised. */
  lemma {:induction false} PrefixFailureSticks(front: seq<string>, i: nat)
    requires i <= |front| && JoinedPrefix(front[..i]).None?
    ensures JoinedPrefix(front).None?
    decreases |front| - i
  {
    if i < |front| {
      assert front[..i + 1][..i] == front[..i];
      PrefixFailureSticks(front, i + 1);
    } else {
      assert front[..i] == front;
    }
  }

  /** The loop of `File.join` raises exactly when a segment other than the
      first is the lone separator "/". */
  lemma {:induction false} JoinedPrefixFails(front: seq<string>)
    ensures JoinedPrefix(front).None? <==> exists k :: 0 < k < |front| && front[k] == "/"
  {
    if front != [] {
      var n := |front| - 1;
      JoinedPrefixFails(front[..n]);
      if JoinedPrefix(front[..n]).None? {
        var k :| 0 < k < n && front[..n][k] == "/";
        assert front[k] == "/";
      } else if exists k :: 0 < k < |front| && front[k] == "/" {
        var k :| 0 < k < |front| && front[k] == "/";
        if k < n {
          assert front[..n][k] == "/";
        }
      }
    }
  }

  /** `File.join` raises IndexError exactly when it gets no segment at all
      or a non-final segment other than the first is the lone "/". */
  lemma JoinFails(paths: seq<string>)
    ensures Joined(paths).None? <==> paths == [] || exists k :: 0 < k < |paths| - 1 && paths[k] == "/"
  {
    if paths != [] {
      var front := paths[..|paths| - 1];
      JoinedPrefixFails(front);
      if exists k :: 0 < k < |paths| - 1 && paths[k] == "/" {
        var k :| 0 < k < |paths| - 1 && paths[k] == "/";
        assert front[k] == "/";
      }
    }
  }

  /** The directory part built by the loop is empty or ends in '/', and
      holds no backslash. */
  lemma {:induction false} JoinedPrefixShape(front: seq<string>)
    requires JoinedPrefix(front).Some?
    ensures var out := JoinedPrefix(front).value;
      (out == "" || out[|out| - 1] == '/') && '\\' !in out
  {
    if front != [] {
      var n := |front| - 1;
      JoinedPrefixShape(front[..n]);
    }
  }

  /** What `File.join` returns: a directory part that is empty or ends in
      '/', with every backslash turned into '/', followed by the last
      segment with every '/' removed. */
  lemma JoinShape(paths: seq<string>)
    requires Joined(paths).Some?
    ensures var r := Joined(paths).value;
      var bare := Remove(paths[|paths| - 1], '/');
      && |bare| <= |r| && r[|r| - |bare|..] == bare && '/' !in bare
      && (|r| == |bare| || r[|r| - |bare| - 1] == '/')
      && '\\' !in r[..|r| - |bare|]
  {
    var front := paths[..|paths| - 1];
    JoinedPrefixShape(front);
    var out := JoinedPrefix(front).value;
    var bare := Remove(paths[|paths| - 1], '/');
    assert Joined(paths).value[..|out|] == out;
  }

  /** `File.join` of ASCII segments is ASCII: it only drops characters
      and turns '\\' into '/'. */
  lemma {:induction false} JoinedAscii(paths: seq<string>)
    requires forall k | 0 <= k < |paths| :: IsAscii(paths[k])
    ensures Joined(paths).Some? ==> IsAscii(Joined(paths).value)
  {
    if paths != [] {
      JoinedPrefixAscii(paths[..|paths| - 1]);
    }
  }

  lemma {:induction false} JoinedPrefixAscii(front: seq<string>)
    requires forall k | 0 <= k < |front| :: IsAscii(front[k])
    ensures JoinedPrefix(front).Some? ==> IsAscii(JoinedPrefix(front).value)
  {
    if front != [] {
      var n := |front| - 1;
      JoinedPrefixAscii(front[..n]);
      var p := front[n];
      if p != "" {
        var q := if n != 0 && p[0] == '/' then p[1..] else p;
        assert IsAscii(q) by {
          forall c | c in q ensures c as int < 128 {
            assert c in p;
          }
        }
        var q' := Replace(q, '\\', '/');
        assert IsAscii(q') by {
          forall c | c in q' ensures c as int < 128 {
            var i :| 0 <= i < |q'| && q'[i] == c;
            assert q[i] in q;
          }
        }
      }
    }
  }

  /** `join(dir + "/", "", "/" + sub, name)`, the shape of the call
      `join("a/", "", "/b", "c.txt")`: the empty segment is skipped, the
      leading '/' of a later segment is dropped, and each directory is
      followed by exactly one '/'. */
  lemma JoinNested(dir: string, sub: string, name: string)
    requires dir != "" && '\\' !in dir
    requires sub != "" && '\\' !in sub && '/' !in sub && '/' !in name
    ensures Joined([dir + "/", "", "/" + sub, name]) == Some(dir + "/" + sub + "/" + name)
  {
    NestedPrefix(dir, sub);
    var paths := [dir + "/", "", "/" + sub, name];
    assert paths[..|paths| - 1] == [dir + "/", "", "/" + sub] && paths[|paths| - 1] == name;
  }

  /** The loop of `File.join` over the first three segments of `JoinNested`. */
  lemma NestedPrefix(dir: string, sub: string)
    requires '\\' !in dir && sub != "" && '\\' !in sub && '/' !in sub
    ensures JoinedPrefix([dir + "/", "", "/" + sub]) == Some(dir + "/" + sub + "/")
  {
    NestedSegments(dir, sub);
    var front := [dir + "/", "", "/" + sub];
    assert front[..2] == [dir + "/", ""] && front[2] == "/" + sub;
    assert JoinedPrefix(front[..2]) == Some(dir + "/") by {
      NestedHead(dir);
    }
    assert dir + "/" + (sub + "/") == dir + "/" + sub + "/";
  }

  lemma NestedHead(dir: string)
    requires '\\' !in dir
    ensures JoinedPrefix([dir + "/", ""]) == Some(dir + "/")
  {
    NestedSegments(dir, "x");
    var front := [dir + "/", ""];
    assert front[..1] == [dir + "/"] && front[1] == "";
    assert [dir + "/"][..0] == [];
    assert JoinedPrefix([dir + "/"]) == Some("" + (dir + "/"));
    assert "" + (dir + "/") == dir + "/" && dir + "/" + "" == dir + "/";
  }

  lemma NestedSegments(dir: string, sub: string)
    requires '\\' !in dir && sub != "" && '\\' !in sub && '/' !in sub
    ensures Segment(dir + "/", true) == Some(dir + "/")
    ensures Segment("", false) == Some("")
    ensures Segment("/" + sub, false) == Some(sub + "/")
  {
    var d := dir + "/";
    assert Replace(d, '\\', '/') == d;
    var p := "/" + sub;
    assert p[1..] == sub;
    assert Replace(sub, '\\', '/') == sub;
    assert sub[|sub| - 1] != '/' by {
      assert sub[|sub| - 1] in sub;
    }
  }

  // ---------------------------------------------------------------------
  // File.file_from_path
  // ---------------------------------------------------------------------

  /** Python's `sep.join(s.split(sep))` gives back `s`. */
  lemma {:induction false} SplitJoinRoundTrip(s: string, sep: char)
    ensures JoinWith(Split(s, sep), sep) == s
    decreases |s|
  {
    if sep in s {
      var i := FirstIndex(s, sep);
      var rest := Split(s[i + 1..], sep);
      SplitJoinRoundTrip(s[i + 1..], sep);
      JoinWithCons(s[..i], rest, sep);
      assert s == s[..i] + [sep] + s[i + 1..];
    }
  }

  lemma {:induction false} JoinWithCons(a: string, rest: seq<string>, sep: char)
    requires |rest| >= 1
    ensures JoinWith([a] + rest, sep) == a + [sep] + JoinWith(rest, sep)
    decreases |rest|
  {
    var parts := [a] + rest;
    if |rest| > 1 {
      assert parts[..|parts| - 1] == [a] + rest[..|rest| - 1];
      JoinWithCons(a, rest[..|rest| - 1], sep);
    } else {
      assert parts[..|parts| - 1] == [a];
    }
  }

  /** The split of `File.file_from_path`: the name is `path.split("/")[-1]`
      and the location is `"/".join(path.split("/")[:-1])`. */
  function SplitLast(path: string): (r: (string, string))
    ensures '/' !in r.1
    ensures '/' in path ==> r.0 + "/" + r.1 == path
    ensures '/' !in path ==> r == ("", path)
  {
    var parts := Split(path, '/');
    var n := |parts| - 1;
    var r := (JoinWith(parts[..n], '/'), parts[n]);
    assert '/' in path ==> r.0 + "/" + r.1 == path by {
      if '/' in path {
        SplitJoinRoundTrip(path, '/');
        assert |parts| >= 2;
        assert parts == parts[..n] + [parts[n]];
      }
    }
    r
  }

  // ---------------------------------------------------------------------
  // The location normalisation of File.__init__
  // ---------------------------------------------------------------------

  /** The characters Python's `str.strip()` removes (`str.isspace`). */
  predicate IsSpace(c: char) {
    var n := c as int;
    n == 32 || 9 <= n <= 13 || 28 <= n <= 31 || n == 0x85 || n == 0xA0 || n == 0x1680
    || 0x2000 <= n <= 0x200A || n == 0x2028 || n == 0x2029 || n == 0x202F || n == 0x205F || n == 0x3000
  }

  /** Number of leading whitespace characters of `s`. */
  function LeadingSpaces(s: string): (k: nat)
    ensures k <= |s|
    ensures forall i :: 0 <= i < k ==> IsSpace(s[i])
    ensures k < |s| ==> !IsSpace(s[k])
  {
    if s != [] && IsSpace(s[0]) then 1 + LeadingSpaces(s[1..]) else 0
  }

  /** Length of `s` without its trailing whitespace. */
  function TrailingStart(s: string): (k: nat)
    ensures k <= |s|
    ensures forall i :: k <= i < |s| ==> IsSpace(s[i])
    ensures k > 0 ==> !IsSpace(s[k - 1])
  {
    if s != [] && IsSpace(s[|s| - 1]) then TrailingStart(s[..|s| - 1]) else |s|
  }

  /** Python's `s.strip()`. */
  function Strip(s: string): (r: string)
    ensures r == [] || (!IsSpace(r[0]) && !IsSpace(r[|r| - 1]))
    ensures forall c | c in r :: c in s
    ensures (exists i :: 0 <= i < |s| && !IsSpace(s[i])) ==> r != []
    ensures s != [] && !IsSpace(s[0]) && !IsSpace(s[|s| - 1]) ==> r == s
  {
    var a := LeadingSpaces(s);
    var b := TrailingStart(s);
    if a < b then s[a..b] else ""
  }

  /** `Strip(s)` is a slice of `s`, and what it cuts off at either end is
      whitespace. */
  lemma StripCutsSpaces(s: string) returns (a: nat, b: nat)
    ensures a <= b <= |s| && Strip(s) == s[a..b]
    ensures forall i | 0 <= i < a :: IsSpace(s[i])
    ensures forall i | b <= i < |s| :: IsSpace(s[i])
  {
    a, b := LeadingSpaces(s), TrailingStart(s);
    if b <= a {
      a, b := |s|, |s|;
    }
  }

  lemma NormalizeLocationAscii(location: string)
    requires IsAscii(location) && Strip(location) != ""
    ensures IsAscii(NormalizeLocation(location).value)
  {
  }

  /** The `location` that `File.__init__` stores: stripped, with '/'
      appended when it does not already end in one; `None` where
      `location[-1]` raises IndexError on a location that is all
      whitespace. */
  function NormalizeLocation(location: string): (r: Option<string>)
    ensures r.None? <==> Strip(location) == ""
    ensures r.Some? ==> r.value != "" && r.value[|r.value| - 1] == '/'
  {
    var l := Strip(location);
    if l == "" then None
    else Some(if l[|l| - 1] == '/' then l else l + "/")
  }

  /** The stored location is the stripped one, followed by at most one
      added '/'. */
  lemma NormalizeLocationText(location: string)
    requires Strip(location) != ""
    ensures var l := Strip(location); var r := NormalizeLocation(location).value;
      && l <= r && |r| <= |l| + 1
      && (l[|l| - 1] == '/' ==> r == l)
  {
  }
}
