/** The directory snapshot of class `File`: the filesystem as a tree, the
    node `File.__init__` builds for an entry of it, the order its children
    are sorted in, and `File.path_from_root`. */
module Tree {
  import opened Base
  import opened Paths

  /** An entry of the filesystem as `os.listdir` and `os.path.isdir` see
      it: a directory with its listing in `listdir` order, or anything else. */
  datatype FsTree = Dir(name: string, entries: seq<FsTree>) | Reg(name: string)

  /** A `File` object: its name, its normalised location, its path and its
      sorted children (empty unless it is a directory). */
  datatype Node = Node(name: string, location: string, path: string, children: seq<Node>)

  /** The names `File.__init__` never turns into children (`EXCLUDED`). */
  const Excluded: set<string> := {"desktop.ini"}

  // ---------------------------------------------------------------------
  // The sort key (len(child.children) > 0, child.name)
  // ---------------------------------------------------------------------

  /** Python's `a < b` on strings: lexicographic by code point, a proper
      prefix coming first. */
  predicate StrLess(a: string, b: string) {
    if a == [] then b != []
    else if b == [] then false
    else if a[0] != b[0] then a[0] < b[0]
    else StrLess(a[1..], b[1..])
  }

  lemma {:induction false} StrLessIrreflexive(a: string)
    ensures !StrLess(a, a)
  {
    if a != [] {
      StrLessIrreflexive(a[1..]);
    }
  }

  lemma {:induction false} StrLessTransitive(a: string, b: string, c: string)
    requires StrLess(a, b) && StrLess(b, c)
    ensures StrLess(a, c)
  {
    if a != [] && b != [] && c != [] && a[0] == b[0] && b[0] == c[0] {
      StrLessTransitive(a[1..], b[1..], c[1..]);
    }
  }

  lemma {:induction false} StrLessTotal(a: string, b: string)
    requires a != b
    ensures StrLess(a, b) || StrLess(b, a)
  {
    if a != [] && b != [] && a[0] == b[0] {
      assert a == [a[0]] + a[1..] && b == [b[0]] + b[1..];
      StrLessTotal(a[1..], b[1..]);
    }
  }

  predicate HasChildren(n: Node) {
    |n.children| > 0
  }

  /** The sort key of `a` is below that of `b`; `False < True` in Python. */
  predicate KeyLess(a: Node, b: Node) {
    || (!HasChildren(a) && HasChildren(b))
    || (HasChildren(a) == HasChildren(b) && StrLess(a.name, b.name))
  }

  lemma KeyLessTransitive(a: Node, b: Node, c: Node)
    requires KeyLess(a, b) && KeyLess(b, c)
    ensures KeyLess(a, c)
  {
    if HasChildren(a) == HasChildren(b) == HasChildren(c) {
      StrLessTransitive(a.name, b.name, c.name);
    }
  }

  /** No element has a key below that of an element before it. */
  ghost predicate Sorted(s: seq<Node>) {
    forall i, j :: 0 <= i < j < |s| ==> !KeyLess(s[j], s[i])
  }

  /** Inserts `x` after every element whose key is not above its own, so
      that elements with equal keys keep their order. */
  function Insert(x: Node, s: seq<Node>): (r: seq<Node>)
    ensures multiset(r) == multiset(s) + multiset{x}
  {
    if s == [] then [x]
    else if KeyLess(x, s[0]) then [x] + s
    else
      assert s == [s[0]] + s[1..];
      [s[0]] + Insert(x, s[1..])
  }

  /** `list.sort(key = ...)`: a stable sort by the key; Python's sort is
      stable, and a stable sort has only one possible result, the one of
      this insertion sort. */
  function SortByKey(s: seq<Node>): seq<Node> {
    if s == [] then [] else Insert(s[|s| - 1], SortByKey(s[..|s| - 1]))
  }

  lemma {:induction false} InsertSorted(x: Node, s: seq<Node>)
    requires Sorted(s)
    ensures Sorted(Insert(x, s))
  {
    if s != [] && !KeyLess(x, s[0]) {
      InsertSorted(x, s[1..]);
      var r := Insert(x, s);
      forall i, j | 0 <= i < j < |r| ensures !KeyLess(r[j], r[i]) {
        if i == 0 {
          var y := r[j];
          assert y in multiset(s[1..]) + multiset{x};
          if y != x {
            var k :| 0 <= k < |s[1..]| && s[1..][k] == y;
            assert s[k + 1] == y;
          }
        }
      }
    } else if s != [] {
      var r := Insert(x, s);
      forall i, j | 0 <= i < j < |r| ensures !KeyLess(r[j], r[i]) {
        if i == 0 && KeyLess(r[j], x) {
          KeyLessTransitive(r[j], x, s[0]);
          if j == 1 {
            StrLessIrreflexive(s[0].name);
          }
        }
      }
    }
  }

  /** The sort orders the children and keeps every one of them exactly
      once. */
  lemma {:induction false} SortByKeySorts(s: seq<Node>)
    ensures Sorted(SortByKey(s))
    ensures multiset(SortByKey(s)) == multiset(s)
  {
    if s != [] {
      var n := |s| - 1;
      SortByKeySorts(s[..n]);
      InsertSorted(s[n], SortByKey(s[..n]));
      assert s == s[..n] + [s[n]];
    }
  }

  /** What the sorted order means: entries without children come before
      entries with children, and names do not descend within each group
      (they ascend strictly when names are distinct). */
  lemma SortedGroups(s: seq<Node>, i: nat, j: nat)
    requires Sorted(s) && i < j < |s|
    ensures HasChildren(s[i]) ==> HasChildren(s[j])
    ensures HasChildren(s[i]) == HasChildren(s[j]) && s[i].name != s[j].name ==> StrLess(s[i].name, s[j].name)
  {
    if HasChildren(s[i]) == HasChildren(s[j]) && s[i].name != s[j].name {
      StrLessTotal(s[i].name, s[j].name);
    }
  }

  // ---------------------------------------------------------------------
  // File.__init__
  // ---------------------------------------------------------------------

  /** The node `File(t.name, location)` builds for the entry `t`. The
      program raises IndexError on a location that is all whitespace. */
  function Snapshot(t: FsTree, location: string): (n: Node)
    requires Strip(location) != ""
    decreases t, 1
  {
    var loc := NormalizeLocation(location).value;
    var path := loc + t.name;
    Node(t.name, loc, path, if t.Dir? then SortByKey(Children(t.entries, path)) else [])
  }

  /** The children appended by the loop over `os.listdir`, before the sort. */
  function Children(entries: seq<FsTree>, path: string): (cs: seq<Node>)
    requires '/' in path
    ensures |cs| <= |entries|
    decreases entries, 0
  {
    if entries == [] then []
    else
      var n := |entries| - 1;
      StripKeepsSlash(path);
      Children(entries[..n], path)
        + (if entries[n].name in Excluded then [] else [Snapshot(entries[n], path)])
  }

  lemma StripKeepsSlash(path: string)
    requires '/' in path
    ensures Strip(path) != ""
  {
    var i :| 0 <= i < |path| && path[i] == '/';
    assert !IsSpace(path[i]);
  }

  /** `File.__init__`: appends a child per listed entry not in `EXCLUDED`,
      building each one recursively, then sorts the children by key. */
  method Build(t: FsTree, location: string) returns (n: Node)
    requires Strip(location) != ""
    ensures n == Snapshot(t, location)
    decreases t
  {
    var loc := Strip(location);
    if loc[|loc| - 1] != '/' {
      loc := loc + "/";
    }
    var path := loc + t.name;
    assert path[|loc| - 1] == '/';
    var children: seq<Node> := [];
    if t.Dir? {
      for i := 0 to |t.entries|
        invariant children == Children(t.entries[..i], path)
      {
        assert t.entries[..i + 1][..i] == t.entries[..i];
        var entry := t.entries[i];
        if entry.name in Excluded {
          continue;
        }
        StripKeepsSlash(path);
        var child := Build(entry, path);
        children := children + [child];
      }
      assert t.entries[..|t.entries|] == t.entries;
      children := SortByKey(children);
    }
    n := Node(t.name, loc, path, children);
  }

  /** `File.file_from_path(path)`, where `t` is the filesystem entry found
      at `path`: the node built from the split of `path` into location and
      name. `None` is the IndexError of a location that is blank, as for a
      path without '/' or one directly under "/". When the location needs
      no normalising, the node's path is `path` itself. */
  function FileFromPath(path: string, t: FsTree): (r: Option<Node>)
    requires t.name == SplitLast(path).1
    ensures r.None? <==> Strip(SplitLast(path).0) == ""
    ensures r.Some? ==> r.value.name == t.name && r.value.location != "" && r.value.location[|r.value.location| - 1] == '/'
    ensures var loc := SplitLast(path).0;
      r.Some? && '/' in path && Strip(loc) == loc && loc[|loc| - 1] != '/' ==> r.value.path == path
  {
    var split := SplitLast(path);
    if Strip(split.0) == "" then None else Some(Snapshot(t, split.0))
  }

  // ---------------------------------------------------------------------
  // Invariants of a snapshot
  // ---------------------------------------------------------------------

  /** At every depth the children are in key order. */
  ghost predicate Ordered(n: Node) {
    Sorted(n.children) && forall c | c in n.children :: Ordered(c)
  }

  /** No node below `n`, at any depth, is named `desktop.ini`. */
  ghost predicate NoExcluded(n: Node) {
    forall c | c in n.children :: c.name !in Excluded && NoExcluded(c)
  }

  function Names(s: seq<Node>): (r: seq<string>)
    ensures |r| == |s|
  {
    seq(|s|, i requires 0 <= i < |s| => s[i].name)
  }

  /** The names of the entries of a listing that are not excluded. */
  function Listed(entries: seq<FsTree>): seq<string> {
    if entries == [] then []
    else
      var n := |entries| - 1;
      Listed(entries[..n]) + (if entries[n].name in Excluded then [] else [entries[n].name])
  }

  lemma NamesAppend(a: seq<Node>, b: seq<Node>)
    ensures Names(a + b) == Names(a) + Names(b)
  {
  }

  /** The children are the listed entries other than `desktop.ini`, each
      exactly as often as it is listed. */
  lemma {:induction false} ChildrenNames(entries: seq<FsTree>, path: string)
    requires '/' in path
    ensures multiset(Names(Children(entries, path))) == multiset(Listed(entries))
  {
    if entries != [] {
      var n := |entries| - 1;
      ChildrenNames(entries[..n], path);
      var before := Children(entries[..n], path);
      if entries[n].name !in Excluded {
        StripKeepsSlash(path);
        var c := Snapshot(entries[n], path);
        assert Children(entries, path) == before + [c];
        NamesAppend(before, [c]);
        assert Names([c]) == [entries[n].name];
      } else {
        assert Children(entries, path) == before;
      }
    }
  }

  lemma {:induction false} ChildrenFacts(entries: seq<FsTree>, path: string)
    requires '/' in path
    ensures forall c | c in Children(entries, path) :: c.name !in Excluded && Ordered(c) && NoExcluded(c)
    decreases entries, 0
  {
    if entries != [] {
      var n := |entries| - 1;
      ChildrenFacts(entries[..n], path);
      var before := Children(entries[..n], path);
      if entries[n].name !in Excluded {
        StripKeepsSlash(path);
        SnapshotInvariants(entries[n], path);
        var c := Snapshot(entries[n], path);
        assert Children(entries, path) == before + [c];
        assert forall x | x in before + [c] :: x in before || x == c;
      } else {
        assert Children(entries, path) == before;
      }
    }
  }

  /** Every node of a snapshot has its children in key order, no node
      below the root is named `desktop.ini`, and each node's children are
      its listed entries other than `desktop.ini`, each exactly as often as
      it is listed. */
  lemma {:induction false} SnapshotInvariants(t: FsTree, location: string)
    requires Strip(location) != ""
    ensures var n := Snapshot(t, location);
      Ordered(n) && NoExcluded(n)
      && multiset(Names(n.children)) == (if t.Dir? then multiset(Listed(t.entries)) else multiset{})
    decreases t, 1
  {
    var n := Snapshot(t, location);
    if t.Dir? {
      var cs := Children(t.entries, n.path);
      assert '/' in n.path by {
        var loc := NormalizeLocation(location).value;
        assert n.path[|loc| - 1] == '/';
      }
      ChildrenFacts(t.entries, n.path);
      ChildrenNames(t.entries, n.path);
      SortByKeySorts(cs);
      var sorted := SortByKey(cs);
      assert n.children == sorted;
      SortNames(cs);
      forall c | c in sorted ensures c in cs {
        assert c in multiset(cs);
      }
      assert Sorted(n.children);
      assert forall c | c in n.children :: Ordered(c);
      assert forall c | c in n.children :: c.name !in Excluded && NoExcluded(c);
    } else {
      assert n.children == [];
    }
  }

  lemma {:induction false} InsertNames(x: Node, s: seq<Node>)
    ensures multiset(Names(Insert(x, s))) == multiset(Names(s)) + multiset{x.name}
  {
    if s == [] {
      assert Names([x]) == [x.name];
    } else if KeyLess(x, s[0]) {
      NamesAppend([x], s);
      assert Names([x]) == [x.name];
    } else {
      InsertNames(x, s[1..]);
      assert Insert(x, s) == [s[0]] + Insert(x, s[1..]);
      NamesAppend([s[0]], Insert(x, s[1..]));
      assert s == [s[0]] + s[1..];
      NamesAppend([s[0]], s[1..]);
      assert Names([s[0]]) == [s[0].name];
    }
  }

  lemma {:induction false} SortNames(s: seq<Node>)
    ensures multiset(Names(SortByKey(s))) == multiset(Names(s))
  {
    if s != [] {
      var n := |s| - 1;
      var sorted := SortByKey(s[..n]);
      assert SortByKey(s) == Insert(s[n], sorted);
      SortNames(s[..n]);
      InsertNames(s[n], sorted);
      NamesSnoc(s);
    }
  }

  lemma NamesSnoc(s: seq<Node>)
    requires s != []
    ensures multiset(Names(s)) == multiset(Names(s[..|s| - 1])) + multiset{s[|s| - 1].name}
  {
    assert Names(s) == Names(s[..|s| - 1]) + [s[|s| - 1].name];
  }

  // ---------------------------------------------------------------------
  // Paths of a snapshot
  // ---------------------------------------------------------------------

  /** `File.path_from_root`: `self.path[len(root.path):]`. */
  function PathFromRoot(n: Node, root: Node): (rel: string)
    ensures IsPrefix(root.path, n.path) ==> root.path + rel == n.path
    ensures |root.path| >= |n.path| ==> rel == ""
  {
    Drop(n.path, |root.path|)
  }

  predicate IsPrefix(p: string, s: string) {
    |p| <= |s| && s[..|p|] == p
  }

  /** Names that survive as they are when a path built from them is used
      as the location of the next level: not empty, no '/', and not ending
      in whitespace (which `location.strip()` would cut off). */
  ghost predicate PlainNames(t: FsTree) {
    t.Dir? ==> forall e | e in t.entries ::
      e.name != "" && '/' !in e.name && !IsSpace(e.name[|e.name| - 1]) && PlainNames(e)
  }

  /** Every node strictly below `n` has a path that extends `prefix + "/"`. */
  ghost predicate Below(n: Node, prefix: string) {
    forall c | c in n.children :: IsPrefix(prefix + "/", c.path) && Below(c, prefix)
  }

  /** When no name ends in whitespace, every node below the root lies under
      the root's path, so `path_from_root` yields a '/'-led relative path
      and `root.path + relative == path`. */
  lemma {:induction false} SnapshotPathsBelowRoot(t: FsTree, location: string)
    requires Strip(location) != "" && PlainNames(t)
    requires t.name != "" && !IsSpace(t.name[|t.name| - 1]) && '/' !in t.name
    ensures var n := Snapshot(t, location); Below(n, n.path)
  {
    var n := Snapshot(t, location);
    BelowFrom(t, location, n.path);
  }

  lemma {:induction false} BelowFrom(t: FsTree, location: string, prefix: string)
    requires Strip(location) != "" && PlainNames(t)
    requires t.name != "" && !IsSpace(t.name[|t.name| - 1]) && '/' !in t.name
    requires var p := Snapshot(t, location).path; p == prefix || IsPrefix(prefix + "/", p)
    ensures Below(Snapshot(t, location), prefix)
    decreases t
  {
    var n := Snapshot(t, location);
    forall c | c in n.children ensures IsPrefix(prefix + "/", c.path) && Below(c, prefix) {
      var e := ChildPath(t, location, c);
      PrefixExtends(prefix, n.path, e.name);
      BelowFrom(e, n.path, prefix);
    }
  }

  lemma PrefixExtends(prefix: string, p: string, name: string)
    requires p == prefix || IsPrefix(prefix + "/", p)
    ensures IsPrefix(prefix + "/", p + "/" + name)
  {
    var q := prefix + "/";
    assert (p + "/" + name)[..|p| + 1] == p + "/";
    if p != prefix {
      assert (p + "/" + name)[..|q|] == p[..|q|];
    }
  }

  /** A child of a directory whose name does not end in whitespace sits at
      the directory's path, '/', and the child's name. */
  lemma ChildPath(t: FsTree, location: string, c: Node) returns (e: FsTree)
    requires Strip(location) != "" && PlainNames(t)
    requires t.name != "" && !IsSpace(t.name[|t.name| - 1]) && '/' !in t.name
    requires c in Snapshot(t, location).children
    ensures e in t.entries && Strip(Snapshot(t, location).path) != ""
    ensures c == Snapshot(e, Snapshot(t, location).path)
    ensures c.path == Snapshot(t, location).path + "/" + e.name
  {
    var n := Snapshot(t, location);
    var loc := NormalizeLocation(location).value;
    assert n.path == loc + t.name;
    assert !IsSpace(n.path[0]) && !IsSpace(n.path[|n.path| - 1]);
    assert Strip(n.path) == n.path;
    assert n.path[|n.path| - 1] != '/' by {
      assert n.path[|n.path| - 1] == t.name[|t.name| - 1];
    }
    assert NormalizeLocation(n.path) == Some(n.path + "/");
    assert '/' in n.path by {
      assert n.path[|loc| - 1] == '/';
    }
    var cs := Children(t.entries, n.path);
    SortByKeySorts(cs);
    assert c in multiset(cs);
    e := ChildSource(t.entries, n.path, c);
  }

  /** Each child comes from a listed entry. */
  lemma {:induction false} ChildSource(entries: seq<FsTree>, path: string, c: Node) returns (e: FsTree)
    requires '/' in path && c in Children(entries, path)
    ensures e in entries && Strip(path) != "" && c == Snapshot(e, path)
    decreases entries
  {
    var n := |entries| - 1;
    StripKeepsSlash(path);
    if c in Children(entries[..n], path) {
      e := ChildSource(entries[..n], path, c);
    } else {
      e := entries[n];
    }
  }
}
