/** The local filesystem as the program touches it through `os.path.exists`,
    `os.path.isdir`, `os.path.getmtime`, `os.makedirs` and `open`: a map
    from paths to entries. */
module Storage {
  import opened Base

  /** What lives at a path: a file with its bytes and modification time,
      or a directory with its modification time. */
  datatype Entry = RegularFile(content: seq<byte>, mtime: nat) | Directory(mtime: nat)

  /** The filesystem, keyed by paths without trailing separators. */
  type Disk = map<string, Entry>

  /** The key of a path: trailing separators are dropped. */
  function Canon(p: string): (c: string)
    ensures |c| <= |p| && c == p[..|c|]
    ensures |c| <= 1 || c[|c| - 1] != '/'
  {
    if |p| > 1 && p[|p| - 1] == '/' then Canon(p[..|p| - 1]) else p
  }

  /** The entry the operating system finds at `p`. The empty path names
      nothing. A trailing separator finds only a directory: on a regular
      file it fails with NotADirectoryError. */
  function Lookup(d: Disk, p: string): (r: Option<Entry>)
    ensures r.Some? <==> p != "" && Canon(p) in d && (Canon(p) == p || d[Canon(p)].Directory?)
    ensures r.Some? ==> r.value == d[Canon(p)]
  {
    var c := Canon(p);
    if p != "" && c in d && (c == p || d[c].Directory?) then Some(d[c]) else None
  }

  /** What an access to a missing `p` raises: NotADirectoryError when a
      trailing separator follows a regular file, FileNotFoundError otherwise. */
  function Missing(d: Disk, p: string): Error {
    if p != "" && Canon(p) in d then NotADirectory(p) else NotFound(p)
  }

  /** `os.path.exists(p)`. */
  predicate Exists(d: Disk, p: string) {
    Lookup(d, p).Some?
  }

  /** `os.path.isdir(p)`. */
  predicate IsDir(d: Disk, p: string) {
    Lookup(d, p).Some? && Lookup(d, p).value.Directory?
  }

  /** The keys that are directories. */
  function DirSet(d: Disk): set<string> {
    set p | p in d && d[p].Directory?
  }

  lemma IsDirInDirSet(d: Disk, p: string)
    ensures IsDir(d, p) <==> p != "" && Canon(p) in DirSet(d)
  {
  }

  /** `os.path.getmtime(p)`. */
  function MTime(d: Disk, p: string): (r: Result<nat>)
    ensures r.Ok? <==> Exists(d, p)
    ensures r.Ok? ==> r.value == d[Canon(p)].mtime
  {
    match Lookup(d, p)
    case Some(e) => Ok(e.mtime)
    case None => Err(Missing(d, p))
  }

  /** `open(p, "rb").read()`. */
  function ReadFile(d: Disk, p: string): (r: Result<seq<byte>>)
    ensures r.Ok? <==> Exists(d, p) && !IsDir(d, p)
    ensures r.Ok? ==> Canon(p) == p && r.value == d[p].content
  {
    match Lookup(d, p)
    case None => Err(Missing(d, p))
    case Some(Directory(_)) => Err(IsADirectory(p))
    case Some(RegularFile(content, _)) => Ok(content)
  }

  /** `p` itself and every directory above it, as keys. */
  function DirsOf(p: string): set<string> {
    var c := Canon(p);
    {c} + set i | 0 < i < |c| && c[i] == '/' :: c[..i]
  }

  /** `os.makedirs(p)`: creates `p` and every missing directory above it,
      stamped with the time `now`. It raises FileNotFoundError on the empty
      path, FileExistsError when `p` itself is there, and
      NotADirectoryError when a directory above it is a file. */
  function MakeDirs(d: Disk, p: string, now: nat): (r: Result<Disk>)
    ensures r.Ok? <==> p != "" && Canon(p) !in d && forall q | q in DirsOf(p) && q in d :: d[q].Directory?
    ensures p == "" ==> r == Err(NotFound(p))
    ensures p != "" && Canon(p) in d ==> r == Err(FileExists(p))
    ensures r.Ok? ==> DirsOf(p) <= DirSet(r.value) && IsDir(r.value, p)
    ensures r.Ok? ==> d.Keys <= r.value.Keys && forall q | q in d :: r.value[q] == d[q]
    ensures r.Ok? ==> r.value.Keys <= d.Keys + DirsOf(p)
  {
    var targets := DirsOf(p);
    if p == "" then Err(NotFound(p))
    else if Canon(p) in d then Err(FileExists(p))
    else if exists q | q in targets && q in d :: d[q].RegularFile? then Err(NotADirectory(p))
    else Ok(d + map q | q in targets && q !in d :: Directory(now))
  }

  /** The directory part of a key: everything before its last '/'. */
  function Parent(c: string): string {
    if '/' in c then c[..LastIndex(c, '/')] else ""
  }

  /** `open(p, "wb").write(content)`, which stamps the file with the time
      `now`. It fails on a directory, on a trailing separator, and when
      the containing directory is missing or is a file, and on the empty
      path. */
  function WriteFile(d: Disk, p: string, content: seq<byte>, now: nat): (r: Result<Disk>)
    ensures r.Ok? <==> p != "" && Canon(p) == p && !IsDir(d, p) && (Parent(p) == "" || (Parent(p) in d && d[Parent(p)].Directory?))
    ensures p == "" ==> r == Err(NotFound(p))
    ensures r.Ok? ==> r.value == d[p := RegularFile(content, now)]
  {
    var c := Canon(p);
    var parent := Parent(c);
    if p == "" then Err(NotFound(p))
    else if c != p then Err(if c in d && d[c].RegularFile? then NotADirectory(p) else IsADirectory(p))
    else if c in d && d[c].Directory? then Err(IsADirectory(p))
    else if parent != "" && parent !in d then Err(NotFound(p))
    else if parent != "" && d[parent].RegularFile? then Err(NotADirectory(p))
    else Ok(d[c := RegularFile(content, now)])
  }

  /** `if not os.path.exists(p): os.makedirs(p)`. */
  function EnsureDir(d: Disk, p: string, now: nat): (r: Result<Disk>)
    ensures r.Ok? ==> Exists(r.value, p)
    ensures r.Ok? ==> d.Keys <= r.value.Keys && forall q | q in d :: r.value[q] == d[q]
  {
    if Exists(d, p) then Ok(d) else MakeDirs(d, p, now)
  }

  /** A write after `EnsureDir`: the file holds the bytes and the time of
      the write, `dir` is in place with every directory of it made when it
      was missing, the containing directory of the file is a directory,
      every other entry is as it was and nothing new but directories. */
  lemma EnsureDirThenWrite(d: Disk, dir: string, p: string, content: seq<byte>, now: nat)
    requires EnsureDir(d, dir, now).Ok? && WriteFile(EnsureDir(d, dir, now).value, p, content, now).Ok?
    ensures var d' := WriteFile(EnsureDir(d, dir, now).value, p, content, now).value;
      && ReadFile(d', p) == Ok(content) && MTime(d', p) == Ok(now)
      && Exists(d', dir)
      && (!Exists(d, dir) ==> DirsOf(dir) <= DirSet(d'))
      && (Parent(p) == "" || (Parent(p) in d' && d'[Parent(p)].Directory?))
      && (forall q | q in d && q != p :: q in d' && d'[q] == d[q])
      && (forall q | q in d' && q !in d && q != p :: d'[q].Directory?)
  {
    var made := EnsureDir(d, dir, now).value;
    WriteThenRead(made, p, content, now, dir);
    if !Exists(d, dir) {
      DirectoriesPersist(made, p, content, now);
    }
  }

  /** `if not os.path.exists(dir): os.makedirs(dir)` followed by a write
      of `p` inside it succeeds when no regular file stands in the way of
      the directory, `p` is not a directory, and `p` sits directly in
      `dir`. */
  lemma EnsureDirWriteSucceeds(d: Disk, dir: string, p: string, content: seq<byte>, now: nat)
    requires forall q | q in DirsOf(dir) && q in d :: d[q].Directory?
    requires Canon(p) == p && !IsDir(d, p) && Canon(dir) != "" && Parent(p) == Canon(dir)
    ensures EnsureDir(d, dir, now).Ok?
    ensures WriteFile(EnsureDir(d, dir, now).value, p, content, now).Ok?
  {
    var c := Canon(dir);
    assert c in DirsOf(dir);
    assert '/' in p && |c| < |p|;
    var made := EnsureDir(d, dir, now).value;
    if !Exists(d, dir) {
      assert p !in DirsOf(dir);
      assert c in DirSet(made);
    }
    assert c in made && made[c].Directory?;
    assert !(p in made && made[p].Directory?);
  }

  /** A file written is read back with the bytes written and the time of
      the write, and every other path is untouched. */
  lemma WriteThenRead(d: Disk, p: string, content: seq<byte>, now: nat, q: string)
    requires WriteFile(d, p, content, now).Ok?
    ensures var d' := WriteFile(d, p, content, now).value;
      && ReadFile(d', p) == Ok(content) && MTime(d', p) == Ok(now)
      && (Canon(q) != Canon(p) ==> ReadFile(d', q) == ReadFile(d, q) && MTime(d', q) == MTime(d, q))
  {
  }

  /** Neither `os.makedirs` nor a write ever removes a directory or turns
      one into something else. */
  lemma DirectoriesPersist(d: Disk, p: string, content: seq<byte>, now: nat)
    ensures MakeDirs(d, p, now).Ok? ==> DirSet(d) <= DirSet(MakeDirs(d, p, now).value)
    ensures WriteFile(d, p, content, now).Ok? ==> DirSet(WriteFile(d, p, content, now).value) == DirSet(d)
  {
    if WriteFile(d, p, content, now).Ok? {
      var d' := WriteFile(d, p, content, now).value;
      assert Canon(p) !in DirSet(d);
      assert DirSet(d') == DirSet(d);
    }
  }
}
