/**
  * The content directory `blog/` as a tree of named files and directories, and the
  * file-system calls the blog makes on it: `existsSync`, `readdirSync` (the order of
  * a directory's entries), `readFileSync`, `mkdirSync` with `recursive: true`,
  * `writeFileSync` and `unlinkSync`, plus `path.join` on POSIX.
  *
  * A path is the sequence of names below `blog/`; the empty path is `blog/` itself.
  * When several entries of one directory share a name, the first one is the one
  * found; `WellFormed` rules that out, as a real file system does.
  */
module FileTree {
  import opened Wrappers
  import opened Text
  import opened Sequences

  datatype Node = File(name: string, text: string) | Dir(name: string, entries: seq<Node>)

  type Path = seq<string>

  /** A name that a directory entry can have: not empty, not `.` or `..`, no `/`. */
  predicate PlainName(n: string) {
    n != "" && n != "." && n != ".." && '/' !in n
  }

  predicate PlainPath(p: Path) {
    forall i :: 0 <= i < |p| ==> PlainName(p[i])
  }

  /** Entry names are distinct and plain in every directory. */
  ghost predicate WellFormed(entries: seq<Node>)
    decreases entries
  {
    && (forall i, j :: 0 <= i < j < |entries| ==> entries[i].name != entries[j].name)
    && (forall i :: 0 <= i < |entries| ==> PlainName(entries[i].name))
    && (forall i :: 0 <= i < |entries| && entries[i].Dir? ==> WellFormed(entries[i].entries))
  }

  /** Position of the first entry called `name`. */
  function Find(entries: seq<Node>, name: string): (r: Option<nat>)
    ensures r.Some? ==> r.value < |entries| && entries[r.value].name == name
    ensures r.Some? ==> forall k :: 0 <= k < r.value ==> entries[k].name != name
    ensures r.None? ==> forall k :: 0 <= k < |entries| ==> entries[k].name != name
  {
    if entries == [] then None
    else if entries[0].name == name then Some(0)
    else match Find(entries[1..], name)
      case None => None
      case Some(k) => Some(k + 1)
  }

  /** The entry at a non-empty path. */
  function Lookup(entries: seq<Node>, p: Path): (r: Option<Node>)
    requires p != []
    ensures r.Some? ==> r.value.name == p[|p| - 1]
    decreases |p|
  {
    match Find(entries, p[0])
    case None => None
    case Some(i) =>
      if |p| == 1 then Some(entries[i])
      else match entries[i]
        case File(_, _) => None
        case Dir(_, sub) => Lookup(sub, p[1..])
  }

  /** Whatever is found in a well-formed tree is reached through plain names. */
  lemma {:induction false} LookupPlain(entries: seq<Node>, p: Path)
    requires WellFormed(entries)
    requires p != [] && Lookup(entries, p).Some?
    ensures PlainPath(p)
    decreases |p|
  {
    if |p| > 1 {
      var i := Find(entries, p[0]).value;
      LookupPlain(entries[i].entries, p[1..]);
      assert forall k :: 1 <= k < |p| ==> p[k] == p[1..][k - 1];
    }
  }

  /** The text of the file at `p`, if `p` names a file. */
  function FileAt(entries: seq<Node>, p: Path): Option<string> {
    if p == [] then None
    else match Lookup(entries, p)
      case Some(File(_, t)) => Some(t)
      case _ => None
  }

  /** Whether `p` names a directory; the empty path names the directory itself. */
  predicate IsDirAt(entries: seq<Node>, p: Path) {
    p == [] || (Lookup(entries, p).Some? && Lookup(entries, p).value.Dir?)
  }

  /** The entries of `blog/`, or none when `blog/` does not exist. */
  type Root = Option<seq<Node>>

  /** `fs.existsSync`: true for a file and for a directory. */
  predicate Exists(root: Root, p: Path) {
    root.Some? && (p == [] || Lookup(root.value, p).Some?)
  }

  function FileIn(root: Root, p: Path): Option<string> {
    if root.None? then None else FileAt(root.value, p)
  }

  /** The directories that `mkdir -p` creates inside a new, empty directory. */
  function Chain(d: Path): seq<Node>
    decreases |d|
  {
    if d == [] then [] else [Dir(d[0], Chain(d[1..]))]
  }

  /** `fs.mkdirSync(d, { recursive: true })` when `d` is missing, nothing when it is a
      directory; fails when a file stands on the way. */
  function EnsureDir(entries: seq<Node>, d: Path): Option<seq<Node>>
    decreases |d|
  {
    if d == [] then Some(entries)
    else match Find(entries, d[0])
      case None => Some(entries + [Dir(d[0], Chain(d[1..]))])
      case Some(i) =>
        match entries[i]
        case File(_, _) => None
        case Dir(n, sub) =>
          match EnsureDir(sub, d[1..])
          case None => None
          case Some(sub') => Some(entries[i := Dir(n, sub')])
  }

  /** `fs.writeFileSync(p, text)`: replaces an existing file's text where it stands,
      adds a new file at the end of its directory, and fails when the parent is not a
      directory or `p` is a directory. */
  function WriteFile(entries: seq<Node>, p: Path, text: string): Option<seq<Node>>
    requires p != []
    decreases |p|
  {
    match Find(entries, p[0])
    case None => if |p| == 1 then Some(entries + [File(p[0], text)]) else None
    case Some(i) =>
      if |p| == 1 then
        if entries[i].Dir? then None else Some(entries[i := File(p[0], text)])
      else match entries[i]
        case File(_, _) => None
        case Dir(n, sub) =>
          match WriteFile(sub, p[1..], text)
          case None => None
          case Some(sub') => Some(entries[i := Dir(n, sub')])
  }

  /** `fs.unlinkSync(p)`: removes the file at `p`; fails when there is none. */
  function RemoveFile(entries: seq<Node>, p: Path): Option<seq<Node>>
    requires p != []
    decreases |p|
  {
    match Find(entries, p[0])
    case None => None
    case Some(i) =>
      if |p| == 1 then
        if entries[i].Dir? then None else Some(entries[..i] + entries[i + 1..])
      else match entries[i]
        case File(_, _) => None
        case Dir(n, sub) =>
          match RemoveFile(sub, p[1..])
          case None => None
          case Some(sub') => Some(entries[i := Dir(n, sub')])
  }

  // ---------------------------------------------------------------------------
  // Finding entries after an update

  lemma {:induction false} FindSameNames(a: seq<Node>, b: seq<Node>, name: string)
    requires |a| == |b|
    requires forall k :: 0 <= k < |a| ==> a[k].name == b[k].name
    ensures Find(a, name) == Find(b, name)
    decreases |a|
  {
    if a != [] && a[0].name != name {
      FindSameNames(a[1..], b[1..], name);
    }
  }

  lemma {:induction false} FindAppend(a: seq<Node>, x: Node, name: string)
    ensures Find(a + [x], name) ==
      if Find(a, name).Some? then Find(a, name)
      else if x.name == name then Some(|a|) else None
  {
    var r := Find(a + [x], name);
    var s := Find(a, name);
    if s.Some? {
      assert (a + [x])[s.value] == a[s.value];
      assert r.Some? && r.value <= s.value;
    } else if x.name == name {
      assert (a + [x])[|a|] == x;
      assert r.Some? && r.value == |a|;
    }
  }

  /** After removing entry `i`, every other name is found on the same node. */
  lemma {:induction false} FindRemoved(a: seq<Node>, i: nat, name: string)
    requires i < |a|
    requires a[i].name != name
    ensures var b := a[..i] + a[i + 1..];
      && (Find(b, name).Some? <==> Find(a, name).Some?)
      && (Find(b, name).Some? ==> b[Find(b, name).value] == a[Find(a, name).value])
  {
    var b := a[..i] + a[i + 1..];
    var s := Find(a, name);
    var r := Find(b, name);
    if s.Some? {
      var j := s.value;
      var j' := if j < i then j else j - 1;
      assert b[j'] == a[j];
      assert r.Some? && r.value <= j';
      var k := r.value;
      var ka := if k < i then k else k + 1;
      assert a[ka] == b[k];
      assert ka >= j;
      assert k == j';
    }
  }

  /** Replacing the directory at position `i` by one with new entries changes only what
      is found through it. */
  lemma LookupReplaced(entries: seq<Node>, i: nat, sub': seq<Node>, q: Path)
    requires i < |entries| && entries[i].Dir? && Find(entries, entries[i].name) == Some(i)
    requires q != []
    ensures var n := entries[i].name;
      var after := entries[i := Dir(n, sub')];
      && (q[0] != n ==> Lookup(after, q) == Lookup(entries, q))
      && (q == [n] ==> Lookup(after, q) == Some(Dir(n, sub')))
      && (q[0] == n && |q| > 1 ==>
            Lookup(after, q) == Lookup(sub', q[1..]) && Lookup(entries, q) == Lookup(entries[i].entries, q[1..]))
  {
    var after := entries[i := Dir(entries[i].name, sub')];
    FindSameNames(after, entries, q[0]);
  }

  /** In a well-formed directory a name is found at most once. */
  lemma FindUnique(a: seq<Node>, k: nat)
    requires WellFormed(a)
    requires k < |a|
    ensures Find(a, a[k].name) == Some(k)
  {
  }

  // ---------------------------------------------------------------------------
  // What each update does to the files and directories

  lemma {:induction false} ChainHasNoFiles(d: Path, q: Path)
    ensures FileAt(Chain(d), q) == None
    decreases |d|
  {
    if d != [] && q != [] {
      var c := Chain(d);
      if Find(c, q[0]).Some? && |q| > 1 {
        ChainHasNoFiles(d[1..], q[1..]);
      }
    }
  }

  lemma {:induction false} ChainMakesDir(d: Path)
    ensures IsDirAt(Chain(d), d)
    decreases |d|
  {
    if |d| > 1 {
      ChainMakesDir(d[1..]);
      assert Find(Chain(d), d[0]) == Some(0);
    } else if |d| == 1 {
      assert Find(Chain(d), d[0]) == Some(0);
    }
  }

  /** Writing the file at `p` changes the text at `p` and nothing else: every other path
      keeps its file and every directory stays a directory. */
  lemma {:induction false} WriteFileEffect(entries: seq<Node>, p: Path, text: string, q: Path)
    requires p != []
    requires WriteFile(entries, p, text).Some?
    ensures var after := WriteFile(entries, p, text).value;
      && FileAt(after, q) == (if q == p then Some(text) else FileAt(entries, q))
      && IsDirAt(after, q) == IsDirAt(entries, q)
    decreases |p|, 1
  {
    if q != [] {
      if |p| == 1 {
        WriteHere(entries, p[0], text, q);
      } else {
        WriteBelow(entries, p, text, q);
      }
    }
  }

  /** Writing a file of the directory itself: a new entry at the end, or the old one's
      text replaced. */
  lemma WriteHere(entries: seq<Node>, name: string, text: string, q: Path)
    requires q != []
    requires WriteFile(entries, [name], text).Some?
    ensures var after := WriteFile(entries, [name], text).value;
      && FileAt(after, q) == (if q == [name] then Some(text) else FileAt(entries, q))
      && IsDirAt(after, q) == IsDirAt(entries, q)
  {
    var after := WriteFile(entries, [name], text).value;
    if Find(entries, name).None? {
      FindAppend(entries, File(name, text), q[0]);
    } else {
      FindSameNames(after, entries, q[0]);
    }
  }

  /** Writing a file inside a sub-directory. */
  lemma {:induction false} WriteBelow(entries: seq<Node>, p: Path, text: string, q: Path)
    requires |p| > 1 && q != []
    requires WriteFile(entries, p, text).Some?
    ensures var after := WriteFile(entries, p, text).value;
      && FileAt(after, q) == (if q == p then Some(text) else FileAt(entries, q))
      && IsDirAt(after, q) == IsDirAt(entries, q)
    decreases |p|, 0
  {
    var after := WriteFile(entries, p, text).value;
    var i := Find(entries, p[0]).value;
    var sub := entries[i].entries;
    var sub' := WriteFile(sub, p[1..], text).value;
    assert after == entries[i := Dir(entries[i].name, sub')];
    LookupReplaced(entries, i, sub', q);
    if q[0] == p[0] && |q| > 1 {
      WriteFileEffect(sub, p[1..], text, q[1..]);
      assert q == p <==> q[1..] == p[1..];
    }
  }

  /** `mkdir -p` creates no file, keeps every directory, and leaves `d` a directory. */
  lemma {:induction false} EnsureDirEffect(entries: seq<Node>, d: Path, q: Path)
    requires EnsureDir(entries, d).Some?
    ensures var after := EnsureDir(entries, d).value;
      && FileAt(after, q) == FileAt(entries, q)
      && (IsDirAt(entries, q) ==> IsDirAt(after, q))
      && IsDirAt(after, d)
    decreases |d|, 1
  {
    if d != [] {
      if Find(entries, d[0]).None? {
        EnsureDirNew(entries, d, q);
      } else {
        EnsureDirInto(entries, d, q);
      }
    }
  }

  /** `mkdir -p` when the first name is missing: a chain of new directories. */
  lemma EnsureDirNew(entries: seq<Node>, d: Path, q: Path)
    requires d != [] && Find(entries, d[0]).None?
    ensures var after := EnsureDir(entries, d).value;
      && FileAt(after, q) == FileAt(entries, q)
      && (IsDirAt(entries, q) ==> IsDirAt(after, q))
      && IsDirAt(after, d)
  {
    var node := Dir(d[0], Chain(d[1..]));
    assert EnsureDir(entries, d) == Some(entries + [node]);
    FindAppend(entries, node, d[0]);
    if q != [] {
      FindAppend(entries, node, q[0]);
      if q[0] == d[0] && |q| > 1 {
        ChainHasNoFiles(d[1..], q[1..]);
      }
    }
    if |d| > 1 {
      ChainMakesDir(d[1..]);
    }
  }

  /** `mkdir -p` when the first name is an existing directory: the rest is made inside
      it. */
  lemma {:induction false} EnsureDirInto(entries: seq<Node>, d: Path, q: Path)
    requires d != [] && Find(entries, d[0]).Some?
    requires EnsureDir(entries, d).Some?
    ensures var after := EnsureDir(entries, d).value;
      && FileAt(after, q) == FileAt(entries, q)
      && (IsDirAt(entries, q) ==> IsDirAt(after, q))
      && IsDirAt(after, d)
    decreases |d|, 0
  {
    var after := EnsureDir(entries, d).value;
    var i := Find(entries, d[0]).value;
    var sub := entries[i].entries;
    var sub' := EnsureDir(sub, d[1..]).value;
    assert after == entries[i := Dir(entries[i].name, sub')];
    LookupReplaced(entries, i, sub', d);
    if |d| > 1 {
      EnsureDirEffect(sub, d[1..], d[1..]);
    }
    if q != [] {
      LookupReplaced(entries, i, sub', q);
      if q[0] == d[0] && |q| > 1 {
        EnsureDirEffect(sub, d[1..], q[1..]);
      }
    }
  }

  /** The only directories in a new chain are the ancestors-or-self of its path. */
  lemma {:induction false} ChainDirs(d: Path, q: Path)
    requires IsDirAt(Chain(d), q)
    ensures |q| <= |d| && q == d[..|q|]
    decreases |d|
  {
    if q != [] {
      assert Find(Chain(d), q[0]) == Some(0);
      if |q| > 1 {
        ChainDirs(d[1..], q[1..]);
        assert q == [q[0]] + q[1..];
      }
    }
  }

  /** `mkdir -p` makes no directory other than `d` and its ancestors: every directory
      afterwards was one before or lies on the way to `d`. */
  lemma {:induction false} EnsureDirOnlyAncestors(entries: seq<Node>, d: Path, q: Path)
    requires EnsureDir(entries, d).Some?
    requires IsDirAt(EnsureDir(entries, d).value, q)
    ensures IsDirAt(entries, q) || (|q| <= |d| && q == d[..|q|])
    decreases |d|
  {
    if d != [] && q != [] {
      var after := EnsureDir(entries, d).value;
      match Find(entries, d[0])
      case None =>
        var node := Dir(d[0], Chain(d[1..]));
        FindAppend(entries, node, q[0]);
        if q[0] == d[0] && |q| > 1 {
          assert Lookup(after, q) == Lookup(Chain(d[1..]), q[1..]);
          ChainDirs(d[1..], q[1..]);
          assert q == [q[0]] + q[1..];
        }
      case Some(i) =>
        var sub := entries[i].entries;
        var sub' := EnsureDir(sub, d[1..]).value;
        assert after == entries[i := Dir(entries[i].name, sub')];
        LookupReplaced(entries, i, sub', q);
        if q[0] == d[0] && |q| > 1 {
          EnsureDirOnlyAncestors(sub, d[1..], q[1..]);
          assert q == [q[0]] + q[1..];
        }
    }
  }

  /** `mkdir -p` fails exactly when some ancestor-or-self of `d` is a file. */
  lemma {:induction false} EnsureDirFails(entries: seq<Node>, d: Path)
    ensures EnsureDir(entries, d).None? <==> exists k :: 1 <= k <= |d| && FileAt(entries, d[..k]).Some?
    decreases |d|
  {
    if d != [] {
      match Find(entries, d[0])
      case None =>
        forall k | 1 <= k <= |d|
          ensures FileAt(entries, d[..k]).None?
        {
          assert d[..k][0] == d[0];
        }
      case Some(i) =>
        assert d[..1] == [d[0]];
        match entries[i]
        case File(_, _) =>
          assert FileAt(entries, d[..1]).Some?;
        case Dir(n, sub) =>
          EnsureDirFails(sub, d[1..]);
          assert FileAt(entries, d[..1]).None?;
          forall k | 2 <= k <= |d|
            ensures FileAt(entries, d[..k]) == FileAt(sub, d[1..][..k - 1])
          {
            assert d[..k][1..] == d[1..][..k - 1];
          }
          if EnsureDir(sub, d[1..]).None? {
            var k :| 1 <= k <= |d[1..]| && FileAt(sub, d[1..][..k]).Some?;
            assert FileAt(entries, d[..k + 1]).Some?;
          }
    }
  }

  /** Removing the file at `p` from a well-formed tree leaves nothing at `p` and every
      other file and every directory as it was. */
  lemma {:induction false} RemoveFileEffect(entries: seq<Node>, p: Path, q: Path)
    requires p != []
    requires WellFormed(entries)
    requires RemoveFile(entries, p).Some?
    ensures var after := RemoveFile(entries, p).value;
      && FileAt(after, q) == (if q == p then None else FileAt(entries, q))
      && IsDirAt(after, q) == IsDirAt(entries, q)
      && Lookup(after, p).None?
    decreases |p|, 1
  {
    if |p| == 1 {
      RemoveHere(entries, p[0], q);
    } else {
      RemoveBelow(entries, p, q);
    }
  }

  /** Removing a file of the directory itself. */
  lemma RemoveHere(entries: seq<Node>, name: string, q: Path)
    requires WellFormed(entries)
    requires RemoveFile(entries, [name]).Some?
    ensures var after := RemoveFile(entries, [name]).value;
      && FileAt(after, q) == (if q == [name] then None else FileAt(entries, q))
      && IsDirAt(after, q) == IsDirAt(entries, q)
      && Lookup(after, [name]).None?
  {
    var i := Find(entries, name).value;
    var after := RemoveFile(entries, [name]).value;
    assert after == entries[..i] + entries[i + 1..];
    assert Find(after, name).None?;
    if q != [] && q[0] != name {
      FindRemoved(entries, i, q[0]);
    }
  }

  /** Removing a file inside a sub-directory. */
  lemma {:induction false} RemoveBelow(entries: seq<Node>, p: Path, q: Path)
    requires |p| > 1
    requires WellFormed(entries)
    requires RemoveFile(entries, p).Some?
    ensures var after := RemoveFile(entries, p).value;
      && FileAt(after, q) == (if q == p then None else FileAt(entries, q))
      && IsDirAt(after, q) == IsDirAt(entries, q)
      && Lookup(after, p).None?
    decreases |p|, 0
  {
    var after := RemoveFile(entries, p).value;
    var i := Find(entries, p[0]).value;
    var sub := entries[i].entries;
    var sub' := RemoveFile(sub, p[1..]).value;
    assert after == entries[i := Dir(entries[i].name, sub')];
    RemoveFileEffect(sub, p[1..], p[1..]);
    LookupReplaced(entries, i, sub', p);
    if q != [] {
      LookupReplaced(entries, i, sub', q);
      if q[0] == p[0] && |q| > 1 {
        RemoveFileEffect(sub, p[1..], q[1..]);
        assert q == p <==> q[1..] == p[1..];
      }
    }
  }

  /** `RemoveFile` succeeds only on a file. */
  lemma {:induction false} RemoveFileFindsFile(entries: seq<Node>, p: Path)
    requires p != [] && RemoveFile(entries, p).Some?
    ensures FileAt(entries, p).Some?
    decreases |p|
  {
    if |p| > 1 {
      var i := Find(entries, p[0]).value;
      RemoveFileFindsFile(entries[i].entries, p[1..]);
    }
  }

  /** A file can be written into any directory, unless a directory has its name. */
  lemma {:induction false} WriteFileSucceeds(entries: seq<Node>, d: Path, f: string, text: string)
    requires IsDirAt(entries, d)
    requires !IsDirAt(entries, d + [f])
    ensures WriteFile(entries, d + [f], text).Some?
    decreases |d|
  {
    if d != [] {
      var i := Find(entries, d[0]).value;
      assert (d + [f])[0] == d[0] && (d + [f])[1..] == d[1..] + [f];
      if |d| > 1 {
        WriteFileSucceeds(entries[i].entries, d[1..], f, text);
      } else {
        WriteFileSucceeds(entries[i].entries, [], f, text);
        assert d[1..] == [];
      }
    } else {
      assert [] + [f] == [f];
    }
  }

  /** The directory holding a file is a directory. */
  lemma {:induction false} FileParentIsDir(entries: seq<Node>, d: Path, f: string)
    requires FileAt(entries, d + [f]).Some?
    ensures IsDirAt(entries, d)
    decreases |d|
  {
    if d != [] {
      var i := Find(entries, d[0]).value;
      assert (d + [f])[0] == d[0] && (d + [f])[1..] == d[1..] + [f];
      if |d| > 1 {
        FileParentIsDir(entries[i].entries, d[1..], f);
      }
    }
  }

  // ---------------------------------------------------------------------------
  // Updates keep the tree well-formed

  lemma {:induction false} ChainWellFormed(d: Path)
    requires PlainPath(d)
    ensures WellFormed(Chain(d))
    decreases |d|
  {
    if d != [] {
      ChainWellFormed(d[1..]);
    }
  }

  lemma {:induction false} EnsureDirWellFormed(entries: seq<Node>, d: Path)
    requires WellFormed(entries) && PlainPath(d)
    requires EnsureDir(entries, d).Some?
    ensures WellFormed(EnsureDir(entries, d).value)
    decreases |d|
  {
    if d != [] {
      match Find(entries, d[0])
      case None =>
        ChainWellFormed(d[1..]);
      case Some(i) =>
        EnsureDirWellFormed(entries[i].entries, d[1..]);
    }
  }

  lemma {:induction false} WriteFileWellFormed(entries: seq<Node>, p: Path, text: string)
    requires p != []
    requires WellFormed(entries) && PlainPath(p)
    requires WriteFile(entries, p, text).Some?
    ensures WellFormed(WriteFile(entries, p, text).value)
    decreases |p|
  {
    if |p| > 1 {
      var i := Find(entries, p[0]).value;
      WriteFileWellFormed(entries[i].entries, p[1..], text);
    }
  }

  lemma {:induction false} RemoveFileWellFormed(entries: seq<Node>, p: Path)
    requires p != []
    requires WellFormed(entries)
    requires RemoveFile(entries, p).Some?
    ensures WellFormed(RemoveFile(entries, p).value)
    decreases |p|
  {
    var i := Find(entries, p[0]).value;
    if |p| == 1 {
      var after := entries[..i] + entries[i + 1..];
      forall k | 0 <= k < |after|
        ensures after[k] == entries[if k < i then k else k + 1]
      {
      }
    } else {
      RemoveFileWellFormed(entries[i].entries, p[1..]);
    }
  }

  // ---------------------------------------------------------------------------
  // The recursive listing of Markdown files

  /** The `.md` files at or below one directory entry, as paths that start with `dir`. */
  function EntryMdFiles(e: Node, dir: Path): seq<Path>
    decreases e
  {
    match e
    case File(n, _) => if EndsWith(n, ".md") then [dir + [n]] else []
    case Dir(n, sub) => MdFiles(sub, dir + [n])
  }

  /** The `.md` files below `entries`, as paths that start with `dir`: pre-order,
      in the order of the directory listing, recursing into every directory. */
  function MdFiles(entries: seq<Node>, dir: Path): seq<Path>
    decreases entries
  {
    if entries == [] then [] else EntryMdFiles(entries[0], dir) + MdFiles(entries[1..], dir)
  }

  lemma {:induction false} MdFilesConcat(a: seq<Node>, b: seq<Node>, dir: Path)
    ensures MdFiles(a + b, dir) == MdFiles(a, dir) + MdFiles(b, dir)
    decreases |a|
  {
    if a != [] {
      assert (a + b)[0] == a[0];
      assert (a + b)[1..] == a[1..] + b;
      MdFilesConcat(a[1..], b, dir);
    } else {
      assert a + b == b;
    }
  }

  /** Every path listed for an entry starts with `dir` and then the entry's name. */
  lemma {:induction false} EntryMdFilesShape(e: Node, dir: Path, x: Path)
    requires x in EntryMdFiles(e, dir)
    ensures |x| > |dir| && x[..|dir|] == dir && x[|dir|] == e.name
    decreases e
  {
    match e
    case File(n, _) =>
    case Dir(n, sub) =>
      MdFilesShape(sub, dir + [n], x);
      assert x[..|dir| + 1] == dir + [n];
  }

  /** Every listed path starts with `dir` and then the name of one of the entries. */
  lemma {:induction false} MdFilesShape(entries: seq<Node>, dir: Path, x: Path)
    requires x in MdFiles(entries, dir)
    ensures |x| > |dir| && x[..|dir|] == dir
    ensures exists k :: 0 <= k < |entries| && x[|dir|] == entries[k].name
    decreases entries
  {
    if x in EntryMdFiles(entries[0], dir) {
      EntryMdFilesShape(entries[0], dir, x);
    } else {
      MdFilesShape(entries[1..], dir, x);
      var k :| 0 <= k < |entries[1..]| && x[|dir|] == entries[1..][k].name;
      assert entries[k + 1] == entries[1..][k];
    }
  }

  /** Every listed path names a file below `dir` whose name ends in ".md". */
  lemma {:induction false} MdFilesSound(entries: seq<Node>, dir: Path, x: Path)
    requires WellFormed(entries)
    requires x in MdFiles(entries, dir)
    ensures |x| > |dir| && x[..|dir|] == dir
    ensures FileAt(entries, x[|dir|..]).Some?
    ensures EndsWith(x[|x| - 1], ".md")
    decreases entries, 1
  {
    MdFilesShape(entries, dir, x);
    if x in EntryMdFiles(entries[0], dir) {
      FirstEntrySound(entries, dir, x);
    } else {
      LaterEntrySound(entries, dir, x);
    }
  }

  /** A path listed for the first entry. */
  lemma {:induction false} FirstEntrySound(entries: seq<Node>, dir: Path, x: Path)
    requires WellFormed(entries) && entries != []
    requires x in EntryMdFiles(entries[0], dir)
    ensures |x| > |dir| && x[..|dir|] == dir
    ensures FileAt(entries, x[|dir|..]).Some?
    ensures EndsWith(x[|x| - 1], ".md")
    decreases entries, 0
  {
    EntryMdFilesShape(entries[0], dir, x);
    var q := x[|dir|..];
    FindUnique(entries, 0);
    match entries[0]
    case File(n, _) =>
      assert q == [n];
    case Dir(n, sub) =>
      MdFilesSound(sub, dir + [n], x);
      assert q == [n] + x[|dir| + 1..];
      assert q[1..] == x[|dir + [n]|..];
  }

  /** A path listed for a later entry. */
  lemma {:induction false} LaterEntrySound(entries: seq<Node>, dir: Path, x: Path)
    requires WellFormed(entries) && entries != []
    requires x in MdFiles(entries[1..], dir)
    ensures |x| > |dir| && x[..|dir|] == dir
    ensures FileAt(entries, x[|dir|..]).Some?
    ensures EndsWith(x[|x| - 1], ".md")
    decreases entries, 0
  {
    var rest := entries[1..];
    MdFilesSound(rest, dir, x);
    var q := x[|dir|..];
    MdFilesShape(rest, dir, x);
    var k :| 0 <= k < |rest| && x[|dir|] == rest[k].name;
    assert entries[k + 1] == rest[k];
    LookupPastFirst(entries, q);
  }

  /** A name other than the first entry's is looked up among the later entries. */
  lemma LookupPastFirst(entries: seq<Node>, q: Path)
    requires entries != [] && q != [] && q[0] != entries[0].name
    ensures Lookup(entries, q) == Lookup(entries[1..], q)
  {
  }

  /** Every file whose name ends in ".md" is listed. */
  lemma {:induction false} MdFilesComplete(entries: seq<Node>, dir: Path, q: Path)
    requires FileAt(entries, q).Some?
    requires EndsWith(q[|q| - 1], ".md")
    ensures dir + q in MdFiles(entries, dir)
    decreases entries
  {
    var i := Find(entries, q[0]).value;
    var rest := entries[1..];
    if i == 0 {
      if |q| == 1 {
        assert dir + q == dir + [entries[0].name];
      } else {
        var n := entries[0].name;
        var sub := entries[0].entries;
        MdFilesComplete(sub, dir + [n], q[1..]);
        assert dir + [n] + q[1..] == dir + q;
      }
    } else {
      assert Find(rest, q[0]) == Some(i - 1);
      assert Lookup(rest, q) == Lookup(entries, q);
      MdFilesComplete(rest, dir, q);
    }
  }

  /** In a well-formed tree no file is listed twice. */
  lemma {:induction false} MdFilesDistinct(entries: seq<Node>, dir: Path)
    requires WellFormed(entries)
    ensures NoDuplicates(MdFiles(entries, dir))
    decreases entries
  {
    if entries != [] {
      var head := EntryMdFiles(entries[0], dir);
      var tail := MdFiles(entries[1..], dir);
      MdFilesDistinct(entries[1..], dir);
      match entries[0] {
        case File(n, _) =>
        case Dir(n, sub) =>
          MdFilesDistinct(sub, dir + [n]);
      }
      forall x | x in head
        ensures |x| > |dir| && x[|dir|] == entries[0].name
      {
        EntryMdFilesShape(entries[0], dir, x);
      }
      forall x | x in tail
        ensures |x| > |dir| && x[|dir|] != entries[0].name
      {
        MdFilesShape(entries[1..], dir, x);
        var k :| 0 <= k < |entries[1..]| && x[|dir|] == entries[1..][k].name;
        assert entries[k + 1] == entries[1..][k];
      }
      NoDuplicatesConcat(head, tail);
    }
  }

  /** The paths `getAllMdFiles` returns for the content directory. */
  function ListMdFiles(root: Root): seq<Path> {
    if root.None? then [] else MdFiles(root.value, [])
  }

  /** `getAllMdFiles(dir, fileList)`: walks `entries` in listing order, pushing the path
      of every `.md` file onto the shared list and recursing into every directory. */
  method CollectMdFiles(entries: seq<Node>, dir: Path, fileList: seq<Path>) returns (result: seq<Path>)
    ensures result == fileList + MdFiles(entries, dir)
    decreases entries
  {
    result := fileList;
    var k := 0;
    while k < |entries|
      invariant 0 <= k <= |entries|
      invariant result == fileList + MdFiles(entries[..k], dir)
    {
      MdFilesConcat(entries[..k], [entries[k]], dir);
      assert entries[..k + 1] == entries[..k] + [entries[k]];
      match entries[k] {
        case Dir(n, sub) =>
          result := CollectMdFiles(sub, dir + [n], result);
        case File(n, _) =>
          if EndsWith(n, ".md") {
            result := result + [dir + [n]];
          }
      }
      k := k + 1;
    }
    assert entries[..k] == entries;
  }

  /** `getAllMdFiles(postsDirectory)`: nothing when the directory is missing. */
  method GetAllMdFiles(root: Root) returns (files: seq<Path>)
    ensures files == ListMdFiles(root)
  {
    if root.None? {
      return [];
    }
    files := CollectMdFiles(root.value, [], []);
  }

  /** The listing holds each `.md` file of the tree exactly once, and nothing else. */
  lemma ListMdFilesExact(root: Root, p: Path)
    requires root.Some? ==> WellFormed(root.value)
    ensures NoDuplicates(ListMdFiles(root))
    ensures p in ListMdFiles(root) <==> p != [] && FileIn(root, p).Some? && EndsWith(p[|p| - 1], ".md")
  {
    if root.Some? {
      MdFilesDistinct(root.value, []);
      if p in ListMdFiles(root) {
        MdFilesSound(root.value, [], p);
        assert p[0..] == p;
      }
      if p != [] && FileIn(root, p).Some? && EndsWith(p[|p| - 1], ".md") {
        MdFilesComplete(root.value, [], p);
        assert [] + p == p;
      }
    }
  }

  // ---------------------------------------------------------------------------
  // path.join

  /** One step of POSIX path normalisation: `""` and `.` vanish, `..` climbs (never
      above the file-system root), any other name descends. */
  function NormalizeStep(stack: Path, segment: string): Path {
    if segment == "" || segment == "." then stack
    else if segment == ".." then (if stack == [] then [] else stack[..|stack| - 1])
    else stack + [segment]
  }

  /** The absolute path `path.join` gives for `base` followed by `segments`. */
  function Normalize(base: Path, segments: seq<string>): Path
    decreases |segments|
  {
    if segments == [] then base
    else Normalize(NormalizeStep(base, segments[0]), segments[1..])
  }

  lemma {:induction false} NormalizePlain(base: Path, segments: seq<string>)
    requires PlainPath(base)
    requires forall i :: 0 <= i < |segments| ==> '/' !in segments[i]
    ensures PlainPath(Normalize(base, segments))
    decreases |segments|
  {
    if segments != [] {
      NormalizePlain(NormalizeStep(base, segments[0]), segments[1..]);
    }
  }

  lemma {:induction false} NormalizePlainSegments(base: Path, segments: seq<string>)
    requires PlainPath(segments)
    ensures Normalize(base, segments) == base + segments
    decreases |segments|
  {
    if segments != [] {
      NormalizePlainSegments(base + [segments[0]], segments[1..]);
      assert base + [segments[0]] + segments[1..] == base + segments;
    }
  }

  /** A path whose last segment is a plain name ends with that name. */
  lemma {:induction false} NormalizeKeepsLast(base: Path, segments: seq<string>)
    requires segments != [] && PlainName(segments[|segments| - 1])
    ensures var r := Normalize(base, segments); r != [] && r[|r| - 1] == segments[|segments| - 1]
    decreases |segments|
  {
    if |segments| > 1 {
      NormalizeKeepsLast(NormalizeStep(base, segments[0]), segments[1..]);
    }
  }

  lemma NormalizeSkipsEmpty(base: Path, segments: seq<string>)
    ensures Normalize(base, [""] + segments) == Normalize(base, segments)
  {
    assert ([""] + segments)[1..] == segments;
  }

  lemma {:induction false} NormalizeConcat(base: Path, a: seq<string>, b: seq<string>)
    ensures Normalize(base, a + b) == Normalize(Normalize(base, a), b)
    decreases |a|
  {
    if a != [] {
      NormalizeConcat(NormalizeStep(base, a[0]), a[1..], b);
      assert (a + b)[1..] == a[1..] + b;
    } else {
      assert a + b == b;
    }
  }

  /** Joining a plain name onto a directory inside `blogDir` gives a path inside it. */
  lemma ResolveChild(blogDir: Path, segments: seq<string>, name: string)
    requires PlainName(name)
    requires Resolve(blogDir, segments).Some?
    ensures Resolve(blogDir, segments + [name]) == Some(Resolve(blogDir, segments).value + [name])
  {
    NormalizeConcat(blogDir, segments, [name]);
    var n := Normalize(blogDir, segments);
    assert |n| >= |blogDir| && n[..|blogDir|] == blogDir;
    assert Normalize(n, [name]) == Normalize(n + [name], []);
    assert (n + [name])[..|blogDir|] == n[..|blogDir|];
    assert (n + [name])[|blogDir|..] == n[|blogDir|..] + [name];
  }

  /** The path below `blogDir` that `path.join(blogDir, ...segments)` reaches, or
      `None` when it leaves `blogDir`. */
  function Resolve(blogDir: Path, segments: seq<string>): (r: Option<Path>)
    ensures r.Some? ==> blogDir + r.value == Normalize(blogDir, segments)
  {
    var absolute := Normalize(blogDir, segments);
    if |absolute| >= |blogDir| && absolute[..|blogDir|] == blogDir then
      assert absolute == blogDir + absolute[|blogDir|..];
      Some(absolute[|blogDir|..])
    else None
  }

  /** Segments that step up out of `blog/` to the name `n` beside it resolve to nothing. */
  lemma LeavesBlogDir(cwd: Path, segments: seq<string>, n: string)
    requires |segments| == 2 && segments[0] == ".." && PlainName(n) && n != "blog" && segments[1] == n
    ensures Normalize(cwd + ["blog"], segments) == cwd + [n]
    ensures Resolve(cwd + ["blog"], segments).None?
  {
    var blogDir := cwd + ["blog"];
    assert blogDir[..|blogDir| - 1] == cwd;
    assert NormalizeStep(blogDir, "..") == cwd;
    assert NormalizeStep(cwd, n) == cwd + [n];
    assert segments[1..] == [n] && [n][1..] == [];
    calc {
      Normalize(blogDir, segments);
      Normalize(cwd, [n]);
      Normalize(cwd + [n], []);
    }
    var absolute := cwd + [n];
    assert absolute[|cwd|] != blogDir[|cwd|];
  }

  /** Going into a folder and back out again is no step at all. */
  lemma NormalizeInAndOut(base: Path, n: string, rest: seq<string>)
    requires PlainName(n)
    ensures Normalize(base, [n, ".."] + rest) == Normalize(base, rest)
  {
    assert ([n, ".."] + rest)[1..] == [".."] + rest;
    assert ([".."] + rest)[1..] == rest;
    assert (base + [n])[..|base|] == base;
  }

  /** Segments of plain names resolve to themselves. */
  lemma ResolvePlain(blogDir: Path, segments: seq<string>)
    requires PlainPath(segments)
    ensures Resolve(blogDir, segments) == Some(segments)
  {
    NormalizePlainSegments(blogDir, segments);
    assert (blogDir + segments)[..|blogDir|] == blogDir;
  }

  /** What `path.join` reaches is made of plain names below a plain base. */
  lemma ResolvedIsPlain(blogDir: Path, segments: seq<string>)
    requires PlainPath(blogDir)
    requires forall i :: 0 <= i < |segments| ==> '/' !in segments[i]
    requires Resolve(blogDir, segments).Some?
    ensures PlainPath(Resolve(blogDir, segments).value)
  {
    NormalizePlain(blogDir, segments);
  }

  /** A file name that ends in ".md" cannot resolve to `blogDir` itself. */
  lemma ResolvedFileNotEmpty(blogDir: Path, segments: seq<string>)
    requires blogDir != [] && !EndsWith(blogDir[|blogDir| - 1], ".md")
    requires segments != [] && PlainName(segments[|segments| - 1]) && EndsWith(segments[|segments| - 1], ".md")
    requires Resolve(blogDir, segments).Some?
    ensures Resolve(blogDir, segments).value != []
  {
    NormalizeKeepsLast(blogDir, segments);
  }
}
