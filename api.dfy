/**
  * What the three post-editing API routes share: the request they receive, the outcome
  * they answer with, and the content directory they change in place.
  */
module Api {
  import opened Wrappers
  import opened JsValues
  import opened Text
  import opened FileTree
  import opened Platform

  /** An HTTP request: its method and its JSON body. */
  datatype Request = Request(httpMethod: string, body: Data)

  /** The answer of a route: 200, 405, 400, 404 or 500, or the case the model does not
      follow, where the path leaves `blog/`. */
  datatype Status = Ok | MethodNotAllowed | BadRequest | NotFound | InternalError | OutsideContentRoot

  /** The status a route answers with and the content directory afterwards. */
  datatype Outcome = Outcome(status: Status, root: Root)

  /** The content directory `blog/`, which the routes change in place. */
  class Disk {
    var root: Root

    constructor (root: Root)
      ensures this.root == root
    {
      this.root := root;
    }
  }

  /** Distinct, plain names in every directory. */
  ghost predicate ValidRoot(root: Root) {
    root.Some? ==> WellFormed(root.value)
  }

  /** `if (!fs.existsSync(d)) fs.mkdirSync(d, { recursive: true })`; `None` where mkdir
      throws. Creating a folder below a missing `blog/` creates `blog/` too. */
  function MakeDirs(root: Root, d: Path): Option<Root> {
    if Exists(root, d) then Some(root)
    else match EnsureDir(root.GetOr([]), d)
      case None => None
      case Some(entries) => Some(Some(entries))
  }

  /** `fs.writeFileSync(p, text)`; `None` where it throws. */
  function Write(root: Root, p: Path, text: string): Option<Root> {
    if root.None? || p == [] then None
    else match WriteFile(root.value, p, text)
      case None => None
      case Some(entries) => Some(Some(entries))
  }

  /** `fs.unlinkSync(p)`; `None` where it throws. */
  function Unlink(root: Root, p: Path): Option<Root> {
    if root.None? || p == [] then None
    else match RemoveFile(root.value, p)
      case None => None
      case Some(entries) => Some(Some(entries))
  }

  /** `path.join(blogDir, category.split('/').join(path.sep), `${slug}.md`)`, below `blog/`:
      the file the update and delete routes address. */
  function PostPath(env: Env, category: string, slug: string): Option<Path> {
    Resolve(env.BlogDir(), Split(category, '/') + Split(slug + ".md", '/'))
  }

  /** A slug's file name is a plain name other than "blog". */
  lemma MdNamePlain(n: string)
    requires PlainName(n)
    ensures PlainName(n + ".md") && n + ".md" != "blog"
    ensures Split(n + ".md", '/') == [n + ".md"]
  {
    var m := n + ".md";
    assert m[|m| - 1] == 'd' && m[|m| - 3] == '.';
    assert '/' !in m by {
      assert forall i :: 0 <= i < |m| ==> m[i] == (if i < |n| then n[i] else ".md"[i - |n|]);
    }
    SplitNoSeparator(m, '/');
  }

  /** The category ".." with a plain slug `n` addresses `n.md` beside `blog/`. */
  lemma PostPathUpOne(env: Env, n: string)
    requires PlainName(n)
    ensures Normalize(env.BlogDir(), Split("..", '/') + Split(n + ".md", '/')) == env.cwd + [n + ".md"]
    ensures PostPath(env, "..", n).None?
  {
    SplitNoSeparator("..", '/');
    MdNamePlain(n);
    LeavesBlogDir(env.cwd, [".."] + [n + ".md"], n + ".md");
  }

  /** A plain category `c` with the slug "../../n" addresses `n.md` beside `blog/`. */
  lemma PostPathUpTwo(env: Env, c: string, n: string)
    requires PlainName(c) && PlainName(n)
    ensures Normalize(env.BlogDir(), Split(c, '/') + Split("../../" + n + ".md", '/')) == env.cwd + [n + ".md"]
    ensures PostPath(env, c, "../../" + n).None?
  {
    var m := n + ".md";
    UpTwoSegments(c, n);
    MdNamePlain(n);
    NormalizeInAndOut(env.BlogDir(), c, [".."] + [m]);
    LeavesBlogDir(env.cwd, [".."] + [m], m);
  }

  lemma UpTwoSegments(c: string, n: string)
    requires PlainName(c) && PlainName(n)
    ensures Split(c, '/') + Split("../../" + n + ".md", '/') == [c, ".."] + ([".."] + [n + ".md"])
  {
    var m := n + ".md";
    AppendAssoc("../../", n, ".md");
    assert "../../" == "../" + "../";
    AppendAssoc("../", "../", m);
    SplitUp("../" + m);
    SplitUp(m);
    MdNamePlain(n);
    SplitNoSeparator(c, '/');
    assert [c] + ([".."] + ([".."] + [m])) == [c, ".."] + ([".."] + [m]);
  }

  /** The guarded `mkdir -p` keeps every file; it changes nothing when `d` exists, and
      otherwise leaves `d` a directory. */
  lemma MakeDirsEffect(root: Root, d: Path, q: Path)
    requires MakeDirs(root, d).Some?
    ensures var after := MakeDirs(root, d).value;
      && after.Some?
      && FileIn(after, q) == FileIn(root, q)
      && (Exists(root, d) ==> after == root)
      && (!Exists(root, d) ==> IsDirAt(after.value, d))
  {
    if !Exists(root, d) {
      EnsureDirEffect(root.GetOr([]), d, q);
      if root.None? {
        assert FileAt([], q) == None;
      }
    }
  }

  /** The guarded `mkdir -p` succeeds when no file stands at `d` or on the way to it, and
      `d` is a directory afterwards. */
  lemma MakeDirsSucceeds(root: Root, d: Path)
    requires forall k :: 1 <= k <= |d| ==> FileIn(root, d[..k]).None?
    ensures MakeDirs(root, d).Some?
    ensures var after := MakeDirs(root, d).value; after.Some? && IsDirAt(after.value, d)
  {
    if Exists(root, d) {
      if d != [] {
        assert d[..|d|] == d;
      }
    } else {
      var entries := root.GetOr([]);
      EnsureDirFails(entries, d);
      if root.None? {
        forall k | 1 <= k <= |d|
          ensures FileAt([], d[..k]).None?
        {
        }
      }
      assert EnsureDir(entries, d).Some?;
      MakeDirsEffect(root, d, d);
    }
  }

  /** The guarded `mkdir -p` makes no directory other than `d` and its ancestors. */
  lemma MakeDirsOnlyAncestors(root: Root, d: Path, q: Path)
    requires MakeDirs(root, d).Some?
    requires var after := MakeDirs(root, d).value; after.Some? && IsDirAt(after.value, q)
    ensures (root.Some? && IsDirAt(root.value, q)) || (|q| <= |d| && q == d[..|q|])
  {
    if !Exists(root, d) {
      EnsureDirOnlyAncestors(root.GetOr([]), d, q);
    }
  }

  /** Writing changes the file at `p` and no other. */
  lemma WriteEffect(root: Root, p: Path, text: string, q: Path)
    requires Write(root, p, text).Some?
    ensures var after := Write(root, p, text).value;
      && after.Some?
      && FileIn(after, q) == (if q == p then Some(text) else FileIn(root, q))
      && (IsDirAt(root.value, q) <==> IsDirAt(after.value, q))
  {
    WriteFileEffect(root.value, p, text, q);
  }

  /** Unlinking removes the file at `p` and no other, and leaves nothing at `p`. */
  lemma UnlinkEffect(root: Root, p: Path, q: Path)
    requires ValidRoot(root)
    requires Unlink(root, p).Some?
    ensures var after := Unlink(root, p).value;
      && after.Some?
      && FileIn(after, q) == (if q == p then None else FileIn(root, q))
      && !Exists(after, p)
  {
    RemoveFileEffect(root.value, p, q);
  }
}
