/**
  * The delete route (`src/pages/api/delete-post.ts`): a POST naming a post by its
  * category and slug removes that one file. Unlike the update route it does not
  * URL-decode the names.
  */
module DeletePost {
  import opened Wrappers
  import opened Text
  import opened JsValues
  import opened FileTree
  import opened Platform
  import opened Api
  import Posts
  import CreatePost

  /** The delete route: 405 for a method other than POST; 400 without a category or a
      slug; 500 for a category that is not a string (it has no `split`); 404 when nothing
      is at the path; 500 when the path is a folder; otherwise the file is removed. */
  function Delete(env: Env, root: Root, req: Request): Outcome {
    if req.httpMethod != "POST" then Outcome(MethodNotAllowed, root)
    else
      var category := Get(req.body, "category");
      var slug := Get(req.body, "slug");
      if !Truthy(category) || !Truthy(slug) then Outcome(BadRequest, root)
      else if !category.Str? then Outcome(InternalError, root)
      else match PostPath(env, category.s, JsString(slug))
        case None => Outcome(OutsideContentRoot, root)
        case Some(p) =>
          if !Exists(root, p) then Outcome(NotFound, root)
          else match Unlink(root, p)
            case None => Outcome(InternalError, root)
            case Some(removed) => Outcome(Ok, removed)
  }

  /** The route as it runs, step by step, on the content directory. */
  method HandleDelete(disk: Disk, env: Env, req: Request) returns (status: Status)
    modifies disk
    ensures Outcome(status, disk.root) == Delete(env, old(disk.root), req)
  {
    if req.httpMethod != "POST" {
      return MethodNotAllowed;
    }
    var category := Get(req.body, "category");
    var slug := Get(req.body, "slug");
    if !Truthy(category) || !Truthy(slug) {
      return BadRequest;
    }
    if !category.Str? {
      return InternalError;
    }
    var filePath := PostPath(env, category.s, JsString(slug));
    if filePath.None? {
      return OutsideContentRoot;
    }
    if !Exists(disk.root, filePath.value) {
      return NotFound;
    }
    var removed := Unlink(disk.root, filePath.value);
    if removed.None? {
      return InternalError;
    }
    disk.root := removed.value;
    return Ok;
  }

  /** The file the route addresses: the raw category's folders and the raw slug with
      ".md", below `blog/`. */
  function DeleteTarget(env: Env, req: Request): Option<Path> {
    var category := Get(req.body, "category");
    if category.Str? then PostPath(env, category.s, JsString(Get(req.body, "slug"))) else None
  }

  /** A request that is not a POST, or lacks a category or a slug, changes nothing. */
  lemma DeleteRejects(env: Env, root: Root, req: Request)
    ensures req.httpMethod != "POST" ==> Delete(env, root, req) == Outcome(MethodNotAllowed, root)
    ensures req.httpMethod == "POST" && (!Truthy(Get(req.body, "category")) || !Truthy(Get(req.body, "slug")))
      ==> Delete(env, root, req) == Outcome(BadRequest, root)
  {
  }

  /** Both the create and the delete route turn away the root category "". */
  lemma RootCategoryRejected(env: Env, root: Root, req: Request)
    requires req.httpMethod == "POST" && Get(req.body, "category") == Str("")
    ensures Delete(env, root, req) == Outcome(BadRequest, root)
    ensures CreatePost.Create(env, root, req) == Outcome(BadRequest, root)
  {
  }

  /** The route does not check that the path stays inside `blog/`. The category ".."
      and a plain slug `n` pass every check it makes, and `path.join` then addresses
      `n.md` in the working directory, beside `blog/`. The model does not follow the path
      there and answers `OutsideContentRoot`, a status the route itself never gives. */
  lemma DeleteLeavesContentRoot(env: Env, root: Root, req: Request, n: string)
    requires req.httpMethod == "POST" && PlainName(n)
    requires Get(req.body, "category") == Str("..") && Get(req.body, "slug") == Str(n)
    ensures Normalize(env.BlogDir(), Split("..", '/') + Split(n + ".md", '/')) == env.cwd + [n + ".md"]
    ensures Delete(env, root, req) == Outcome(OutsideContentRoot, root)
  {
    PostPathUpOne(env, n);
  }

  /** A post stored directly in `blog/` is listed with the category "", so the delete
      request built from its listing entry is turned away. */
  lemma RootPostsCannotBeDeleted(env: Env, root: Root, p: Path)
    requires ValidRoot(root)
    requires p in ListMdFiles(root) && |p| == 1
    ensures var id := Posts.ListedId(p);
      var req := Request("POST", map["category" := Str(id.category), "slug" := Str(id.slug)]);
      && id.category == ""
      && Delete(env, root, req) == Outcome(BadRequest, root)
  {
    ListMdFilesExact(root, p);
    assert Lookup(root.value, p).Some?;
    LookupPlain(root.value, p);
    Posts.DecodeListedPath(p);
  }

  /** The route never decodes: it addresses the same file whatever `decodeURIComponent`
      would give. */
  lemma DeleteIgnoresDecoding(env: Env, root: Root, req: Request, decode: string -> Option<string>)
    ensures Delete(env.(decodeUri := decode), root, req) == Delete(env, root, req)
  {
    assert env.(decodeUri := decode).BlogDir() == env.BlogDir();
  }

  /** 404 exactly when a well-formed request addresses a path where nothing exists. */
  lemma DeleteNotFound(env: Env, root: Root, req: Request)
    ensures Delete(env, root, req).status == NotFound <==>
      && req.httpMethod == "POST"
      && Truthy(Get(req.body, "category")) && Truthy(Get(req.body, "slug"))
      && DeleteTarget(env, req).Some?
      && !Exists(root, DeleteTarget(env, req).value)
  {
  }

  /** Only a successful delete changes anything; it removes exactly the file at the
      addressed path, which then no longer exists, and every other file is as it was. */
  lemma DeleteEffect(env: Env, root: Root, req: Request, q: Path)
    requires ValidRoot(root)
    ensures var out := Delete(env, root, req);
      out.status != Ok ==> out.root == root
    ensures var out := Delete(env, root, req);
      out.status == Ok ==>
        && DeleteTarget(env, req).Some?
        && var p := DeleteTarget(env, req).value;
           && FileIn(root, p).Some?
           && !Exists(out.root, p)
           && FileIn(out.root, q) == (if q == p then None else FileIn(root, q))
  {
    var out := Delete(env, root, req);
    if out.status == Ok {
      var p := DeleteTarget(env, req).value;
      UnlinkEffect(root, p, q);
      UnlinkRemovesFile(root, p);
    }
  }

  /** What `unlinkSync` removes was a file. */
  lemma UnlinkRemovesFile(root: Root, p: Path)
    requires Unlink(root, p).Some?
    ensures FileIn(root, p).Some?
  {
    RemoveFileFindsFile(root.value, p);
  }

  /** The route keeps names distinct and plain in every folder of `blog/`. */
  lemma DeleteKeepsValid(env: Env, root: Root, req: Request)
    requires ValidRoot(root)
    ensures ValidRoot(Delete(env, root, req).root)
  {
    var out := Delete(env, root, req);
    if out.status == Ok {
      RemoveFileWellFormed(root.value, DeleteTarget(env, req).value);
    }
  }

  /** Repeating a successful delete finds nothing and answers 404. */
  lemma DeleteTwice(env: Env, root: Root, req: Request)
    requires ValidRoot(root)
    requires Delete(env, root, req).status == Ok
    ensures Delete(env, Delete(env, root, req).root, req) == Outcome(NotFound, Delete(env, root, req).root)
  {
    DeleteEffect(env, root, req, []);
  }
}
