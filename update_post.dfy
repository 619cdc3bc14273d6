/**
  * The update route (`src/pages/api/update-post.ts`): a POST naming an existing post by
  * its URL-encoded category and slug rewrites that one file, merging the supplied title,
  * tags and pinned flag over the post's front matter and replacing its body.
  */
module UpdatePost {
  import opened Wrappers
  import opened Text
  import opened JsValues
  import opened FileTree
  import opened Platform
  import opened Api
  import Posts

  // ---------------------------------------------------------------------------
  // The front-matter merge

  /** `{ ...existingData, title: title || existingData.title || 'Untitled',
      tags: tags !== undefined ? tags : existingData.tags,
      pinned: pinned !== undefined ? (pinned === true || pinned === 'true')
                                   : (existingData.pinned || false) }`. */
  function MergeFrontMatter(existing: Data, title: Value, tags: Value, pinned: Value): Data {
    existing
      ["title" := Or(Or(title, Get(existing, "title")), Str("Untitled"))]
      ["tags" := if tags != Undefined then tags else Get(existing, "tags")]
      ["pinned" := if pinned != Undefined then Bool(IsPinnedValue(pinned)) else Or(Get(existing, "pinned"), Bool(false))]
  }

  /** Every key other than title, tags and pinned keeps its value, and no other key is
      added; title, tags and pinned are always set. */
  lemma MergeKeepsOtherKeys(existing: Data, title: Value, tags: Value, pinned: Value)
    ensures var merged := MergeFrontMatter(existing, title, tags, pinned);
      && merged.Keys == existing.Keys + {"title", "tags", "pinned"}
      && forall k :: k in existing && k != "title" && k != "tags" && k != "pinned" ==> merged[k] == existing[k]
  {
  }

  /** The merged title is never empty: the supplied one when it is truthy, else the
      existing one when it is truthy, else "Untitled". */
  lemma MergeTitle(existing: Data, title: Value, tags: Value, pinned: Value)
    ensures var t := MergeFrontMatter(existing, title, tags, pinned)["title"];
      && Truthy(t)
      && (Truthy(title) ==> t == title)
      && (!Truthy(title) && Truthy(Get(existing, "title")) ==> t == existing["title"])
      && (!Truthy(title) && !Truthy(Get(existing, "title")) ==> t == Str("Untitled"))
  {
  }

  /** Tags are replaced exactly when they are supplied; otherwise the existing value, or
      `undefined` when there is none, stays. */
  lemma MergeTags(existing: Data, title: Value, tags: Value, pinned: Value)
    ensures var t := MergeFrontMatter(existing, title, tags, pinned)["tags"];
      && (tags != Undefined ==> t == tags)
      && (tags == Undefined ==> t == Get(existing, "tags"))
  {
  }

  /** A supplied pinned value becomes the boolean "it is `true` or `"true"`"; without one,
      the existing value is kept as it is when truthy, not normalised, and is `false`
      otherwise. */
  lemma MergePinned(existing: Data, title: Value, tags: Value, pinned: Value)
    ensures var p := MergeFrontMatter(existing, title, tags, pinned)["pinned"];
      && (pinned != Undefined ==> p == Bool(IsPinnedValue(pinned)))
      && (pinned == Undefined && Truthy(Get(existing, "pinned")) ==> p == existing["pinned"])
      && (pinned == Undefined && !Truthy(Get(existing, "pinned")) ==> p == Bool(false))
  {
  }

  /** An existing `pinned: "yes"` survives an update that does not mention pinned, even
      though the listing does not count it as pinned. */
  lemma MergeKeepsUnnormalisedPinned(existing: Data, title: Value, tags: Value)
    requires Get(existing, "pinned") == Str("yes")
    ensures MergeFrontMatter(existing, title, tags, Undefined)["pinned"] == Str("yes")
    ensures !IsPinnedValue(MergeFrontMatter(existing, title, tags, Undefined)["pinned"])
  {
  }

  /** Merging the same fields a second time changes nothing more. */
  lemma MergeIdempotent(existing: Data, title: Value, tags: Value, pinned: Value)
    ensures var once := MergeFrontMatter(existing, title, tags, pinned);
      MergeFrontMatter(once, title, tags, pinned) == once
  {
    var once := MergeFrontMatter(existing, title, tags, pinned);
    var twice := MergeFrontMatter(once, title, tags, pinned);
    assert twice.Keys == once.Keys;
    forall k | k in once
      ensures twice[k] == once[k]
    {
    }
  }

  // ---------------------------------------------------------------------------
  // The route

  /** The update route: 405 for a method other than POST; 400 without a category, a slug
      or content; 500 when decoding throws; 404 when nothing is at the path; 500 when the
      path is a folder or the merged front matter cannot be written as YAML; otherwise
      the file is rewritten from the merged front matter and the new content. */
  function Update(env: Env, root: Root, req: Request): Outcome {
    if req.httpMethod != "POST" then Outcome(MethodNotAllowed, root)
    else
      var category := Get(req.body, "category");
      var slug := Get(req.body, "slug");
      var content := Get(req.body, "content");
      if !Truthy(category) || !Truthy(slug) || !Truthy(content) then Outcome(BadRequest, root)
      else match (env.decodeUri(JsString(category)), env.decodeUri(JsString(slug)))
        case (Some(decodedCategory), Some(decodedSlug)) =>
          (match PostPath(env, decodedCategory, decodedSlug)
           case None => Outcome(OutsideContentRoot, root)
           case Some(p) =>
             if !Exists(root, p) then Outcome(NotFound, root)
             else match FileIn(root, p)
               case None => Outcome(InternalError, root)
               case Some(text) =>
                 match UpdatedText(env, req, text)
                 case None => Outcome(InternalError, root)
                 case Some(newText) =>
                   match Write(root, p, newText)
                   case None => Outcome(InternalError, root)
                   case Some(written) => Outcome(Ok, written))
        case _ => Outcome(InternalError, root)
  }

  /** `matter.stringify(content, newData)` for the file's current text, `None` where it
      throws. */
  function UpdatedText(env: Env, req: Request, text: string): Option<string> {
    var existing := env.parseMatter(text).data;
    env.stringifyMatter(Get(req.body, "content"),
      MergeFrontMatter(existing, Get(req.body, "title"), Get(req.body, "tags"), Get(req.body, "pinned")))
  }

  /** The route as it runs, step by step, on the content directory. */
  method HandleUpdate(disk: Disk, env: Env, req: Request) returns (status: Status)
    modifies disk
    ensures Outcome(status, disk.root) == Update(env, old(disk.root), req)
  {
    if req.httpMethod != "POST" {
      return MethodNotAllowed;
    }
    var category := Get(req.body, "category");
    var slug := Get(req.body, "slug");
    var content := Get(req.body, "content");
    if !Truthy(category) || !Truthy(slug) || !Truthy(content) {
      return BadRequest;
    }
    var decodedCategory := env.decodeUri(JsString(category));
    var decodedSlug := env.decodeUri(JsString(slug));
    if decodedCategory.None? || decodedSlug.None? {
      return InternalError;
    }
    var filePath := PostPath(env, decodedCategory.value, decodedSlug.value);
    if filePath.None? {
      return OutsideContentRoot;
    }
    if !Exists(disk.root, filePath.value) {
      return NotFound;
    }
    var fileContents := FileIn(disk.root, filePath.value);
    if fileContents.None? {
      return InternalError;
    }
    var newText := UpdatedText(env, req, fileContents.value);
    if newText.None? {
      return InternalError;
    }
    var written := Write(disk.root, filePath.value, newText.value);
    if written.None? {
      return InternalError;
    }
    disk.root := written.value;
    return Ok;
  }

  /** A request that is not a POST, or lacks a category, a slug or content, changes
      nothing. */
  lemma UpdateRejects(env: Env, root: Root, req: Request)
    ensures req.httpMethod != "POST" ==> Update(env, root, req) == Outcome(MethodNotAllowed, root)
    ensures req.httpMethod == "POST" &&
      (!Truthy(Get(req.body, "category")) || !Truthy(Get(req.body, "slug")) || !Truthy(Get(req.body, "content")))
      ==> Update(env, root, req) == Outcome(BadRequest, root)
  {
  }

  /** The route does not check that the path stays inside `blog/`. A plain category
      `c`, the slug "../../n" for a plain `n`, and some content pass every check it makes;
      with decoding that changes neither name, `path.join` then addresses `n.md` in the
      working directory, beside `blog/`. The model does not follow the path there and
      answers `OutsideContentRoot`, a status the route itself never gives. */
  lemma UpdateLeavesContentRoot(env: Env, root: Root, req: Request, c: string, n: string)
    requires req.httpMethod == "POST" && PlainName(c) && PlainName(n)
    requires Get(req.body, "category") == Str(c) && Get(req.body, "slug") == Str("../../" + n)
    requires Truthy(Get(req.body, "content"))
    requires env.decodeUri(c) == Some(c) && env.decodeUri("../../" + n) == Some("../../" + n)
    ensures Normalize(env.BlogDir(), Split(c, '/') + Split("../../" + n + ".md", '/')) == env.cwd + [n + ".md"]
    ensures Update(env, root, req) == Outcome(OutsideContentRoot, root)
  {
    PostPathUpTwo(env, c, n);
  }

  /** The file the route addresses: the decoded category's folders and the decoded slug
      with ".md", below `blog/`. */
  function UpdateTarget(env: Env, req: Request): Option<Path> {
    match (env.decodeUri(JsString(Get(req.body, "category"))), env.decodeUri(JsString(Get(req.body, "slug"))))
    case (Some(c), Some(s)) => PostPath(env, c, s)
    case _ => None
  }

  /** 404 exactly when a well-formed request addresses a path where nothing exists. */
  lemma UpdateNotFound(env: Env, root: Root, req: Request)
    ensures Update(env, root, req).status == NotFound <==>
      && req.httpMethod == "POST"
      && Truthy(Get(req.body, "category")) && Truthy(Get(req.body, "slug")) && Truthy(Get(req.body, "content"))
      && UpdateTarget(env, req).Some?
      && !Exists(root, UpdateTarget(env, req).value)
  {
  }

  /** Only a successful update changes anything; it rewrites the one file at the addressed
      path, which existed, with the merged front matter and the new content, and leaves
      every other file and every folder as it was. */
  lemma UpdateEffect(env: Env, root: Root, req: Request, q: Path)
    ensures var out := Update(env, root, req);
      out.status != Ok ==> out.root == root
    ensures var out := Update(env, root, req);
      out.status == Ok ==>
        && UpdateTarget(env, req).Some?
        && var p := UpdateTarget(env, req).value;
           && FileIn(root, p).Some?
           && UpdatedText(env, req, FileIn(root, p).value).Some?
           && FileIn(out.root, q) == (if q == p then UpdatedText(env, req, FileIn(root, p).value) else FileIn(root, q))
           && (IsDirAt(root.value, q) <==> IsDirAt(out.root.value, q))
  {
    var out := Update(env, root, req);
    if out.status == Ok {
      var p := UpdateTarget(env, req).value;
      WriteEffect(root, p, UpdatedText(env, req, FileIn(root, p).value).value, q);
    }
  }

  /** When the merged front matter cannot be written as YAML the route answers 500 and no
      file is written: an existing post addressed by a well-formed request. */
  lemma UpdateStringifyFails(env: Env, root: Root, req: Request)
    requires req.httpMethod == "POST"
    requires Truthy(Get(req.body, "category")) && Truthy(Get(req.body, "slug")) && Truthy(Get(req.body, "content"))
    requires UpdateTarget(env, req).Some?
    requires FileIn(root, UpdateTarget(env, req).value).Some?
    requires UpdatedText(env, req, FileIn(root, UpdateTarget(env, req).value).value).None?
    ensures Update(env, root, req) == Outcome(InternalError, root)
  {
  }

  /** The route keeps names distinct and plain in every folder of `blog/`. */
  lemma UpdateKeepsValid(env: Env, root: Root, req: Request)
    requires ValidRoot(root)
    ensures ValidRoot(Update(env, root, req).root)
  {
    var out := Update(env, root, req);
    if out.status == Ok {
      var p := UpdateTarget(env, req).value;
      assert FileIn(root, p).Some?;
      LookupPlain(root.value, p);
      WriteFileWellFormed(root.value, p, UpdatedText(env, req, FileIn(root, p).value).value);
    }
  }

  /** After a successful update, reading the post by the same category and slug finds the
      text the route wrote. */
  lemma UpdateThenRead(env: Env, root: Root, req: Request)
    requires Get(req.body, "category").Str? && Get(req.body, "slug").Str?
    requires Update(env, root, req).status == Ok
    ensures var post := Posts.GetPostData(env, Update(env, root, req).root,
        Get(req.body, "category").s, Get(req.body, "slug").s);
      var p := UpdateTarget(env, req).value;
      && post.Success?
      && post.value.content == env.parseMatter(UpdatedText(env, req, FileIn(root, p).value).value).content
  {
    var p := UpdateTarget(env, req).value;
    UpdateEffect(env, root, req, p);
  }
}
