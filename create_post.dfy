/**
  * The create route (`src/pages/api/create-post.ts`): a POST with a title and a category
  * becomes a new Markdown file `<today>-<safe title>.md` in the category's folder, whose
  * front matter is written from a fixed text template.
  */
module CreatePost {
  import opened Wrappers
  import opened Text
  import opened Sequences
  import opened JsValues
  import opened FileTree
  import opened Platform
  import opened Api
  import opened TitleSlug
  import Posts

  // ---------------------------------------------------------------------------
  // Tags

  /** `Array.isArray(tags) ? tags : (tags ? tags.split(',').map(t => t.trim()) : [])`:
      a list is kept, a non-empty string is cut at every ',' and each piece trimmed,
      a falsy value gives no tags, and any other value has no `split` and throws. */
  function TagList(tags: Value): Result<seq<string>, TypeError> {
    match tags
    case List(items) => Success(items)
    case Str(s) => if s == "" then Success([]) else Success(Map(Split(s, ','), Trim))
    case _ => if Truthy(tags) then Failure(TypeError) else Success([])
  }

  /** The tag list fails exactly for a truthy value that is neither a list nor a string. */
  lemma TagListFails(tags: Value)
    ensures TagList(tags).Failure? <==> Truthy(tags) && !tags.List? && !tags.Str?
    ensures !Truthy(tags) ==> TagList(tags) == Success([])
  {
  }

  /** A non-empty string gives one tag per comma-separated piece, empty pieces included;
      each tag is that piece trimmed, so it holds no ',' and has no whitespace at its ends. */
  lemma TagListOfString(s: string)
    requires s != ""
    ensures TagList(Str(s)).Success?
    ensures var tags := TagList(Str(s)).value;
      && |tags| == |Split(s, ',')|
      && forall i :: 0 <= i < |tags| ==>
           tags[i] == Trim(Split(s, ',')[i]) && ',' !in tags[i] && Trim(tags[i]) == tags[i]
  {
    var pieces := Split(s, ',');
    var tags := TagList(Str(s)).value;
    forall i | 0 <= i < |tags|
      ensures ',' !in tags[i] && Trim(tags[i]) == tags[i]
    {
      TrimEnds(pieces[i]);
      TrimIdempotent(pieces[i]);
    }
  }

  /** Writing trimmed, comma-free tags as one comma-separated string gives them back. */
  lemma TagListRoundTrip(tags: seq<string>)
    requires Join(tags, ",") != ""
    requires forall i :: 0 <= i < |tags| ==> ',' !in tags[i] && Trim(tags[i]) == tags[i]
    ensures TagList(Str(Join(tags, ","))) == Success(tags)
  {
    var s := Join(tags, [',']);
    SplitJoin(tags, ',');
    var m := Map(Split(s, ','), Trim);
    assert m == tags;
  }

  // ---------------------------------------------------------------------------
  // The file name

  /** `${dateStr}-${safeTitle}.md`. */
  function FileName(today: string, title: string): string {
    today + "-" + SafeTitle(title) + ".md"
  }

  /** On a day string, the created file name is a plain name ending in ".md"; the listing
      reads its slug as the day, a dash and the safe title, recovers the day from it, and
      gives it the safe title with dashes turned into spaces as fallback title. */
  lemma CreatedFileName(today: string, title: string)
    requires Posts.IsDay(today)
    ensures var name := FileName(today, title);
      && PlainName(name)
      && EndsWith(name, ".md")
      && StripSuffix(name, ".md") == today + "-" + SafeTitle(title)
      && Posts.DatePrefix(StripSuffix(name, ".md")) == Some(today)
      && Posts.ListingFallbackTitle(name) == ReplaceChar(SafeTitle(title), '-', ' ')
  {
    var safe := SafeTitle(title);
    FileNamePlain(today, title);
    StripAppendedSuffix(today + "-" + safe, ".md");
    Posts.DatePrefixOf(today, safe);
    FileNameFallbackTitle(today, safe);
  }

  /** Neither the day nor the safe title brings a '/' into the file name. */
  lemma FileNamePlain(today: string, title: string)
    requires Posts.IsDay(today)
    ensures PlainName(FileName(today, title))
  {
    var safe := SafeTitle(title);
    SafeTitleChars(title);
    var name := FileName(today, title);
    assert forall c :: c in name ==> c in today || c in safe || c in "-.md";
  }

  /** The listing's fallback title of a created file is its safe title with spaces. */
  lemma FileNameFallbackTitle(today: string, safe: string)
    requires Posts.IsDay(today)
    ensures Posts.ListingFallbackTitle(today + "-" + safe + ".md") == ReplaceChar(safe, '-', ' ')
  {
    assert today + "-" + safe + ".md" == today + "-" + (safe + ".md");
    Posts.DatePrefixOf(today, safe + ".md");
    assert Posts.StripDatePrefix(today + "-" + safe + ".md") == safe + ".md";
    StripAppendedSuffix(safe, ".md");
  }

  // ---------------------------------------------------------------------------
  // The front matter

  /** The text of the created file, the template's lines joined by line breaks: the
      front-matter block, an empty line, the content and a final line break. The title is
      put between quotes as it is, without escaping. */
  function FrontMatterText(title: string, dateStr: string, tagStr: string, pinned: bool, content: string): string {
    Join(["---", "title: \"" + title + "\"", "date: \"" + dateStr + "\"", "tags: " + tagStr,
          "pinned: " + (if pinned then "true" else "false"), "---", "", content, ""], "\n")
  }

  /** The lines of the created text: the opening `---`, the lines of the title line, one
      line each for date, tags and pinned, the closing `---`, an empty line, the lines of
      the content, and the empty rest after the final line break. */
  lemma FrontMatterLines(title: string, dateStr: string, tagStr: string, pinned: bool, content: string)
    requires '\n' !in dateStr && '\n' !in tagStr
    ensures Split(FrontMatterText(title, dateStr, tagStr, pinned, content), '\n') ==
      ["---"] + (Split("title: \"" + title + "\"", '\n') +
      (["date: \"" + dateStr + "\"", "tags: " + tagStr, "pinned: " + (if pinned then "true" else "false"), "---", ""] +
      (Split(content, '\n') + [""])))
  {
    var middle := ["date: \"" + dateStr + "\"", "tags: " + tagStr,
                   "pinned: " + (if pinned then "true" else "false"), "---", ""];
    assert forall i :: 0 <= i < |middle| ==> '\n' !in middle[i];
    assert ["---", "title: \"" + title + "\""] + middle + [content, ""] ==
      ["---", "title: \"" + title + "\"", "date: \"" + dateStr + "\"", "tags: " + tagStr,
       "pinned: " + (if pinned then "true" else "false"), "---", "", content, ""];
    SplitLines("---", "title: \"" + title + "\"", middle, content);
  }

  /** The lines of a joined block: pieces without a line break stay whole. */
  lemma SplitLines(first: string, second: string, middle: seq<string>, content: string)
    requires '\n' !in first && middle != []
    requires forall i :: 0 <= i < |middle| ==> '\n' !in middle[i]
    ensures Split(Join([first, second] + middle + [content, ""], "\n"), '\n') ==
      [first] + (Split(second, '\n') + (middle + (Split(content, '\n') + [""])))
  {
    var rest := middle + [content, ""];
    assert [first, second] + middle + [content, ""] == [first] + ([second] + rest);
    SplitLinesTail(middle, content);
    SplitJoinCons(second, rest, '\n');
    SplitJoinCons(first, [second] + rest, '\n');
    SplitNoSeparator(first, '\n');
  }

  lemma SplitLinesTail(middle: seq<string>, content: string)
    requires middle != []
    requires forall i :: 0 <= i < |middle| ==> '\n' !in middle[i]
    ensures Split(Join(middle + [content, ""], "\n"), '\n') == middle + (Split(content, '\n') + [""])
  {
    SplitJoinConcat(middle, [content, ""], '\n');
    SplitJoin(middle, '\n');
    SplitJoinCons(content, [""], '\n');
  }

  /** Without a line break in the title, the date or the tag text, the header is exactly
      seven lines long. */
  lemma FrontMatterHeader(title: string, dateStr: string, tagStr: string, pinned: bool, content: string)
    requires '\n' !in title && '\n' !in dateStr && '\n' !in tagStr
    ensures Split(FrontMatterText(title, dateStr, tagStr, pinned, content), '\n') ==
      ["---"] + (["title: \"" + title + "\""] +
      (["date: \"" + dateStr + "\"", "tags: " + tagStr, "pinned: " + (if pinned then "true" else "false"), "---", ""] +
      (Split(content, '\n') + [""])))
  {
    FrontMatterLines(title, dateStr, tagStr, pinned, content);
    SplitNoSeparator("title: \"" + title + "\"", '\n');
  }

  /** Because the title is not escaped, a line break in it ends the title line early and
      the rest of the title starts header lines of its own. */
  lemma TitleLineBreakSplitsHeader(a: string, b: string)
    requires '\n' !in a
    ensures Split("title: \"" + (a + "\n" + b) + "\"", '\n') == ["title: \"" + a] + Split(b + "\"", '\n')
  {
    assert "title: \"" + (a + "\n" + b) + "\"" == ("title: \"" + a) + ['\n'] + (b + "\"");
    SplitConcat("title: \"" + a, b + "\"", '\n');
    SplitNoSeparator("title: \"" + a, '\n');
  }

  // ---------------------------------------------------------------------------
  // Paths

  /** `path.join(blogDir, category)`, below `blog/`. */
  function TargetDir(env: Env, category: string): Option<Path> {
    Resolve(env.BlogDir(), Split(category, '/'))
  }

  /** `path.join(targetDir, fileName)`, below `blog/`. */
  function TargetFile(env: Env, category: string, fileName: string): Option<Path> {
    Resolve(env.BlogDir(), Split(category, '/') + Split(fileName, '/'))
  }

  /** A plain file name lands directly inside the target folder. */
  lemma TargetFileInTargetDir(env: Env, category: string, fileName: string)
    requires PlainName(fileName)
    requires TargetDir(env, category).Some?
    ensures TargetFile(env, category, fileName) == Some(TargetDir(env, category).value + [fileName])
  {
    SplitNoSeparator(fileName, '/');
    ResolveChild(env.BlogDir(), Split(category, '/'), fileName);
  }

  // ---------------------------------------------------------------------------
  // The route

  /** The create route: 405 for a method other than POST, 400 without a title or a
      category, 500 where a call throws (a title or a category that is not a string has
      no `replace` or `split`); otherwise the file is stored in the category's folder. */
  function Create(env: Env, root: Root, req: Request): Outcome {
    if req.httpMethod != "POST" then Outcome(MethodNotAllowed, root)
    else
      var title := Get(req.body, "title");
      var category := Get(req.body, "category");
      if !Truthy(title) || !Truthy(category) then Outcome(BadRequest, root)
      else if !title.Str? || !category.Str? then Outcome(InternalError, root)
      else
        var fileName := FileName(env.today, title.s);
        var targetDir := TargetDir(env, category.s);
        var filePath := TargetFile(env, category.s, fileName);
        if targetDir.None? || filePath.None? then Outcome(OutsideContentRoot, root)
        else Store(env, root, req, title.s, targetDir.value, filePath.value)
  }

  /** The created text for a title that is a string and a converted tag list. */
  function CreatedText(env: Env, req: Request, title: string, tagList: seq<string>): string {
    FrontMatterText(title, env.today, env.jsonTags(tagList),
      IsPinnedValue(Get(req.body, "pinned")), JsString(Get(req.body, "content")))
  }

  /** The created file's fifth line reads `pinned: true` exactly when the request's
      `pinned` is `true` or `"true"`, and `pinned: false` for any other value. */
  lemma CreatedPinnedLine(env: Env, req: Request, title: string, tagList: seq<string>)
    requires '\n' !in title && '\n' !in env.today && '\n' !in env.jsonTags(tagList)
    ensures var lines := Split(CreatedText(env, req, title, tagList), '\n');
      var pinned := Get(req.body, "pinned");
      && |lines| > 4
      && (lines[4] == "pinned: true" <==> pinned == Bool(true) || pinned == Str("true"))
      && (lines[4] == "pinned: false" <==> !(pinned == Bool(true) || pinned == Str("true")))
  {
    FrontMatterHeader(title, env.today, env.jsonTags(tagList), IsPinnedValue(Get(req.body, "pinned")),
      JsString(Get(req.body, "content")));
  }

  /** The folder `dir` is made when it does not exist, then the tags are converted and the
      file `p` written, replacing one that is already there. A failed tag conversion or
      write leaves the folders that were made. */
  function Store(env: Env, root: Root, req: Request, title: string, dir: Path, p: Path): Outcome {
    match MakeDirs(root, dir)
    case None => Outcome(InternalError, root)
    case Some(made) =>
      match TagList(Get(req.body, "tags"))
      case Failure(_) => Outcome(InternalError, made)
      case Success(tagList) =>
        match Write(made, p, CreatedText(env, req, title, tagList))
        case None => Outcome(InternalError, made)
        case Some(written) => Outcome(Ok, written)
  }

  /** The route as it runs, step by step, on the content directory. */
  method HandleCreate(disk: Disk, env: Env, req: Request) returns (status: Status)
    modifies disk
    ensures Outcome(status, disk.root) == Create(env, old(disk.root), req)
  {
    if req.httpMethod != "POST" {
      return MethodNotAllowed;
    }
    var title := Get(req.body, "title");
    var category := Get(req.body, "category");
    if !Truthy(title) || !Truthy(category) {
      return BadRequest;
    }
    if !title.Str? || !category.Str? {
      return InternalError;
    }
    var fileName := FileName(env.today, title.s);
    var targetDir := TargetDir(env, category.s);
    var filePath := TargetFile(env, category.s, fileName);
    if targetDir.None? || filePath.None? {
      return OutsideContentRoot;
    }
    if !Exists(disk.root, targetDir.value) {
      var made := EnsureDir(disk.root.GetOr([]), targetDir.value);
      if made.None? {
        return InternalError;
      }
      disk.root := Some(made.value);
    }
    var tagList := TagList(Get(req.body, "tags"));
    if tagList.Failure? {
      return InternalError;
    }
    var written := Write(disk.root, filePath.value, CreatedText(env, req, title.s, tagList.value));
    if written.None? {
      return InternalError;
    }
    disk.root := written.value;
    return Ok;
  }

  /** A request that is not a POST, or lacks a title or a category, writes nothing. */
  lemma CreateRejects(env: Env, root: Root, req: Request)
    ensures req.httpMethod != "POST" ==> Create(env, root, req) == Outcome(MethodNotAllowed, root)
    ensures req.httpMethod == "POST" && (!Truthy(Get(req.body, "title")) || !Truthy(Get(req.body, "category")))
      ==> Create(env, root, req) == Outcome(BadRequest, root)
  {
  }

  /** Storing succeeds or fails with a 500; failing changes no file, succeeding changes
      exactly the file at `p`. */
  lemma StoreEffect(env: Env, root: Root, req: Request, title: string, dir: Path, p: Path, q: Path)
    ensures var out := Store(env, root, req, title, dir, p);
      && (out.status == Ok || out.status == InternalError)
      && (out.status != Ok ==> FileIn(out.root, q) == FileIn(root, q))
      && (out.status == Ok ==>
            && TagList(Get(req.body, "tags")).Success?
            && FileIn(out.root, q) ==
                 if q == p then Some(CreatedText(env, req, title, TagList(Get(req.body, "tags")).value))
                 else FileIn(root, q))
  {
    if MakeDirs(root, dir).Some? {
      var made := MakeDirs(root, dir).value;
      MakeDirsEffect(root, dir, q);
      var tags := TagList(Get(req.body, "tags"));
      if tags.Success? {
        var text := CreatedText(env, req, title, tags.value);
        if Write(made, p, text).Some? {
          WriteEffect(made, p, text, q);
        }
      }
    }
  }

  /** What the route does to files: when it fails no file changes (folders it made stay);
      when it succeeds the file at the target path holds the created text, with `pinned`
      true exactly for `true` and `"true"`, and every other file is as it was. */
  lemma CreateEffect(env: Env, root: Root, req: Request, q: Path)
    ensures var out := Create(env, root, req);
      out.status != Ok ==> FileIn(out.root, q) == FileIn(root, q)
    ensures var out := Create(env, root, req);
      var title := Get(req.body, "title");
      var category := Get(req.body, "category");
      out.status == Ok ==>
        && title.Str? && category.Str? && title.s != "" && category.s != ""
        && TargetFile(env, category.s, FileName(env.today, title.s)).Some?
        && TagList(Get(req.body, "tags")).Success?
        && FileIn(out.root, q) ==
             if q == TargetFile(env, category.s, FileName(env.today, title.s)).value
             then Some(CreatedText(env, req, title.s, TagList(Get(req.body, "tags")).value))
             else FileIn(root, q)
  {
    var title := Get(req.body, "title");
    var category := Get(req.body, "category");
    if req.httpMethod == "POST" && Truthy(title) && Truthy(category) && title.Str? && category.Str? {
      var fileName := FileName(env.today, title.s);
      var targetDir := TargetDir(env, category.s);
      var filePath := TargetFile(env, category.s, fileName);
      if targetDir.Some? && filePath.Some? {
        StoreEffect(env, root, req, title.s, targetDir.value, filePath.value, q);
      }
    }
  }

  /** Storing keeps names distinct and plain when the folder and the file have plain
      paths. */
  lemma StoreKeepsValid(env: Env, root: Root, req: Request, title: string, dir: Path, p: Path)
    requires ValidRoot(root) && PlainPath(dir) && PlainPath(p)
    ensures ValidRoot(Store(env, root, req, title, dir, p).root)
  {
    if MakeDirs(root, dir).Some? && !Exists(root, dir) {
      EnsureDirWellFormed(root.GetOr([]), dir);
    }
    if MakeDirs(root, dir).Some? {
      var made := MakeDirs(root, dir).value;
      var tags := TagList(Get(req.body, "tags"));
      if tags.Success? && Write(made, p, CreatedText(env, req, title, tags.value)).Some? {
        WriteFileWellFormed(made.value, p, CreatedText(env, req, title, tags.value));
      }
    }
  }

  /** Every path `path.join` reaches below a plain working directory is plain. */
  lemma TargetsArePlain(env: Env, category: string, fileName: string)
    requires PlainPath(env.cwd)
    ensures TargetDir(env, category).Some? ==> PlainPath(TargetDir(env, category).value)
    ensures TargetFile(env, category, fileName).Some? ==> PlainPath(TargetFile(env, category, fileName).value)
  {
    var segments := Split(category, '/') + Split(fileName, '/');
    assert forall i :: 0 <= i < |segments| ==> '/' !in segments[i] by {
      forall i | 0 <= i < |segments|
        ensures '/' !in segments[i]
      {
        if i >= |Split(category, '/')| {
          assert segments[i] == Split(fileName, '/')[i - |Split(category, '/')|];
        }
      }
    }
    if TargetDir(env, category).Some? {
      ResolvedIsPlain(env.BlogDir(), Split(category, '/'));
    }
    if TargetFile(env, category, fileName).Some? {
      ResolvedIsPlain(env.BlogDir(), segments);
    }
  }

  /** Under a working directory of plain names, the route keeps names distinct and plain
      in every folder of `blog/`. */
  lemma CreateKeepsValid(env: Env, root: Root, req: Request)
    requires ValidRoot(root) && PlainPath(env.cwd)
    ensures ValidRoot(Create(env, root, req).root)
  {
    var title := Get(req.body, "title");
    var category := Get(req.body, "category");
    if req.httpMethod == "POST" && Truthy(title) && Truthy(category) && title.Str? && category.Str? {
      var fileName := FileName(env.today, title.s);
      var targetDir := TargetDir(env, category.s);
      var filePath := TargetFile(env, category.s, fileName);
      if targetDir.Some? && filePath.Some? {
        TargetsArePlain(env, category.s, fileName);
        StoreKeepsValid(env, root, req, title.s, targetDir.value, filePath.value);
      }
    }
  }

  /** A post created in a category of plain folder names is the file `<category>/<day>-<safe
      title>.md`; the listing finds it and decodes it to that category and to the slug
      `<day>-<safe title>`, whose date prefix is the day of creation. */
  lemma CreatedPostIsListed(env: Env, root: Root, req: Request)
    requires Posts.IsDay(env.today)
    requires ValidRoot(root) && PlainPath(env.cwd)
    requires Get(req.body, "title").Str? && Get(req.body, "category").Str?
    requires PlainPath(Split(Get(req.body, "category").s, '/'))
    requires Create(env, root, req).status == Ok
    ensures var title := Get(req.body, "title").s;
      var category := Get(req.body, "category").s;
      var p := Split(category, '/') + [FileName(env.today, title)];
      var slug := env.today + "-" + SafeTitle(title);
      && TargetFile(env, category, FileName(env.today, title)) == Some(p)
      && p in ListMdFiles(Create(env, root, req).root)
      && Posts.ListedId(p) == Posts.PostId(category, slug)
      && Posts.DatePrefix(slug) == Some(env.today)
  {
    var title := Get(req.body, "title").s;
    var category := Get(req.body, "category").s;
    var fileName := FileName(env.today, title);
    CreatedFileListed(env, root, req);
    CreatedFileName(env.today, title);
    Posts.ListedIdOf(Split(category, '/'), fileName);
  }

  /** The created file is where `path.join` puts it, and the listing finds it there. */
  lemma CreatedFileListed(env: Env, root: Root, req: Request)
    requires Posts.IsDay(env.today)
    requires ValidRoot(root) && PlainPath(env.cwd)
    requires Get(req.body, "title").Str? && Get(req.body, "category").Str?
    requires PlainPath(Split(Get(req.body, "category").s, '/'))
    requires Create(env, root, req).status == Ok
    ensures var title := Get(req.body, "title").s;
      var category := Get(req.body, "category").s;
      var p := Split(category, '/') + [FileName(env.today, title)];
      && TargetFile(env, category, FileName(env.today, title)) == Some(p)
      && p in ListMdFiles(Create(env, root, req).root)
  {
    var title := Get(req.body, "title").s;
    var category := Get(req.body, "category").s;
    var fileName := FileName(env.today, title);
    var folders := Split(category, '/');
    var p := folders + [fileName];
    CreatedFileName(env.today, title);
    ResolvePlain(env.BlogDir(), folders);
    TargetFileInTargetDir(env, category, fileName);
    CreateEffect(env, root, req, p);
    CreateKeepsValid(env, root, req);
    ListMdFilesExact(Create(env, root, req).root, p);
    assert p[|p| - 1] == fileName;
  }

  /** An existing post at the target path does not stop the route: it is replaced
      without a warning. */
  lemma CreateOverwrites(env: Env, root: Root, req: Request)
    requires Posts.IsDay(env.today)
    requires req.httpMethod == "POST"
    requires Get(req.body, "title").Str? && Get(req.body, "title").s != ""
    requires Get(req.body, "category").Str? && Get(req.body, "category").s != ""
    requires TagList(Get(req.body, "tags")).Success?
    requires var title := Get(req.body, "title").s;
      var category := Get(req.body, "category").s;
      TargetDir(env, category).Some? &&
      FileIn(root, TargetDir(env, category).value + [FileName(env.today, title)]).Some?
    ensures Create(env, root, req).status == Ok
  {
    var title := Get(req.body, "title").s;
    var category := Get(req.body, "category").s;
    var fileName := FileName(env.today, title);
    var d := TargetDir(env, category).value;
    FileNamePlain(env.today, title);
    TargetFileInTargetDir(env, category, fileName);
    CreateReachesStore(env, root, req);
    StoreOverwrites(env, root, req, title, d, fileName);
  }

  /** A new post in folders that do not exist yet: when no file stands on the way to the
      target folder and no folder has the file's path, the route makes the folders,
      answers 200, and the file holds the created text inside a directory. */
  lemma CreateSucceeds(env: Env, root: Root, req: Request)
    requires Posts.IsDay(env.today)
    requires req.httpMethod == "POST"
    requires Get(req.body, "title").Str? && Get(req.body, "title").s != ""
    requires Get(req.body, "category").Str? && Get(req.body, "category").s != ""
    requires TagList(Get(req.body, "tags")).Success?
    requires TargetDir(env, Get(req.body, "category").s).Some?
    requires var d := TargetDir(env, Get(req.body, "category").s).value;
      forall k :: 1 <= k <= |d| ==> FileIn(root, d[..k]).None?
    requires var d := TargetDir(env, Get(req.body, "category").s).value;
      var p := d + [FileName(env.today, Get(req.body, "title").s)];
      !(root.Some? && IsDirAt(root.value, p))
    ensures var title := Get(req.body, "title").s;
      var d := TargetDir(env, Get(req.body, "category").s).value;
      var p := d + [FileName(env.today, title)];
      var out := Create(env, root, req);
      && out.status == Ok
      && out.root.Some? && IsDirAt(out.root.value, d)
      && FileIn(out.root, p) == Some(CreatedText(env, req, title, TagList(Get(req.body, "tags")).value))
  {
    var title := Get(req.body, "title").s;
    var category := Get(req.body, "category").s;
    var fileName := FileName(env.today, title);
    var d := TargetDir(env, category).value;
    var p := d + [fileName];
    var text := CreatedText(env, req, title, TagList(Get(req.body, "tags")).value);
    FileNamePlain(env.today, title);
    TargetFileInTargetDir(env, category, fileName);
    CreateReachesStore(env, root, req);
    MakeDirsSucceeds(root, d);
    var made := MakeDirs(root, d).value;
    if IsDirAt(made.value, p) {
      MakeDirsOnlyAncestors(root, d, p);
      assert false;
    }
    WriteFileSucceeds(made.value, d, fileName, text);
    WriteEffect(made, p, text, d);
    WriteEffect(made, p, text, p);
  }

  /** The route does not check that the folder stays inside `blog/`. A title and the
      category "../c" for a plain name `c` other than "blog" pass every check it makes,
      and `path.join` then addresses the folder `c` in the working directory, beside
      `blog/`. The model does not follow the path there and answers
      `OutsideContentRoot`, a status the route itself never gives. */
  lemma CreateLeavesContentRoot(env: Env, root: Root, req: Request, c: string)
    requires req.httpMethod == "POST" && PlainName(c) && c != "blog"
    requires Get(req.body, "title").Str? && Get(req.body, "title").s != ""
    requires Get(req.body, "category") == Str("../" + c)
    ensures Normalize(env.BlogDir(), Split("../" + c, '/')) == env.cwd + [c]
    ensures Create(env, root, req) == Outcome(OutsideContentRoot, root)
  {
    TargetDirBeside(env, c);
  }

  lemma TargetDirBeside(env: Env, c: string)
    requires PlainName(c) && c != "blog"
    ensures Normalize(env.BlogDir(), Split("../" + c, '/')) == env.cwd + [c]
    ensures TargetDir(env, "../" + c).None?
  {
    SplitUp(c);
    SplitNoSeparator(c, '/');
    LeavesBlogDir(env.cwd, [".."] + [c], c);
  }

  /** A POST with a non-empty string title and category whose target stays inside
      `blog/` comes down to storing the file. */
  lemma CreateReachesStore(env: Env, root: Root, req: Request)
    requires req.httpMethod == "POST"
    requires Get(req.body, "title").Str? && Get(req.body, "title").s != ""
    requires Get(req.body, "category").Str? && Get(req.body, "category").s != ""
    requires var title := Get(req.body, "title").s;
      var category := Get(req.body, "category").s;
      TargetDir(env, category).Some? && TargetFile(env, category, FileName(env.today, title)).Some?
    ensures var title := Get(req.body, "title").s;
      var category := Get(req.body, "category").s;
      Create(env, root, req) == Store(env, root, req, title, TargetDir(env, category).value,
        TargetFile(env, category, FileName(env.today, title)).value)
  {
  }

  /** Storing over an existing file succeeds. */
  lemma StoreOverwrites(env: Env, root: Root, req: Request, title: string, d: Path, fileName: string)
    requires TagList(Get(req.body, "tags")).Success?
    requires FileIn(root, d + [fileName]).Some?
    ensures Store(env, root, req, title, d, d + [fileName]).status == Ok
  {
    FileParentIsDir(root.value, d, fileName);
    assert Exists(root, d) by {
      if d != [] {
        assert Lookup(root.value, d).Some?;
      }
    }
    var p := d + [fileName];
    assert Lookup(root.value, p).Some? && Lookup(root.value, p).value.File?;
    var text := CreatedText(env, req, title, TagList(Get(req.body, "tags")).value);
    WriteFileSucceeds(root.value, d, fileName, text);
  }
}
