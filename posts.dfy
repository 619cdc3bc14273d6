/**
  * The index of blog posts (`src/lib/posts.ts`): every Markdown file below `blog/`
  * becomes a post whose category is its folder path and whose slug is its file name;
  * the listing is sorted pinned-first and newest-first, and tags are counted and
  * filtered over it. `getPostData` reads a single post back by category and slug.
  */
module Posts {
  import opened Wrappers
  import opened Text
  import opened Sequences
  import opened JsValues
  import opened FileTree
  import opened Platform

  /** One entry of the listing. `title`, `tags` and `summary` are whatever the front
      matter holds, with the fallbacks applied; `pinned` is normalised to a boolean. */
  datatype PostMeta = PostMeta(
    slug: string, title: Value, date: string, category: string,
    tags: Value, summary: Value, pinned: bool)

  /** A post read by `getPostData`: `pinned` is the raw front-matter value `|| false`. */
  datatype Post = Post(
    slug: string, title: Value, date: string, category: string,
    tags: Value, summary: Value, pinned: Value, content: string)

  /** The route parameters of a post. */
  datatype PostId = PostId(category: string, slug: string)

  // ---------------------------------------------------------------------------
  // File names

  /** A `yyyy-mm-dd` string of ASCII digits, the shape matched by `\d{4}-\d{2}-\d{2}`. */
  predicate IsDay(s: string) {
    |s| == 10 && forall i :: 0 <= i < 10 ==> if i == 4 || i == 7 then s[i] == '-' else IsAsciiDigit(s[i])
  }

  /** `name.match(/^(\d{4}-\d{2}-\d{2})-/)`: the date a file name starts with. */
  function DatePrefix(name: string): (r: Option<string>)
    ensures r.Some? ==> IsDay(r.value) && |name| >= 11 && name[..11] == r.value + "-"
  {
    if |name| >= 11 && IsDay(name[..10]) && name[10] == '-' then Some(name[..10]) else None
  }

  /** A name that starts with a day and a dash yields that day. */
  lemma DatePrefixOf(day: string, rest: string)
    requires IsDay(day)
    ensures DatePrefix(day + "-" + rest) == Some(day)
  {
    assert (day + "-" + rest)[..10] == day;
  }

  /** `name.replace(/^\d{4}-\d{2}-\d{2}-/, '')`. */
  function StripDatePrefix(name: string): (r: string)
    ensures DatePrefix(name).Some? ==> DatePrefix(name).value + "-" + r == name
    ensures DatePrefix(name).None? ==> r == name
  {
    if DatePrefix(name).Some? then
      assert name == name[..11] + name[11..];
      name[11..]
    else name
  }

  /** The title of a listed file without one: the file name without its date prefix and
      its ".md", dashes turned into spaces. */
  function ListingFallbackTitle(fileName: string): string {
    ReplaceChar(StripSuffix(StripDatePrefix(fileName), ".md"), '-', ' ')
  }

  /** The title `getPostData` falls back to: the slug without its date prefix, dashes
      turned into spaces. */
  function PostFallbackTitle(slug: string): string {
    ReplaceChar(StripDatePrefix(slug), '-', ' ')
  }

  /** The date of a post: the front-matter date as a day when it is set, else the date the
      file name starts with, else "". */
  function PostDate(env: Env, data: Data, name: string): (r: string)
    ensures Truthy(Get(data, "date")) && env.isoDay(Get(data, "date")) != "" ==> r == env.isoDay(Get(data, "date"))
    ensures (!Truthy(Get(data, "date")) || env.isoDay(Get(data, "date")) == "") && DatePrefix(name).Some? ==>
      r == DatePrefix(name).value
    ensures !Truthy(Get(data, "date")) && DatePrefix(name).None? ==> r == ""
  {
    var date := if Truthy(Get(data, "date")) then env.isoDay(Get(data, "date")) else "";
    if date == "" && DatePrefix(name).Some? then DatePrefix(name).value else date
  }

  /** Appending ".md" to a slug changes neither the date it starts with nor its title. */
  lemma FallbacksAgree(slug: string)
    ensures DatePrefix(slug + ".md") == DatePrefix(slug)
    ensures ListingFallbackTitle(slug + ".md") == PostFallbackTitle(slug)
  {
    var name := slug + ".md";
    if |slug| >= 11 {
      assert name[..10] == slug[..10] && name[10] == slug[10];
    } else if |name| >= 11 {
      assert name[10] == ".md"[10 - |slug|];
      assert !IsAsciiDigit(name[8]) || name[10] != '-';
    }
    var stripped := StripDatePrefix(slug);
    assert StripDatePrefix(name) == stripped + ".md" by {
      if DatePrefix(slug).Some? {
        assert name[11..] == slug[11..] + ".md";
      }
    }
    assert EndsWith(stripped + ".md", ".md");
  }

  // ---------------------------------------------------------------------------
  // Paths

  /** `relativePath.split('/')` for the file at `p` below `blog/`: its names, and [""] for
      `blog/` itself. `RelativePathParts` shows that joining the names with "/" and
      splitting there gives exactly these pieces. */
  function PathParts(p: Path): seq<string> {
    if p == [] then [""] else p
  }

  /** The relative path is the names joined by "/"; splitting it at "/" gives back the
      pieces `PathParts` names, as no name holds a '/'. */
  lemma RelativePathParts(p: Path)
    requires PlainPath(p)
    ensures Split(Join(p, "/"), '/') == PathParts(p)
  {
    if p != [] {
      SplitJoin(p, '/');
    }
  }

  /** Category and slug from the pieces of a relative path: the slug is the last piece
      without ".md", the category is the pieces before it joined by "/". */
  function DecodePathParts(parts: seq<string>): PostId
    requires parts != []
  {
    var fileName := parts[|parts| - 1];
    PostId(Join(parts[..|parts| - 1], "/"), StripSuffix(fileName, ".md"))
  }

  /** The category and slug of the file at `p`. */
  function ListedId(p: Path): PostId {
    DecodePathParts(PathParts(p))
  }

  /** The file `fileName` in the folders `folders` has the folders joined by "/" as its
      category and the file name without ".md" as its slug. */
  lemma ListedIdOf(folders: Path, fileName: string)
    ensures ListedId(folders + [fileName]) == PostId(Join(folders, "/"), StripSuffix(fileName, ".md"))
  {
    var p := folders + [fileName];
    assert p[..|p| - 1] == folders;
  }

  /** The relative path a category and a slug stand for. */
  function RelativePathOf(id: PostId): string {
    if id.category == "" then id.slug + ".md" else id.category + "/" + id.slug + ".md"
  }

  /** Decoding a listed file's path: the slug plus ".md" is the file name, the category is
      the folder path, empty exactly for a file directly in `blog/`, and the two together
      rebuild the relative path. */
  lemma DecodeListedPath(p: Path)
    requires p != [] && PlainPath(p) && EndsWith(p[|p| - 1], ".md")
    ensures var id := ListedId(p);
      && id.slug + ".md" == p[|p| - 1]
      && id.category == Join(p[..|p| - 1], "/")
      && (id.category == "" <==> |p| == 1)
      && RelativePathOf(id) == Join(p, "/")
  {
    var id := ListedId(p);
    var init, last := p[..|p| - 1], p[|p| - 1];
    assert id == PostId(Join(init, "/"), StripSuffix(last, ".md"));
    assert id.slug + ".md" == last;
    if |p| == 1 {
      assert init == [];
      assert Join(p, "/") == last;
    } else {
      JoinedFolders(p);
      AppendAssoc(id.category + "/", id.slug, ".md");
    }
  }

  /** For a file in a sub-folder, the folder path is not empty and, followed by "/" and the
      file name, gives the whole path. */
  lemma JoinedFolders(p: Path)
    requires |p| > 1 && PlainPath(p)
    ensures Join(p[..|p| - 1], "/") != ""
    ensures Join(p[..|p| - 1], "/") + "/" + p[|p| - 1] == Join(p, "/")
  {
    JoinInit(p, "/");
    assert p[..|p| - 1][0] == p[0];
    JoinNotEmpty(p[..|p| - 1], "/");
  }

  // ---------------------------------------------------------------------------
  // The listing

  /** The text of a listed file. Every listed path names a file (`ListMdFilesExact`), so
      the empty text is never used. */
  function ReadListed(root: Root, p: Path): string {
    match FileIn(root, p)
    case Some(text) => text
    case None => ""
  }

  /** The listing entry for the file at `p`. */
  function ScanFile(env: Env, root: Root, p: Path): PostMeta {
    var parts := PathParts(p);
    var id := DecodePathParts(parts);
    EntryOf(env, ReadListed(root, p), id, parts[|parts| - 1])
  }

  /** The listing entry of the file `fileName` with the route parameters `id` and the
      text `text`. */
  function EntryOf(env: Env, text: string, id: PostId, fileName: string): PostMeta {
    var m := env.parseMatter(text);
    PostMeta(
      id.slug,
      Or(Get(m.data, "title"), Str(ListingFallbackTitle(fileName))),
      PostDate(env, m.data, fileName),
      id.category,
      Or(Get(m.data, "tags"), List([])),
      Or(Get(m.data, "summary"), Str("")),
      IsPinnedValue(Get(m.data, "pinned")))
  }

  /** The entries in the order of the file listing, before sorting. */
  function ScanPosts(env: Env, root: Root): seq<PostMeta> {
    Map(ListMdFiles(root), p => ScanFile(env, root, p))
  }

  /** The comparator of `getSortedPostsData`: pinned first, then the larger date first.
      It never answers 0, so two posts with the same status and date both claim to go
      first. */
  function PostsCompare(a: PostMeta, b: PostMeta): int {
    if a.pinned && !b.pinned then -1
    else if !a.pinned && b.pinned then 1
    else if Less(a.date, b.date) then 1
    else -1
  }

  /** The comparator lets `a` stay in front of `b`. */
  predicate PostLe(a: PostMeta, b: PostMeta) {
    PostsCompare(a, b) < 0
  }

  /** `getSortedPostsData()`. */
  function GetSortedPostsData(env: Env, root: Root): seq<PostMeta> {
    InsertionSort(ScanPosts(env, root), PostLe)
  }

  /** The comparator answers only -1 or 1; on a tie it answers -1 both ways. */
  lemma CompareNeverZero(a: PostMeta, b: PostMeta)
    ensures PostsCompare(a, b) == -1 || PostsCompare(a, b) == 1
    ensures a.pinned == b.pinned && a.date == b.date ==> PostsCompare(a, b) == -1 && PostsCompare(b, a) == -1
  {
    LessIrreflexive(a.date);
  }

  lemma PostLeTotalPreorder()
    ensures TotalPreorder(PostLe)
  {
    forall a, b
      ensures PostLe(a, b) || PostLe(b, a)
    {
      LessAsymmetric(a.date, b.date);
    }
    forall a, b, c | PostLe(a, b) && PostLe(b, c)
      ensures PostLe(a, c)
    {
      if a.pinned == b.pinned && b.pinned == c.pinned {
        NotLessTransitive(a.date, b.date, c.date);
      }
    }
  }

  /** The sorted listing holds the scanned posts, pinned ones first, and among posts of
      the same pinned status no date is smaller than a later one. */
  lemma SortedPostsOrder(env: Env, root: Root)
    ensures var s := GetSortedPostsData(env, root);
      && multiset(s) == multiset(ScanPosts(env, root))
      && forall i, j :: 0 <= i < j < |s| ==>
           (s[i].pinned || !s[j].pinned) && (s[i].pinned == s[j].pinned ==> !Less(s[i].date, s[j].date))
  {
    PostLeTotalPreorder();
    InsertionSortSorted(ScanPosts(env, root), PostLe);
  }

  /** The sorted listing is sorted by the comparator's order. */
  lemma ListingSorted(env: Env, root: Root)
    ensures SortedBy(GetSortedPostsData(env, root), PostLe)
  {
    PostLeTotalPreorder();
    InsertionSortSorted(ScanPosts(env, root), PostLe);
  }

  /** `getAllPostIds()`: the route parameters of every listed file, in listing order. */
  function GetAllPostIds(root: Root): seq<PostId> {
    Map(ListMdFiles(root), ListedId)
  }

  function IdOf(m: PostMeta): PostId {
    PostId(m.category, m.slug)
  }

  /** The route parameters are those of the sorted listing, as a multiset. */
  lemma PostIdsMatchListing(env: Env, root: Root)
    ensures multiset(GetAllPostIds(root)) == multiset(Map(GetSortedPostsData(env, root), IdOf))
  {
    var scanned := ScanPosts(env, root);
    MapPermutation(GetSortedPostsData(env, root), scanned, IdOf);
    assert Map(scanned, IdOf) == GetAllPostIds(root);
  }

  // ---------------------------------------------------------------------------
  // A single post

  datatype PostError =
    | DecodeFailure       // `decodeURIComponent` threw
    | OutsideContentRoot  // the path leaves `blog/`, which the model does not hold
    | ReadFailure         // `readFileSync` threw: no file at the path

  /** `getPostData(category, slug)`. */
  function GetPostData(env: Env, root: Root, category: string, slug: string): Result<Post, PostError> {
    match (env.decodeUri(category), env.decodeUri(slug))
    case (Some(decodedCategory), Some(decodedSlug)) =>
      var segments := Split(decodedCategory, '/') + Split(decodedSlug + ".md", '/');
      (match Resolve(env.BlogDir(), segments)
       case None => Failure(OutsideContentRoot)
       case Some(p) =>
         match FileIn(root, p)
         case None => Failure(ReadFailure)
         case Some(text) => Success(PostOf(env, text, category, slug)))
    case _ => Failure(DecodeFailure)
  }

  /** The post read from the text `text` under the given category and slug. */
  function PostOf(env: Env, text: string, category: string, slug: string): Post {
    var m := env.parseMatter(text);
    Post(
      slug,
      Or(Get(m.data, "title"), Str(PostFallbackTitle(slug))),
      PostDate(env, m.data, slug),
      category,
      Or(Get(m.data, "tags"), List([])),
      Or(Get(m.data, "summary"), Str("")),
      Or(Get(m.data, "pinned"), Bool(false)),
      m.content)
  }

  /** The path segments `getPostData` builds from a listed file's category and slug. */
  lemma SegmentsOfListedPath(p: Path, category: string, slug: string)
    requires p != [] && PlainPath(p)
    requires category == Join(p[..|p| - 1], "/") && slug + ".md" == p[|p| - 1]
    ensures Split(category, '/') + Split(slug + ".md", '/') == if |p| == 1 then [""] + p else p
  {
    var last := p[|p| - 1];
    SplitNoSeparator(last, '/');
    if |p| > 1 {
      var init := p[..|p| - 1];
      SplitJoin(init, '/');
      assert init + [last] == p;
    }
  }

  /** A path below `blog/` made of plain names is what its category and slug resolve to. */
  lemma ResolveListedPath(env: Env, p: Path, category: string, slug: string)
    requires p != [] && PlainPath(p)
    requires category == Join(p[..|p| - 1], "/") && slug + ".md" == p[|p| - 1]
    ensures Resolve(env.BlogDir(), Split(category, '/') + Split(slug + ".md", '/')) == Some(p)
  {
    SegmentsOfListedPath(p, category, slug);
    ResolvePlain(env.BlogDir(), p);
    NormalizeSkipsEmpty(env.BlogDir(), p);
  }

  /** `getPostData` on the route parameters of a listed file, when they need no
      decoding: the file's text with the slug's fallbacks. */
  lemma GetPostDataAt(env: Env, root: Root, p: Path)
    requires p != [] && PlainPath(p) && EndsWith(p[|p| - 1], ".md") && FileIn(root, p).Some?
    requires var id := ListedId(p);
      env.decodeUri(id.category) == Some(id.category) && env.decodeUri(id.slug) == Some(id.slug)
    ensures var id := ListedId(p);
      GetPostData(env, root, id.category, id.slug) == Success(PostOf(env, FileIn(root, p).value, id.category, id.slug))
  {
    var id := ListedId(p);
    DecodeListedPath(p);
    ResolveListedPath(env, p, id.category, id.slug);
  }

  /** A listed path is a plain path to a file whose name ends in ".md". */
  lemma ListedIsFile(root: Root, p: Path)
    requires root.Some? ==> WellFormed(root.value)
    requires p in ListMdFiles(root)
    ensures p != [] && PlainPath(p) && EndsWith(p[|p| - 1], ".md") && FileIn(root, p).Some?
  {
    ListMdFilesExact(root, p);
    assert Lookup(root.value, p).Some?;
    LookupPlain(root.value, p);
  }

  /** Reading a listed post back through its route parameters, when they need no
      decoding, gives the listing's slug, title, date, category, tags and summary; the
      listing's pinned flag is the normalised form of the post's raw value. */
  lemma GetPostDataAgreesWithListing(env: Env, root: Root, p: Path)
    requires root.Some? ==> WellFormed(root.value)
    requires p in ListMdFiles(root)
    requires var id := ListedId(p);
      env.decodeUri(id.category) == Some(id.category) && env.decodeUri(id.slug) == Some(id.slug)
    ensures var id := ListedId(p);
      var r := GetPostData(env, root, id.category, id.slug);
      r.Success? && Shows(ScanFile(env, root, p), r.value)
  {
    ListedIsFile(root, p);
    FileAgreesWithPost(env, root, p);
  }

  /** The listing entry shows the post: the same slug, title, date, category, tags and
      summary, and the normalised form of its pinned value. */
  predicate Shows(meta: PostMeta, post: Post) {
    && post.slug == meta.slug && post.title == meta.title && post.date == meta.date
    && post.category == meta.category && post.tags == meta.tags
    && post.summary == meta.summary
    && meta.pinned == IsPinnedValue(post.pinned)
  }

  /** The agreement for any plain path to a Markdown file. */
  lemma FileAgreesWithPost(env: Env, root: Root, p: Path)
    requires p != [] && PlainPath(p) && EndsWith(p[|p| - 1], ".md") && FileIn(root, p).Some?
    requires var id := ListedId(p);
      env.decodeUri(id.category) == Some(id.category) && env.decodeUri(id.slug) == Some(id.slug)
    ensures var id := ListedId(p);
      var r := GetPostData(env, root, id.category, id.slug);
      r.Success? && Shows(ScanFile(env, root, p), r.value)
  {
    var id := ListedId(p);
    GetPostDataAt(env, root, p);
    ScanFileAt(env, root, p);
    EntryShowsPost(env, FileIn(root, p).value, id);
  }

  /** The entry of a file named after its slug shows the post read under that slug. */
  lemma EntryShowsPost(env: Env, text: string, id: PostId)
    ensures Shows(EntryOf(env, text, id, id.slug + ".md"), PostOf(env, text, id.category, id.slug))
  {
    var data := env.parseMatter(text).data;
    DatesAgree(env, data, id.slug);
    PinnedDefault(Get(data, "pinned"));
  }

  /** The date and the fallback title of a file name are those of its slug. */
  lemma DatesAgree(env: Env, data: Data, slug: string)
    ensures PostDate(env, data, slug + ".md") == PostDate(env, data, slug)
    ensures ListingFallbackTitle(slug + ".md") == PostFallbackTitle(slug)
  {
    FallbacksAgree(slug);
  }

  /** The entry of a listed file, in terms of its category, slug and text. */
  lemma ScanFileAt(env: Env, root: Root, p: Path)
    requires p != [] && PlainPath(p) && EndsWith(p[|p| - 1], ".md") && FileIn(root, p).Some?
    ensures var id := ListedId(p);
      ScanFile(env, root, p) == EntryOf(env, FileIn(root, p).value, id, id.slug + ".md")
  {
    assert ReadListed(root, p) == FileIn(root, p).value;
    assert PathParts(p) == p;
    DecodeListedPath(p);
  }

  // ---------------------------------------------------------------------------
  // Tags

  datatype TagCount = TagCount(tag: string, count: nat)

  /** Every tag entry of the posts, in order, or `None` when some post's tags are not a
      list (a string or a number cannot be iterated with `forEach`). */
  function TagEntries(posts: seq<PostMeta>): Option<seq<string>>
    decreases |posts|
  {
    if posts == [] then Some([])
    else match TagEntries(posts[..|posts| - 1])
      case None => None
      case Some(entries) =>
        var last := posts[|posts| - 1];
        if last.tags.List? then Some(entries + last.tags.items) else None
  }

  lemma {:induction false} TagEntriesDefined(posts: seq<PostMeta>)
    ensures TagEntries(posts).Some? <==> forall i :: 0 <= i < |posts| ==> posts[i].tags.List?
    decreases |posts|
  {
    if posts != [] {
      var init := posts[..|posts| - 1];
      TagEntriesDefined(init);
      assert forall i :: 0 <= i < |init| ==> init[i] == posts[i];
    }
  }

  /** What `getAllTags` computes from the posts: each distinct tag once, with the number
      of its entries, in the order `Object.entries` lists the keys of a dictionary that
      received the tags in the order they were first met. */
  function TagCounts(posts: seq<PostMeta>): Result<seq<TagCount>, TypeError> {
    match TagEntries(posts)
    case None => Failure(TypeError)
    case Some(entries) => Success(Map(OwnKeyOrder(Dedup(entries)), t => TagCount(t, Count(entries, t))))
  }

  /** Each tag is listed once, every listed tag occurs, every occurring tag is listed with
      the number of its entries (duplicates within one post included), and the counts
      add up to the number of tag entries. */
  lemma TagCountsProperties(posts: seq<PostMeta>)
    requires TagEntries(posts).Some?
    ensures var entries := TagEntries(posts).value;
      var r := TagCounts(posts).value;
      && (forall i, j :: 0 <= i < j < |r| ==> r[i].tag != r[j].tag)
      && (forall i :: 0 <= i < |r| ==> r[i].tag in entries && r[i].count == Count(entries, r[i].tag))
      && (forall t :: t in entries ==> exists i :: 0 <= i < |r| && r[i].tag == t)
      && SumOf(r, (c: TagCount) => c.count) == |entries|
  {
    var entries := TagEntries(posts).value;
    OwnKeyOrderPermutation(Dedup(entries));
    CountsInAnyOrder(entries, OwnKeyOrder(Dedup(entries)));
  }

  /** The counting facts hold for the distinct tags listed in any order. */
  lemma CountsInAnyOrder(entries: seq<string>, o: seq<string>)
    requires multiset(o) == multiset(Dedup(entries))
    ensures var r := Map(o, t => TagCount(t, Count(entries, t)));
      && (forall i, j :: 0 <= i < j < |r| ==> r[i].tag != r[j].tag)
      && (forall i :: 0 <= i < |r| ==> r[i].tag in entries && r[i].count == Count(entries, r[i].tag))
      && (forall t :: t in entries ==> exists i :: 0 <= i < |r| && r[i].tag == t)
      && SumOf(r, (c: TagCount) => c.count) == |entries|
  {
    var d := Dedup(entries);
    var f := t => TagCount(t, Count(entries, t));
    var r := Map(o, f);
    DedupProperties(entries);
    NoDuplicatesPermutation(d, o);
    forall i | 0 <= i < |r|
      ensures r[i].tag in entries
    {
      assert o[i] in multiset(d);
    }
    forall t | t in entries
      ensures exists i :: 0 <= i < |r| && r[i].tag == t
    {
      assert t in multiset(o);
      var i :| 0 <= i < |o| && o[i] == t;
      assert r[i].tag == t;
    }
    SumOfMap(o, f, (c: TagCount) => c.count, t => Count(entries, t));
    SumOfPermutation(o, d, t => Count(entries, t));
    CountsSumToLength(entries);
  }

  /** The order of `getAllTags`: every tag that is an array index comes before every other
      tag, those tags by ascending numeric value, and the other tags in the order they
      were first met. */
  lemma TagCountsOrder(posts: seq<PostMeta>)
    requires TagEntries(posts).Some?
    ensures var entries := TagEntries(posts).value;
      var r := TagCounts(posts).value;
      && (forall i, j :: 0 <= i < j < |r| && IsArrayIndex(r[j].tag) ==>
            IsArrayIndex(r[i].tag) && DecimalValue(r[i].tag) < DecimalValue(r[j].tag))
      && Filter(Map(r, (c: TagCount) => c.tag), IsStringKey) == Filter(Dedup(entries), IsStringKey)
  {
    var entries := TagEntries(posts).value;
    var d := Dedup(entries);
    var r := TagCounts(posts).value;
    DedupProperties(entries);
    OwnKeyOrderProperties(d);
    assert Map(r, (c: TagCount) => c.tag) == OwnKeyOrder(d);
  }

  /** The dictionary of `getAllTags` after the tag entries `seen`: its keys in insertion
      order are the distinct entries in first-seen order, each with its number of entries. */
  ghost predicate Tallied(seen: seq<string>, keys: seq<string>, counts: map<string, nat>) {
    && keys == Dedup(seen)
    && (forall t :: t in counts <==> t in seen)
    && (forall t :: t in counts ==> counts[t] == Count(seen, t))
  }

  /** One more entry: a known tag's count goes up, a new tag is added with count 1. */
  lemma TallyStep(seen: seq<string>, keys: seq<string>, counts: map<string, nat>, tag: string)
    requires Tallied(seen, keys, counts)
    ensures tag in counts ==> Tallied(seen + [tag], keys, counts[tag := counts[tag] + 1])
    ensures tag !in counts ==> Tallied(seen + [tag], keys + [tag], counts[tag := 1])
  {
    if tag in counts {
      TallyKnown(seen, keys, counts, tag);
    } else {
      TallyNew(seen, keys, counts, tag);
    }
  }

  lemma TallyKnown(seen: seq<string>, keys: seq<string>, counts: map<string, nat>, tag: string)
    requires Tallied(seen, keys, counts) && tag in counts
    ensures Tallied(seen + [tag], keys, counts[tag := counts[tag] + 1])
  {
    var counts' := counts[tag := counts[tag] + 1];
    DedupSnoc(seen, tag);
    DedupProperties(seen);
    assert tag in Dedup(seen);
    forall t
      ensures t in counts' <==> t in seen + [tag]
    {
      assert t in seen + [tag] <==> t in seen || t == tag;
    }
    forall t | t in counts'
      ensures counts'[t] == Count(seen + [tag], t)
    {
      CountSnoc(seen, tag, t);
    }
  }

  lemma TallyNew(seen: seq<string>, keys: seq<string>, counts: map<string, nat>, tag: string)
    requires Tallied(seen, keys, counts) && tag !in counts
    ensures Tallied(seen + [tag], keys + [tag], counts[tag := 1])
  {
    var counts' := counts[tag := 1];
    DedupSnoc(seen, tag);
    DedupProperties(seen);
    CountAbsent(seen, tag);
    forall t
      ensures t in counts' <==> t in seen + [tag]
    {
      assert t in seen + [tag] <==> t in seen || t == tag;
    }
    forall t | t in counts'
      ensures counts'[t] == Count(seen + [tag], t)
    {
      CountSnoc(seen, tag, t);
    }
  }

  lemma TagEntriesNext(posts: seq<PostMeta>, i: nat)
    requires i < |posts| && TagEntries(posts[..i]).Some? && posts[i].tags.List?
    ensures TagEntries(posts[..i + 1]) == Some(TagEntries(posts[..i]).value + posts[i].tags.items)
  {
    assert posts[..i + 1][..i] == posts[..i];
  }

  /** The entries of the dictionary, in the order `Object.entries` lists them, are the
      counts `getAllTags` promises. */
  lemma TalliedEntries(seen: seq<string>, keys: seq<string>, counts: map<string, nat>)
    requires Tallied(seen, keys, counts)
    ensures var ordered := OwnKeyOrder(keys);
      && (forall k :: 0 <= k < |ordered| ==> ordered[k] in counts)
      && seq(|ordered|, k requires 0 <= k < |ordered| => TagCount(ordered[k], counts[ordered[k]]))
           == Map(OwnKeyOrder(Dedup(seen)), t => TagCount(t, Count(seen, t)))
  {
    var ordered := OwnKeyOrder(keys);
    DedupProperties(seen);
    OwnKeyOrderPermutation(keys);
    forall k | 0 <= k < |ordered|
      ensures ordered[k] in counts && counts[ordered[k]] == Count(seen, ordered[k])
    {
      assert ordered[k] in multiset(keys);
    }
    ListEntries(seen, counts, ordered);
  }

  lemma ListEntries(seen: seq<string>, counts: map<string, nat>, ordered: seq<string>)
    requires forall k :: 0 <= k < |ordered| ==> ordered[k] in counts && counts[ordered[k]] == Count(seen, ordered[k])
    ensures seq(|ordered|, k requires 0 <= k < |ordered| => TagCount(ordered[k], counts[ordered[k]]))
      == Map(ordered, t => TagCount(t, Count(seen, t)))
  {
  }

  /** `getAllTags()`: counts the tags of the sorted listing. */
  method GetAllTags(env: Env, root: Root) returns (r: Result<seq<TagCount>, TypeError>)
    ensures r == TagCounts(GetSortedPostsData(env, root))
  {
    r := CountTags(GetSortedPostsData(env, root));
  }

  /** The body of `getAllTags`: counts the tags of `allPosts` in a dictionary, then lists
      its entries with `Object.entries`. */
  method CountTags(allPosts: seq<PostMeta>) returns (r: Result<seq<TagCount>, TypeError>)
    ensures r == TagCounts(allPosts)
  {
    var keys: seq<string> := [];
    var counts: map<string, nat> := map[];
    ghost var seen: seq<string> := [];
    var i := 0;
    while i < |allPosts|
      invariant 0 <= i <= |allPosts|
      invariant TagEntries(allPosts[..i]) == Some(seen)
      invariant Tallied(seen, keys, counts)
    {
      var post := allPosts[i];
      if !post.tags.List? {
        TagEntriesDefined(allPosts);
        return Failure(TypeError);
      }
      var items := post.tags.items;
      keys, counts := TallyTags(items, keys, counts, seen);
      seen := seen + items;
      TagEntriesNext(allPosts, i);
      i := i + 1;
    }
    assert allPosts[..i] == allPosts;
    TalliedEntries(seen, keys, counts);
    var ordered := OwnKeyOrder(keys);
    r := Success(seq(|ordered|, k requires 0 <= k < |ordered| => TagCount(ordered[k], counts[ordered[k]])));
  }

  /** The inner `forEach` of `getAllTags`: one post's tag entries, counted into the
      dictionary one after the other. */
  method TallyTags(items: seq<string>, keys0: seq<string>, counts0: map<string, nat>, ghost seen0: seq<string>)
    returns (keys: seq<string>, counts: map<string, nat>)
    requires Tallied(seen0, keys0, counts0)
    ensures Tallied(seen0 + items, keys, counts)
  {
    keys, counts := keys0, counts0;
    ghost var seen := seen0;
    var j := 0;
    while j < |items|
      invariant 0 <= j <= |items|
      invariant seen == seen0 + items[..j]
      invariant Tallied(seen, keys, counts)
    {
      var tag := items[j];
      if tag in counts {
        TallyKnown(seen, keys, counts, tag);
        counts := counts[tag := counts[tag] + 1];
      } else {
        TallyNew(seen, keys, counts, tag);
        keys := keys + [tag];
        counts := counts[tag := 1];
      }
      seen := seen + [tag];
      assert items[..j + 1] == items[..j] + [tag];
      j := j + 1;
    }
    assert items[..j] == items;
  }

  /** `post.tags.includes(tag)`: membership for a list, a substring search for a string,
      and a `TypeError` for any other value. */
  function Includes(tags: Value, tag: string): Option<bool> {
    match tags
    case List(items) => Some(tag in items)
    case Str(s) => Some(ContainsSubstring(s, tag))
    case _ => None
  }

  /** `posts.filter(post => post.tags.includes(tag))`. */
  function FilterByTag(posts: seq<PostMeta>, tag: string): Result<seq<PostMeta>, TypeError>
    decreases |posts|
  {
    if posts == [] then Success([])
    else match (Includes(posts[0].tags, tag), FilterByTag(posts[1..], tag))
      case (Some(b), Success(rest)) => Success((if b then [posts[0]] else []) + rest)
      case _ => Failure(TypeError)
  }

  predicate HasTag(tag: string, post: PostMeta) {
    Includes(post.tags, tag) == Some(true)
  }

  /** The filter fails exactly when some post's tags are neither a list nor a string, and
      otherwise keeps the posts that have the tag, in their order. */
  lemma {:induction false} FilterByTagIsFilter(posts: seq<PostMeta>, tag: string)
    ensures FilterByTag(posts, tag).Success? <==> forall i :: 0 <= i < |posts| ==> Includes(posts[i].tags, tag).Some?
    ensures FilterByTag(posts, tag).Success? ==> FilterByTag(posts, tag).value == Filter(posts, post => HasTag(tag, post))
    decreases |posts|
  {
    if posts != [] {
      FilterByTagIsFilter(posts[1..], tag);
      assert forall i :: 1 <= i < |posts| ==> posts[i] == posts[1..][i - 1];
    }
  }

  /** `getPostsByTag(tag)`. */
  function GetPostsByTag(env: Env, root: Root, tag: string): Result<seq<PostMeta>, TypeError> {
    FilterByTag(GetSortedPostsData(env, root), tag)
  }

  /** When every post's tags are a list, `getPostsByTag` gives exactly the listed posts
      whose tag list holds `tag`, in the order of the sorted listing. */
  lemma PostsByTagExact(env: Env, root: Root, tag: string)
    requires forall m :: m in GetSortedPostsData(env, root) ==> m.tags.List?
    ensures var r := GetPostsByTag(env, root, tag);
      && r.Success?
      && (forall m :: m in r.value <==> m in GetSortedPostsData(env, root) && tag in m.tags.items)
      && SortedBy(r.value, PostLe)
  {
    ListingSorted(env, root);
    FilterListTags(GetSortedPostsData(env, root), tag);
  }

  /** On posts whose tags are lists, the filter keeps exactly the posts holding the tag
      and keeps them sorted. */
  lemma FilterListTags(posts: seq<PostMeta>, tag: string)
    requires forall m :: m in posts ==> m.tags.List?
    requires SortedBy(posts, PostLe)
    ensures var r := FilterByTag(posts, tag);
      && r.Success?
      && (forall m :: m in r.value <==> m in posts && tag in m.tags.items)
      && SortedBy(r.value, PostLe)
  {
    FilterByTagIsFilter(posts, tag);
    FilterSortedBy(posts, post => HasTag(tag, post), PostLe);
  }
}
