# blog-auto-dowon content core, in Dafny

This project models the content side of a Next.js blog. It verifies with Dafny 4.11.

- **Posts.** Posts are Markdown files with YAML front matter, kept in nested category folders under `blog/`.
  - `src/lib/posts.ts` builds the post index: the recursive file walk, category and slug decoding, date and title fallbacks, the pinned-first sort, tag counts and tag filters.
  - Three API routes create, update and delete one post file each.
- **Calendar.** The calendar keeps a day → events dictionary in the browser's local storage.
- **Tags.** The tag pages order tags by a configured priority list. Tags are styled through lookup tables with defaults.
- **Sidebar.** The sidebar decides which categories of a static tree hold the current page.

Modules follow the source files:

| module | file | source |
|---|---|---|
| `Wrappers`, `Text`, `Sequences` | wrappers.dfy, text.dfy, sequences.dfy | helpers: `Option`/`Result`, JavaScript string operations (split, join, trim, code-point order), sequence lemmas and an insertion sort |
| `JsValues` | js_values.dfy | JavaScript values as they appear in front matter and request bodies, with truthiness, `||` and `String(v)` |
| `FileTree` | file_tree.dfy | the `blog/` directory as a tree, the `fs` calls and POSIX `path.join` |
| `Platform` | platform.dfy | the working directory, today's date, and the opaque libraries (gray-matter, `Date`, `decodeURIComponent`, `JSON.stringify`) |
| `Posts` | posts.dfy | `src/lib/posts.ts` |
| `Api` | api.dfy | requests, status codes, the guarded `fs` calls of the routes |
| `TitleSlug` | safe_title.dfy | the `safeTitle` derivation of `src/pages/api/create-post.ts` |
| `CreatePost`, `UpdatePost`, `DeletePost` | create_post.dfy, update_post.dfy, delete_post.dfy | the three API routes |
| `CalendarStorage` | calendar_storage.dfy | `src/lib/calendar-storage.ts` |
| `Constants` | constants.dfy | `src/lib/constants.ts` |
| `TagsPage` | tags_page.dfy | `src/pages/tags/index.tsx` |
| `Sidebar` | sidebar.dfy | `src/components/sidebar.tsx` |

Pure code is modelled as functions. Code that changes state is modelled as methods:

- `FileTree.CollectMdFiles` is the recursive walk with its shared accumulator.
- `Posts.CountTags` is the counting loop over a dictionary.
- The route handlers `HandleCreate`, `HandleUpdate` and `HandleDelete` work on a `Disk` object that holds the content directory.
- `CalendarStorage.CalendarStore` holds the local-storage entry.

Each method is proved equal to a specification function, and the properties are proved about those functions.

## Model

| member | source | states |
|---|---|---|
| FileTree.CollectMdFiles | src/lib/posts.ts:12-31 | the recursive walk appends to the accumulator exactly the `.md` files below the folder, in pre-order by listing order |
| FileTree.GetAllMdFiles | src/lib/posts.ts:12-31 | a missing `blog/` gives []; otherwise the walk from `blog/` with an empty accumulator |
| FileTree.ListMdFilesExact | src/lib/posts.ts:12-31 | each path occurs once; a path is listed iff a file (not a folder) is there and its name ends in ".md", at any depth, whatever the folder names |
| FileTree.MdFilesSound | src/lib/posts.ts:21-26 | every collected path lies below the walked folder, names a file and ends in ".md" |
| FileTree.MdFilesComplete | src/lib/posts.ts:21-26 | every ".md" file below the folder is collected |
| FileTree.MdFilesDistinct | src/lib/posts.ts:21-26 | no path is collected twice |
| FileTree.EnsureDirEffect | src/pages/api/create-post.ts:38-40 | `mkdir -p` leaves every file as it was, keeps every folder, and leaves the path a folder |
| FileTree.EnsureDirFails | src/pages/api/create-post.ts:38-40 | `mkdir -p` fails exactly when some prefix of the path is a file |
| FileTree.EnsureDirOnlyAncestors | src/pages/api/create-post.ts:38-40 | `mkdir -p` makes no folder other than the path and its ancestors |
| FileTree.WriteFileEffect | src/pages/api/create-post.ts:57 | the write changes the text at its path and at no other path |
| FileTree.WriteFileSucceeds | src/pages/api/create-post.ts:57 | writing into an existing folder succeeds unless a folder has the file's name |
| FileTree.RemoveFileEffect | src/pages/api/delete-post.ts:26 | the unlink removes the one file and keeps every other path as it was |
| FileTree.RemoveFileFindsFile | src/pages/api/delete-post.ts:26 | `unlinkSync` succeeds only on a file |
| FileTree.EnsureDirWellFormed | src/pages/api/create-post.ts:38-40 | making folders keeps names distinct in every folder |
| FileTree.WriteFileWellFormed | src/pages/api/create-post.ts:57 | writing keeps names distinct in every folder |
| FileTree.RemoveFileWellFormed | src/pages/api/delete-post.ts:26 | removing keeps names distinct in every folder |
| FileTree.Resolve | src/pages/api/update-post.ts:23-25 | a resolved path is the `path.join` normalisation of `blog/` and the segments, below `blog/` |
| FileTree.NormalizeConcat | src/pages/api/create-post.ts:32-35 | joining in two steps (folder, then file name) equals joining all segments at once |
| FileTree.ResolveChild | src/pages/api/create-post.ts:35 | joining a plain file name to a resolved folder gives that folder plus the name |
| FileTree.ResolvePlain | src/pages/api/update-post.ts:23-25 | plain segments resolve to themselves below `blog/` |
| FileTree.LeavesBlogDir | src/pages/api/delete-post.ts:18-20 | stepping up out of `blog/` to a name beside it normalises to that name in the working directory, which does not resolve below `blog/` |
| FileTree.NormalizeInAndOut | src/pages/api/update-post.ts:23-25 | a plain folder name followed by ".." is no step at all |
| JsValues.OrTruthy | src/lib/posts.ts:78-79 | `a \|\| b` is truthy iff `a` or `b` is, and it is one of the two |
| JsValues.OrAssociative | src/pages/api/update-post.ts:38 | a chain `a \|\| b \|\| c` means the same however it is grouped |
| JsValues.OrDefault | src/pages/api/update-post.ts:38 | a chain ending in a truthy default is always truthy and picks the first truthy value |
| Posts.DatePrefix | src/lib/posts.ts:59 | a match is a `dddd-dd-dd` day that, followed by '-', starts the name |
| Posts.DatePrefixOf | src/lib/posts.ts:59-61 | a name that starts with a day and '-' yields that day |
| Posts.StripDatePrefix | src/lib/posts.ts:67 | the matched day and '-' are removed from the front and nothing else; without a match the name is unchanged |
| Posts.PostDate | src/lib/posts.ts:58-62 | a truthy front-matter date gives its ISO day; when there is none (or it gives "") and the file name starts with a `yyyy-mm-dd-` date, that date is used; with neither the date is "" |
| Posts.FallbacksAgree | src/lib/posts.ts:141-144 | the fallback title of `getPostData` for a slug is the listing's fallback title for the file `slug.md`, and both see the same filename date |
| Posts.RelativePathParts | src/lib/posts.ts:47-48 | splitting the relative path at '/' gives back the names of the path below `blog/`, [""] for `blog/` itself |
| Posts.DecodeListedPath | src/lib/posts.ts:47-55 | for a listed file, slug + ".md" is the file name; category is the folders joined by "/", "" exactly for a file directly in `blog/`; the category and slug rebuild the relative path |
| Posts.ListedIdOf | src/lib/posts.ts:51-55 | the file `name` in the folders `f` gets the folders joined by "/" as category and `name` without ".md" as slug |
| Posts.CompareNeverZero | src/lib/posts.ts:85-93 | the comparator answers only -1 or 1, and -1 both ways for equal pinned status and date |
| Posts.PostLeTotalPreorder | src/lib/posts.ts:85-93 | "the comparator keeps `a` in front of `b`" is total and transitive |
| Posts.SortedPostsOrder | src/lib/posts.ts:85-93 | the sorted listing is a permutation of the scanned posts, pinned before unpinned, and within equal pinned status the dates do not increase |
| Posts.ListingSorted | src/lib/posts.ts:85-93 | every post of the sorted listing may stay in front of every later one under the comparator |
| Posts.PostIdsMatchListing | src/lib/posts.ts:100-117 | the route parameters are the (category, slug) pairs of the sorted listing, as a multiset |
| Posts.ResolveListedPath | src/lib/posts.ts:129-130 | the category and slug of a listed file resolve back to that file |
| Posts.GetPostDataAgreesWithListing | src/lib/posts.ts:123-156 | reading a listed post by its undecoded parameters succeeds, and the listing entry shows that post (`Shows`): the same slug, title, date, category, tags and summary, and as pinned flag the normalised form of the raw value `getPostData` passes through |
| Posts.FileAgreesWithPost | src/lib/posts.ts:39-82 | the same agreement for any plain path to a Markdown file in the tree |
| Posts.TagEntriesDefined | src/lib/posts.ts:162-170 | the tag loop runs without a TypeError exactly when every post's tags are a list |
| Posts.TagCountsProperties | src/lib/posts.ts:158-173 | each tag is listed once; each occurring tag is listed with its number of entries, duplicates within a post included; the counts add up to the number of entries |
| Posts.CountsInAnyOrder | src/lib/posts.ts:158-173 | the counting facts above hold for the distinct tags in any order |
| Posts.TagCountsOrder | src/lib/posts.ts:172 | tags that are array indices ("7", "2024") come first, by ascending numeric value; the other tags follow in the order they were first met |
| JsValues.OwnKeyOrderProperties | src/lib/posts.ts:172 | `Object.entries` lists each key once as added; no array index follows another key; array indices ascend strictly when the keys are distinct; the other keys keep their insertion order |
| JsValues.ArrayIndexInjective | src/lib/posts.ts:172 | two array-index keys with the same numeric value are the same key, so the numeric order of distinct indices is strict |
| Posts.TallyStep | src/lib/posts.ts:164-168 | one increment or insertion keeps the dictionary equal to the counts of the entries seen so far, with keys in first-seen order |
| Posts.TallyKnown | src/lib/posts.ts:164-165 | incrementing a known tag keeps the dictionary equal to the counts, the keys unchanged |
| Posts.TallyNew | src/lib/posts.ts:166-167 | setting a new tag to 1 keeps the dictionary equal to the counts, the tag added last to the keys |
| Posts.TallyTags | src/lib/posts.ts:164-168 | counting one post's tags into the dictionary keeps it equal to the counts of all entries seen, with keys in first-seen order |
| Posts.CountTags | src/lib/posts.ts:158-173 | the dictionary loop followed by `Object.entries` computes the tag counts, in the key order of `Object.entries` |
| Posts.GetAllTags | src/lib/posts.ts:158-173 | `getAllTags` gives the tag counts of the sorted listing, in the key order of `Object.entries` |
| Posts.FilterByTagIsFilter | src/lib/posts.ts:175-178 | the filter fails exactly when some post's tags are neither a list nor a string; otherwise it keeps, in order, the posts whose tags include the tag |
| Posts.FilterListTags | src/lib/posts.ts:175-178 | on posts whose tags are all lists, the filter succeeds, keeps exactly the posts holding the tag and keeps them sorted |
| Posts.PostsByTagExact | src/lib/posts.ts:175-178 | with list tags, exactly the listed posts holding the exact tag, in sorted order |
| Api.MakeDirsEffect | src/pages/api/create-post.ts:38-40 | the guarded `mkdir -p` keeps every file, does nothing when the folder exists, and otherwise leaves it a folder |
| Api.MakeDirsSucceeds | src/pages/api/create-post.ts:38-40 | when no file sits at any prefix of the path, the guarded `mkdir -p` succeeds and leaves the path a folder |
| Api.MakeDirsOnlyAncestors | src/pages/api/create-post.ts:38-40 | after the guarded `mkdir -p` every folder was a folder before or is the path or one of its ancestors |
| Api.WriteEffect | src/pages/api/update-post.ts:45 | writing changes the one file at its path |
| Api.UnlinkEffect | src/pages/api/delete-post.ts:26 | unlinking removes the one file, leaves nothing at its path and keeps every other file |
| Api.PostPathUpOne | src/pages/api/delete-post.ts:18-20 | the category ".." with a plain slug `n` addresses `n.md` in the working directory, not below `blog/` |
| Api.PostPathUpTwo | src/pages/api/update-post.ts:23-25 | a plain category with the slug "../../n" addresses `n.md` in the working directory, not below `blog/` |
| Text.TrimEnds | src/pages/api/create-post.ts:25 | `trim()` leaves no whitespace at either end and adds no character |
| Text.TrimIdempotent | src/pages/api/create-post.ts:25 | trimming twice is trimming once |
| TitleSlug.RemoveSpecial | src/pages/api/create-post.ts:24 | the characters left are exactly the input's word characters, whitespace, Hangul syllables and '-' |
| TitleSlug.SafeTitleChars | src/pages/api/create-post.ts:23-26 | a safe title holds only ASCII letters, digits, '_', '-' and Hangul syllables U+AC00 to U+D7A3, and no whitespace |
| TitleSlug.WordsOfTrim | src/pages/api/create-post.ts:25 | trimming keeps the whitespace-separated words |
| TitleSlug.HyphenateJoinsWords | src/pages/api/create-post.ts:26 | replacing whitespace runs on a trimmed string joins its words with single '-' |
| TitleSlug.SafeTitleJoinsWords | src/pages/api/create-post.ts:23-26 | the safe title is the words of the cleaned title joined by '-', without leading or trailing separators |
| TitleSlug.SafeTitleIdempotent | src/pages/api/create-post.ts:23-26 | deriving a safe title from a safe title changes nothing |
| CreatePost.TagListFails | src/pages/api/create-post.ts:43 | the conversion fails exactly for a truthy value that is neither a list nor a string; a falsy value gives [] |
| CreatePost.TagListOfString | src/pages/api/create-post.ts:43 | a non-empty string gives one trimmed, comma-free tag per comma-separated piece, empty pieces kept |
| CreatePost.TagListRoundTrip | src/pages/api/create-post.ts:43 | joining trimmed, comma-free tags with ',' and converting gives them back |
| CreatePost.CreatedFileName | src/pages/api/create-post.ts:28 | the file name is plain and ends in ".md"; its slug is day + "-" + safe title, and its date prefix gives back the day |
| CreatePost.FileNamePlain | src/pages/api/create-post.ts:28 | the file name holds no '/' |
| CreatePost.FileNameFallbackTitle | src/pages/api/create-post.ts:28 | the listing's fallback title of a created file is the safe title with '-' read as ' ' |
| CreatePost.FrontMatterLines | src/pages/api/create-post.ts:47-55 | the text's lines are `---`, the title line, date, tags, pinned, `---`, a blank line, the content's lines and a final empty line |
| CreatePost.FrontMatterHeader | src/pages/api/create-post.ts:47-55 | without line breaks in title, date and tag text, the first seven lines are exactly the header template |
| CreatePost.TitleLineBreakSplitsHeader | src/pages/api/create-post.ts:48 | the title is not escaped: a line break in it ends the title line early |
| CreatePost.CreatedPinnedLine | src/pages/api/create-post.ts:45 | the pinned line reads `pinned: true` iff the request's pinned is `true` or `"true"`, and `pinned: false` otherwise |
| CreatePost.TargetFileInTargetDir | src/pages/api/create-post.ts:32-35 | the file lands directly inside the target folder |
| CreatePost.TargetsArePlain | src/pages/api/create-post.ts:32-35 | every joined path below a plain working directory is plain |
| CreatePost.HandleCreate | src/pages/api/create-post.ts:6-64 | the handler's status and new directory are those of the route function |
| CreatePost.CreateRejects | src/pages/api/create-post.ts:7-16 | 405 for a method other than POST; 400 without a truthy title or category; the directory is unchanged |
| CreatePost.StoreEffect | src/pages/api/create-post.ts:38-63 | storing fails with 500 and no file changed, or succeeds with the template text at the path and every other file kept |
| CreatePost.CreateEffect | src/pages/api/create-post.ts:11-63 | a failed create changes no file; a successful one writes the template text at the target and keeps every other file |
| CreatePost.StoreKeepsValid | src/pages/api/create-post.ts:38-57 | storing keeps names distinct and plain |
| CreatePost.CreateKeepsValid | src/pages/api/create-post.ts:38-57 | the route keeps names distinct and plain in every folder |
| CreatePost.CreatedPostIsListed | src/pages/api/create-post.ts:28-57 | a created post is listed at `<category>/<day>-<safe title>.md` |
| CreatePost.CreatedFileListed | src/pages/api/create-post.ts:32-57 | the created file is at the category's folders plus the file name, and the listing finds it there |
| CreatePost.CreateOverwrites | src/pages/api/create-post.ts:57 | an existing post at the target is silently replaced (status 200) |
| CreatePost.CreateSucceeds | src/pages/api/create-post.ts:11-59 | a POST with a title and a category, readable tags, no file on the way to the category folder and no folder at the file's path answers 200; the missing category folders are created and the file holds the created text |
| CreatePost.TargetDirBeside | src/pages/api/create-post.ts:32-34 | the category "../c" addresses the folder `c` in the working directory, not below `blog/` |
| CreatePost.CreateLeavesContentRoot | src/pages/api/create-post.ts:11-34 | a POST with a title and the category "../c" passes every check of the route, `path.join` leaves `blog/`, and the model answers `OutsideContentRoot` with nothing changed |
| CreatePost.StoreOverwrites | src/pages/api/create-post.ts:57 | storing over an existing file succeeds |
| UpdatePost.MergeKeepsOtherKeys | src/pages/api/update-post.ts:36-41 | every key other than title, tags and pinned keeps its value, and no key is lost |
| UpdatePost.MergeTitle | src/pages/api/update-post.ts:38 | the supplied title if truthy, else the existing one if truthy, else "Untitled" |
| UpdatePost.MergeTags | src/pages/api/update-post.ts:39 | tags are replaced iff supplied; otherwise the existing value stays |
| UpdatePost.MergePinned | src/pages/api/update-post.ts:40 | a supplied pinned becomes the boolean "is `true` or `"true"`"; otherwise the existing value `\|\| false` |
| UpdatePost.MergeKeepsUnnormalisedPinned | src/pages/api/update-post.ts:40 | an existing `pinned: "yes"` survives an update without pinned, though the listing reads it as unpinned |
| UpdatePost.MergeIdempotent | src/pages/api/update-post.ts:36-41 | merging the same fields twice changes nothing more |
| UpdatePost.HandleUpdate | src/pages/api/update-post.ts:6-52 | the handler's status and new directory are those of the route function |
| UpdatePost.UpdateRejects | src/pages/api/update-post.ts:7-16 | 405 for a method other than POST; 400 without category, slug or content; nothing changes |
| UpdatePost.UpdateNotFound | src/pages/api/update-post.ts:27-29 | 404 exactly when a well-formed request addresses a decoded path where nothing exists |
| UpdatePost.UpdateLeavesContentRoot | src/pages/api/update-post.ts:11-25 | a POST with a plain category, the slug "../../n" and content passes every check of the route, `path.join` leaves `blog/`, and the model answers `OutsideContentRoot` with nothing changed |
| UpdatePost.UpdateStringifyFails | src/pages/api/update-post.ts:43-50 | when `matter.stringify` throws on the merged front matter, the route answers 500 and writes nothing |
| UpdatePost.UpdateEffect | src/pages/api/update-post.ts:43-45 | only a successful update changes anything; it needs `matter.stringify` to succeed, and it rewrites the one file with the merged front matter and the new body |
| UpdatePost.UpdateKeepsValid | src/pages/api/update-post.ts:45 | the route keeps names distinct and plain |
| UpdatePost.UpdateThenRead | src/pages/api/update-post.ts:19-45 | reading the post back by the same parameters succeeds, with the body of the text the route wrote |
| DeletePost.HandleDelete | src/pages/api/delete-post.ts:5-33 | the handler's status and new directory are those of the route function |
| DeletePost.DeleteRejects | src/pages/api/delete-post.ts:6-15 | 405 for a method other than POST; 400 without a truthy category or slug; nothing changes |
| DeletePost.RootCategoryRejected | src/pages/api/delete-post.ts:13-15 | the category "" is turned away with 400 by both delete and create |
| DeletePost.RootPostsCannotBeDeleted | src/pages/api/delete-post.ts:13-15 | a post directly in `blog/` is listed with category "", so deleting it from its listing entry gives 400 |
| DeletePost.DeleteIgnoresDecoding | src/pages/api/delete-post.ts:18-20 | the route never URL-decodes: its outcome does not depend on `decodeURIComponent` |
| DeletePost.DeleteNotFound | src/pages/api/delete-post.ts:22-24 | 404 exactly when a well-formed request addresses a path where nothing exists |
| DeletePost.DeleteEffect | src/pages/api/delete-post.ts:26-28 | only a successful delete changes anything; it removes exactly the addressed file, which existed, and keeps every other file |
| DeletePost.UnlinkRemovesFile | src/pages/api/delete-post.ts:26 | what the unlink removed was a file |
| DeletePost.DeleteKeepsValid | src/pages/api/delete-post.ts:26 | the route keeps names distinct and plain |
| DeletePost.DeleteTwice | src/pages/api/delete-post.ts:22-26 | repeating a successful delete answers 404 and changes nothing |
| DeletePost.DeleteLeavesContentRoot | src/pages/api/delete-post.ts:10-20 | a POST with the category ".." and a plain slug passes every check of the route, `path.join` leaves `blog/`, and the model answers `OutsideContentRoot` with nothing changed |
| CalendarStorage.StoreEventsEffect | src/lib/calendar-storage.ts:55-63 | saving deletes the day iff the list is empty, reads back the saved list, and keeps every other day |
| CalendarStorage.StoreEventsNeverEmpty | src/lib/calendar-storage.ts:56-61 | no empty list is ever stored under a day |
| CalendarStorage.WithEventEffect | src/lib/calendar-storage.ts:74-79 | adding appends an absent event last, changes nothing when it is present, and keeps other days |
| CalendarStorage.WithEventKeepsDistinct | src/lib/calendar-storage.ts:76 | adding keeps a day's events free of duplicates |
| CalendarStorage.WithEventIdempotent | src/lib/calendar-storage.ts:74-79 | adding the same event twice is adding it once |
| CalendarStorage.DropIndexEffect | src/lib/calendar-storage.ts:88 | the filter drops exactly the element at the index and keeps the others in order; an index out of range drops nothing |
| CalendarStorage.RemovingLastEventDeletesDay | src/lib/calendar-storage.ts:86-90 | removing a day's only event deletes the day |
| CalendarStorage.WithoutEventKeepsDistinct | src/lib/calendar-storage.ts:86-90 | removing keeps a day's events free of duplicates |
| CalendarStorage.AddThenRemove | src/lib/calendar-storage.ts:74-90 | removing the event just added (at the old length) restores a store without empty lists |
| CalendarStorage.ClearIdempotent | src/lib/calendar-storage.ts:96-98 | clearing deletes the day, and clearing again changes nothing |
| CalendarStorage.CalendarStore.SaveEventsByDate | src/lib/calendar-storage.ts:49-67 | in a browser the entry becomes the saved dictionary; without a window nothing changes |
| CalendarStorage.CalendarStore.AddEvent | src/lib/calendar-storage.ts:74-79 | the entry becomes the dictionary with the event added, or is unchanged without a window |
| CalendarStorage.CalendarStore.RemoveEvent | src/lib/calendar-storage.ts:86-90 | the entry becomes the dictionary with the indexed event dropped, or is unchanged without a window |
| CalendarStorage.CalendarStore.ClearEventsByDate | src/lib/calendar-storage.ts:96-98 | the entry becomes the dictionary without the day, or is unchanged without a window |
| Constants.TablesCoverDefaultTags | src/lib/constants.ts:7-51 | five distinct default tags, and both tables have exactly them as keys |
| Constants.TagStyle | src/lib/constants.ts:56-69 | a default tag gets its table colour and icon; any other tag gets gray and the label icon, and only other tags do |
| TagsPage.IndexOf | src/pages/tags/index.tsx:25 | -1 exactly for an absent tag, otherwise its first position |
| TagsPage.GetTagPriority | src/pages/tags/index.tsx:23-28 | a default tag's position in `DEFAULT_TAGS`, `MAX_SAFE_INTEGER` for any other tag |
| TagsPage.LocaleCompare | src/pages/tags/index.tsx:37 | zero exactly for equal strings, negative exactly when the first sorts first |
| TagsPage.TagLeTotalPreorder | src/pages/tags/index.tsx:32-38 | the page comparator is a total preorder |
| TagsPage.SortedTagsOrder | src/pages/tags/index.tsx:32-38 | the shown tags are a permutation with counts unchanged, default tags before the others, default tags in `DEFAULT_TAGS` order, the others by name |
| TagsPage.NameLeTotalPreorder | src/pages/tags/index.tsx:102 | the name comparator is a total preorder |
| TagsPage.StaticPropsOrder | src/pages/tags/index.tsx:98-109 | the build-time list holds each tag count of the posts once, in strictly ascending name order |
| Sidebar.CheckActiveFindsNode | src/components/sidebar.tsx:112-115 | `checkActive` holds iff some node at any depth has the current path as its link; absent items never do |
| Sidebar.ActivePath | src/components/sidebar.tsx:114 | when `checkActive` holds, a path of indices leads to a matching node |
| Sidebar.PathActive | src/components/sidebar.tsx:114 | a matching node makes `checkActive` hold at every level above it |
| Sidebar.HasActiveChildLooksBelow | src/components/sidebar.tsx:111-117 | `hasActiveChild` holds iff some node strictly below matches, whatever the item's own link |
| Sidebar.ActiveItemWithoutActiveChild | src/components/sidebar.tsx:108-117 | on the experience page its item is active but has no active child |
| Sidebar.ActiveChildExample | src/components/sidebar.tsx:108-117 | on an English study page the linkless conversation group is not active but has an active child, English has one, Japanese has none |
| Sidebar.StaticTreeShape | src/components/sidebar.tsx:17-63 | every link of the static tree is "/blog/" followed by the titles down to the node joined by "/", and every leaf has a link |

## Left out

- Front matter is not parsed or written by the model. gray-matter's parse and stringify are opaque functions of the environment, so no YAML round trip is stated. Stringify is partial: where it throws the update route answers 500. Which data make it throw is not characterised; an update that supplies no `tags` to a post without `tags` sets `tags` to `undefined`, which a YAML dump may refuse.
- Dates are opaque functions of the environment: `new Date(v).toISOString()` and `format(new Date(), 'yyyy-MM-dd')`.
- `new Date(v).toISOString()` throws a `RangeError` for a truthy date that does not parse. The model's `isoDay` is total, so that exception is not modelled. In the source it would abort `getSortedPostsData`, and with it `getAllTags`, `getPostsByTag` and the build.
- gray-matter throws on malformed YAML front matter. The model's `parseMatter` is total, so that exception is not modelled. In the source it would abort the listing and `getPostData`, and in the update route it would give a 500.
- `decodeURIComponent` is an opaque partial function; its failure is the route's 500.
- `JSON.stringify` of the tag list is an opaque function.
- `path.join` is modelled on POSIX names only: "" and "." are dropped and ".." steps up. `path.sep` and Windows paths are not modelled.
- Paths outside `blog/` are not followed. A category or slug whose ".." segments leave `blog/` gives the status `OutsideContentRoot` and changes nothing. The routes themselves have no such check and would read, write or delete files outside the content directory; the model does not say what happens to those files. `CreatePost.CreateLeavesContentRoot`, `UpdatePost.UpdateLeavesContentRoot` and `DeletePost.DeleteLeavesContentRoot` exhibit requests that pass every check of the routes and leave `blog/`.
- `readdirSync` order is modelled as the order of a folder's entries, and a newly created file or folder is added at the end. On POSIX systems Node returns the names sorted by byte value, so after a create the real scan order can differ from the model's, and with it the order of posts with equal dates and the first-met order of tags. The model does not capture that order.
- Failed writes are not modelled beyond the tree: permissions, full disks and races are absent. Also absent: `console.error`, the HTTP framing of responses, and request bodies that are not objects.
- JavaScript values are simplified. Numbers are integers, arrays are lists of strings, objects are opaque, and objects have no prototype (a tag named "constructor" behaves as any other). The key order of `Object.entries` is modelled (`JsValues.OwnKeyOrder`).
- Strings are sequences of Unicode scalar values. UTF-16 code units are not modelled, so surrogate pairs count as one character.
- `localeCompare` is modelled as code-point order, not locale collation.
- JavaScript's sort is modelled by one stable sort. Where the posts comparator answers -1 both ways, real engines may order tied posts differently; the proved properties do not fix the order of tied posts.
- `Posts.ReadListed`: a listed path always names a file, so the "" it gives for any other path is never used.
- `path.relative(...).split(path.sep).join('/').split('/')` is modelled directly as the names of the path below `blog/` (`Posts.PathParts`); `Posts.RelativePathParts` proves that joining them with "/" and splitting again gives the same pieces.
- Local storage:
  - A failed `setItem` (quota) is not modelled.
  - The stored JSON text is modelled by what parsing it gives.
  - The calendar section writes a different shape under the same key; that clash is not modelled.
  - A stored value that parses to something other than an object of string lists is not modelled.
- `CalendarStorage.CalendarStore.RemoveEvent`: the index is an integer; a fractional number, which would match no index, is not modelled.
- The sidebar's open/closed state (`isOpen` and its auto-expand effect) and all rendering are left out.
- UI components without logic to model are left out: the calendar section, the rich-text editor, the layout and app shell, the post card, the home page and the create and edit dialogs.
