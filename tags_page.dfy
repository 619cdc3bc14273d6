/**
  * The tag index page (`src/pages/tags/index.tsx`): at build time the tag counts are
  * sorted by name; on the page, the default tags come first in their configured order
  * and the other tags follow by name.
  */
module TagsPage {
  import opened Wrappers
  import opened Text
  import opened Sequences
  import opened JsValues
  import opened FileTree
  import opened Platform
  import opened Constants
  import Posts

  /** `Number.MAX_SAFE_INTEGER`, the priority of a tag that is not a default tag. */
  const MaxSafeInteger: int := 9007199254740991

  /** `Array.prototype.indexOf`: the first position of `x`, or -1. */
  function IndexOf(s: seq<string>, x: string): (i: int)
    ensures -1 <= i
    ensures i == -1 <==> x !in s
    ensures 0 <= i ==> i < |s| && s[i] == x && x !in s[..i]
    decreases |s|
  {
    if s == [] then -1
    else if s[0] == x then 0
    else
      var k := IndexOf(s[1..], x);
      if k == -1 then -1
      else
        assert s[..k + 1] == [s[0]] + s[1..][..k];
        k + 1
  }

  /** `isDefaultTag(value)`. */
  predicate IsDefaultTag(tag: string) {
    tag in DefaultTags
  }

  /** `getTagPriority(tag)`. */
  function GetTagPriority(tag: string): (r: int)
    ensures IsDefaultTag(tag) ==> 0 <= r < |DefaultTags| && DefaultTags[r] == tag
    ensures !IsDefaultTag(tag) ==> r == MaxSafeInteger
  {
    if IsDefaultTag(tag) then IndexOf(DefaultTags, tag) else MaxSafeInteger
  }

  /** `a.localeCompare(b)`, modelled as code-point order. */
  function LocaleCompare(a: string, b: string): (r: int)
    ensures r == 0 <==> a == b
    ensures r < 0 <==> Less(a, b)
  {
    LessIrreflexive(a);
    if Less(a, b) then -1 else if a == b then 0 else 1
  }

  /** The comparator of `sortedTags`: priority first, then name. */
  function TagsCompare(a: Posts.TagCount, b: Posts.TagCount): int {
    var priorityDiff := GetTagPriority(a.tag) - GetTagPriority(b.tag);
    if priorityDiff != 0 then priorityDiff else LocaleCompare(a.tag, b.tag)
  }

  predicate TagLe(a: Posts.TagCount, b: Posts.TagCount) {
    TagsCompare(a, b) <= 0
  }

  /** `[...tags].sort(...)`: a sorted copy; the page's own array keeps its order. */
  function SortedTags(tags: seq<Posts.TagCount>): seq<Posts.TagCount> {
    InsertionSort(tags, TagLe)
  }

  /** The comparator of `getStaticProps`: by name alone. */
  predicate NameLe(a: Posts.TagCount, b: Posts.TagCount) {
    LocaleCompare(a.tag, b.tag) <= 0
  }

  /** `getStaticProps()`: every tag with its count, sorted by name; the build fails when
      some post's tags are not a list. */
  function GetStaticProps(env: Env, root: Root): Result<seq<Posts.TagCount>, TypeError> {
    match Posts.TagCounts(Posts.GetSortedPostsData(env, root))
    case Failure(e) => Failure(e)
    case Success(tags) => Success(InsertionSort(tags, NameLe))
  }

  lemma TagLeTotalPreorder()
    ensures TotalPreorder(TagLe)
  {
    forall a, b
      ensures TagLe(a, b) || TagLe(b, a)
    {
      if a.tag != b.tag {
        LessTotal(a.tag, b.tag);
      }
    }
    forall a, b, c | TagLe(a, b) && TagLe(b, c)
      ensures TagLe(a, c)
    {
      var pa, pb, pc := GetTagPriority(a.tag), GetTagPriority(b.tag), GetTagPriority(c.tag);
      if pa == pb && pb == pc {
        if Less(a.tag, b.tag) && Less(b.tag, c.tag) {
          LessTransitive(a.tag, b.tag, c.tag);
        } else if Less(a.tag, b.tag) {
          assert b.tag == c.tag;
        } else if Less(b.tag, c.tag) {
          assert a.tag == b.tag;
        }
      }
    }
  }

  lemma NameLeTotalPreorder()
    ensures TotalPreorder(NameLe)
  {
    forall a, b
      ensures NameLe(a, b) || NameLe(b, a)
    {
      LessAsymmetric(a.tag, b.tag);
      if a.tag != b.tag {
        LessTotal(a.tag, b.tag);
      }
    }
    forall a, b, c | NameLe(a, b) && NameLe(b, c)
      ensures NameLe(a, c)
    {
      if Less(a.tag, b.tag) && Less(b.tag, c.tag) {
        LessTransitive(a.tag, b.tag, c.tag);
      }
    }
  }

  /** The page shows the same tags with the same counts, every default tag before every
      other tag, the default tags in `DEFAULT_TAGS` order, and the other tags by name. */
  lemma SortedTagsOrder(tags: seq<Posts.TagCount>)
    ensures var s := SortedTags(tags);
      && multiset(s) == multiset(tags)
      && forall i, j :: 0 <= i < j < |s| ==>
           && (IsDefaultTag(s[i].tag) || !IsDefaultTag(s[j].tag))
           && (IsDefaultTag(s[i].tag) && IsDefaultTag(s[j].tag) ==>
                 IndexOf(DefaultTags, s[i].tag) <= IndexOf(DefaultTags, s[j].tag))
           && (!IsDefaultTag(s[i].tag) && !IsDefaultTag(s[j].tag) ==> !Less(s[j].tag, s[i].tag))
  {
    TagLeTotalPreorder();
    InsertionSortSorted(tags, TagLe);
    var s := SortedTags(tags);
    forall i, j | 0 <= i < j < |s|
      ensures IsDefaultTag(s[i].tag) || !IsDefaultTag(s[j].tag)
      ensures !IsDefaultTag(s[i].tag) && !IsDefaultTag(s[j].tag) ==> !Less(s[j].tag, s[i].tag)
    {
      assert TagLe(s[i], s[j]);
      LessAsymmetric(s[i].tag, s[j].tag);
    }
  }

  /** The build-time list holds each tag of the posts once, with its count, in strictly
      ascending name order. */
  lemma StaticPropsOrder(env: Env, root: Root)
    requires GetStaticProps(env, root).Success?
    ensures var posts := Posts.GetSortedPostsData(env, root);
      var tags := Posts.TagCounts(posts).value;
      var s := GetStaticProps(env, root).value;
      && multiset(s) == multiset(tags)
      && forall i, j :: 0 <= i < j < |s| ==> Less(s[i].tag, s[j].tag)
  {
    var posts := Posts.GetSortedPostsData(env, root);
    var tags := Posts.TagCounts(posts).value;
    var s := InsertionSort(tags, NameLe);
    Posts.TagCountsProperties(posts);
    NameLeTotalPreorder();
    InsertionSortSorted(tags, NameLe);
    forall i, j | 0 <= i < j < |s|
      ensures Less(s[i].tag, s[j].tag)
    {
      assert NameLe(s[i], s[j]);
      DistinctInPermutation(tags, s, i, j);
    }
  }

  /** Two positions of a permutation of a list with distinct tags hold distinct tags. */
  lemma DistinctInPermutation(tags: seq<Posts.TagCount>, s: seq<Posts.TagCount>, i: int, j: int)
    requires forall a, b :: 0 <= a < b < |tags| ==> tags[a].tag != tags[b].tag
    requires multiset(s) == multiset(tags)
    requires 0 <= i < j < |s|
    ensures s[i].tag != s[j].tag
  {
    if s[i].tag == s[j].tag {
      assert s[i] in multiset(tags) && s[j] in multiset(tags);
      var a :| 0 <= a < |tags| && tags[a] == s[i];
      var b :| 0 <= b < |tags| && tags[b] == s[j];
      assert a == b;
      TwoPlaces(s, i, j);
      CountOnce(tags, a);
      assert false;
    }
  }

  /** An element whose tag occurs at one position only occurs once. */
  lemma {:induction false} CountOnce(tags: seq<Posts.TagCount>, a: int)
    requires forall x, y :: 0 <= x < y < |tags| ==> tags[x].tag != tags[y].tag
    requires 0 <= a < |tags|
    ensures multiset(tags)[tags[a]] == 1
    decreases |tags|
  {
    var last := |tags| - 1;
    var init := tags[..last];
    assert tags == init + [tags[last]];
    if a == last {
      assert tags[a] !in init;
    } else {
      CountOnce(init, a);
      assert tags[last] != tags[a];
    }
  }
}
