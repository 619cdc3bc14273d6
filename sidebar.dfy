/**
  * The sidebar's category tree (`src/components/sidebar.tsx`): a static forest of
  * categories, each with a title, an optional link and optional sub-items, and the two
  * tests that decide how an item is drawn for the current path: whether the item itself
  * is the active page, and whether some item below it is.
  */
module Sidebar {
  import opened Wrappers

  /** `CategoryItem`: `href` and `items` may be absent. */
  datatype CategoryItem = CategoryItem(title: string, href: Option<string>, items: SubItems)

  /** The optional `items` array of a category. */
  datatype SubItems = Absent | Present(list: seq<CategoryItem>)

  function Leaf(title: string, href: string): CategoryItem {
    CategoryItem(title, Some(href), Absent)
  }

  /** The English section of the conversation group. */
  const English := CategoryItem("\U{C601}\U{C5B4}", Some("/blog/\U{D68C}\U{D654} MASTER/\U{C601}\U{C5B4}"), Present([
    Leaf("\U{C77C}\U{C77C}\U{C2A4}\U{D130}\U{B514}", "/blog/\U{D68C}\U{D654} MASTER/\U{C601}\U{C5B4}/\U{C77C}\U{C77C}\U{C2A4}\U{D130}\U{B514}"),
    Leaf("\U{CC38}\U{ACE0}\U{C790}\U{B8CC}", "/blog/\U{D68C}\U{D654} MASTER/\U{C601}\U{C5B4}/\U{CC38}\U{ACE0}\U{C790}\U{B8CC}")
  ]))

  /** The Japanese section of the conversation group. */
  const Japanese := CategoryItem("\U{C77C}\U{BCF8}\U{C5B4}", Some("/blog/\U{D68C}\U{D654} MASTER/\U{C77C}\U{BCF8}\U{C5B4}"), Present([
    Leaf("\U{C77C}\U{C77C}\U{C2A4}\U{D130}\U{B514}", "/blog/\U{D68C}\U{D654} MASTER/\U{C77C}\U{BCF8}\U{C5B4}/\U{C77C}\U{C77C}\U{C2A4}\U{D130}\U{B514}"),
    Leaf("\U{CC38}\U{ACE0}\U{C790}\U{B8CC}", "/blog/\U{D68C}\U{D654} MASTER/\U{C77C}\U{BCF8}\U{C5B4}/\U{CC38}\U{ACE0}\U{C790}\U{B8CC}")
  ]))

  /** The conversation group: a heading without a link of its own. */
  const Conversation := CategoryItem("\U{D68C}\U{D654} MASTER", None, Present([English, Japanese]))

  /** The static `categories` forest. */
  const Categories: seq<CategoryItem> := [
    Leaf("\U{C5D0}\U{C5B4}\U{B4DC}\U{B78D}", "/blog/\U{C5D0}\U{C5B4}\U{B4DC}\U{B78D}"),
    Leaf("\U{BC14}\U{C774}\U{BE0C}\U{CF54}\U{B529}", "/blog/\U{BC14}\U{C774}\U{BE0C}\U{CF54}\U{B529}"),
    Leaf("AI \U{CD5C}\U{C2E0} \U{C18C}\U{C2DD}", "/blog/AI \U{CD5C}\U{C2E0} \U{C18C}\U{C2DD}"),
    Leaf("\U{D560}\U{C778} \U{C774}\U{BCA4}\U{D2B8}", "/blog/\U{D560}\U{C778} \U{C774}\U{BCA4}\U{D2B8}"),
    Leaf("\U{BAB0}\U{C785}", "/blog/\U{BAB0}\U{C785}"),
    Conversation,
    Leaf("\U{CCB4}\U{D5D8}", "/blog/\U{CCB4}\U{D5D8}")
  ]

  /** `sub.href === pathname`, with `pathname` `null` outside a route: an absent link never
      equals it. */
  predicate Matches(item: CategoryItem, pathname: Option<string>) {
    item.href.Some? && pathname == item.href
  }

  /** `isActive`: an empty link counts as absent here. */
  predicate IsActive(item: CategoryItem, pathname: Option<string>) {
    item.href.Some? && item.href.value != "" && pathname == item.href
  }

  /** `checkActive(items)`: absent items are not active; otherwise some item has the
      current path as its link or an active item below it. */
  predicate CheckActive(items: SubItems, pathname: Option<string>)
    decreases items
  {
    match items
    case Absent => false
    case Present(s) => exists i :: 0 <= i < |s| && (Matches(s[i], pathname) || CheckActive(s[i].items, pathname))
  }

  /** `hasActiveChild`: the test runs on the item's sub-items only. */
  predicate HasActiveChild(item: CategoryItem, pathname: Option<string>) {
    CheckActive(item.items, pathname)
  }

  /** The node reached from `items` by following one index per level. */
  function NodeAt(items: SubItems, path: seq<nat>): Option<CategoryItem>
    decreases |path|
  {
    if path == [] || items.Absent? || path[0] >= |items.list| then None
    else if |path| == 1 then Some(items.list[path[0]])
    else NodeAt(items.list[path[0]].items, path[1..])
  }

  /** Some node at some depth below `items` has the current path as its link. */
  ghost predicate SomeNodeMatches(items: SubItems, pathname: Option<string>) {
    exists path :: NodeAt(items, path).Some? && Matches(NodeAt(items, path).value, pathname)
  }

  /** `checkActive` holds exactly when some node at any depth has the current path as its
      link. */
  lemma CheckActiveFindsNode(items: SubItems, pathname: Option<string>)
    ensures CheckActive(items, pathname) <==> SomeNodeMatches(items, pathname)
  {
    if CheckActive(items, pathname) {
      var path := ActivePath(items, pathname);
    }
    if SomeNodeMatches(items, pathname) {
      var path :| NodeAt(items, path).Some? && Matches(NodeAt(items, path).value, pathname);
      PathActive(items, path, pathname);
    }
  }

  /** The way down to a matching node that `checkActive` found. */
  lemma {:induction false} ActivePath(items: SubItems, pathname: Option<string>) returns (path: seq<nat>)
    requires CheckActive(items, pathname)
    ensures NodeAt(items, path).Some? && Matches(NodeAt(items, path).value, pathname)
    decreases items
  {
    var s := items.list;
    var i :| 0 <= i < |s| && (Matches(s[i], pathname) || CheckActive(s[i].items, pathname));
    var sub := s[i];
    if Matches(sub, pathname) {
      path := [i];
    } else {
      var rest := ActivePath(sub.items, pathname);
      path := [i] + rest;
      assert path[1..] == rest;
    }
  }

  /** A node that matches makes `checkActive` hold for every level above it. */
  lemma {:induction false} PathActive(items: SubItems, path: seq<nat>, pathname: Option<string>)
    requires NodeAt(items, path).Some? && Matches(NodeAt(items, path).value, pathname)
    ensures CheckActive(items, pathname)
    decreases |path|
  {
    var sub := items.list[path[0]];
    if |path| > 1 {
      PathActive(sub.items, path[1..], pathname);
    }
  }

  /** `hasActiveChild` holds exactly when some node strictly below the item has the
      current path as its link; the item's own link plays no part. */
  lemma HasActiveChildLooksBelow(item: CategoryItem, pathname: Option<string>, href: Option<string>)
    ensures HasActiveChild(item, pathname) <==> SomeNodeMatches(item.items, pathname)
    ensures HasActiveChild(item.(href := href), pathname) == HasActiveChild(item, pathname)
  {
    CheckActiveFindsNode(item.items, pathname);
  }

  /** `hasActiveChild` looks only below the item: an item whose own link is the current
      path but whose sub-items do not match is not expanded by that. */
  lemma ActiveItemWithoutActiveChild(pathname: Option<string>)
    requires pathname == Some("/blog/\U{CCB4}\U{D5D8}")
    ensures IsActive(Categories[6], pathname) && !HasActiveChild(Categories[6], pathname)
  {
  }

  /** On a study page of the English section, the conversation group and the English item
      are expanded and the Japanese item is not. */
  lemma ActiveChildExample(pathname: Option<string>)
    requires pathname == Some("/blog/\U{D68C}\U{D654} MASTER/\U{C601}\U{C5B4}/\U{C77C}\U{C77C}\U{C2A4}\U{D130}\U{B514}")
    ensures !IsActive(Conversation, pathname) && HasActiveChild(Conversation, pathname)
    ensures HasActiveChild(English, pathname) && !HasActiveChild(Japanese, pathname)
  {
    assert Conversation.items.list[0] == English;
    assert Matches(English.items.list[0], pathname);
  }

  /** The links of `items` are `base` followed by the titles from `items` down to the
      node, separated by "/". */
  predicate LinksFollowTitles(items: SubItems, base: string)
    decreases items
  {
    match items
    case Absent => true
    case Present(s) => forall i :: 0 <= i < |s| ==>
      && (s[i].href.Some? ==> s[i].href.value == base + s[i].title)
      && LinksFollowTitles(s[i].items, base + s[i].title + "/")
  }

  /** Every node without sub-items has a link, so the leaf's `item.href!` never meets an
      absent link. */
  predicate LeavesHaveLinks(items: SubItems)
    decreases items
  {
    match items
    case Absent => true
    case Present(s) => forall i :: 0 <= i < |s| ==>
      && (s[i].items.Absent? ==> s[i].href.Some?)
      && LeavesHaveLinks(s[i].items)
  }

  // The links of the static tree, level by level.

  lemma TopLevelLinks()
    ensures forall i :: 0 <= i < |Categories| && i != 5 ==> Categories[i].href.value == "/blog/" + Categories[i].title
  {
    assert Categories[0].href.value == "/blog/" + Categories[0].title;
    assert Categories[1].href.value == "/blog/" + Categories[1].title;
    assert Categories[2].href.value == "/blog/" + Categories[2].title;
    assert Categories[3].href.value == "/blog/" + Categories[3].title;
    assert Categories[4].href.value == "/blog/" + Categories[4].title;
    assert Categories[6].href.value == "/blog/" + Categories[6].title;
  }

  lemma SectionLinks()
    ensures English.href.value == "/blog/" + Conversation.title + "/" + English.title
    ensures Japanese.href.value == "/blog/" + Conversation.title + "/" + Japanese.title
  {
  }

  lemma EnglishLinks()
    ensures forall i :: 0 <= i < 2 ==>
      English.items.list[i].href.value == "/blog/" + Conversation.title + "/" + English.title + "/" + English.items.list[i].title
  {
    assert English.items.list[0].href.value == "/blog/" + Conversation.title + "/" + English.title + "/" + English.items.list[0].title;
  }

  lemma JapaneseLinks()
    ensures forall i :: 0 <= i < 2 ==>
      Japanese.items.list[i].href.value == "/blog/" + Conversation.title + "/" + Japanese.title + "/" + Japanese.items.list[i].title
  {
    assert Japanese.items.list[0].href.value == "/blog/" + Conversation.title + "/" + Japanese.title + "/" + Japanese.items.list[0].title;
  }

  /** The static tree: every link is "/blog/" followed by the titles on the way to the
      node, and every leaf has a link. */
  lemma StaticTreeShape()
    ensures LinksFollowTitles(Present(Categories), "/blog/")
    ensures LeavesHaveLinks(Present(Categories))
  {
    var base := "/blog/" + Conversation.title + "/";
    TopLevelLinks();
    SectionLinks();
    EnglishLinks();
    JapaneseLinks();
    assert LinksFollowTitles(English.items, base + English.title + "/");
    assert LinksFollowTitles(Japanese.items, base + Japanese.title + "/");
    assert LinksFollowTitles(Conversation.items, base);
    assert LeavesHaveLinks(Conversation.items);
  }
}
