/**
  * The tag presentation tables (`src/lib/constants.ts`): the five default tags, the
  * Tailwind colour classes and the emoji icon of each, and the lookups that fall back to
  * a gray style and a label icon for any other tag. Korean text is written with Unicode
  * escapes.
  */
module Constants {
  /** The three Tailwind class strings of a tag badge. */
  datatype TagColor = TagColor(bg: string, text: string, border: string)

  /** `DEFAULT_TAGS`: airdrop, vibe coding, AI news, discount events, focus. */
  const DefaultTags: seq<string> := [
    "\U{C5D0}\U{C5B4}\U{B4DC}\U{B78D}",
    "\U{BC14}\U{C774}\U{BE0C}\U{CF54}\U{B529}",
    "AI \U{CD5C}\U{C2E0} \U{C18C}\U{C2DD}",
    "\U{D560}\U{C778} \U{C774}\U{BCA4}\U{D2B8}",
    "\U{BAB0}\U{C785}"
  ]

  /** `TAG_COLORS`. */
  const TagColors: map<string, TagColor> := map[
    "\U{C5D0}\U{C5B4}\U{B4DC}\U{B78D}" :=
      TagColor("bg-blue-100 dark:bg-blue-900/30", "text-blue-700 dark:text-blue-300", "border-blue-300 dark:border-blue-700"),
    "\U{BC14}\U{C774}\U{BE0C}\U{CF54}\U{B529}" :=
      TagColor("bg-purple-100 dark:bg-purple-900/30", "text-purple-700 dark:text-purple-300", "border-purple-300 dark:border-purple-700"),
    "AI \U{CD5C}\U{C2E0} \U{C18C}\U{C2DD}" :=
      TagColor("bg-green-100 dark:bg-green-900/30", "text-green-700 dark:text-green-300", "border-green-300 dark:border-green-700"),
    "\U{D560}\U{C778} \U{C774}\U{BCA4}\U{D2B8}" :=
      TagColor("bg-orange-100 dark:bg-orange-900/30", "text-orange-700 dark:text-orange-300", "border-orange-300 dark:border-orange-700"),
    "\U{BAB0}\U{C785}" :=
      TagColor("bg-pink-100 dark:bg-pink-900/30", "text-pink-700 dark:text-pink-300", "border-pink-300 dark:border-pink-700")
  ]

  /** `TAG_ICONS`: sparkles, brain, robot, flying money, direct hit. */
  const TagIcons: map<string, string> := map[
    "\U{C5D0}\U{C5B4}\U{B4DC}\U{B78D}" := "\U{2728}",
    "\U{BC14}\U{C774}\U{BE0C}\U{CF54}\U{B529}" := "\U{1F9E0}",
    "AI \U{CD5C}\U{C2E0} \U{C18C}\U{C2DD}" := "\U{1F916}",
    "\U{D560}\U{C778} \U{C774}\U{BCA4}\U{D2B8}" := "\U{1F4B8}",
    "\U{BAB0}\U{C785}" := "\U{1F3AF}"
  ]

  /** The style of a tag without an entry in `TAG_COLORS`. */
  const GrayColor := TagColor("bg-gray-100 dark:bg-gray-900/30", "text-gray-700 dark:text-gray-300", "border-gray-300 dark:border-gray-700")

  /** The icon of a tag without an entry in `TAG_ICONS`: a label with the emoji selector. */
  const FallbackIcon := "\U{1F3F7}\U{FE0F}"

  /** `TAG_COLORS[tag] || gray`: an entry is an object, which is always truthy. */
  function GetTagColor(tag: string): TagColor {
    if tag in TagColors then TagColors[tag] else GrayColor
  }

  /** `TAG_ICONS[tag] || '🏷️'`: an empty icon would fall back as well. */
  function GetTagIcon(tag: string): string {
    if tag in TagIcons && TagIcons[tag] != "" then TagIcons[tag] else FallbackIcon
  }

  /** Both tables have exactly the default tags as keys, and the five default tags are
      distinct. */
  lemma TablesCoverDefaultTags()
    ensures |DefaultTags| == 5
    ensures forall i, j :: 0 <= i < j < |DefaultTags| ==> DefaultTags[i] != DefaultTags[j]
    ensures TagColors.Keys == set t | t in DefaultTags
    ensures TagIcons.Keys == set t | t in DefaultTags
  {
  }

  /** A default tag gets its own colour and icon from the tables; every other tag gets the
      gray style and the label icon. The fallbacks are never a default tag's style, so a
      tag is shown gray exactly when it is not a default tag. */
  lemma TagStyle(tag: string)
    ensures tag in DefaultTags ==> GetTagColor(tag) == TagColors[tag] && GetTagIcon(tag) == TagIcons[tag]
    ensures tag !in DefaultTags ==> GetTagColor(tag) == GrayColor && GetTagIcon(tag) == FallbackIcon
    ensures GetTagColor(tag) == GrayColor <==> tag !in DefaultTags
    ensures GetTagIcon(tag) == FallbackIcon <==> tag !in DefaultTags
  {
    TablesCoverDefaultTags();
    FallbacksNotInTables();
    assert tag in DefaultTags <==> tag in TagColors;
    assert tag in DefaultTags <==> tag in TagIcons;
  }

  /** No default tag has the gray style or the label icon, and no icon is empty. */
  lemma FallbacksNotInTables()
    ensures forall t :: t in TagColors ==> TagColors[t] != GrayColor
    ensures forall t :: t in TagIcons ==> TagIcons[t] != "" && TagIcons[t] != FallbackIcon
  {
  }
}
