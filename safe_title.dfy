/**
  * The file-name slug the create handler derives from a post title
  * (`src/pages/api/create-post.ts`): characters other than word characters, whitespace,
  * Hangul syllables and '-' are dropped, the ends are trimmed, and every run of
  * whitespace becomes a single '-'.
  */
module TitleSlug {
  import opened Text

  /** `\w` in a JavaScript regular expression: ASCII letters, digits and '_'. */
  predicate IsWordChar(c: char) {
    ('a' <= c <= 'z') || ('A' <= c <= 'Z') || IsAsciiDigit(c) || c == '_'
  }

  /** The range `가-힣`, the precomposed Hangul syllables U+AC00 to U+D7A3. */
  predicate IsHangulSyllable(c: char) {
    '\U{AC00}' <= c <= '\U{D7A3}'
  }

  /** The characters the class `[\w\s가-힣-]` matches. */
  predicate Kept(c: char) {
    IsWordChar(c) || IsJsSpace(c) || IsHangulSyllable(c) || c == '-'
  }

  /** The characters a safe title is made of. */
  predicate IsSlugChar(c: char) {
    IsWordChar(c) || IsHangulSyllable(c) || c == '-'
  }

  /** `s.replace(/[^\w\s가-힣-]/g, '')`. */
  function RemoveSpecial(s: string): (r: string)
    ensures forall c :: c in r <==> c in s && Kept(c)
    decreases |s|
  {
    if s == [] then ""
    else (if Kept(s[0]) then [s[0]] else "") + RemoveSpecial(s[1..])
  }

  /** A string of kept characters is left as it is. */
  lemma {:induction false} RemoveSpecialKeepsKept(s: string)
    requires forall c :: c in s ==> Kept(c)
    ensures RemoveSpecial(s) == s
    decreases |s|
  {
    if s != [] {
      RemoveSpecialKeepsKept(s[1..]);
      assert s == [s[0]] + s[1..];
    }
  }

  /** `s.replace(/\s+/g, '-')`: each maximal run of whitespace becomes one '-'. */
  function Hyphenate(s: string): string
    decreases |s|
  {
    if s == [] then ""
    else if IsJsSpace(s[0]) then "-" + Hyphenate(s[LeadingSpaces(s)..])
    else [s[0]] + Hyphenate(s[1..])
  }

  /** Hyphenating leaves no whitespace and brings in no character but '-'. */
  lemma {:induction false} HyphenateChars(s: string)
    ensures forall c :: c in Hyphenate(s) ==> !IsJsSpace(c) && (c == '-' || c in s)
    decreases |s|
  {
    if s != [] {
      var rest := if IsJsSpace(s[0]) then s[LeadingSpaces(s)..] else s[1..];
      HyphenateChars(rest);
      assert forall c :: c in rest ==> c in s;
    }
  }

  /** The `safeTitle` of the create handler. */
  function SafeTitle(title: string): string {
    Hyphenate(Trim(RemoveSpecial(title)))
  }

  // ---------------------------------------------------------------------------
  // Words: the reference definition

  /** Length of the run of non-whitespace characters at the start of `s`. */
  function WordLength(s: string): (k: nat)
    ensures k <= |s|
    ensures forall i :: 0 <= i < k ==> !IsJsSpace(s[i])
    ensures k == |s| || IsJsSpace(s[k])
  {
    if s == [] || IsJsSpace(s[0]) then 0 else 1 + WordLength(s[1..])
  }

  /** The maximal runs of non-whitespace characters of `s`, in order. */
  function Words(s: string): seq<string>
    decreases |s|
  {
    if s == [] then []
    else if IsJsSpace(s[0]) then Words(s[1..])
    else
      var k := WordLength(s);
      [s[..k]] + Words(s[k..])
  }

  lemma {:induction false} WordsSkipLeading(s: string, k: nat)
    requires k <= |s|
    requires forall i :: 0 <= i < k ==> IsJsSpace(s[i])
    ensures Words(s[k..]) == Words(s)
    decreases k
  {
    if k > 0 {
      WordsSkipLeading(s[1..], k - 1);
      assert s[1..][k - 1..] == s[k..];
    }
  }

  lemma {:induction false} WordLengthAppend(a: string, b: string)
    requires WordLength(a) < |a| || b == [] || IsJsSpace(b[0])
    ensures WordLength(a + b) == WordLength(a)
    decreases |a|
  {
    if a != [] && !IsJsSpace(a[0]) {
      WordLengthAppend(a[1..], b);
      assert (a + b)[1..] == a[1..] + b;
    }
  }

  /** Trailing whitespace adds no word. */
  lemma {:induction false} WordsDropTrailing(a: string, spaces: string)
    requires forall i :: 0 <= i < |spaces| ==> IsJsSpace(spaces[i])
    ensures Words(a + spaces) == Words(a)
    decreases |a| + |spaces|
  {
    if a == [] {
      assert a + spaces == spaces;
      if spaces != [] {
        WordsDropTrailing([], spaces[1..]);
        assert [] + spaces[1..] == spaces[1..];
      }
    } else if IsJsSpace(a[0]) {
      WordsDropTrailing(a[1..], spaces);
      assert (a + spaces)[1..] == a[1..] + spaces;
    } else {
      var k := WordLength(a);
      WordLengthAppend(a, spaces);
      assert (a + spaces)[..k] == a[..k];
      assert (a + spaces)[k..] == a[k..] + spaces;
      WordsDropTrailing(a[k..], spaces);
    }
  }

  /** Trimming does not change the words. */
  lemma WordsOfTrim(s: string)
    ensures Words(Trim(s)) == Words(s)
  {
    var t := s[LeadingSpaces(s)..];
    var n := |t| - TrailingSpaces(t);
    WordsSkipLeading(s, LeadingSpaces(s));
    assert t == t[..n] + t[n..];
    WordsDropTrailing(t[..n], t[n..]);
  }

  lemma {:induction false} HyphenateWord(w: string, rest: string)
    requires forall i :: 0 <= i < |w| ==> !IsJsSpace(w[i])
    ensures Hyphenate(w + rest) == w + Hyphenate(rest)
    decreases |w|
  {
    if w != [] {
      HyphenateWord(w[1..], rest);
      assert (w + rest)[0] == w[0] && !IsJsSpace(w[0]);
      assert (w + rest)[1..] == w[1..] + rest;
      assert w == [w[0]] + w[1..];
    } else {
      assert w + rest == rest;
    }
  }

  /** On a string without whitespace at either end, hyphenating joins its words with '-'. */
  lemma {:induction false} HyphenateJoinsWords(s: string)
    requires s == [] || (!IsJsSpace(s[0]) && !IsJsSpace(s[|s| - 1]))
    ensures Hyphenate(s) == Join(Words(s), "-")
    decreases |s|
  {
    if s != [] {
      var k := WordLength(s);
      var w := s[..k];
      var rest := s[k..];
      assert s == w + rest;
      HyphenateWord(w, rest);
      if rest != [] {
        var m := LeadingSpaces(rest);
        var rest' := rest[m..];
        assert rest[|rest| - 1] == s[|s| - 1];
        assert rest' != [];
        assert rest'[|rest'| - 1] == s[|s| - 1];
        HyphenateJoinsWords(rest');
        WordsSkipLeading(rest, m);
        assert Words(rest') != [];
      }
    }
  }

  /** The safe title is the title's words, after dropping the removed characters, joined
      by single dashes: leading and trailing whitespace vanish and each inner run of
      whitespace becomes exactly one '-'. */
  lemma SafeTitleJoinsWords(title: string)
    ensures SafeTitle(title) == Join(Words(RemoveSpecial(title)), "-")
  {
    var t := Trim(RemoveSpecial(title));
    WordsOfTrim(RemoveSpecial(title));
    TrimEnds(RemoveSpecial(title));
    HyphenateJoinsWords(t);
  }

  /** The safe title holds only word characters, Hangul syllables and '-'; in
      particular it holds no whitespace. */
  lemma SafeTitleChars(title: string)
    ensures forall c :: c in SafeTitle(title) ==> IsSlugChar(c)
  {
    TrimEnds(RemoveSpecial(title));
    HyphenateChars(Trim(RemoveSpecial(title)));
  }

  lemma {:induction false} HyphenateWithoutSpaces(s: string)
    requires forall c :: c in s ==> !IsJsSpace(c)
    ensures Hyphenate(s) == s
    decreases |s|
  {
    if s != [] {
      assert !IsJsSpace(s[0]);
      HyphenateWithoutSpaces(s[1..]);
      assert s == [s[0]] + s[1..];
    }
  }

  /** Deriving the safe title of a safe title changes nothing. */
  lemma SafeTitleIdempotent(title: string)
    ensures SafeTitle(SafeTitle(title)) == SafeTitle(title)
  {
    var r := SafeTitle(title);
    SafeTitleChars(title);
    RemoveSpecialKeepsKept(r);
    TrimWithoutSpaces(r);
    HyphenateWithoutSpaces(r);
  }
}
