/** Tweet text preprocessing (scripts/preprocessing.py): the character-level rewrites of
    `normalize_basic`, the token filters, the three pipelines and their dispatcher, and
    the short-row filter used when preparing the data set.

    Each `re.sub` is written as a left-to-right scan: at every position the pattern is
    tried; on a match the matched text is replaced by one space and scanning resumes
    after it, otherwise one character is copied. */
module Preprocessing {
  import opened Results
  import opened Sequences

  // ---------------------------------------------------------------------------
  // Character classes
  // ---------------------------------------------------------------------------

  /** Python's whitespace (`\s` in a `str` pattern, `str.isspace`, `str.split()`,
      `str.strip()`): tab to carriage return, the four ASCII separators, space, NEL,
      no-break space and the Unicode space separators, line and paragraph separators. */
  predicate IsSpace(c: char) {
    ('\t' <= c <= '\r') || ('\U{1C}' <= c <= ' ') || c == '\U{85}' || c == '\U{A0}'
    || c == '\U{1680}' || ('\U{2000}' <= c <= '\U{200A}') || c == '\U{2028}' || c == '\U{2029}'
    || c == '\U{202F}' || c == '\U{205F}' || c == '\U{3000}'
  }

  predicate IsUpper(c: char) { 'A' <= c <= 'Z' }

  /** `[a-z0-9]` */
  predicate IsLowerAlnum(c: char) { ('a' <= c <= 'z') || ('0' <= c <= '9') }

  /** `\w`, on ASCII: letters, digits and underscore. */
  predicate IsWordChar(c: char) { ('a' <= c <= 'z') || ('A' <= c <= 'Z') || ('0' <= c <= '9') || c == '_' }

  /** The characters `normalize_basic` may output. */
  predicate IsNormalChar(c: char) { IsLowerAlnum(c) || c == ' ' }

  predicate StartsWith(s: string, prefix: string) {
    |prefix| <= |s| && s[..|prefix|] == prefix
  }

  // ---------------------------------------------------------------------------
  // Runs
  // ---------------------------------------------------------------------------

  /** Length of the longest prefix of `s` with no whitespace (`\S*`). */
  function NonSpaceRun(s: string): (n: nat)
    ensures n <= |s|
    ensures n < |s| ==> IsSpace(s[n])
    decreases |s|
  {
    if s == [] || IsSpace(s[0]) then 0 else 1 + NonSpaceRun(s[1..])
  }

  /** The run `NonSpaceRun` measures holds no whitespace. */
  lemma {:induction false} NonSpaceRunIsRun(s: string)
    ensures forall i :: 0 <= i < NonSpaceRun(s) ==> !IsSpace(s[i])
    decreases |s|
  {
    if s != [] && !IsSpace(s[0]) {
      NonSpaceRunIsRun(s[1..]);
      assert forall i :: 1 <= i < |s| ==> s[i] == s[1..][i - 1];
    }
  }

  /** Length of the longest prefix of `s` made of whitespace (`\s*`). */
  function SpaceRun(s: string): (n: nat)
    ensures n <= |s|
    ensures n < |s| ==> !IsSpace(s[n])
    decreases |s|
  {
    if s != [] && IsSpace(s[0]) then 1 + SpaceRun(s[1..]) else 0
  }

  /** The run `SpaceRun` measures is all whitespace. */
  lemma {:induction false} SpaceRunIsRun(s: string)
    ensures forall i :: 0 <= i < SpaceRun(s) ==> IsSpace(s[i])
    decreases |s|
  {
    if s != [] && IsSpace(s[0]) {
      SpaceRunIsRun(s[1..]);
      assert forall i :: 1 <= i < |s| ==> s[i] == s[1..][i - 1];
    }
  }

  /** Length of the longest prefix of `s` made of word characters (`\w*`). */
  function WordRun(s: string): (n: nat)
    ensures n <= |s|
    ensures n < |s| ==> !IsWordChar(s[n])
    decreases |s|
  {
    if s != [] && IsWordChar(s[0]) then 1 + WordRun(s[1..]) else 0
  }

  /** The run `WordRun` measures is all word characters. */
  lemma {:induction false} WordRunIsRun(s: string)
    ensures forall i :: 0 <= i < WordRun(s) ==> IsWordChar(s[i])
    decreases |s|
  {
    if s != [] && IsWordChar(s[0]) {
      WordRunIsRun(s[1..]);
      assert forall i :: 1 <= i < |s| ==> s[i] == s[1..][i - 1];
    }
  }

  // ---------------------------------------------------------------------------
  // The rewrites of normalize_basic
  // ---------------------------------------------------------------------------

  /** `str.lower()` on ASCII letters. */
  function Lower(s: string): (r: string)
    ensures |r| == |s|
    ensures forall i :: 0 <= i < |r| ==> !IsUpper(r[i]) && (r[i] == s[i] || IsUpper(s[i]))
    ensures forall i :: 0 <= i < |s| && IsUpper(s[i]) ==>
              'a' <= r[i] <= 'z' && r[i] as int - 'a' as int == s[i] as int - 'A' as int
  {
    seq(|s|, i requires 0 <= i < |s| => if IsUpper(s[i]) then (s[i] as int + 32) as char else s[i])
  }

  /** Length of a match of `http\S+|www\.\S+` at the start of `s`, 0 if none: either
      prefix followed by at least one non-space character, extended greedily to the end
      of the non-space run. */
  function UrlMatch(s: string): nat {
    if (StartsWith(s, "http") || StartsWith(s, "www.")) && NonSpaceRun(s) > 4 then NonSpaceRun(s) else 0
  }

  /** No position of `s` starts a URL match. */
  ghost predicate NoUrl(s: string) {
    forall i :: 0 <= i < |s| ==> UrlMatch(s[i..]) == 0
  }

  /** `re.sub(URL_PATTERN, " ", s)` */
  function RemoveUrls(s: string): string
    decreases |s|
  {
    if s == [] then []
    else if UrlMatch(s) > 0 then " " + RemoveUrls(s[UrlMatch(s)..])
    else [s[0]] + RemoveUrls(s[1..])
  }

  /** Length of a match of `@\w+` at the start of `s`, 0 if none. */
  function MentionMatch(s: string): nat {
    if |s| >= 2 && s[0] == '@' && IsWordChar(s[1]) then 1 + WordRun(s[1..]) else 0
  }

  /** An `@` at position `i` directly followed by a word character. */
  predicate MentionAt(s: string, i: int) {
    0 <= i < |s| - 1 && s[i] == '@' && IsWordChar(s[i + 1])
  }

  /** No `@` directly followed by a word character. */
  ghost predicate NoMention(s: string) {
    forall i :: !MentionAt(s, i)
  }

  /** `re.sub(MENTION_PATTERN, " ", s)` */
  function RemoveMentions(s: string): (r: string)
    ensures s != [] ==> r != [] && (r[0] == ' ' || r[0] == s[0])
    decreases |s|
  {
    if s == [] then []
    else if MentionMatch(s) > 0 then " " + RemoveMentions(s[MentionMatch(s)..])
    else [s[0]] + RemoveMentions(s[1..])
  }

  /** An `"rt"` starting at position `i`. */
  predicate RTAt(s: string, i: int) {
    0 <= i < |s| - 1 && s[i] == 'r' && s[i + 1] == 't'
  }

  /** No `"rt"` substring. */
  ghost predicate NoRT(s: string) {
    forall i :: !RTAt(s, i)
  }

  /** `re.sub("rt", " ", s)`: every non-overlapping `"rt"`, scanning left to right,
      becomes one space. */
  function ReplaceRT(s: string): (r: string)
    ensures s != [] ==> r != [] && (r[0] == ' ' || r[0] == s[0])
    decreases |s|
  {
    if |s| >= 2 && s[0] == 'r' && s[1] == 't' then " " + ReplaceRT(s[2..])
    else if s == [] then []
    else [s[0]] + ReplaceRT(s[1..])
  }

  /** `re.sub(r"[^a-z0-9\s]", " ", s)` */
  function MaskSymbols(s: string): (r: string)
    ensures |r| == |s|
    ensures forall i :: 0 <= i < |r| ==> IsLowerAlnum(r[i]) || IsSpace(r[i])
    ensures forall i :: 0 <= i < |r| ==> r[i] == s[i] || r[i] == ' '
    ensures forall i :: 0 <= i < |s| && (IsLowerAlnum(s[i]) || IsSpace(s[i])) ==> r[i] == s[i]
  {
    seq(|s|, i requires 0 <= i < |s| => if IsLowerAlnum(s[i]) || IsSpace(s[i]) then s[i] else ' ')
  }

  /** `re.sub(r"\s+", " ", s)`: every run of whitespace becomes one space. */
  function CollapseSpaces(s: string): (r: string)
    ensures s != [] ==> r != [] && r[0] == (if IsSpace(s[0]) then ' ' else s[0])
    decreases |s|
  {
    if s == [] then []
    else if IsSpace(s[0]) then " " + CollapseSpaces(s[SpaceRun(s)..])
    else [s[0]] + CollapseSpaces(s[1..])
  }

  /** Whitespace removed from the front (`str.lstrip()`). */
  function StripLeft(s: string): (r: string)
    ensures |r| <= |s| && r == s[|s| - |r|..]
    ensures r == [] || !IsSpace(r[0])
    decreases |s|
  {
    if s != [] && IsSpace(s[0]) then StripLeft(s[1..]) else s
  }

  /** Whitespace removed from the back (`str.rstrip()`). */
  function StripRight(s: string): (r: string)
    ensures |r| <= |s| && r == s[..|r|]
    ensures r == [] || !IsSpace(r[|r| - 1])
    decreases |s|
  {
    if s != [] && IsSpace(s[|s| - 1]) then StripRight(s[..|s| - 1]) else s
  }

  /** What `lstrip` removes is whitespace. */
  lemma {:induction false} StripLeftRemovesSpace(s: string)
    ensures forall i :: 0 <= i < |s| - |StripLeft(s)| ==> IsSpace(s[i])
    decreases |s|
  {
    if s != [] && IsSpace(s[0]) {
      StripLeftRemovesSpace(s[1..]);
      assert forall i :: 1 <= i < |s| ==> s[i] == s[1..][i - 1];
    }
  }

  /** What `rstrip` removes is whitespace. */
  lemma {:induction false} StripRightRemovesSpace(s: string)
    ensures forall i :: |StripRight(s)| <= i < |s| ==> IsSpace(s[i])
    decreases |s|
  {
    if s != [] && IsSpace(s[|s| - 1]) {
      StripRightRemovesSpace(s[..|s| - 1]);
      assert forall i :: 0 <= i < |s| - 1 ==> s[i] == s[..|s| - 1][i];
    }
  }

  /** `str.strip()` */
  function Strip(s: string): string {
    StripLeft(StripRight(s))
  }

  /** Single spaces between non-space characters: no other whitespace, no space at either
      end, never two spaces in a row. */
  ghost predicate WellSpaced(s: string) {
    OnlyPlainSpaces(s) && (s != [] ==> !IsSpace(s[0]) && !IsSpace(s[|s| - 1])) && NoDoubleSpace(s)
  }

  /** The only whitespace character is ' '. */
  ghost predicate OnlyPlainSpaces(s: string) {
    forall i :: 0 <= i < |s| && IsSpace(s[i]) ==> s[i] == ' '
  }

  /** Two spaces in a row at position `i`. */
  predicate DoubleSpaceAt(s: string, i: int) {
    0 <= i < |s| - 1 && s[i] == ' ' && s[i + 1] == ' '
  }

  /** No two spaces in a row. */
  ghost predicate NoDoubleSpace(s: string) {
    forall i :: !DoubleSpaceAt(s, i)
  }

  /** Only lower-case ASCII letters, digits and ' '. */
  ghost predicate AllNormal(s: string) {
    forall i :: 0 <= i < |s| ==> IsNormalChar(s[i])
  }

  // ---------------------------------------------------------------------------
  // No rewrite joins characters: what a rewrite leaves is either copied or a space
  // ---------------------------------------------------------------------------

  /** `r` starts with the same non-space run as `s`, or a shorter part of it. */
  ghost predicate SameRunStart(r: string, s: string) {
    NonSpaceRun(r) <= NonSpaceRun(s) && r[..NonSpaceRun(r)] == s[..NonSpaceRun(r)]
  }

  lemma UrlMatchFollows(r: string, s: string)
    requires SameRunStart(r, s)
    ensures UrlMatch(r) > 0 ==> UrlMatch(s) > 0
  {
    if UrlMatch(r) > 0 {
      var k := NonSpaceRun(r);
      assert r[..4] == r[..k][..4];
      assert s[..4] == s[..k][..4];
    }
  }

  lemma ConsRunStart(c: char, r: string, s: string)
    requires SameRunStart(r, s) && !IsSpace(c)
    ensures SameRunStart([c] + r, [c] + s)
  {
    assert ([c] + r)[1..] == r;
    assert ([c] + s)[1..] == s;
    var k := NonSpaceRun(r);
    assert ([c] + r)[..k + 1] == [c] + r[..k];
    assert ([c] + s)[..k + 1] == [c] + s[..k];
  }

  lemma NoUrlCons(r: string)
    requires r != [] && UrlMatch(r) == 0 && NoUrl(r[1..])
    ensures NoUrl(r)
  {
    assert r[0..] == r;
    forall i | 1 <= i < |r|
      ensures UrlMatch(r[i..]) == 0
    {
      assert r[i..] == r[1..][i - 1..];
    }
  }

  lemma NoUrlSuffix(s: string, k: nat)
    requires NoUrl(s) && k <= |s|
    ensures NoUrl(s[k..])
  {
    forall i | 0 <= i < |s| - k
      ensures UrlMatch(s[k..][i..]) == 0
    {
      assert s[k..][i..] == s[k + i..];
    }
  }

  lemma {:induction false} RemoveUrlsRunStart(s: string)
    ensures SameRunStart(RemoveUrls(s), s)
    decreases |s|
  {
    var r := RemoveUrls(s);
    if s != [] && UrlMatch(s) == 0 && !IsSpace(s[0]) {
      RemoveUrlsRunStart(s[1..]);
      ConsRunStart(s[0], RemoveUrls(s[1..]), s[1..]);
      assert s == [s[0]] + s[1..];
    }
  }

  /** No URL survives `re.sub(URL_PATTERN, " ", s)`: the scan tries every position, and
      what it copies or inserts never forms a new match. */
  lemma {:induction false} RemoveUrlsLeavesNoUrl(s: string)
    ensures NoUrl(RemoveUrls(s))
    decreases |s|
  {
    var r := RemoveUrls(s);
    if s == [] {
    } else if UrlMatch(s) > 0 {
      RemoveUrlsLeavesNoUrl(s[UrlMatch(s)..]);
      assert r[1..] == RemoveUrls(s[UrlMatch(s)..]);
      NoUrlCons(r);
    } else {
      RemoveUrlsLeavesNoUrl(s[1..]);
      RemoveUrlsRunStart(s);
      UrlMatchFollows(r, s);
      assert r[1..] == RemoveUrls(s[1..]);
      NoUrlCons(r);
    }
  }

  lemma {:induction false} RemoveMentionsRunStart(s: string)
    ensures SameRunStart(RemoveMentions(s), s)
    decreases |s|
  {
    if s != [] && MentionMatch(s) == 0 && !IsSpace(s[0]) {
      RemoveMentionsRunStart(s[1..]);
      ConsRunStart(s[0], RemoveMentions(s[1..]), s[1..]);
      assert s == [s[0]] + s[1..];
    }
  }

  /** Removing mentions never creates a URL. */
  lemma {:induction false} RemoveMentionsKeepsNoUrl(s: string)
    requires NoUrl(s)
    ensures NoUrl(RemoveMentions(s))
    decreases |s|
  {
    var r := RemoveMentions(s);
    if s == [] {
    } else if MentionMatch(s) > 0 {
      NoUrlSuffix(s, MentionMatch(s));
      RemoveMentionsKeepsNoUrl(s[MentionMatch(s)..]);
      assert r[1..] == RemoveMentions(s[MentionMatch(s)..]);
      NoUrlCons(r);
    } else {
      NoUrlSuffix(s, 1);
      RemoveMentionsKeepsNoUrl(s[1..]);
      RemoveMentionsRunStart(s);
      UrlMatchFollows(r, s);
      assert s[0..] == s;
      assert r[1..] == RemoveMentions(s[1..]);
      NoUrlCons(r);
    }
  }

  /** No mention survives `re.sub(MENTION_PATTERN, " ", s)`. */
  lemma {:induction false} RemoveMentionsLeavesNoMention(s: string)
    ensures NoMention(RemoveMentions(s))
    decreases |s|
  {
    var r := RemoveMentions(s);
    if s == [] {
    } else {
      var k := if MentionMatch(s) > 0 then MentionMatch(s) else 1;
      var t := RemoveMentions(s[k..]);
      RemoveMentionsLeavesNoMention(s[k..]);
      assert r == [r[0]] + t;
      forall i | 0 < i < |r| - 1
        ensures !MentionAt(r, i)
      {
        assert r[i] == t[i - 1] && r[i + 1] == t[i];
        assert !MentionAt(t, i - 1);
      }
    }
  }

  lemma {:induction false} ReplaceRTRunStart(s: string)
    ensures SameRunStart(ReplaceRT(s), s)
    decreases |s|
  {
    if s != [] && !(|s| >= 2 && s[0] == 'r' && s[1] == 't') && !IsSpace(s[0]) {
      ReplaceRTRunStart(s[1..]);
      ConsRunStart(s[0], ReplaceRT(s[1..]), s[1..]);
      assert s == [s[0]] + s[1..];
    }
  }

  /** Replacing `"rt"` never creates a URL. */
  lemma {:induction false} ReplaceRTKeepsNoUrl(s: string)
    requires NoUrl(s)
    ensures NoUrl(ReplaceRT(s))
    decreases |s|
  {
    var r := ReplaceRT(s);
    if s == [] {
    } else if |s| >= 2 && s[0] == 'r' && s[1] == 't' {
      NoUrlSuffix(s, 2);
      ReplaceRTKeepsNoUrl(s[2..]);
      assert r[1..] == ReplaceRT(s[2..]);
      NoUrlCons(r);
    } else {
      NoUrlSuffix(s, 1);
      ReplaceRTKeepsNoUrl(s[1..]);
      ReplaceRTRunStart(s);
      UrlMatchFollows(r, s);
      assert s[0..] == s;
      assert r[1..] == ReplaceRT(s[1..]);
      NoUrlCons(r);
    }
  }

  /** No `"rt"` survives `re.sub("rt", " ", s)`: a copied `r` is never followed by a `t`,
      because a following `t` would have completed a match. */
  lemma {:induction false} ReplaceRTLeavesNoRT(s: string)
    ensures NoRT(ReplaceRT(s))
    decreases |s|
  {
    var r := ReplaceRT(s);
    if s != [] {
      var k := if |s| >= 2 && s[0] == 'r' && s[1] == 't' then 2 else 1;
      var t := ReplaceRT(s[k..]);
      ReplaceRTLeavesNoRT(s[k..]);
      assert r == [r[0]] + t;
      forall i | 0 < i < |r| - 1
        ensures !RTAt(r, i)
      {
        assert r[i] == t[i - 1] && r[i + 1] == t[i];
        assert !RTAt(t, i - 1);
      }
    }
  }

  /** A string that changes only by turning characters into spaces keeps the start of
      each non-space run. */
  lemma {:induction false} BlankingRunStart(r: string, s: string)
    requires |r| == |s| && forall i :: 0 <= i < |r| ==> r[i] == s[i] || r[i] == ' '
    ensures SameRunStart(r, s)
    decreases |s|
  {
    if r != [] && !IsSpace(r[0]) {
      BlankingRunStart(r[1..], s[1..]);
      ConsRunStart(r[0], r[1..], s[1..]);
      assert r == [r[0]] + r[1..] && s == [s[0]] + s[1..];
    }
  }

  /** Masking symbols never creates a URL, an `"rt"` or a mention. */
  lemma MaskSymbolsKeeps(s: string)
    ensures NoUrl(s) ==> NoUrl(MaskSymbols(s))
    ensures NoRT(s) ==> NoRT(MaskSymbols(s))
    ensures NoMention(s) ==> NoMention(MaskSymbols(s))
  {
    var r := MaskSymbols(s);
    if NoUrl(s) {
      forall i | 0 <= i < |r|
        ensures UrlMatch(r[i..]) == 0
      {
        BlankingRunStart(r[i..], s[i..]);
        UrlMatchFollows(r[i..], s[i..]);
      }
    }
    if NoRT(s) {
      forall i | 0 <= i < |r| - 1
        ensures !RTAt(r, i)
      {
        assert !RTAt(s, i);
      }
    }
    if NoMention(s) {
      forall i | 0 <= i < |r| - 1
        ensures !MentionAt(r, i)
      {
        assert !MentionAt(s, i);
      }
    }
  }

  lemma {:induction false} CollapseRunStart(s: string)
    ensures SameRunStart(CollapseSpaces(s), s)
    decreases |s|
  {
    if s != [] && !IsSpace(s[0]) {
      CollapseRunStart(s[1..]);
      ConsRunStart(s[0], CollapseSpaces(s[1..]), s[1..]);
      assert s == [s[0]] + s[1..];
    }
  }

  /** After collapsing, every whitespace character is a plain ' ' and no two spaces are
      adjacent: each run of whitespace became exactly one ' '. */
  lemma {:induction false} CollapseSpacesSingle(s: string)
    ensures OnlyPlainSpaces(CollapseSpaces(s))
    ensures NoDoubleSpace(CollapseSpaces(s))
    decreases |s|
  {
    var r := CollapseSpaces(s);
    if s != [] {
      var k := if IsSpace(s[0]) then SpaceRun(s) else 1;
      var t := CollapseSpaces(s[k..]);
      CollapseSpacesSingle(s[k..]);
      assert r == [r[0]] + t;
      assert t != [] ==> t[0] == ' ' || t[0] == s[k];
      forall i | 0 < i < |r| - 1
        ensures !DoubleSpaceAt(r, i)
      {
        assert r[i] == t[i - 1] && r[i + 1] == t[i];
        assert !DoubleSpaceAt(t, i - 1);
      }
    }
  }

  /** Collapsing whitespace never creates a URL. */
  lemma {:induction false} CollapseSpacesKeepsNoUrl(s: string)
    requires NoUrl(s)
    ensures NoUrl(CollapseSpaces(s))
    decreases |s|
  {
    var r := CollapseSpaces(s);
    if s != [] {
      var k := if IsSpace(s[0]) then SpaceRun(s) else 1;
      NoUrlSuffix(s, k);
      CollapseSpacesKeepsNoUrl(s[k..]);
      CollapseRunStart(s);
      UrlMatchFollows(r, s);
      assert s[0..] == s;
      assert r[1..] == CollapseSpaces(s[k..]);
      NoUrlCons(r);
    }
  }

  /** Collapsing whitespace never creates an `"rt"` or a mention: it only shortens runs of
      whitespace, so two non-space characters are adjacent afterwards only if they were
      before. */
  lemma {:induction false} CollapseSpacesKeepsPairs(s: string)
    ensures NoRT(s) ==> NoRT(CollapseSpaces(s))
    ensures NoMention(s) ==> NoMention(CollapseSpaces(s))
    decreases |s|
  {
    var r := CollapseSpaces(s);
    if s != [] {
      var k := if IsSpace(s[0]) then SpaceRun(s) else 1;
      var t := CollapseSpaces(s[k..]);
      CollapseSpacesKeepsPairs(s[k..]);
      SuffixKeepsPairs(s, k);
      assert r == [r[0]] + t;
      assert t != [] ==> t[0] == ' ' || t[0] == s[k];
      if NoRT(s) {
        forall i | 0 <= i < |r| - 1
          ensures !RTAt(r, i)
        {
          if i == 0 {
            assert !RTAt(s, 0);
          } else {
            assert r[i] == t[i - 1] && r[i + 1] == t[i];
            assert !RTAt(t, i - 1);
          }
        }
      }
      if NoMention(s) {
        forall i | 0 <= i < |r| - 1
          ensures !MentionAt(r, i)
        {
          if i == 0 {
            assert !MentionAt(s, 0);
          } else {
            assert r[i] == t[i - 1] && r[i + 1] == t[i];
            assert !MentionAt(t, i - 1);
          }
        }
      }
    }
  }

  /** Collapsing whitespace in lower-case alphanumerics and whitespace leaves lower-case
      alphanumerics and ' '. */
  lemma {:induction false} CollapseSpacesNormal(s: string)
    requires forall i :: 0 <= i < |s| ==> IsLowerAlnum(s[i]) || IsSpace(s[i])
    ensures AllNormal(CollapseSpaces(s))
    decreases |s|
  {
    var r := CollapseSpaces(s);
    if s != [] {
      var k := if IsSpace(s[0]) then SpaceRun(s) else 1;
      var t := CollapseSpaces(s[k..]);
      CollapseSpacesNormal(s[k..]);
      assert r == [r[0]] + t;
      assert forall i :: 1 <= i < |r| ==> r[i] == t[i - 1];
    }
  }

  /** `str.strip()` returns a contiguous slice of its argument. */
  lemma StripIsSlice(s: string)
    ensures |Strip(s)| <= |StripRight(s)| <= |s|
    ensures Strip(s) == s[|StripRight(s)| - |Strip(s)|..|StripRight(s)|]
  {
    var m := StripRight(s);
    var r := StripLeft(m);
    var a := |m| - |r|;
    forall i | 0 <= i < |r|
      ensures r[i] == s[a..|m|][i]
    {
      assert r[i] == m[a + i];
    }
  }

  /** Where `Strip` cuts its argument. */
  lemma StripBounds(s: string) returns (a: nat, b: nat)
    ensures a <= b <= |s| && Strip(s) == s[a..b]
  {
    StripIsSlice(s);
    a, b := |StripRight(s)| - |Strip(s)|, |StripRight(s)|;
  }

  /** Cutting text short keeps the start of its first run. */
  lemma {:induction false} PrefixRunStart(u: string, n: nat)
    requires n <= |u|
    ensures SameRunStart(u[..n], u)
    decreases n
  {
    if n > 0 && !IsSpace(u[0]) {
      PrefixRunStart(u[1..], n - 1);
      assert u[..n] == [u[0]] + u[1..][..n - 1];
      assert u == [u[0]] + u[1..];
      ConsRunStart(u[0], u[1..][..n - 1], u[1..]);
    }
  }

  /** A slice of URL-free text is URL-free: cutting text short only shortens runs. */
  lemma SliceNoUrl(s: string, a: nat, b: nat)
    requires a <= b <= |s| && NoUrl(s)
    ensures NoUrl(s[a..b])
  {
    forall i | 0 <= i < b - a
      ensures UrlMatch(s[a..b][i..]) == 0
    {
      var u := s[a + i..];
      var n := b - a - i;
      assert s[a..b][i..] == u[..n];
      PrefixRunStart(u, n);
      UrlMatchFollows(u[..n], u);
    }
  }

  /** A slice has no adjacent pair its text did not have. */
  lemma SliceKeepsPairs(s: string, a: nat, b: nat)
    requires a <= b <= |s|
    ensures NoRT(s) ==> NoRT(s[a..b])
    ensures NoMention(s) ==> NoMention(s[a..b])
    ensures NoDoubleSpace(s) ==> NoDoubleSpace(s[a..b])
  {
    if NoRT(s) {
      forall i | 0 <= i < b - a - 1
        ensures !RTAt(s[a..b], i)
      {
        assert !RTAt(s, a + i);
      }
    }
    if NoMention(s) {
      forall i | 0 <= i < b - a - 1
        ensures !MentionAt(s[a..b], i)
      {
        assert !MentionAt(s, a + i);
      }
    }
    if NoDoubleSpace(s) {
      forall i | 0 <= i < b - a - 1
        ensures !DoubleSpaceAt(s[a..b], i)
      {
        assert !DoubleSpaceAt(s, a + i);
      }
    }
  }

  /** A suffix has no adjacent pair its text did not have. */
  lemma SuffixKeepsPairs(s: string, k: nat)
    requires k <= |s|
    ensures NoRT(s) ==> NoRT(s[k..])
    ensures NoMention(s) ==> NoMention(s[k..])
    ensures NoDoubleSpace(s) ==> NoDoubleSpace(s[k..])
  {
    assert s[k..] == s[k..|s|];
    SliceKeepsPairs(s, k, |s|);
  }

  /** A slice has no character its text did not have. */
  lemma SliceKeepsChars(s: string, a: nat, b: nat)
    requires a <= b <= |s|
    ensures AllNormal(s) ==> AllNormal(s[a..b])
    ensures OnlyPlainSpaces(s) ==> OnlyPlainSpaces(s[a..b])
  {
    assert forall i :: 0 <= i < b - a ==> s[a..b][i] == s[a + i];
  }

  /** What `str.strip()` returns neither starts nor ends with whitespace. */
  lemma StripEnds(s: string)
    ensures Strip(s) == [] || (!IsSpace(Strip(s)[0]) && !IsSpace(Strip(s)[|Strip(s)| - 1]))
  {
    var m := StripRight(s);
    var r := StripLeft(m);
    if r != [] {
      assert r[|r| - 1] == m[|m| - 1];
    }
  }

  /** Stripping text whose whitespace is single ' ' characters leaves it well spaced. */
  lemma StripWellSpaced(s: string)
    requires OnlyPlainSpaces(s) && NoDoubleSpace(s)
    ensures WellSpaced(Strip(s))
  {
    StripEnds(s);
    var a, b := StripBounds(s);
    assert OnlyPlainSpaces(s[a..b]) by { SliceKeepsChars(s, a, b); }
    assert NoDoubleSpace(s[a..b]) by { SliceKeepsPairs(s, a, b); }
  }

  /** Stripping keeps every absence the text already had. */
  lemma StripKeeps(s: string)
    ensures NoUrl(s) ==> NoUrl(Strip(s))
    ensures NoRT(s) ==> NoRT(Strip(s))
    ensures NoMention(s) ==> NoMention(Strip(s))
    ensures AllNormal(s) ==> AllNormal(Strip(s))
  {
    var a, b := StripBounds(s);
    if NoUrl(s) {
      assert NoUrl(s[a..b]) by { SliceNoUrl(s, a, b); }
    }
    assert NoRT(s) ==> NoRT(s[a..b]) by { SliceKeepsPairs(s, a, b); }
    assert NoMention(s) ==> NoMention(s[a..b]) by { SliceKeepsPairs(s, a, b); }
    assert AllNormal(s) ==> AllNormal(s[a..b]) by { SliceKeepsChars(s, a, b); }
  }

  // ---------------------------------------------------------------------------
  // Each rewrite leaves text that already has its property unchanged
  // ---------------------------------------------------------------------------

  lemma LowerIdentity(s: string)
    requires forall i :: 0 <= i < |s| ==> !IsUpper(s[i])
    ensures Lower(s) == s
  {
  }

  lemma {:induction false} RemoveUrlsIdentity(s: string)
    requires NoUrl(s)
    ensures RemoveUrls(s) == s
    decreases |s|
  {
    if s != [] {
      assert s[0..] == s;
      NoUrlSuffix(s, 1);
      RemoveUrlsIdentity(s[1..]);
      assert s == [s[0]] + s[1..];
    }
  }

  lemma {:induction false} RemoveMentionsIdentity(s: string)
    requires NoMention(s)
    ensures RemoveMentions(s) == s
    decreases |s|
  {
    if s != [] {
      assert !MentionAt(s, 0);
      SuffixKeepsPairs(s, 1);
      RemoveMentionsIdentity(s[1..]);
      assert s == [s[0]] + s[1..];
    }
  }

  lemma {:induction false} ReplaceRTIdentity(s: string)
    requires NoRT(s)
    ensures ReplaceRT(s) == s
    decreases |s|
  {
    if s != [] {
      assert !RTAt(s, 0);
      SuffixKeepsPairs(s, 1);
      ReplaceRTIdentity(s[1..]);
      assert s == [s[0]] + s[1..];
    }
  }

  lemma MaskSymbolsIdentity(s: string)
    requires forall i :: 0 <= i < |s| ==> IsLowerAlnum(s[i]) || IsSpace(s[i])
    ensures MaskSymbols(s) == s
  {
  }

  /** In text with plain, single spaces a run of whitespace is one character long. */
  lemma SingleSpaceRun(s: string)
    requires s != [] && IsSpace(s[0]) && OnlyPlainSpaces(s) && NoDoubleSpace(s)
    ensures SpaceRun(s) == 1
  {
    if |s| > 1 {
      assert !DoubleSpaceAt(s, 0);
      assert !IsSpace(s[1]);
      assert s[1..][0] == s[1];
    }
    assert SpaceRun(s[1..]) == 0;
  }

  lemma {:induction false} CollapseSpacesIdentity(s: string)
    requires OnlyPlainSpaces(s) && NoDoubleSpace(s)
    ensures CollapseSpaces(s) == s
    decreases |s|
  {
    if s != [] {
      if IsSpace(s[0]) {
        SingleSpaceRun(s);
      }
      SuffixKeepsPairs(s, 1);
      assert s[1..] == s[1..|s|];
      SliceKeepsChars(s, 1, |s|);
      CollapseSpacesIdentity(s[1..]);
      assert s == [s[0]] + s[1..];
    }
  }

  lemma StripIdentity(s: string)
    requires s == [] || (!IsSpace(s[0]) && !IsSpace(s[|s| - 1]))
    ensures Strip(s) == s
  {
  }

  // ---------------------------------------------------------------------------
  // normalize_basic and preprocess_bert
  // ---------------------------------------------------------------------------

  /** The first four rewrites of `normalize_basic` leave no URL and no `"rt"`. */
  lemma NoiseRemoved(text: string)
    ensures NoUrl(ReplaceRT(RemoveMentions(RemoveUrls(Lower(text)))))
    ensures NoRT(ReplaceRT(RemoveMentions(RemoveUrls(Lower(text)))))
  {
    var t2 := RemoveUrls(Lower(text));
    RemoveUrlsLeavesNoUrl(Lower(text));
    RemoveMentionsKeepsNoUrl(t2);
    ReplaceRTKeepsNoUrl(RemoveMentions(t2));
    ReplaceRTLeavesNoRT(RemoveMentions(t2));
  }

  /** Masking and collapsing then leave lower-case alphanumerics and single spaces. */
  lemma MaskedAndCollapsed(t4: string)
    requires NoUrl(t4) && NoRT(t4)
    ensures NoUrl(CollapseSpaces(MaskSymbols(t4))) && NoRT(CollapseSpaces(MaskSymbols(t4)))
    ensures AllNormal(CollapseSpaces(MaskSymbols(t4)))
    ensures OnlyPlainSpaces(CollapseSpaces(MaskSymbols(t4))) && NoDoubleSpace(CollapseSpaces(MaskSymbols(t4)))
  {
    var t5 := MaskSymbols(t4);
    MaskSymbolsKeeps(t4);
    CollapseSpacesSingle(t5);
    CollapseSpacesKeepsNoUrl(t5);
    CollapseSpacesKeepsPairs(t5);
    CollapseSpacesNormal(t5);
  }

  /** `normalize_basic`: lower-case, drop URLs, mentions and every `"rt"`, blank all other
      symbols, then collapse whitespace and strip. What comes out is lower-case letters and
      digits separated by single spaces, with no URL and no `"rt"` left in it. */
  function NormalizeBasic(text: string): (r: string)
    ensures AllNormal(r)
    ensures WellSpaced(r)
    ensures NoUrl(r) && NoRT(r) && NoMention(r)
  {
    NormalizeBasicShape(text);
    Strip(CollapseSpaces(MaskSymbols(ReplaceRT(RemoveMentions(RemoveUrls(Lower(text)))))))
  }

  lemma NormalizeBasicShape(text: string)
    ensures var r := Strip(CollapseSpaces(MaskSymbols(ReplaceRT(RemoveMentions(RemoveUrls(Lower(text)))))));
            AllNormal(r) && WellSpaced(r) && NoUrl(r) && NoRT(r) && NoMention(r)
  {
    var t4 := ReplaceRT(RemoveMentions(RemoveUrls(Lower(text))));
    var t6 := CollapseSpaces(MaskSymbols(t4));
    assert NoUrl(t4) && NoRT(t4) by { NoiseRemoved(text); }
    assert AllNormal(t6) && NoUrl(t6) && NoRT(t6) && OnlyPlainSpaces(t6) && NoDoubleSpace(t6) by {
      MaskedAndCollapsed(t4);
    }
    StripWellSpaced(t6);
    StripKeeps(t6);
    NormalHasNoMention(Strip(t6));
  }

  /** Text of lower-case letters, digits and spaces holds no `@`, so no mention. */
  lemma NormalHasNoMention(r: string)
    requires AllNormal(r)
    ensures NoMention(r)
  {
    forall i | 0 <= i < |r| - 1
      ensures !MentionAt(r, i)
    {
      assert IsNormalChar(r[i]);
    }
  }

  /** Text already in the shape `normalize_basic` produces is left unchanged by it. */
  lemma NormalizeBasicFixes(r: string)
    requires AllNormal(r)
    requires WellSpaced(r) && NoUrl(r) && NoRT(r)
    ensures NormalizeBasic(r) == r
  {
    NoiseStepsFix(r);
    LayoutStepsFix(r);
  }

  lemma NoiseStepsFix(r: string)
    requires AllNormal(r)
    requires NoUrl(r) && NoRT(r)
    ensures ReplaceRT(RemoveMentions(RemoveUrls(Lower(r)))) == r
  {
    assert Lower(r) == r by { LowerIdentity(r); }
    assert RemoveUrls(r) == r by { RemoveUrlsIdentity(r); }
    assert RemoveMentions(r) == r by {
      NormalHasNoMention(r);
      RemoveMentionsIdentity(r);
    }
    ReplaceRTIdentity(r);
  }

  lemma LayoutStepsFix(r: string)
    requires AllNormal(r)
    requires WellSpaced(r)
    ensures Strip(CollapseSpaces(MaskSymbols(r))) == r
  {
    MaskSymbolsIdentity(r);
    CollapseSpacesIdentity(r);
    StripIdentity(r);
  }

  /** Normalising twice is normalising once. */
  lemma NormalizeBasicIdempotent(text: string)
    ensures NormalizeBasic(NormalizeBasic(text)) == NormalizeBasic(text)
  {
    NormalizeBasicFixes(NormalizeBasic(text));
  }

  /** `preprocess_bert`: drop URLs and mentions and collapse whitespace, keeping case and
      punctuation. */
  function PreprocessBert(text: string): (r: string)
    ensures WellSpaced(r)
    ensures NoUrl(r) && NoMention(r)
  {
    var t1 := RemoveUrls(text);
    var t2 := RemoveMentions(t1);
    var t3 := CollapseSpaces(t2);
    RemoveUrlsLeavesNoUrl(text);
    RemoveMentionsKeepsNoUrl(t1);
    RemoveMentionsLeavesNoMention(t1);
    CollapseSpacesSingle(t2);
    CollapseSpacesKeepsNoUrl(t2);
    CollapseSpacesKeepsPairs(t2);
    StripWellSpaced(t3);
    StripKeeps(t3);
    Strip(t3)
  }

  /** Every character of `r` is a space or a character of `s`. */
  ghost predicate CharsFrom(r: string, s: string) {
    forall c :: c in r ==> c == ' ' || c in s
  }

  /** A suffix has no character its text did not have. */
  lemma SuffixCharsFrom(s: string, k: nat)
    requires k <= |s|
    ensures CharsFrom(s[k..], s)
  {
    forall c | c in s[k..]
      ensures c in s
    {
      var i :| 0 <= i < |s[k..]| && s[k..][i] == c;
      assert s[k + i] == c;
    }
  }

  /** Replacing URLs by a space brings in no other character. */
  lemma {:induction false} RemoveUrlsCharsFrom(s: string)
    ensures CharsFrom(RemoveUrls(s), s)
    decreases |s|
  {
    if s != [] {
      var k := if UrlMatch(s) > 0 then UrlMatch(s) else 1;
      RemoveUrlsCharsFrom(s[k..]);
      SuffixCharsFrom(s, k);
    }
  }

  /** Replacing mentions by a space brings in no other character. */
  lemma {:induction false} RemoveMentionsCharsFrom(s: string)
    ensures CharsFrom(RemoveMentions(s), s)
    decreases |s|
  {
    if s != [] {
      var k := if MentionMatch(s) > 0 then MentionMatch(s) else 1;
      RemoveMentionsCharsFrom(s[k..]);
      SuffixCharsFrom(s, k);
    }
  }

  /** Collapsing whitespace brings in no character but the space. */
  lemma {:induction false} CollapseSpacesCharsFrom(s: string)
    ensures CharsFrom(CollapseSpaces(s), s)
    decreases |s|
  {
    if s != [] {
      var k := if IsSpace(s[0]) then SpaceRun(s) else 1;
      SpaceRunIsRun(s);
      CollapseSpacesCharsFrom(s[k..]);
      SuffixCharsFrom(s, k);
    }
  }

  /** `str.strip()` brings in no character. */
  lemma StripCharsFrom(s: string)
    ensures CharsFrom(Strip(s), s)
  {
    var a, b := StripBounds(s);
    forall c | c in s[a..b]
      ensures c in s
    {
      var i :| 0 <= i < b - a && s[a..b][i] == c;
      assert s[a + i] == c;
    }
  }

  lemma CharsFromTrans(r: string, s: string, t: string)
    requires CharsFrom(r, s) && CharsFrom(s, t)
    ensures CharsFrom(r, t)
  {
  }

  /** `preprocess_bert` only removes text or writes spaces: every character it returns is a
      space or a character of its input. */
  lemma PreprocessBertKeepsChars(text: string)
    ensures forall c :: c in PreprocessBert(text) ==> c == ' ' || c in text
  {
    var t1 := RemoveUrls(text);
    var t2 := RemoveMentions(t1);
    var t3 := CollapseSpaces(t2);
    RemoveUrlsCharsFrom(text);
    RemoveMentionsCharsFrom(t1);
    CharsFromTrans(t2, t1, text);
    CollapseSpacesCharsFrom(t2);
    CharsFromTrans(t3, t2, text);
    StripCharsFrom(t3);
    CharsFromTrans(Strip(t3), t3, text);
  }

  /** Text already in the shape `preprocess_bert` produces is left unchanged by it. */
  lemma PreprocessBertFixes(r: string)
    requires WellSpaced(r) && NoUrl(r) && NoMention(r)
    ensures PreprocessBert(r) == r
  {
    assert RemoveUrls(r) == r by { RemoveUrlsIdentity(r); }
    assert RemoveMentions(r) == r by { RemoveMentionsIdentity(r); }
    assert CollapseSpaces(r) == r by { CollapseSpacesIdentity(r); }
    assert Strip(r) == r by { StripIdentity(r); }
  }

  /** Preprocessing for BERT twice is preprocessing once. */
  lemma PreprocessBertIdempotent(text: string)
    ensures PreprocessBert(PreprocessBert(text)) == PreprocessBert(text)
  {
    PreprocessBertFixes(PreprocessBert(text));
  }

  // ---------------------------------------------------------------------------
  // str.split() and " ".join
  // ---------------------------------------------------------------------------

  /** A word of `str.split()`: non-empty, without whitespace. */
  ghost predicate IsToken(w: string) {
    w != [] && forall i :: 0 <= i < |w| ==> !IsSpace(w[i])
  }

  /** `s.split()`: the maximal whitespace-free runs of `s`, in order. */
  function Words(s: string): seq<string>
    decreases |s|
  {
    if s == [] then []
    else if IsSpace(s[0]) then Words(s[1..])
    else [s[..NonSpaceRun(s)]] + Words(s[NonSpaceRun(s)..])
  }

  /** `" ".join(ts)` */
  function JoinWords(ts: seq<string>): string
    decreases |ts|
  {
    if ts == [] then ""
    else if |ts| == 1 then ts[0]
    else ts[0] + " " + JoinWords(ts[1..])
  }

  lemma WordsAtWord(s: string)
    requires s != [] && !IsSpace(s[0])
    ensures Words(s) == [s[..NonSpaceRun(s)]] + Words(s[NonSpaceRun(s)..])
  {
  }

  /** Every word `str.split()` returns is non-empty and free of whitespace. */
  lemma {:induction false} WordsAreTokens(s: string)
    ensures forall k :: 0 <= k < |Words(s)| ==> IsToken(Words(s)[k])
    decreases |s|
  {
    if s != [] {
      if IsSpace(s[0]) {
        WordsAreTokens(s[1..]);
      } else {
        var n := NonSpaceRun(s);
        WordsAreTokens(s[n..]);
        assert Words(s) == [s[..n]] + Words(s[n..]);
        NonSpaceRunIsRun(s);
        assert IsToken(s[..n]);
      }
    }
  }

  lemma {:induction false} TokenRun(w: string, rest: string)
    requires IsToken(w) && (rest == [] || IsSpace(rest[0]))
    ensures NonSpaceRun(w + rest) == |w|
    decreases |w|
  {
    assert (w + rest)[1..] == w[1..] + rest;
    if |w| > 1 {
      TokenRun(w[1..], rest);
    }
  }

  lemma WordsOfTokenThen(w: string, rest: string)
    requires IsToken(w) && (rest == [] || IsSpace(rest[0]))
    ensures Words(w + rest) == [w] + Words(rest)
  {
    TokenRun(w, rest);
    assert (w + rest)[..|w|] == w;
    assert (w + rest)[|w|..] == rest;
  }

  /** A join of words starts with the first character of the first word. */
  lemma JoinWordsStartsWithToken(ts: seq<string>)
    requires ts != [] && IsToken(ts[0])
    ensures JoinWords(ts) != [] && JoinWords(ts)[0] == ts[0][0]
  {
  }

  /** Splitting a join of words gives the words back. */
  lemma {:induction false} WordsJoinWords(ts: seq<string>)
    requires forall k :: 0 <= k < |ts| ==> IsToken(ts[k])
    ensures Words(JoinWords(ts)) == ts
    decreases |ts|
  {
    if ts == [] {
    } else if |ts| == 1 {
      WordsOfTokenThen(ts[0], "");
      assert ts[0] + "" == ts[0];
    } else {
      var rest := JoinWords(ts[1..]);
      WordsJoinWords(ts[1..]);
      assert rest != [] && !IsSpace(rest[0]) by {
        JoinWordsStartsWithToken(ts[1..]);
      }
      WordsOfWordSpace(ts[0], rest);
      assert ts == [ts[0]] + ts[1..];
    }
  }

  /** In well-spaced text a whitespace character is a single ' ' between two non-space
      characters, and what follows it is well spaced. */
  lemma WellSpacedAfterSpace(s: string, n: nat)
    requires WellSpaced(s) && n < |s| && IsSpace(s[n])
    ensures 0 < n && n + 1 < |s| && s[n] == ' ' && !IsSpace(s[n + 1])
    ensures WellSpaced(s[n + 1..])
  {
    assert !DoubleSpaceAt(s, n);
    assert WellSpaced(s[n + 1..]) by {
      assert s[n + 1..] == s[n + 1..|s|];
      SliceKeepsPairs(s, n + 1, |s|);
      SliceKeepsChars(s, n + 1, |s|);
    }
  }

  /** In well-spaced text the first word is followed, if by anything, by one space and
      more well-spaced text. */
  lemma WellSpacedAfterWord(s: string)
    requires WellSpaced(s) && NonSpaceRun(s) < |s|
    ensures NonSpaceRun(s) + 1 < |s| && s[NonSpaceRun(s)] == ' ' && !IsSpace(s[NonSpaceRun(s) + 1])
    ensures WellSpaced(s[NonSpaceRun(s) + 1..])
  {
    WellSpacedAfterSpace(s, NonSpaceRun(s));
  }

  /** Splitting a word, one space and text that starts with another word. */
  lemma WordsOfWordSpace(w: string, rest: string)
    requires IsToken(w) && rest != [] && !IsSpace(rest[0])
    ensures Words(w + " " + rest) == [w] + Words(rest)
    ensures Words(rest) != []
  {
    assert Words(" " + rest) == Words(rest) by {
      assert (" " + rest)[1..] == rest;
    }
    WordsOfTokenThen(w, " " + rest);
    assert w + " " + rest == w + (" " + rest);
    WordsAtWord(rest);
  }

  /** Joining a word with at least one more. */
  lemma JoinWordsCons(w: string, ws: seq<string>)
    requires ws != []
    ensures JoinWords([w] + ws) == w + " " + JoinWords(ws)
  {
    assert ([w] + ws)[1..] == ws;
  }

  /** Joining the words of well-spaced text gives the text back. */
  lemma {:induction false} JoinWordsWords(s: string)
    requires WellSpaced(s)
    ensures JoinWords(Words(s)) == s
    decreases |s|
  {
    if s != [] {
      var n := NonSpaceRun(s);
      if n == |s| {
        assert Words(s) == [s] by {
          NonSpaceRunIsRun(s);
          WordsOfTokenThen(s, "");
          assert s + "" == s;
        }
      } else {
        var w, rest := s[..n], s[n + 1..];
        WellSpacedAfterWord(s);
        assert s == w + " " + rest;
        assert IsToken(w) by {
          NonSpaceRunIsRun(s);
        }
        WordsOfWordSpace(w, rest);
        JoinWordsWords(rest);
        JoinWordsCons(w, Words(rest));
      }
    }
  }

  // ---------------------------------------------------------------------------
  // What the rewrites keep: text before the first URL, mention or "rt" is copied, no
  // match crosses a whitespace character, and whitespace rewrites keep the words
  // ---------------------------------------------------------------------------

  /** Whitespace ends a run of non-space characters. */
  lemma {:induction false} NonSpaceRunBeforeSpace(u: string, c: char, v: string)
    requires IsSpace(c)
    ensures NonSpaceRun(u + [c] + v) == NonSpaceRun(u)
    decreases |u|
  {
    if u != [] && !IsSpace(u[0]) {
      assert (u + [c] + v)[1..] == u[1..] + [c] + v;
      NonSpaceRunBeforeSpace(u[1..], c, v);
    }
  }

  /** Whitespace ends a run of word characters. */
  lemma {:induction false} WordRunBeforeSpace(u: string, c: char, v: string)
    requires IsSpace(c)
    ensures WordRun(u + [c] + v) == WordRun(u)
    decreases |u|
  {
    if u != [] && IsWordChar(u[0]) {
      assert (u + [c] + v)[1..] == u[1..] + [c] + v;
      WordRunBeforeSpace(u[1..], c, v);
    }
  }

  /** A URL match at the front of `u` does not reach past a following whitespace. */
  lemma UrlMatchBeforeSpace(u: string, c: char, v: string)
    requires IsSpace(c)
    ensures UrlMatch(u + [c] + v) == UrlMatch(u)
  {
    NonSpaceRunBeforeSpace(u, c, v);
    if NonSpaceRun(u) > 4 {
      assert (u + [c] + v)[..4] == u[..4];
    }
  }

  /** A mention at the front of `u` does not reach past a following whitespace. */
  lemma MentionMatchBeforeSpace(u: string, c: char, v: string)
    requires IsSpace(c)
    ensures MentionMatch(u + [c] + v) == MentionMatch(u)
  {
    if |u| >= 2 {
      assert (u + [c] + v)[1..] == u[1..] + [c] + v;
      WordRunBeforeSpace(u[1..], c, v);
    }
  }

  /** Proof step only: the URL rewrite's body unfolded once, a space for a URL,
      otherwise the first character. */
  function UrlStep(s: string): (k: nat)
    requires s != []
    ensures 1 <= k <= |s|
  {
    if UrlMatch(s) > 0 then UrlMatch(s) else 1
  }

  /** Proof step only: the URL rewrite's body unfolded once. */
  lemma RemoveUrlsStep(s: string)
    requires s != []
    ensures RemoveUrls(s) == (if UrlMatch(s) > 0 then " " else [s[0]]) + RemoveUrls(s[UrlStep(s)..])
  {
  }

  /** Dropping a prefix of `u` from `u + w + v`. */
  lemma DropBefore(u: string, w: string, v: string, k: nat)
    requires k <= |u|
    ensures (u + w + v)[k..] == u[k..] + w + v
  {
  }

  lemma Reassociate(h: string, a: string, w: string, b: string)
    ensures h + (a + w + b) == (h + a) + w + b
  {
  }

  lemma ConsBeforeSpace(u: string, r: string)
    requires u != []
    ensures [u[0]] + (u[1..] + " " + r) == u + " " + r
  {
    assert u == [u[0]] + u[1..];
  }

  /** A URL-free prefix stays URL-free after its first character is taken off. */
  lemma UrlFreeShift(u: string, v: string)
    requires u != [] && forall i :: 0 <= i < |u| ==> UrlMatch((u + v)[i..]) == 0
    ensures UrlMatch(u + v) == 0 && (u + v)[1..] == u[1..] + v
    ensures forall i :: 0 <= i < |u| - 1 ==> UrlMatch((u[1..] + v)[i..]) == 0
  {
    assert (u + v)[0..] == u + v;
    forall i | 0 <= i < |u| - 1
      ensures UrlMatch((u[1..] + v)[i..]) == 0
    {
      assert (u[1..] + v)[i..] == (u + v)[i + 1..];
    }
  }

  /** A mention-free prefix stays mention-free after its first character is taken off. */
  lemma MentionFreeShift(u: string, v: string)
    requires u != [] && forall i :: 0 <= i < |u| ==> MentionMatch((u + v)[i..]) == 0
    ensures MentionMatch(u + v) == 0 && (u + v)[1..] == u[1..] + v
    ensures forall i :: 0 <= i < |u| - 1 ==> MentionMatch((u[1..] + v)[i..]) == 0
  {
    assert (u + v)[0..] == u + v;
    forall i | 0 <= i < |u| - 1
      ensures MentionMatch((u[1..] + v)[i..]) == 0
    {
      assert (u[1..] + v)[i..] == (u + v)[i + 1..];
    }
  }

  /** The URL rewrite works on each side of a whitespace character separately, and
      keeps that character. */
  lemma {:induction false} RemoveUrlsAtSpace(u: string, c: char, v: string)
    requires IsSpace(c)
    ensures RemoveUrls(u + [c] + v) == RemoveUrls(u) + [c] + RemoveUrls(v)
    decreases |u|
  {
    var s := u + [c] + v;
    UrlMatchBeforeSpace(u, c, v);
    RemoveUrlsStep(s);
    if u == [] {
      assert s == [c] + v && s[1..] == v;
    } else {
      var k := UrlStep(u);
      RemoveUrlsStep(u);
      assert s[0] == u[0];
      DropBefore(u, [c], v, k);
      RemoveUrlsAtSpace(u[k..], c, v);
      Reassociate(if UrlMatch(u) > 0 then " " else [u[0]], RemoveUrls(u[k..]), [c], RemoveUrls(v));
    }
  }

  /** Text before the first URL is copied unchanged, the URL (the whole non-space run it
      starts) becomes one space, and the rewrite goes on after it. With
      `RemoveUrlsIdentity` this fixes the rewrite on every input. */
  lemma {:induction false} RemoveUrlsFirstUrl(u: string, v: string)
    requires forall i :: 0 <= i < |u| ==> UrlMatch((u + v)[i..]) == 0
    requires UrlMatch(v) > 0
    ensures RemoveUrls(u + v) == u + " " + RemoveUrls(v[NonSpaceRun(v)..])
    decreases |u|
  {
    var s := u + v;
    var rest := RemoveUrls(v[NonSpaceRun(v)..]);
    if u == [] {
      assert s == v;
      RemoveUrlsStep(v);
      assert u + " " + rest == " " + rest;
    } else {
      UrlFreeShift(u, v);
      RemoveUrlsStep(s);
      RemoveUrlsFirstUrl(u[1..], v);
      ConsBeforeSpace(u, rest);
    }
  }

  /** Proof step only: how far the mention rewrite's body advances. */
  function MentionStep(s: string): (k: nat)
    requires s != []
    ensures 1 <= k <= |s|
  {
    if MentionMatch(s) > 0 then MentionMatch(s) else 1
  }

  /** Proof step only: the mention rewrite's body unfolded once, a space for a mention,
      otherwise the first character. */
  lemma RemoveMentionsStep(s: string)
    requires s != []
    ensures RemoveMentions(s) == (if MentionMatch(s) > 0 then " " else [s[0]]) + RemoveMentions(s[MentionStep(s)..])
  {
  }

  /** The mention rewrite works on each side of a whitespace character separately, and
      keeps that character. */
  lemma {:induction false} RemoveMentionsAtSpace(u: string, c: char, v: string)
    requires IsSpace(c)
    ensures RemoveMentions(u + [c] + v) == RemoveMentions(u) + [c] + RemoveMentions(v)
    decreases |u|
  {
    var s := u + [c] + v;
    MentionMatchBeforeSpace(u, c, v);
    RemoveMentionsStep(s);
    if u == [] {
      assert s == [c] + v && s[1..] == v;
    } else {
      var k := MentionStep(u);
      RemoveMentionsStep(u);
      assert s[0] == u[0];
      DropBefore(u, [c], v, k);
      RemoveMentionsAtSpace(u[k..], c, v);
      Reassociate(if MentionMatch(u) > 0 then " " else [u[0]], RemoveMentions(u[k..]), [c], RemoveMentions(v));
    }
  }

  /** Text before the first mention is copied unchanged, the mention (`@` and its word
      characters) becomes one space, and the rewrite goes on after it. With
      `RemoveMentionsIdentity` this fixes the rewrite on every input. */
  lemma {:induction false} RemoveMentionsFirstMention(u: string, v: string)
    requires forall i :: 0 <= i < |u| ==> MentionMatch((u + v)[i..]) == 0
    requires MentionMatch(v) > 0
    ensures RemoveMentions(u + v) == u + " " + RemoveMentions(v[MentionMatch(v)..])
    decreases |u|
  {
    var s := u + v;
    var rest := RemoveMentions(v[MentionMatch(v)..]);
    if u == [] {
      assert s == v;
      RemoveMentionsStep(v);
      assert u + " " + rest == " " + rest;
    } else {
      MentionFreeShift(u, v);
      RemoveMentionsStep(s);
      RemoveMentionsFirstMention(u[1..], v);
      ConsBeforeSpace(u, rest);
    }
  }

  /** Proof step only: how far the `"rt"` rewrite's body advances. */
  function RTStep(s: string): (k: nat)
    requires s != []
    ensures 1 <= k <= |s|
  {
    if RTAt(s, 0) then 2 else 1
  }

  /** Proof step only: the `"rt"` rewrite's body unfolded once, a space for `"rt"`,
      otherwise the first character. */
  lemma ReplaceRTStep(s: string)
    requires s != []
    ensures ReplaceRT(s) == (if RTAt(s, 0) then " " else [s[0]]) + ReplaceRT(s[RTStep(s)..])
  {
  }

  /** An `"rt"` at the front of `u` is one at the front of `u + w + v` when `w` does not
      start with `'t'`. */
  lemma RTBefore(u: string, w: string, v: string)
    requires u != [] && w != [] && w[0] != 't'
    ensures RTAt(u + w + v, 0) == RTAt(u, 0)
    ensures (u + w + v)[0] == u[0]
  {
    if |u| == 1 {
      assert (u + w + v)[1] == w[0];
    } else {
      assert (u + w + v)[1] == u[1];
    }
  }

  /** The `"rt"` rewrite works on each side of a whitespace character separately, and
      keeps that character. */
  lemma {:induction false} ReplaceRTAtSpace(u: string, c: char, v: string)
    requires IsSpace(c)
    ensures ReplaceRT(u + [c] + v) == ReplaceRT(u) + [c] + ReplaceRT(v)
    decreases |u|
  {
    var s := u + [c] + v;
    ReplaceRTStep(s);
    if u == [] {
      assert s == [c] + v && s[1..] == v;
      assert !RTAt(s, 0);
    } else {
      var k := RTStep(u);
      RTBefore(u, [c], v);
      ReplaceRTStep(u);
      DropBefore(u, [c], v, k);
      ReplaceRTAtSpace(u[k..], c, v);
      Reassociate(if RTAt(u, 0) then " " else [u[0]], ReplaceRT(u[k..]), [c], ReplaceRT(v));
    }
  }

  /** Every `"rt"` the scan meets becomes one space and the text on either side is
      rewritten separately: an `"rt"` in `u + "rt" + v` is never paired with a letter of
      `u`. With `ReplaceRTIdentity` this fixes the rewrite on every input. */
  lemma {:induction false} ReplaceRTAtRT(u: string, v: string)
    ensures ReplaceRT(u + "rt" + v) == ReplaceRT(u) + " " + ReplaceRT(v)
    decreases |u|
  {
    var s := u + "rt" + v;
    ReplaceRTStep(s);
    if u == [] {
      assert s == "rt" + v && s[2..] == v;
      assert RTAt(s, 0);
    } else {
      var k := RTStep(u);
      RTBefore(u, "rt", v);
      ReplaceRTStep(u);
      DropBefore(u, "rt", v, k);
      ReplaceRTAtRT(u[k..], v);
      Reassociate(if RTAt(u, 0) then " " else [u[0]], ReplaceRT(u[k..]), " ", ReplaceRT(v));
    }
  }

  /** Leading whitespace does not change the words. */
  lemma {:induction false} WordsSkipSpaces(s: string, k: nat)
    requires k <= SpaceRun(s)
    ensures Words(s[k..]) == Words(s)
    decreases k
  {
    if k > 0 {
      WordsSkipSpaces(s[1..], k - 1);
      assert s[1..][k - 1..] == s[k..];
    }
  }

  /** Trailing whitespace does not change the words. */
  lemma {:induction false} WordsTrailingSpaces(u: string, t: string)
    requires forall i :: 0 <= i < |t| ==> IsSpace(t[i])
    ensures Words(u + t) == Words(u)
    decreases |u|
  {
    if u == [] {
      assert u + t == t;
      NoWordsIffBlank(t);
    } else if IsSpace(u[0]) {
      assert (u + t)[1..] == u[1..] + t;
      WordsTrailingSpaces(u[1..], t);
    } else {
      var n := NonSpaceRun(u);
      var w, rest := u[..n], u[n..];
      NonSpaceRunIsRun(u);
      assert IsToken(w);
      assert u == w + rest;
      assert u + t == w + (rest + t);
      WordsOfTokenThen(w, rest + t);
      WordsTrailingSpaces(rest, t);
      WordsOfTokenThen(w, rest);
    }
  }

  /** Splitting the first character off both parts of a cut. */
  lemma ConsSlices(s: string, m: nat)
    requires 1 <= m <= |s|
    ensures s[..m] == [s[0]] + s[1..][..m - 1]
    ensures s[m..] == s[1..][m - 1..]
  {
  }

  /** Collapsing text that starts with a word copies that word. */
  lemma {:induction false} CollapseSpacesAtWord(s: string)
    requires s != [] && !IsSpace(s[0])
    ensures CollapseSpaces(s) == s[..NonSpaceRun(s)] + CollapseSpaces(s[NonSpaceRun(s)..])
    decreases |s|
  {
    var t := s[1..];
    assert CollapseSpaces(s) == [s[0]] + CollapseSpaces(t);
    if t != [] && !IsSpace(t[0]) {
      var m := NonSpaceRun(t);
      CollapseSpacesAtWord(t);
      ConsSlices(s, m + 1);
      assert [s[0]] + (t[..m] + CollapseSpaces(t[m..])) == ([s[0]] + t[..m]) + CollapseSpaces(t[m..]);
    } else {
      ConsSlices(s, 1);
    }
  }

  /** `re.sub(r"\s+", " ", s)` keeps the words: `s.split()` is the same before and after. */
  lemma {:induction false} CollapseSpacesKeepsWords(s: string)
    ensures Words(CollapseSpaces(s)) == Words(s)
    decreases |s|
  {
    if s != [] {
      if IsSpace(s[0]) {
        var k := SpaceRun(s);
        var c := CollapseSpaces(s[k..]);
        WordsSkipSpaces(s, k);
        CollapseSpacesKeepsWords(s[k..]);
        assert (" " + c)[1..] == c;
      } else {
        var n := NonSpaceRun(s);
        var w, rest := s[..n], s[n..];
        CollapseSpacesAtWord(s);
        CollapseSpacesKeepsWords(rest);
        NonSpaceRunIsRun(s);
        assert IsToken(w);
        assert rest != [] ==> rest[0] == s[n];
        WordsOfTokenThen(w, CollapseSpaces(rest));
        WordsAtWord(s);
      }
    }
  }

  /** `lstrip` keeps the words. */
  lemma {:induction false} StripLeftKeepsWords(s: string)
    ensures Words(StripLeft(s)) == Words(s)
    decreases |s|
  {
    if s != [] && IsSpace(s[0]) {
      StripLeftKeepsWords(s[1..]);
    }
  }

  /** `rstrip` keeps the words. */
  lemma StripRightKeepsWords(s: string)
    ensures Words(StripRight(s)) == Words(s)
  {
    var r := StripRight(s);
    var t := s[|r|..];
    StripRightRemovesSpace(s);
    assert forall i :: 0 <= i < |t| ==> t[i] == s[|r| + i];
    assert s == r + t;
    WordsTrailingSpaces(r, t);
  }

  /** `str.strip()` keeps the words. */
  lemma StripKeepsWords(s: string)
    ensures Words(Strip(s)) == Words(s)
  {
    StripRightKeepsWords(s);
    StripLeftKeepsWords(StripRight(s));
  }

  /** After the URL, mention, `"rt"` and symbol rewrites, `normalize_basic` changes
      nothing but whitespace: its words are those of the masked text. */
  lemma NormalizeBasicWords(text: string)
    ensures Words(NormalizeBasic(text)) == Words(MaskSymbols(ReplaceRT(RemoveMentions(RemoveUrls(Lower(text))))))
  {
    var t5 := MaskSymbols(ReplaceRT(RemoveMentions(RemoveUrls(Lower(text)))));
    CollapseSpacesKeepsWords(t5);
    StripKeepsWords(CollapseSpaces(t5));
  }

  /** After URLs and mentions are gone, `preprocess_bert` changes nothing but whitespace:
      its words are those of the text with URLs and mentions blanked. */
  lemma PreprocessBertWords(text: string)
    ensures Words(PreprocessBert(text)) == Words(RemoveMentions(RemoveUrls(text)))
  {
    var t2 := RemoveMentions(RemoveUrls(text));
    CollapseSpacesKeepsWords(t2);
    StripKeepsWords(CollapseSpaces(t2));
  }

  /** On text without URLs and mentions `preprocess_bert` keeps every word as it is, case
      and punctuation included. */
  lemma PreprocessBertKeepsWords(text: string)
    requires NoUrl(text) && NoMention(text)
    ensures Words(PreprocessBert(text)) == Words(text)
  {
    RemoveUrlsIdentity(text);
    RemoveMentionsIdentity(text);
    PreprocessBertWords(text);
  }

  // ---------------------------------------------------------------------------
  // Token filters (NLTK is a parameter)
  // ---------------------------------------------------------------------------

  /** The parts of NLTK the preprocessing calls: `word_tokenize`, the WordNet
      lemmatizer and the English stop-word list. Their contents are not modelled. */
  datatype Nltk = Nltk(tokenize: string -> seq<string>, lemmatize: string -> string, englishStopWords: set<string>)

  const NEGATION_WORDS: set<string> := {"no", "not", "nor", "never"}

  /** `STOP_WORDS`: the English stop words with the negations taken out. */
  function StopWords(nltk: Nltk): (stop: set<string>)
    ensures stop !! NEGATION_WORDS
    ensures forall w :: w in nltk.englishStopWords && w !in NEGATION_WORDS ==> w in stop
    ensures stop <= nltk.englishStopWords
  {
    nltk.englishStopWords - NEGATION_WORDS
  }

  /** `tokenize_text` */
  function TokenizeText(nltk: Nltk, text: string): seq<string> {
    nltk.tokenize(text)
  }

  /** `remove_stopwords`: the tokens, in order, that are not stop words and are longer
      than two characters. */
  function RemoveStopwords(tokens: seq<string>, stop: set<string>): (r: seq<string>)
    ensures Sequences.IsSubsequence(r, tokens)
    ensures forall t :: t in r ==> t !in stop && |t| > 2
    ensures forall t :: multiset(r)[t] == if t !in stop && |t| > 2 then multiset(tokens)[t] else 0
  {
    Sequences.Keep(tokens, t => t !in stop && |t| > 2)
  }

  /** "not", "nor" and "never" survive every occurrence, whatever the English list holds;
      "no", although taken out of the stop words, is still dropped by the length test. */
  lemma NegationsAfterRemoveStopwords(tokens: seq<string>, nltk: Nltk)
    ensures forall w :: w in NEGATION_WORDS && |w| > 2 ==>
              multiset(RemoveStopwords(tokens, StopWords(nltk)))[w] == multiset(tokens)[w]
    ensures multiset(RemoveStopwords(tokens, StopWords(nltk)))["not"] == multiset(tokens)["not"]
    ensures "no" !in RemoveStopwords(tokens, StopWords(nltk))
  {
    assert |"not"| == 3;
  }

  /** `lemmatize_tokens`: one lemma per token, in place. */
  function LemmatizeTokens(tokens: seq<string>, lemmatize: string -> string): (r: seq<string>)
    ensures |r| == |tokens|
    ensures forall i :: 0 <= i < |r| ==> r[i] == lemmatize(tokens[i])
  {
    seq(|tokens|, i requires 0 <= i < |tokens| => lemmatize(tokens[i]))
  }

  /** The filter of `preprocess_advanced`: tokens of at least two characters, in order. */
  function LongTokens(tokens: seq<string>): (r: seq<string>)
    ensures Sequences.IsSubsequence(r, tokens)
    ensures forall t :: t in r ==> |t| >= 2
    ensures forall t :: multiset(r)[t] == if |t| >= 2 then multiset(tokens)[t] else 0
  {
    Sequences.Keep(tokens, t => |t| >= 2)
  }

  // ---------------------------------------------------------------------------
  // The three preprocessing modes
  // ---------------------------------------------------------------------------

  /** `preprocess_simple`: normalise, tokenise, drop stop words and short tokens,
      lemmatise, join with spaces. */
  function PreprocessSimple(text: string, nltk: Nltk): string {
    var tokens := TokenizeText(nltk, NormalizeBasic(text));
    JoinWords(LemmatizeTokens(RemoveStopwords(tokens, StopWords(nltk)), nltk.lemmatize))
  }

  /** Every word of the simple output is the lemma of a token of the normalised text
      that is neither a stop word nor shorter than three characters, as long as lemmas
      are words. */
  lemma PreprocessSimpleWords(text: string, nltk: Nltk)
    requires forall t :: t in RemoveStopwords(TokenizeText(nltk, NormalizeBasic(text)), StopWords(nltk)) ==>
               IsToken(nltk.lemmatize(t))
    ensures Words(PreprocessSimple(text, nltk)) ==
              LemmatizeTokens(RemoveStopwords(TokenizeText(nltk, NormalizeBasic(text)), StopWords(nltk)), nltk.lemmatize)
    ensures |Words(PreprocessSimple(text, nltk))| <= |TokenizeText(nltk, NormalizeBasic(text))|
  {
    var tokens := TokenizeText(nltk, NormalizeBasic(text));
    var kept := RemoveStopwords(tokens, StopWords(nltk));
    var lemmas := LemmatizeTokens(kept, nltk.lemmatize);
    forall k | 0 <= k < |lemmas|
      ensures IsToken(lemmas[k])
    {
      assert kept[k] in kept;
    }
    WordsJoinWords(lemmas);
    Sequences.SubsequenceLength(kept, tokens);
  }

  /** `preprocess_advanced`: normalise, tokenise, keep tokens of two characters or more,
      join with spaces. */
  function PreprocessAdvanced(text: string, nltk: Nltk): string {
    JoinWords(LongTokens(TokenizeText(nltk, NormalizeBasic(text))))
  }

  /** When the tokenizer yields words, splitting the advanced output gives back exactly
      the tokens of two characters or more. */
  lemma PreprocessAdvancedWords(text: string, nltk: Nltk)
    requires forall k :: 0 <= k < |TokenizeText(nltk, NormalizeBasic(text))| ==> IsToken(TokenizeText(nltk, NormalizeBasic(text))[k])
    ensures forall w :: multiset(Words(PreprocessAdvanced(text, nltk)))[w]
              == if |w| >= 2 then multiset(TokenizeText(nltk, NormalizeBasic(text)))[w] else 0
    ensures Sequences.IsSubsequence(Words(PreprocessAdvanced(text, nltk)), TokenizeText(nltk, NormalizeBasic(text)))
  {
    LongTokensRoundTrip(TokenizeText(nltk, NormalizeBasic(text)));
  }

  /** Joining the long tokens and splitting the result gives back the long tokens. */
  lemma LongTokensRoundTrip(tokens: seq<string>)
    requires forall k :: 0 <= k < |tokens| ==> IsToken(tokens[k])
    ensures Words(JoinWords(LongTokens(tokens))) == LongTokens(tokens)
  {
    var kept := LongTokens(tokens);
    Sequences.SubsequenceMembers(kept, tokens);
    WordsJoinWords(kept);
  }

  datatype PreprocessError = UnknownMode(mode: string)

  /** `preprocess`: dispatch on the mode name; any other name is an error. */
  function Preprocess(text: string, mode: string, nltk: Nltk): (r: Result<string, PreprocessError>)
    ensures r.Ok? <==> mode in {"simple", "advanced", "bert"}
    ensures r.Err? ==> r.error == UnknownMode(mode)
    ensures mode == "simple" ==> r == Ok(PreprocessSimple(text, nltk))
    ensures mode == "advanced" ==> r == Ok(PreprocessAdvanced(text, nltk))
    ensures mode == "bert" ==> r == Ok(PreprocessBert(text))
  {
    if mode == "simple" then Ok(PreprocessSimple(text, nltk))
    else if mode == "advanced" then Ok(PreprocessAdvanced(text, nltk))
    else if mode == "bert" then Ok(PreprocessBert(text))
    else Err(UnknownMode(mode))
  }

  // ---------------------------------------------------------------------------
  // drop_short_texts
  // ---------------------------------------------------------------------------

  /** Number of words of a cell, a missing cell counting as the empty string. */
  function WordCount(cell: Option<string>): nat {
    match cell
    case None => 0
    case Some(t) => |Words(t)|
  }

  /** A string has no words exactly when it is all whitespace. */
  lemma {:induction false} NoWordsIffBlank(s: string)
    ensures Words(s) == [] <==> forall i :: 0 <= i < |s| ==> IsSpace(s[i])
    decreases |s|
  {
    if s != [] && IsSpace(s[0]) {
      NoWordsIffBlank(s[1..]);
      assert forall i :: 1 <= i < |s| ==> s[i] == s[1..][i - 1];
    }
  }

  /** `drop_short_texts`: the rows, in order, whose text cell has at least `minLen`
      words; the input rows are a value and stay as they were. */
  function DropShortTexts<R(!new)>(rows: seq<R>, text: R -> Option<string>, minLen: int): (r: seq<R>)
    ensures Sequences.IsSubsequence(r, rows)
    ensures forall row :: row in r ==> WordCount(text(row)) >= minLen
    ensures forall row :: multiset(r)[row] == if WordCount(text(row)) >= minLen then multiset(rows)[row] else 0
  {
    Sequences.Keep(rows, row => WordCount(text(row)) >= minLen)
  }
}
