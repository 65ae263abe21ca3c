/**
 * The `.replace` calls of `parseXHSContent` (src/app/api/fetch-xhs/route.ts): the chain that
 * cleans the note body and the padding of '|' in the title.  Each regular expression is a matcher
 * that says where a match starting at a given index ends, following the JavaScript engine's
 * backtracking order; `replace` with and without the `g` flag is written out on top of the
 * matchers.
 */
module Patterns {
  import opened Wrappers
  import opened Text

  /** The regular expressions given to `replace`. */
  datatype Pattern =
    | Sticker         // /\[[一-龥a-zA-Z]+\s*R\]/
    | EscapedSticker  // /\\\[[^[\]]*R\]/
    | MarkdownImage   // /!\[.*?\]\(.*?\)/
    | LinkTarget      // /\]\([^)]+\)/
    | Spaces          // /\s+/
    | Bar             // /\|/

  /** The class `[一-龥a-zA-Z]` of a sticker name.  It holds 'R' but not '#'. */
  predicate IsStickerChar(c: char) {
    IsCjk(c) || IsAsciiLetter(c)
  }

  function StickerNameEnd(s: string, i: nat): (j: nat)
    requires i <= |s|
    ensures i <= j <= |s|
    ensures forall x :: i <= x < j ==> IsStickerChar(s[x])
    ensures j < |s| ==> !IsStickerChar(s[j])
    decreases |s| - i
  {
    if i < |s| && IsStickerChar(s[i]) then StickerNameEnd(s, i + 1) else i
  }

  /** `\s*R\]` matches after a sticker name that ends at `n`.  `\s*` is greedy, and giving a
      space back would leave a space where 'R' is needed, so only its longest run counts. */
  predicate StickerCloseAt(s: string, n: nat)
    requires n <= |s|
  {
    RCloseAt(s, SpaceEnd(s, n))
  }

  /** The sticker name is `s[first..n]`: `n` backtracks from the greedy end `k` down to one
      character past `first`, and the first `n` after which `\s*R\]` matches is the one taken. */
  function StickerNameStop(s: string, first: nat, k: nat): (r: Option<nat>)
    requires first < k <= |s|
    ensures r.Some? ==> first < r.value <= k && StickerCloseAt(s, r.value)
    ensures r.Some? ==> forall n :: r.value < n <= k ==> !StickerCloseAt(s, n)
    ensures r.None? ==> forall n :: first < n <= k ==> !StickerCloseAt(s, n)
    decreases k
  {
    if StickerCloseAt(s, k) then Some(k)
    else if k == first + 1 then None
    else StickerNameStop(s, first, k - 1)
  }

  /** `R\]` matches at `m`. */
  predicate RCloseAt(s: string, m: nat) {
    m + 1 < |s| && s[m] == 'R' && s[m + 1] == ']'
  }

  /** `[^[\]]*` ends at `k`, backtracked from the greedy end down to `lo`: the match closes at
      the last "R]" that starts between `lo` and `k`. */
  function EscapedTail(s: string, lo: nat, k: nat): (r: Option<nat>)
    requires lo <= k <= |s|
    ensures r.Some? ==> lo + 2 <= r.value <= k + 2 && RCloseAt(s, r.value - 2)
    ensures r.Some? ==> forall m :: r.value - 2 < m <= k ==> !RCloseAt(s, m)
    ensures r.None? ==> forall m :: lo <= m <= k ==> !RCloseAt(s, m)
    decreases k
  {
    if RCloseAt(s, k) then Some(k + 2)
    else if k == lo then None
    else EscapedTail(s, lo, k - 1)
  }

  predicate IsBracket(c: char) {
    c == '[' || c == ']'
  }

  function NonBracketEnd(s: string, i: nat): (j: nat)
    requires i <= |s|
    ensures i <= j <= |s|
    ensures forall x :: i <= x < j ==> !IsBracket(s[x])
    ensures j < |s| ==> IsBracket(s[j])
    decreases |s| - i
  {
    if i < |s| && !IsBracket(s[i]) then NonBracketEnd(s, i + 1) else i
  }

  /** The lazy `.*?\)` of a Markdown image target, from `e`: the first ')' before a line
      terminator. */
  function ImageTargetEnd(s: string, e: nat): (r: Option<nat>)
    requires e <= |s|
    ensures r.Some? ==> e < r.value <= LineRunEnd(s, e) && s[r.value - 1] == ')'
    ensures r.Some? ==> forall k :: e <= k < r.value - 1 ==> s[k] != ')'
    ensures r.None? ==> forall k :: e <= k < LineRunEnd(s, e) ==> s[k] != ')'
    decreases |s| - e
  {
    if e < |s| && s[e] == ')' then Some(e + 1)
    else if e < |s| && !IsLineTerminator(s[e]) then ImageTargetEnd(s, e + 1)
    else None
  }

  /** `\]\(` at `m`, followed by a complete lazy target. */
  predicate ImageCloseAt(s: string, m: nat) {
    m + 1 < |s| && s[m] == ']' && s[m + 1] == '(' && ImageTargetEnd(s, m + 2).Some?
  }

  /** The lazy `.*?` of a Markdown image's alt text, from `e`: it grows one character at a time,
      never across a line terminator, until a `](` is followed by a complete target.  The result
      is where that `](` starts. */
  function ImageAltStop(s: string, e: nat): (r: Option<nat>)
    requires e <= |s|
    ensures r.Some? ==> e <= r.value < LineRunEnd(s, e) && ImageCloseAt(s, r.value)
    ensures r.Some? ==> forall m :: e <= m < r.value ==> !ImageCloseAt(s, m)
    ensures r.None? ==> forall m :: e <= m <= LineRunEnd(s, e) ==> !ImageCloseAt(s, m)
    decreases |s| - e
  {
    if ImageCloseAt(s, e) then Some(e)
    else if e < |s| && !IsLineTerminator(s[e]) then ImageAltStop(s, e + 1)
    else None
  }

  function NonParenEnd(s: string, i: nat): (j: nat)
    requires i <= |s|
    ensures i <= j <= |s|
    ensures ')' !in s[i..j]
    ensures j < |s| ==> s[j] == ')'
    decreases |s| - i
  {
    if i < |s| && s[i] != ')' then
      var j := NonParenEnd(s, i + 1);
      assert s[i..j] == [s[i]] + s[i + 1..j];
      j
    else i
  }

  /** `\[[一-龥a-zA-Z]+\s*R\]` at `i`: the name run is greedy and backtracks. */
  function StickerEnd(s: string, i: nat): (r: Option<nat>)
    requires i <= |s|
    ensures r.Some? ==> i + 4 <= r.value <= |s| && s[i] == '[' && RCloseAt(s, r.value - 2)
    ensures r.Some? ==> forall x :: i < x < r.value ==> s[x] != '#'
  {
    if i < |s| && s[i] == '[' then
      var k := StickerNameEnd(s, i + 1);
      var n := if k > i + 1 then StickerNameStop(s, i + 1, k) else None;
      if n.Some? then
        assert !IsSpace('#') && !IsStickerChar('#');
        Some(SpaceEnd(s, n.value) + 2)
      else None
    else None
  }

  /** End of the match of `p` that starts exactly at `i`, if there is one.  No pattern matches
      the empty string. */
  function MatchEnd(p: Pattern, s: string, i: nat): (r: Option<nat>)
    requires i <= |s|
    ensures r.Some? ==> i < r.value <= |s|
    ensures r.Some? && p == Sticker ==> s[i] == '[' && forall x :: i < x < r.value ==> s[x] != '#'
    ensures r.Some? && p == Spaces ==> r.value == SpaceEnd(s, i) && IsSpace(s[i])
    ensures p == Bar ==> (r.Some? <==> i < |s| && s[i] == '|')
    ensures p == Bar && r.Some? ==> r.value == i + 1
  {
    match p
    case Sticker => StickerEnd(s, i)
    case EscapedSticker =>
      if i + 1 < |s| && s[i] == '\\' && s[i + 1] == '[' then EscapedTail(s, i + 2, NonBracketEnd(s, i + 2))
      else None
    case MarkdownImage =>
      if i + 1 < |s| && s[i] == '!' && s[i + 1] == '[' then
        var m := ImageAltStop(s, i + 2);
        if m.Some? then ImageTargetEnd(s, m.value + 2) else None
      else None
    case LinkTarget =>
      if i + 1 < |s| && s[i] == ']' && s[i + 1] == '(' then
        // `[^)]+` is greedy and may not give back a character, since it would not be ')'.
        var j := NonParenEnd(s, i + 2);
        if i + 2 < j < |s| then Some(j + 1) else None
      else None
    case Spaces =>
      if i < |s| && IsSpace(s[i]) then Some(SpaceEnd(s, i)) else None
    case Bar =>
      if i < |s| && s[i] == '|' then Some(i + 1) else None
  }

  /** A sticker match is '[', a name inside the letter run after it, the longest white-space run
      and `R]`; of the names that work, the longest is taken. */
  lemma StickerMatchShape(s: string, i: nat) returns (n: nat)
    requires i <= |s| && MatchEnd(Sticker, s, i).Some?
    ensures i < |s| && s[i] == '[' && i + 1 < n <= StickerNameEnd(s, i + 1) && StickerCloseAt(s, n)
    ensures MatchEnd(Sticker, s, i) == Some(SpaceEnd(s, n) + 2)
    ensures forall m :: n < m <= StickerNameEnd(s, i + 1) ==> !StickerCloseAt(s, m)
  {
    n := StickerNameStop(s, i + 1, StickerNameEnd(s, i + 1)).value;
  }

  /** Conversely, '[', a name of letters and `\s*R\]` after it always make a sticker match. */
  lemma StickerShapeMatches(s: string, i: nat, n: nat)
    requires i < |s| && s[i] == '[' && i + 1 < n <= StickerNameEnd(s, i + 1) && StickerCloseAt(s, n)
    ensures MatchEnd(Sticker, s, i).Some?
  {
  }

  /** An escaped-sticker match is a backslash, '[', a run without brackets and `R]`; the run is
      cut at the last `R]` it holds. */
  lemma EscapedMatchShape(s: string, i: nat) returns (m: nat)
    requires i <= |s| && MatchEnd(EscapedSticker, s, i).Some?
    ensures i + 1 < |s| && s[i] == '\\' && s[i + 1] == '['
    ensures i + 2 <= m <= NonBracketEnd(s, i + 2) && RCloseAt(s, m)
    ensures MatchEnd(EscapedSticker, s, i) == Some(m + 2)
    ensures forall m' :: m < m' <= NonBracketEnd(s, i + 2) ==> !RCloseAt(s, m')
  {
    m := MatchEnd(EscapedSticker, s, i).value - 2;
  }

  /** Conversely, a backslash, '[' and an `R]` before the next bracket make a match. */
  lemma EscapedShapeMatches(s: string, i: nat, m: nat)
    requires i + 1 < |s| && s[i] == '\\' && s[i + 1] == '['
    requires i + 2 <= m <= NonBracketEnd(s, i + 2) && RCloseAt(s, m)
    ensures MatchEnd(EscapedSticker, s, i).Some?
  {
  }

  /** A Markdown image match is "![", alt text on one line, the leftmost `](` whose target closes,
      and that target up to its first ')'. */
  lemma MarkdownImageShape(s: string, i: nat) returns (m: nat)
    requires i <= |s| && MatchEnd(MarkdownImage, s, i).Some?
    ensures i + 1 < |s| && s[i] == '!' && s[i + 1] == '['
    ensures i + 2 <= m < LineRunEnd(s, i + 2) && ImageCloseAt(s, m)
    ensures forall m' :: i + 2 <= m' < m ==> !ImageCloseAt(s, m')
    ensures MatchEnd(MarkdownImage, s, i) == ImageTargetEnd(s, m + 2)
  {
    m := ImageAltStop(s, i + 2).value;
  }

  /** Conversely, "![" and, later on the same line, a `](` whose target closes make a match. */
  lemma MarkdownImageShapeMatches(s: string, i: nat, m: nat)
    requires i + 1 < |s| && s[i] == '!' && s[i + 1] == '['
    requires i + 2 <= m <= LineRunEnd(s, i + 2) && ImageCloseAt(s, m)
    ensures MatchEnd(MarkdownImage, s, i).Some?
  {
  }

  /** A link-target match is "](", at least one character other than ')', and ')'. */
  lemma LinkTargetShape(s: string, i: nat)
    requires i <= |s| && MatchEnd(LinkTarget, s, i).Some?
    ensures var e := MatchEnd(LinkTarget, s, i).value;
      i + 1 < |s| && s[i] == ']' && s[i + 1] == '(' && i + 3 < e && s[e - 1] == ')'
      && ')' !in s[i + 2..e - 1]
  {
  }

  /** Conversely, "](" and a first ')' after at least one other character make a match that ends
      just after that ')'. */
  lemma LinkTargetShapeMatches(s: string, i: nat, j: nat)
    requires i + 2 < j < |s| && s[i] == ']' && s[i + 1] == '(' && s[j] == ')' && ')' !in s[i + 2..j]
    ensures MatchEnd(LinkTarget, s, i) == Some(j + 1)
  {
  }

  /** `s.slice(i).replace(p /g, rep)`: every match, left to right, where the search resumes at the
      end of the previous match. */
  function ReplaceAllFrom(p: Pattern, s: string, rep: string, i: nat): string
    requires i <= |s|
    decreases |s| - i
  {
    if i == |s| then []
    else match MatchEnd(p, s, i)
      case Some(e) => rep + ReplaceAllFrom(p, s, rep, e)
      case None => [s[i]] + ReplaceAllFrom(p, s, rep, i + 1)
  }

  /** A match at `i` is replaced, and the search resumes where it ends. */
  lemma ReplaceAllFromMatch(p: Pattern, s: string, rep: string, i: nat, e: nat)
    requires i <= |s| && MatchEnd(p, s, i) == Some(e)
    ensures i < |s| && ReplaceAllFrom(p, s, rep, i) == rep + ReplaceAllFrom(p, s, rep, e)
  {
  }

  /** Without a match at `i`, the character there is copied. */
  lemma ReplaceAllFromCopy(p: Pattern, s: string, rep: string, i: nat)
    requires i < |s| && MatchEnd(p, s, i).None?
    ensures ReplaceAllFrom(p, s, rep, i) == [s[i]] + ReplaceAllFrom(p, s, rep, i + 1)
  {
  }

  /** `s.replace(p /g, rep)`. */
  function ReplaceAll(p: Pattern, s: string, rep: string): string {
    ReplaceAllFrom(p, s, rep, 0)
  }

  /** The leftmost match of `p` that starts at or after `i`, as (start, end). */
  function FirstMatch(p: Pattern, s: string, i: nat): (r: Option<(nat, nat)>)
    requires i <= |s|
    ensures r.Some? ==> i <= r.value.0 < r.value.1 <= |s| && MatchEnd(p, s, r.value.0) == Some(r.value.1)
    ensures r.Some? ==> forall j :: i <= j < r.value.0 ==> MatchEnd(p, s, j).None?
    ensures r.None? ==> forall j :: i <= j <= |s| ==> MatchEnd(p, s, j).None?
    decreases |s| - i
  {
    var e := MatchEnd(p, s, i);
    if e.Some? then Some((i, e.value))
    else if i == |s| then None
    else FirstMatch(p, s, i + 1)
  }

  /** `s.replace(p, rep)` without the `g` flag: the first match only. */
  function ReplaceFirst(p: Pattern, s: string, rep: string): string {
    match FirstMatch(p, s, 0)
    case Some((a, e)) => s[..a] + rep + s[e..]
    case None => s
  }

  /** The cleaning chain applied to the body paragraph. */
  function CleanBody(line: string): string {
    var noStickers := ReplaceAll(Sticker, line, "");
    var noEscaped := ReplaceFirst(EscapedSticker, noStickers, "");
    var noImages := ReplaceAll(MarkdownImage, noEscaped, "");
    var noTargets := ReplaceAll(LinkTarget, noImages, "]");
    var collapsed := ReplaceAll(Spaces, noTargets, " ");
    Trim(collapsed)
  }

  /** Every white-space character is the plain space. */
  predicate SpacesArePlain(s: string) {
    forall k :: 0 <= k < |s| && IsSpace(s[k]) ==> s[k] == ' '
  }

  /** Collapsing from `i` leaves single plain spaces, and its output begins with `s[i]` itself
      unless `s[i]` is white space, in which case it begins with a space. */
  lemma {:induction false} CollapseFrom(s: string, i: nat)
    requires i <= |s|
    ensures var r := ReplaceAllFrom(Spaces, s, " ", i);
      NoDoubleSpace(r) && SpacesArePlain(r)
      && (i < |s| ==> |r| > 0 && r[0] == (if IsSpace(s[i]) then ' ' else s[i]))
    decreases |s| - i
  {
    if i < |s| {
      var r := ReplaceAllFrom(Spaces, s, " ", i);
      if IsSpace(s[i]) {
        var e := SpaceEnd(s, i);
        CollapseFrom(s, e);
        var rest := ReplaceAllFrom(Spaces, s, " ", e);
        assert r == " " + rest;
        assert rest != [] ==> !IsSpace(rest[0]);
        forall k | 0 <= k < |r| - 1 && IsSpace(r[k])
          ensures !IsSpace(r[k + 1])
        {
          if k > 0 {
            assert r[k] == rest[k - 1];
          }
        }
      } else {
        CollapseFrom(s, i + 1);
        var rest := ReplaceAllFrom(Spaces, s, " ", i + 1);
        assert r == [s[i]] + rest;
        forall k | 0 <= k < |r| - 1 && IsSpace(r[k])
          ensures !IsSpace(r[k + 1])
        {
          assert k > 0;
          assert r[k] == rest[k - 1];
        }
      }
    }
  }

  /** The cleaned body has no white space at either end, and its inner white space is single
      plain spaces. */
  lemma CleanBodyShape(line: string)
    ensures NoEdgeSpace(CleanBody(line))
    ensures NoDoubleSpace(CleanBody(line))
    ensures SpacesArePlain(CleanBody(line))
  {
    var noStickers := ReplaceAll(Sticker, line, "");
    var noEscaped := ReplaceFirst(EscapedSticker, noStickers, "");
    var noImages := ReplaceAll(MarkdownImage, noEscaped, "");
    var noTargets := ReplaceAll(LinkTarget, noImages, "]");
    CollapseFrom(noTargets, 0);
    TrimKeepsNoDoubleSpace(ReplaceAll(Spaces, noTargets, " "));
    TrimKeepsSpaceKind(ReplaceAll(Spaces, noTargets, " "));
  }

  lemma {:induction false} NoCharCount(s: string, c: char)
    requires forall x :: 0 <= x < |s| ==> s[x] != c
    ensures Count(s, c) == 0
  {
    if s != [] {
      NoCharCount(s[1..], c);
    }
  }

  /** Skipping a stretch without '#' keeps the count of '#' in the rest. */
  lemma NoHashSkip(s: string, i: nat, e: nat)
    requires i <= e <= |s| && forall x :: i <= x < e ==> s[x] != '#'
    ensures Count(s[i..], '#') == Count(s[e..], '#')
  {
    forall x | 0 <= x < e - i
      ensures s[i..e][x] != '#'
    {
      assert s[i..e][x] == s[i + x];
    }
    NoCharCount(s[i..e], '#');
    assert s[i..] == s[i..e] + s[e..];
    CountConcat(s[i..e], s[e..], '#');
  }

  /** One copied character adds the same to both counts. */
  lemma CopyCount(s: string, i: nat, rest: string)
    requires i < |s| && Count(rest, '#') == Count(s[i + 1..], '#')
    ensures Count([s[i]] + rest, '#') == Count(s[i..], '#')
  {
    assert s[i..] == [s[i]] + s[i + 1..];
    CountConcat([s[i]], s[i + 1..], '#');
    CountConcat([s[i]], rest, '#');
  }

  /** Removing stickers never removes a '#': the rest of the text keeps all its hashtag marks. */
  lemma {:induction false} StickersKeepHashes(s: string, i: nat)
    requires i <= |s|
    ensures Count(ReplaceAllFrom(Sticker, s, "", i), '#') == Count(s[i..], '#')
    decreases |s| - i
  {
    if i < |s| {
      var m := StickerEnd(s, i);
      assert MatchEnd(Sticker, s, i) == m;
      if m.Some? {
        var e := m.value;
        ReplaceAllFromMatch(Sticker, s, "", i, e);
        assert "" + ReplaceAllFrom(Sticker, s, "", e) == ReplaceAllFrom(Sticker, s, "", e);
        StickersKeepHashes(s, e);
        NoHashSkip(s, i, e);
      } else {
        ReplaceAllFromCopy(Sticker, s, "", i);
        StickersKeepHashes(s, i + 1);
        CopyCount(s, i, ReplaceAllFrom(Sticker, s, "", i + 1));
      }
    }
  }

  /** A replacement that finds no match anywhere leaves the text as it is. */
  lemma {:induction false} ReplaceAllNoMatch(p: Pattern, s: string, rep: string, i: nat)
    requires i <= |s|
    requires forall j :: i <= j < |s| ==> MatchEnd(p, s, j).None?
    ensures ReplaceAllFrom(p, s, rep, i) == s[i..]
    decreases |s| - i
  {
    if i < |s| {
      ReplaceAllNoMatch(p, s, rep, i + 1);
      assert s[i..] == [s[i]] + s[i + 1..];
    }
  }

  /** The sticker pattern needs a CJK or Latin letter right after '[', so a hashtag written as
      `[#春天R]` is left in the body. */
  lemma HashtagStickerKept()
    ensures ReplaceAll(Sticker, "[#春天R]", "") == "[#春天R]"
  {
    var s := "[#春天R]";
    forall j | 0 <= j < |s|
      ensures MatchEnd(Sticker, s, j).None?
    {
      if j == 0 {
        assert StickerNameEnd(s, 1) == 1;
      } else {
        assert s[j] != '[';
      }
    }
    ReplaceAllNoMatch(Sticker, s, "", 0);
  }

  /** A first-match search that finds no match anywhere leaves the text as it is. */
  lemma {:induction false} FirstMatchNone(p: Pattern, s: string, i: nat)
    requires i <= |s|
    requires forall j :: i <= j <= |s| ==> MatchEnd(p, s, j).None?
    ensures FirstMatch(p, s, i).None?
    decreases |s| - i
  {
    if i < |s| {
      FirstMatchNone(p, s, i + 1);
    }
  }

  /** A sticker such as `[开心R]` is removed. */
  lemma StickerRemoved()
    ensures ReplaceAll(Sticker, "[开心R]", "") == ""
  {
    var s := "[开心R]";
    assert StickerNameEnd(s, 1) == 4;
    assert StickerCloseAt(s, 3) && !StickerCloseAt(s, 4);
    assert MatchEnd(Sticker, s, 0) == Some(5);
  }

  /** The link after a hashtag, such as `](u)`, is one link-target match. */
  lemma LinkTargetRemoved()
    ensures MatchEnd(LinkTarget, "](u)", 0) == Some(4)
  {
    LinkTargetShapeMatches("](u)", 0, 3);
  }

  /** A Markdown image such as `![a](b)` is one image match. */
  lemma MarkdownImageRemoved()
    ensures MatchEnd(MarkdownImage, "![a](b)", 0) == Some(7)
  {
    var s := "![a](b)";
    assert !ImageCloseAt(s, 2);
    assert ImageTargetEnd(s, 5) == Some(7);
    assert ImageCloseAt(s, 3);
    assert ImageAltStop(s, 2) == Some(3);
  }

  /** An escaped sticker such as `\[aR]` is one escaped-sticker match. */
  lemma EscapedStickerRemoved()
    ensures MatchEnd(EscapedSticker, "\\[aR]", 0) == Some(5)
  {
    var s := "\\[aR]";
    assert NonBracketEnd(s, 2) == 4;
    assert RCloseAt(s, 3) && !RCloseAt(s, 4);
  }

  /** The title's `replace(/\|/g, ' | ')`. */
  function PadBars(s: string): string {
    ReplaceAll(Bar, s, " | ")
  }

  /** Undo the padding: every " | " becomes '|' again, scanning from the left. */
  function Unpad(r: string): string
    decreases |r|
  {
    if |r| >= 3 && r[..3] == " | " then "|" + Unpad(r[3..])
    else if r == [] then []
    else [r[0]] + Unpad(r[1..])
  }

  /** Padding from `i` never yields a leading '|': a '|' becomes " | " and anything else is
      copied. */
  lemma PadFromHead(s: string, i: nat)
    requires i < |s|
    ensures var r := ReplaceAllFrom(Bar, s, " | ", i);
      |r| > 0 && r[0] == (if s[i] == '|' then ' ' else s[i])
  {
  }

  /** Padding loses nothing: removing the padding gives the text back. */
  lemma {:induction false} UnpadPadFrom(s: string, i: nat)
    requires i <= |s|
    ensures Unpad(ReplaceAllFrom(Bar, s, " | ", i)) == s[i..]
    decreases |s| - i
  {
    if i < |s| {
      var rest := ReplaceAllFrom(Bar, s, " | ", i + 1);
      UnpadPadFrom(s, i + 1);
      assert s[i..] == [s[i]] + s[i + 1..];
      if s[i] == '|' {
        var r := " | " + rest;
        assert ReplaceAllFrom(Bar, s, " | ", i) == r;
        assert r[..3] == " | " && r[3..] == rest;
      } else {
        var r := [s[i]] + rest;
        assert ReplaceAllFrom(Bar, s, " | ", i) == r;
        if i + 1 < |s| {
          PadFromHead(s, i + 1);
        }
        assert !(|r| >= 3 && r[..3] == " | ") by {
          if |r| >= 3 { assert r[1] == rest[0] && rest[0] != '|'; }
        }
        assert r[1..] == rest;
      }
    }
  }

  lemma PadBarsRoundTrip(s: string)
    ensures Unpad(PadBars(s)) == s
  {
    UnpadPadFrom(s, 0);
  }

  /** Padding keeps the number of '|' and adds two spaces for each. */
  lemma {:induction false} PadFromCount(s: string, i: nat)
    requires i <= |s|
    ensures Count(ReplaceAllFrom(Bar, s, " | ", i), '|') == Count(s[i..], '|')
    ensures |ReplaceAllFrom(Bar, s, " | ", i)| == |s| - i + 2 * Count(s[i..], '|')
    decreases |s| - i
  {
    if i < |s| {
      var rest := ReplaceAllFrom(Bar, s, " | ", i + 1);
      PadFromCount(s, i + 1);
      assert s[i..] == [s[i]] + s[i + 1..];
      CountConcat([s[i]], s[i + 1..], '|');
      if s[i] == '|' {
        CountConcat(" | ", rest, '|');
        assert Count(" | ", '|') == 1 by {
          assert " | "[1..] == "| " && "| "[1..] == " ";
        }
      } else {
        CountConcat([s[i]], rest, '|');
      }
    }
  }

  /** Padding adds nothing but spaces and the '|' characters that were there. */
  lemma {:induction false} PadFromChars(s: string, i: nat)
    requires i <= |s|
    ensures forall k :: 0 <= k < |ReplaceAllFrom(Bar, s, " | ", i)| ==>
      ReplaceAllFrom(Bar, s, " | ", i)[k] == ' ' || ReplaceAllFrom(Bar, s, " | ", i)[k] in s[i..]
    decreases |s| - i
  {
    if i < |s| {
      PadFromChars(s, i + 1);
      var rest := ReplaceAllFrom(Bar, s, " | ", i + 1);
      var r := ReplaceAllFrom(Bar, s, " | ", i);
      assert s[i..] == [s[i]] + s[i + 1..];
      forall k | 0 <= k < |r|
        ensures r[k] == ' ' || r[k] in s[i..]
      {
        if s[i] == '|' {
          assert r == " | " + rest;
          if k >= 3 { assert r[k] == rest[k - 3]; }
        } else {
          assert r == [s[i]] + rest;
          if k >= 1 { assert r[k] == rest[k - 1]; }
        }
      }
    }
  }
}
