/**
 * The link resolver `extractXHSUrl` of src/app/api/fetch-xhs/route.ts: it finds the note link in
 * whatever the user pasted (often a share text with a link inside).  Three ordered rules, the
 * first that applies wins:
 *   1. the first `https?://xhslink.com/[a-zA-Z0-9/]+` match (short link);
 *   2. the first `https?://(?:www.)?xiaohongshu.com/[^\s]+` match (web link);
 *   3. the input itself, when it starts with `http://` or `https://`;
 * otherwise there is no link (`null` in the source, `None` here).
 */
module Resolver {
  import opened Wrappers
  import opened Text

  const Http := "http://"
  const Https := "https://"
  const ShortLinkHost := "xhslink.com/"
  const WebHost := "xiaohongshu.com/"
  const Www := "www."

  /** The input starts with an explicit `http://` or `https://` scheme. */
  predicate HasScheme(s: string) {
    StartsWith(s, Http) || StartsWith(s, Https)
  }

  /** Length of the `https?:\/\/` that starts at `i`, or 0 when there is none.  The `s?` is
      greedy; giving the `s` back never helps, since the character after "http" would then have
      to be ':' where it is 's'. */
  function SchemeLengthAt(t: string, i: nat): (n: nat)
    ensures n == 8 <==> HasAt(t, i, Https)
    ensures n == 7 <==> HasAt(t, i, Http)
    ensures n == 0 <==> !HasAt(t, i, Https) && !HasAt(t, i, Http)
  {
    if HasAt(t, i, Https) then
      assert t[i + 4] == 's';
      8
    else if HasAt(t, i, Http) then 7
    else 0
  }

  /** The class `[a-zA-Z0-9/]` of a short link's path. */
  predicate IsShortPathChar(c: char) {
    IsAsciiLetter(c) || IsDigit(c) || c == '/'
  }

  /** End of the greedy `[a-zA-Z0-9/]*` run that starts at `i`. */
  function ShortPathEnd(t: string, i: nat): (j: nat)
    requires i <= |t|
    ensures i <= j <= |t|
    ensures forall k :: i <= k < j ==> IsShortPathChar(t[k])
    ensures j < |t| ==> !IsShortPathChar(t[j])
    decreases |t| - i
  {
    if i < |t| && IsShortPathChar(t[i]) then ShortPathEnd(t, i + 1) else i
  }

  /** End of the greedy `[^\s]*` run that starts at `i`. */
  function NonSpaceEnd(t: string, i: nat): (j: nat)
    requires i <= |t|
    ensures i <= j <= |t|
    ensures forall k :: i <= k < j ==> !IsSpace(t[k])
    ensures j < |t| ==> IsSpace(t[j])
    decreases |t| - i
  {
    if i < |t| && !IsSpace(t[i]) then NonSpaceEnd(t, i + 1) else i
  }

  /** `p` has no white-space character. */
  predicate SpaceFree(p: string) {
    forall k :: 0 <= k < |p| ==> !IsSpace(p[k])
  }

  lemma LiteralsSpaceFree()
    ensures SpaceFree(Http) && SpaceFree(Https) && SpaceFree(Www)
    ensures SpaceFree(ShortLinkHost) && SpaceFree(WebHost)
  {
  }

  /** Where a space-free literal occurs, the text has no white space. */
  lemma {:induction false} SpaceFreeAt(t: string, i: nat, p: string)
    requires HasAt(t, i, p) && SpaceFree(p)
    ensures forall k :: i <= k < i + |p| ==> !IsSpace(t[k])
  {
    forall k | i <= k < i + |p|
      ensures !IsSpace(t[k])
    {
      assert t[k] == t[i..i + |p|][k - i];
    }
  }

  /** `xhslink\.com\/` at `h`, followed by at least one character of the path class. */
  predicate ShortHostAt(t: string, h: nat) {
    HasAt(t, h, ShortLinkHost) && h + |ShortLinkHost| < |t| && IsShortPathChar(t[h + |ShortLinkHost|])
  }

  /** `xiaohongshu\.com\/` at `h`, followed by at least one character that is not white space. */
  predicate WebHostAt(t: string, h: nat) {
    HasAt(t, h, WebHost) && h + |WebHost| < |t| && !IsSpace(t[h + |WebHost|])
  }

  /** `xhslink\.com\/[a-zA-Z0-9/]+` at `h`: the `+` is greedy and nothing follows it, so the
      match takes the whole run. */
  function ShortLinkTail(t: string, h: nat): (r: Option<nat>)
    ensures r.Some? <==> ShortHostAt(t, h)
    ensures r.Some? ==> HasAt(t, h, ShortLinkHost) && h + |ShortLinkHost| < r.value <= |t|
    ensures r.Some? ==> forall k :: h + |ShortLinkHost| <= k < r.value ==> IsShortPathChar(t[k])
    ensures r.Some? ==> r.value < |t| ==> !IsShortPathChar(t[r.value])
  {
    if HasAt(t, h, ShortLinkHost) then
      var e := ShortPathEnd(t, h + |ShortLinkHost|);
      if e > h + |ShortLinkHost| then Some(e) else None
    else None
  }

  /** `xiaohongshu\.com\/[^\s]+` at `h`. */
  function WebLinkTail(t: string, h: nat): (r: Option<nat>)
    ensures r.Some? <==> WebHostAt(t, h)
    ensures r.Some? ==> HasAt(t, h, WebHost) && h + |WebHost| < r.value <= |t|
    ensures r.Some? ==> forall k :: h + |WebHost| <= k < r.value ==> !IsSpace(t[k])
    ensures r.Some? ==> r.value < |t| ==> IsSpace(t[r.value])
  {
    if HasAt(t, h, WebHost) then
      var e := NonSpaceEnd(t, h + |WebHost|);
      if e > h + |WebHost| then Some(e) else None
    else None
  }

  /** A slice that begins where a scheme occurs starts with that scheme. */
  lemma SchemeStartsSlice(t: string, i: nat, e: nat)
    requires SchemeLengthAt(t, i) > 0 && i + SchemeLengthAt(t, i) <= e <= |t|
    ensures HasScheme(t[i..e])
  {
    var n := SchemeLengthAt(t, i);
    assert t[i..e][..n] == t[i..i + n];
  }

  /** `https?:\/\/xhslink\.com\/[a-zA-Z0-9/]+` matched at `i`. */
  function ShortLinkAt(t: string, i: nat): (r: Option<nat>)
    ensures r.Some? ==> i < r.value <= |t| && HasScheme(t[i..r.value])
    ensures r.Some? ==> forall k :: i <= k < r.value ==> !IsSpace(t[k])
    ensures r.Some? ==>
      var h := i + SchemeLengthAt(t, i);
      HasAt(t, h, ShortLinkHost) && r.value > h + |ShortLinkHost|
      && (forall k :: h + |ShortLinkHost| <= k < r.value ==> IsShortPathChar(t[k]))
      && (r.value < |t| ==> !IsShortPathChar(t[r.value]))
    ensures r.Some? <==> SchemeLengthAt(t, i) > 0 && ShortHostAt(t, i + SchemeLengthAt(t, i))
  {
    var n := SchemeLengthAt(t, i);
    if n == 0 then None
    else
      var r := ShortLinkTail(t, i + n);
      if r.Some? then
        LiteralsSpaceFree();
        SpaceFreeAt(t, i, if n == 8 then Https else Http);
        SpaceFreeAt(t, i + n, ShortLinkHost);
        SchemeStartsSlice(t, i, r.value);
        r
      else r
  }

  /** `https?:\/\/(?:www\.)?xiaohongshu\.com\/[^\s]+` matched at `i`. */
  function WebLinkAt(t: string, i: nat): (r: Option<nat>)
    ensures r.Some? ==> i < r.value <= |t| && HasScheme(t[i..r.value])
    ensures r.Some? ==> forall k :: i <= k < r.value ==> !IsSpace(t[k])
    ensures r.Some? ==> r.value < |t| ==> IsSpace(t[r.value])
    ensures r.Some? <==>
      var h := i + SchemeLengthAt(t, i);
      SchemeLengthAt(t, i) > 0 && (WebHostAt(t, h) || (HasAt(t, h, Www) && WebHostAt(t, h + |Www|)))
  {
    var n := SchemeLengthAt(t, i);
    if n == 0 then None
    else
      // `(?:www\.)?` is greedy: the variant with "www." is tried first.
      var withWww := if HasAt(t, i + n, Www) then WebLinkTail(t, i + n + |Www|) else None;
      var r := if withWww.Some? then withWww else WebLinkTail(t, i + n);
      if r.Some? then
        LiteralsSpaceFree();
        SpaceFreeAt(t, i, if n == 8 then Https else Http);
        if withWww.Some? then
          SpaceFreeAt(t, i + n, Www);
          SpaceFreeAt(t, i + n + |Www|, WebHost);
          SchemeStartsSlice(t, i, r.value);
          r
        else
          SpaceFreeAt(t, i + n, WebHost);
          SchemeStartsSlice(t, i, r.value);
          r
      else r
  }

  datatype LinkKind = ShortLink | WebLink

  /** End of the match of `kind`'s pattern that begins exactly at `i`, if there is one. */
  function LinkEndAt(kind: LinkKind, t: string, i: nat): Option<nat> {
    match kind
    case ShortLink => ShortLinkAt(t, i)
    case WebLink => WebLinkAt(t, i)
  }

  /** The leftmost match of `kind`'s pattern that starts at or after `i`, as (start, end):
      what `String.prototype.match` without the `g` flag finds. */
  function FirstLink(kind: LinkKind, t: string, i: nat): (r: Option<(nat, nat)>)
    requires i <= |t|
    ensures r.Some? ==> i <= r.value.0 && LinkEndAt(kind, t, r.value.0) == Some(r.value.1)
    ensures r.Some? ==> forall j :: i <= j < r.value.0 ==> LinkEndAt(kind, t, j).None?
    ensures r.None? ==> forall j :: i <= j <= |t| ==> LinkEndAt(kind, t, j).None?
    decreases |t| - i
  {
    var m := LinkEndAt(kind, t, i);
    if m.Some? then Some((i, m.value))
    else if i == |t| then None
    else FirstLink(kind, t, i + 1)
  }

  /** There is no match of `kind`'s pattern anywhere in `t`. */
  predicate NoLink(kind: LinkKind, t: string) {
    forall j :: 0 <= j <= |t| ==> LinkEndAt(kind, t, j).None?
  }

  /** `extractXHSUrl`. */
  function ExtractXHSUrl(t: string): (r: Option<string>)
    ensures r.Some? ==> HasScheme(r.value) && |r.value| > 0
    ensures r.Some? ==> exists i :: HasAt(t, i, r.value)
    ensures r.None? <==> NoLink(ShortLink, t) && NoLink(WebLink, t) && !HasScheme(t)
  {
    match FirstLink(ShortLink, t, 0)
    case Some((i, e)) =>
      assert HasAt(t, i, t[i..e]);
      Some(t[i..e])
    case None =>
      match FirstLink(WebLink, t, 0)
      case Some((i, e)) =>
        assert HasAt(t, i, t[i..e]);
        Some(t[i..e])
      case None =>
        if HasScheme(t) then
          assert HasAt(t, 0, t);
          Some(t)
        else None
  }

  /** Scanning from `j` finds the match at `i` when nothing matches in between. */
  lemma {:induction false} FirstLinkAt(kind: LinkKind, t: string, j: nat, i: nat, e: nat)
    requires j <= i <= |t|
    requires LinkEndAt(kind, t, i) == Some(e)
    requires forall m :: j <= m < i ==> LinkEndAt(kind, t, m).None?
    ensures FirstLink(kind, t, j) == Some((i, e))
    decreases i - j
  {
    if j < i {
      FirstLinkAt(kind, t, j + 1, i, e);
    }
  }

  /** Scanning from `j` finds nothing when the pattern matches nowhere. */
  lemma {:induction false} FirstLinkNone(kind: LinkKind, t: string, j: nat)
    requires j <= |t| && NoLink(kind, t)
    ensures FirstLink(kind, t, j).None?
    decreases |t| - j
  {
    if j < |t| {
      FirstLinkNone(kind, t, j + 1);
    }
  }

  /** Rule 1 wins: the leftmost short link is returned whole, whatever web links the input holds,
      even ones that come before it. */
  lemma ShortLinkFirst(t: string, i: nat, e: nat)
    requires LinkEndAt(ShortLink, t, i) == Some(e)
    requires forall j :: 0 <= j < i ==> LinkEndAt(ShortLink, t, j).None?
    ensures ExtractXHSUrl(t) == Some(t[i..e])
  {
    FirstLinkAt(ShortLink, t, 0, i, e);
  }

  /** Rule 2: with no short link anywhere, the leftmost web link is returned, extended up to the
      first white-space character or the end of the input. */
  lemma WebLinkSecond(t: string, i: nat, e: nat)
    requires NoLink(ShortLink, t)
    requires LinkEndAt(WebLink, t, i) == Some(e)
    requires forall j :: 0 <= j < i ==> LinkEndAt(WebLink, t, j).None?
    ensures ExtractXHSUrl(t) == Some(t[i..e])
    ensures e == |t| || IsSpace(t[e])
  {
    FirstLinkNone(ShortLink, t, 0);
    FirstLinkAt(WebLink, t, 0, i, e);
  }

  /** Rule 3 and the fallback: with neither pattern anywhere, an input with a scheme is returned
      unchanged and any other input has no link. */
  lemma DirectUrlLast(t: string)
    requires NoLink(ShortLink, t) && NoLink(WebLink, t)
    ensures HasScheme(t) ==> ExtractXHSUrl(t) == Some(t)
    ensures !HasScheme(t) ==> ExtractXHSUrl(t) == None
  {
    FirstLinkNone(ShortLink, t, 0);
    FirstLinkNone(WebLink, t, 0);
  }

  /** A share text as the app receives it when a note is shared from the phone. */
  const ShareText := "看看这个 https://xhslink.com/abc123 超好看"

  lemma ShareTextNoEarlierLink(j: nat)
    requires j < 5
    ensures LinkEndAt(ShortLink, ShareText, j).None?
  {
    var t := ShareText;
    assert t[j] != 'h' && Https[0] == 'h' && Http[0] == 'h';
    assert !HasAt(t, j, Https) by {
      if j + 8 <= |t| { assert t[j..j + 8][0] == t[j]; }
    }
    assert !HasAt(t, j, Http) by {
      if j + 7 <= |t| { assert t[j..j + 7][0] == t[j]; }
    }
  }

  lemma ShareTextScheme()
    ensures SchemeLengthAt(ShareText, 5) == 8
  {
    var t := ShareText;
    assert t[5] == 'h' && t[6] == 't' && t[7] == 't' && t[8] == 'p' && t[9] == 's';
    assert t[10] == ':' && t[11] == '/' && t[12] == '/';
    assert t[5..13] == Https;
  }

  lemma ShareTextHost()
    ensures HasAt(ShareText, 13, ShortLinkHost)
  {
    var t := ShareText;
    assert t[13] == 'x' && t[14] == 'h' && t[15] == 's' && t[16] == 'l' && t[17] == 'i' && t[18] == 'n';
    assert t[19] == 'k' && t[20] == '.' && t[21] == 'c' && t[22] == 'o' && t[23] == 'm' && t[24] == '/';
    assert t[13..25] == ShortLinkHost;
  }

  lemma ShareTextPath()
    ensures ShortPathEnd(ShareText, 25) == 31
  {
    var t := ShareText;
    assert t[31] == ' ';
    assert t[25] == 'a' && t[26] == 'b' && t[27] == 'c' && t[28] == '1' && t[29] == '2' && t[30] == '3';
    ShortPathEndIs(t, 25, 31);
  }

  lemma ShareTextShortLinkAt()
    ensures ShortLinkAt(ShareText, 5) == Some(31)
  {
    ShareTextScheme();
    ShareTextHost();
    ShareTextPath();
  }

  lemma ShareTextLinkSlice()
    ensures ShareText[5..31] == "https://xhslink.com/abc123"
  {
    var t := ShareText;
    var u := "https://xhslink.com/abc123";
    assert forall k :: 0 <= k < 26 ==> t[5 + k] == u[k];
  }

  /** A share text with a short link in the middle resolves to the bare short link. */
  lemma ShareTextExample()
    ensures ExtractXHSUrl(ShareText) == Some("https://xhslink.com/abc123")
  {
    forall j | 0 <= j < 5
      ensures LinkEndAt(ShortLink, ShareText, j).None?
    {
      ShareTextNoEarlierLink(j);
    }
    ShareTextShortLinkAt();
    ShortLinkFirst(ShareText, 5, 31);
    ShareTextLinkSlice();
  }

  /** The greedy path run from `i` stops exactly at `j` when `j` is the first character outside
      the class. */
  lemma {:induction false} ShortPathEndIs(t: string, i: nat, j: nat)
    requires i <= j <= |t|
    requires forall k :: i <= k < j ==> IsShortPathChar(t[k])
    requires j < |t| ==> !IsShortPathChar(t[j])
    ensures ShortPathEnd(t, i) == j
    decreases j - i
  {
    if i < j {
      ShortPathEndIs(t, i + 1, j);
    }
  }
}
