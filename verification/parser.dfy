/**
 * `parseXHSContent` of src/app/api/fetch-xhs/route.ts: the title, the body paragraph and the note
 * images, each taken from the text rendering of the page by its own regular expression.
 */
module Parser {
  import opened Wrappers
  import opened Text
  import opened Patterns

  const TitleTag := "Title:"
  const SiteName := "小红书"

  /** The text reported when the rendering has no body paragraph. */
  const NoBodyText := "未找到正文内容"

  const ImageAlt := "![Image"
  const ImageCdn := "https://sns-webpic-qc.xhscdn.com/"

  /** What the parser returns: `{ title, text, images }`. */
  datatype NoteContent = NoteContent(title: string, text: string, images: seq<string>)

  // Title: /Title:\s*(.*?)\s*(?:-\s*小红书|\n|$)/

  /** `(?:-\s*小红书|\n|$)` matches at `j`.  The greedy `\s*` after '-' never gives a space back
      usefully: a space would then stand where '小' is needed. */
  predicate TitleEndsAt(t: string, j: nat)
    requires j <= |t|
  {
    j == |t| || (t[j] == '-' && HasAt(t, SpaceEnd(t, j + 1), SiteName)) || t[j] == '\n'
  }

  /** The capture may stop at `e`: the `\s*` that follows, giving back its spaces one at a time,
      reaches a place where the title ends. */
  predicate TitleClosesAt(t: string, e: nat)
    requires e <= |t|
  {
    exists j :: e <= j <= SpaceEnd(t, e) && TitleEndsAt(t, j)
  }

  /** The lazy `(.*?)` from `e`: the shortest capture, within one line, after which the title
      closes.  `None` when the line ends (at a terminator other than '\n') before the title can
      close. */
  function TitleLazyEnd(t: string, e: nat): (r: Option<nat>)
    requires e <= |t|
    ensures r.Some? ==> e <= r.value <= |t| && TitleClosesAt(t, r.value)
    ensures r.Some? ==> forall k :: e <= k < r.value ==> !IsLineTerminator(t[k]) && !TitleClosesAt(t, k)
    ensures r.None? ==> LineRunEnd(t, e) < |t| && forall m :: e <= m <= LineRunEnd(t, e) ==> !TitleClosesAt(t, m)
    decreases |t| - e
  {
    if TitleClosesAt(t, e) then Some(e)
    else if e < |t| && !IsLineTerminator(t[e]) then TitleLazyEnd(t, e + 1)
    else
      assert e < |t| by {
        if e == |t| { assert TitleEndsAt(t, e); }
      }
      None
  }

  /** The `\s*` after "Title:" is greedy: the capture starts at `c`, the end of the spaces, and
      only when no capture can start there are the spaces given back one at a time, down to `q`.
      The result is the capture's bounds: its start is the last place from `c` down to `q` where
      the lazy capture can close, and its end is where it closes. */
  function TitleCaptureFrom(t: string, q: nat, c: nat): (r: Option<(nat, nat)>)
    requires q <= c <= |t|
    ensures r.Some? ==> q <= r.value.0 <= c && TitleLazyEnd(t, r.value.0) == Some(r.value.1)
    ensures r.Some? ==> forall s :: r.value.0 < s <= c ==> TitleLazyEnd(t, s).None?
    ensures r.None? ==> forall s :: q <= s <= c ==> TitleLazyEnd(t, s).None?
    decreases c
  {
    match TitleLazyEnd(t, c)
    case Some(e) => Some((c, e))
    case None => if c == q then None else TitleCaptureFrom(t, q, c - 1)
  }

  /** The title pattern matched at `q`, as the bounds of its capture: "Title:" is at `q`, the
      capture starts within the white space after it, as late as it can, and runs to the first
      place where the title closes. */
  function TitleAt(t: string, q: nat): (r: Option<(nat, nat)>)
    ensures r.Some? ==> (
      HasAt(t, q, TitleTag)
      && q + |TitleTag| <= r.value.0 <= SpaceEnd(t, q + |TitleTag|)
      && TitleLazyEnd(t, r.value.0) == Some(r.value.1)
      && forall s :: r.value.0 < s <= SpaceEnd(t, q + |TitleTag|) ==> TitleLazyEnd(t, s).None?)
    ensures r.None? && HasAt(t, q, TitleTag) ==>
      forall s :: q + |TitleTag| <= s <= SpaceEnd(t, q + |TitleTag|) ==> TitleLazyEnd(t, s).None?
  {
    if HasAt(t, q, TitleTag) then TitleCaptureFrom(t, q + |TitleTag|, SpaceEnd(t, q + |TitleTag|)) else None
  }

  /** `html.match` of the title pattern from `p`: the leftmost "Title:" at which the pattern
      matches. */
  function TitleMatch(t: string, p: nat): (r: Option<nat>)
    requires p <= |t|
    ensures r.Some? ==> p <= r.value <= |t| && TitleAt(t, r.value).Some?
    ensures r.Some? ==> forall q :: p <= q < r.value ==> TitleAt(t, q).None?
    ensures r.None? ==> forall q :: p <= q <= |t| ==> TitleAt(t, q).None?
    decreases |t| - p
  {
    var m := TitleAt(t, p);
    if m.Some? then Some(p)
    else if p == |t| then None
    else TitleMatch(t, p + 1)
  }

  /** The bounds of the captured title, when the pattern matches. */
  function TitleCapture(t: string): Option<(nat, nat)> {
    var m := TitleMatch(t, 0);
    if m.Some? then TitleAt(t, m.value) else None
  }

  /** The capture of a match holds no line terminator. */
  lemma CaptureInLine(t: string, a: nat, b: nat)
    requires a <= |t| && TitleLazyEnd(t, a) == Some(b)
    ensures a <= b <= |t| && forall k :: a <= k < b ==> !IsLineTerminator(t[k])
  {
  }

  /** The characters of a trimmed string all come from the original. */
  lemma TrimChars(s: string)
    ensures forall k :: 0 <= k < |Trim(s)| ==> Trim(s)[k] in s
  {
    var lo, hi :| 0 <= lo <= hi <= |s| && Trim(s) == s[lo..hi] && AllSpace(s[..lo]) && AllSpace(s[hi..]);
    forall k | 0 <= k < |Trim(s)|
      ensures Trim(s)[k] in s
    {
      assert Trim(s)[k] == s[lo + k];
    }
  }

  /** Padding the bars and trimming keeps the number of '|' and brings in no line break. */
  lemma PadTrimShape(y: string)
    ensures Count(Trim(PadBars(y)), '|') == Count(y, '|')
    ensures (forall k :: 0 <= k < |y| ==> !IsLineTerminator(y[k])) ==>
      forall k :: 0 <= k < |Trim(PadBars(y))| ==> !IsLineTerminator(Trim(PadBars(y))[k])
  {
    assert y[0..] == y;
    PadFromCount(y, 0);
    TrimKeepsCount(PadBars(y), '|');
    PadFromChars(y, 0);
    TrimChars(PadBars(y));
  }

  /** The trimmed capture keeps the capture's '|' and its freedom from line breaks. */
  lemma TrimShape(x: string)
    ensures Count(Trim(x), '|') == Count(x, '|')
    ensures (forall k :: 0 <= k < |x| ==> !IsLineTerminator(x[k])) ==>
      forall k :: 0 <= k < |Trim(x)| ==> !IsLineTerminator(Trim(x)[k])
  {
    TrimKeepsCount(x, '|');
    TrimChars(x);
  }

  /** The title: the trimmed capture, with every '|' padded to " | ", trimmed again; empty when
      the rendering has no title line. */
  function Title(html: string): (r: string)
    ensures NoEdgeSpace(r)
    ensures TitleCapture(html).None? ==> r == ""
    ensures (forall q :: !HasAt(html, q, TitleTag)) ==> r == ""
    ensures TitleCapture(html).Some? ==> TitleOf(html, TitleCapture(html).value.0, TitleCapture(html).value.1, r)
    ensures forall k :: 0 <= k < |r| ==> !IsLineTerminator(r[k])
  {
    var m := TitleCapture(html);
    if m.Some? then
      TitleFromCapture(html, m.value.0, m.value.1)
    else
      PadTrimShape("");
      Trim(PadBars(""))
  }

  /** `r` is the title made from the capture `html[a..b]`: trimmed, padded, trimmed again; it
      keeps the capture's '|' count. */
  predicate TitleOf(html: string, a: nat, b: nat, r: string) {
    a <= b <= |html| && r == Trim(PadBars(Trim(html[a..b]))) && Count(r, '|') == Count(html[a..b], '|')
  }

  function TitleFromCapture(html: string, a: nat, b: nat): (r: string)
    requires a <= |html| && TitleLazyEnd(html, a) == Some(b)
    ensures TitleOf(html, a, b, r) && NoEdgeSpace(r)
    ensures forall k :: 0 <= k < |r| ==> !IsLineTerminator(r[k])
  {
    CaptureInLine(html, a, b);
    var title := Trim(html[a..b]);
    PadTrimShape(title);
    TrimShape(html[a..b]);
    Trim(PadBars(title))
  }

  /** A title line as the reader proxy renders it. */
  const TitleLine := "Title: 春日穿搭 - 小红书"

  lemma TitleLineTag()
    ensures HasAt(TitleLine, 0, TitleTag) && SpaceEnd(TitleLine, 6) == 7
  {
    var t := TitleLine;
    assert t[0] == 'T' && t[1] == 'i' && t[2] == 't' && t[3] == 'l' && t[4] == 'e' && t[5] == ':';
    assert t[..6] == TitleTag;
    assert t[6] == ' ' && !IsSpace(t[7]);
  }

  /** The title may close before " - 小红书". */
  lemma TitleLineClosesAtDash()
    ensures TitleClosesAt(TitleLine, 11)
  {
    var t := TitleLine;
    assert t[11] == ' ' && t[12] == '-' && t[13] == ' ';
    assert SpaceEnd(t, 11) == 12 && SpaceEnd(t, 13) == 14;
    assert t[14..17] == SiteName;
    assert TitleEndsAt(t, 12);
  }

  /** Inside the title's own characters it may not close. */
  lemma TitleLineOpen(k: nat)
    requires 7 <= k < 11
    ensures !TitleClosesAt(TitleLine, k) && !IsLineTerminator(TitleLine[k])
  {
    var t := TitleLine;
    assert IsCjk(t[k]) && SpaceEnd(t, k) == k;
  }

  /** The title closes before " - 小红书", and not earlier. */
  lemma TitleLineCloses()
    ensures TitleLazyEnd(TitleLine, 7) == Some(11)
  {
    TitleLineClosesAtDash();
    TitleLineOpen(10);
    TitleLineOpen(9);
    TitleLineOpen(8);
    TitleLineOpen(7);
  }

  /** A title without '|' and without edge spaces passes the trimming and padding unchanged. */
  lemma TitleLineClean()
    ensures Trim(PadBars(Trim(TitleLine[7..11]))) == "春日穿搭"
  {
    var x := TitleLine[7..11];
    assert x == "春日穿搭";
    assert SpaceEnd(x, 0) == 0 && TrailStart(x, 0) == 4;
    assert Trim(x) == x;
    forall j | 0 <= j < |x|
      ensures MatchEnd(Bar, x, j).None?
    {
      assert x[j] != '|';
    }
    ReplaceAllNoMatch(Bar, x, " | ", 0);
    assert PadBars(x) == x;
  }

  /** A rendered title line gives the bare title: the site name and the separator are dropped. */
  lemma TitleExample()
    ensures Title(TitleLine) == "春日穿搭"
  {
    TitleLineTag();
    TitleLineCloses();
    assert TitleCaptureFrom(TitleLine, 6, 7) == Some((7, 11));
    assert TitleMatch(TitleLine, 0) == Some(0);
    TitleLineClean();
  }

  // Body: /\n([^\n]+\[#[^\n]+)\n/

  /** The first '\n' at or after `i`, or the end of the text. */
  function NextNewline(t: string, i: nat): (j: nat)
    requires i <= |t|
    ensures i <= j <= |t|
    ensures j < |t| ==> t[j] == '\n'
    ensures forall k :: i <= k < j ==> t[k] != '\n'
    decreases |t| - i
  {
    if i < |t| && t[i] != '\n' then NextNewline(t, i + 1) else i
  }

  /** `[^\n]+\[#[^\n]+` spans the whole line: a "[#" with at least one character before it and
      one after it. */
  predicate HasHashtag(line: string) {
    exists k :: 1 <= k && k + 2 < |line| && line[k] == '[' && line[k + 1] == '#'
  }

  /** The body pattern matches at the '\n' at `s`.  Its group cannot hold a '\n' and must be
      followed by one, so it is the whole line after `s`, and backtracking only moves the split
      around "[#". */
  predicate BodyLineAt(t: string, s: nat)
    requires s < |t|
  {
    t[s] == '\n' && NextNewline(t, s + 1) < |t| && HasHashtag(t[s + 1..NextNewline(t, s + 1)])
  }

  /** The first body paragraph at or after `s`, as its bounds. */
  function FirstBodyLine(t: string, s: nat): (r: Option<(nat, nat)>)
    requires s <= |t|
    ensures r.Some? ==> var (a, b) := r.value;
      s < a <= b < |t| && t[a - 1] == '\n' && t[b] == '\n' && HasHashtag(t[a..b])
      && (forall k :: a <= k < b ==> t[k] != '\n')
    ensures r.Some? ==> forall j :: s <= j < r.value.0 - 1 ==> !BodyLineAt(t, j)
    ensures r.None? ==> forall j :: s <= j < |t| ==> !BodyLineAt(t, j)
    decreases |t| - s
  {
    if s == |t| then None
    else if BodyLineAt(t, s) then Some((s + 1, NextNewline(t, s + 1)))
    else FirstBodyLine(t, s + 1)
  }

  /** The body text: the first paragraph with a hashtag, cleaned, or the fixed notice when there
      is none or nothing is left of it. */
  function BodyText(html: string): (r: string)
    ensures r != ""
    ensures FirstBodyLine(html, 0).None? ==> r == NoBodyText
    ensures NoEdgeSpace(r) && NoDoubleSpace(r) && SpacesArePlain(r)
  {
    var text := match FirstBodyLine(html, 0)
      case Some((a, b)) => CleanBody(html[a..b])
      case None => "";
    match FirstBodyLine(html, 0)
    case Some((a, b)) =>
      CleanBodyShape(html[a..b]);
      if text == "" then NoBodyText else text
    case None =>
      if text == "" then NoBodyText else text
  }

  // Images: /!\[Image\s+\d+\]\((https:\/\/sns-webpic-qc\.xhscdn\.com\/[^)]+)\)/g

  /** An image URL as the pattern captures it: on the image CDN, with a path, without ')'. */
  predicate IsImageUrl(u: string) {
    StartsWith(u, ImageCdn) && |u| > |ImageCdn| && ')' !in u
  }

  /** End of the greedy `\d*` run that starts at `i`. */
  function DigitEnd(t: string, i: nat): (j: nat)
    requires i <= |t|
    ensures i <= j <= |t|
    decreases |t| - i
  {
    if i < |t| && IsDigit(t[i]) then DigitEnd(t, i + 1) else i
  }

  /** The greedy `\d*` run is maximal: every character it passes is a digit, and the one after
      it is not. */
  lemma {:induction false} DigitEndRun(t: string, i: nat)
    requires i <= |t|
    ensures forall k :: i <= k < DigitEnd(t, i) ==> IsDigit(t[k])
    ensures DigitEnd(t, i) < |t| ==> !IsDigit(t[DigitEnd(t, i)])
    decreases |t| - i
  {
    if i < |t| && IsDigit(t[i]) {
      DigitEndRun(t, i + 1);
    }
  }

  /** The image pattern, written out: "![Image" at `i`, white space up to `w`, digits up to `d`,
      "](" at `d`, then the capture from `d + 2` to `v` (the CDN prefix and a non-empty run
      without ')'), and the closing ')' at `v`. */
  predicate ImageShape(t: string, i: nat, w: nat, d: nat, v: nat) {
    i + |ImageAlt| < w < d && d + 2 + |ImageCdn| < v < |t|
    && HasAt(t, i, ImageAlt)
    && (forall k :: i + |ImageAlt| <= k < w ==> IsSpace(t[k]))
    && (forall k :: w <= k < d ==> IsDigit(t[k]))
    && t[d] == ']' && t[d + 1] == '('
    && HasAt(t, d + 2, ImageCdn)
    && ')' !in t[d + 2 + |ImageCdn|..v]
    && t[v] == ')'
  }

  /** The image pattern at `i`, as the bounds of the captured URL; the match ends just after
      them, at ')'.  Every greedy run in the pattern is followed by something it cannot hold (a
      digit after the spaces, ']' after the digits, ')' after the URL), so none gives anything
      back. */
  function ImageAt(t: string, i: nat): (r: Option<(nat, nat)>)
    ensures r.Some? ==> i < r.value.0 < r.value.1 < |t| && t[r.value.1] == ')'
  {
    if !HasAt(t, i, ImageAlt) then None
    else
      var w := SpaceEnd(t, i + |ImageAlt|);
      var d := DigitEnd(t, w);
      if w == i + |ImageAlt| || d == w || !HasAt(t, d, "](") then None
      else
        var u := d + 2;
        if !HasAt(t, u, ImageCdn) then None
        else
          var v := NonParenEnd(t, u + |ImageCdn|);
          if v == u + |ImageCdn| || v == |t| then None
          else Some((u, v))
  }

  /** A match of the image pattern has the pattern's shape. */
  lemma ImageAtShape(t: string, i: nat)
    requires ImageAt(t, i).Some?
    ensures ImageAt(t, i).value.0 >= 2
    ensures ImageShape(t, i, SpaceEnd(t, i + |ImageAlt|), ImageAt(t, i).value.0 - 2, ImageAt(t, i).value.1)
  {
    var a := i + |ImageAlt|;
    var w := SpaceEnd(t, a);
    var d := DigitEnd(t, w);
    DigitEndRun(t, w);
    assert HasAt(t, d, "](");
    assert t[d] == t[d..d + 2][0] && t[d + 1] == t[d..d + 2][1];
    var u := d + 2;
    var c := u + |ImageCdn|;
    var v := NonParenEnd(t, c);
    assert ImageAt(t, i) == Some((u, v));
    assert a < w < d && c < v < |t|;
  }

  /** In the pattern's shape, each greedy run stops exactly where the shape says. */
  lemma ShapeRuns(t: string, i: nat, w: nat, d: nat, v: nat)
    requires ImageShape(t, i, w, d, v)
    ensures SpaceEnd(t, i + |ImageAlt|) == w && DigitEnd(t, w) == d
    ensures NonParenEnd(t, d + 2 + |ImageCdn|) == v
  {
    assert IsDigit(t[w]) && !IsSpace(t[w]);
    assert !IsDigit(t[d]);
    DigitEndRun(t, w);
  }

  /** Conversely, wherever the pattern's shape occurs, the image pattern matches there, and the
      capture is exactly that shape's URL: a match at `i` is unique. */
  lemma ImageShapeMatches(t: string, i: nat, w: nat, d: nat, v: nat)
    requires ImageShape(t, i, w, d, v)
    ensures ImageAt(t, i) == Some((d + 2, v))
  {
    ShapeRuns(t, i, w, d, v);
    assert HasAt(t, d, "](") by {
      assert t[d..d + 2] == "](";
    }
  }

  /** The URL the image pattern captures is an image URL of the CDN. */
  lemma ImageAtIsImage(t: string, i: nat)
    requires ImageAt(t, i).Some?
    ensures IsImageUrl(t[ImageAt(t, i).value.0..ImageAt(t, i).value.1])
  {
    var w := SpaceEnd(t, i + |ImageAlt|);
    var u := DigitEnd(t, w) + 2;
    CaptureIsImageUrl(t, u, NonParenEnd(t, u + |ImageCdn|));
  }

  lemma CaptureIsImageUrl(t: string, u: nat, v: nat)
    requires HasAt(t, u, ImageCdn) && u + |ImageCdn| < v <= |t|
    requires ')' !in t[u + |ImageCdn|..v]
    ensures IsImageUrl(t[u..v])
  {
    assert t[u..v] == ImageCdn + t[u + |ImageCdn|..v];
    assert ')' !in ImageCdn;
  }

  /** `imgRegex.exec(html)` with `lastIndex` at `i`: the leftmost match that starts at or after
      `i`. */
  function NextImage(t: string, i: nat): (r: Option<(nat, nat)>)
    requires i <= |t|
    ensures r.Some? ==> i < r.value.0 < r.value.1 < |t|
    decreases |t| - i
  {
    match ImageAt(t, i)
    case Some(m) => Some(m)
    case None => if i == |t| then None else NextImage(t, i + 1)
  }

  /** `exec` from `i` finds the match at `j` when no match starts in between: what it returns is
      the leftmost match. */
  lemma {:induction false} NextImageLeftmost(t: string, i: nat, j: nat)
    requires i <= j <= |t| && ImageAt(t, j).Some?
    requires forall k :: i <= k < j ==> ImageAt(t, k).None?
    ensures NextImage(t, i) == ImageAt(t, j)
    decreases j - i
  {
    if i < j {
      NextImageLeftmost(t, i + 1, j);
    }
  }

  /** `exec` from `i` finds nothing only when the pattern matches nowhere from `i` on. */
  lemma {:induction false} NextImageNone(t: string, i: nat)
    requires i <= |t|
    ensures NextImage(t, i).None? <==> forall j :: i <= j <= |t| ==> ImageAt(t, j).None?
    decreases |t| - i
  {
    if i < |t| {
      NextImageNone(t, i + 1);
    }
  }

  /** What `exec` returns is a match of the pattern at some index from `i` on. */
  lemma {:induction false} NextImageIsMatch(t: string, i: nat) returns (j: nat)
    requires i <= |t| && NextImage(t, i).Some?
    ensures i <= j <= |t| && ImageAt(t, j) == NextImage(t, i)
    ensures forall k :: i <= k < j ==> ImageAt(t, k).None?
    decreases |t| - i
  {
    if ImageAt(t, i).Some? {
      j := i;
    } else {
      j := NextImageIsMatch(t, i + 1);
      forall k | i <= k < j
        ensures ImageAt(t, k).None?
      {
        if k == i {
          assert ImageAt(t, i).None?;
        }
      }
    }
  }

  /** What exec finds is an image URL of the CDN. */
  lemma {:induction false} NextImageIsImage(t: string, i: nat)
    requires i <= |t| && NextImage(t, i).Some?
    ensures IsImageUrl(t[NextImage(t, i).value.0..NextImage(t, i).value.1])
    decreases |t| - i
  {
    if ImageAt(t, i).None? {
      NextImageIsImage(t, i + 1);
    } else {
      ImageAtIsImage(t, i);
    }
  }

  /** Every URL the exec loop sees from `lastIndex` `i` on, in order, repeats included. */
  function ImageUrls(t: string, i: nat): (r: seq<string>)
    requires i <= |t|
    decreases |t| - i
  {
    var m := NextImage(t, i);
    if m.None? then [] else [t[m.value.0..m.value.1]] + ImageUrls(t, m.value.1 + 1)
  }

  /** Every URL the loop sees is an image URL of the CDN. */
  lemma {:induction false} ImageUrlsAreImages(t: string, i: nat)
    requires i <= |t|
    ensures forall u :: u in ImageUrls(t, i) ==> IsImageUrl(u)
    decreases |t| - i
  {
    if NextImage(t, i).Some? {
      var u, v := NextImage(t, i).value.0, NextImage(t, i).value.1;
      ImageUrlsStep(t, i, u, v);
      var n := v + 1;
      NextImageIsImage(t, i);
      ImageUrlsAreImages(t, n);
      var rest := ImageUrls(t, n);
      assert ImageUrls(t, i) == [t[u..v]] + rest;
      AllImagesCons(t[u..v], rest);
    } else {
      assert ImageUrls(t, i) == [];
    }
  }

  lemma AllImagesCons(a: string, rest: seq<string>)
    requires IsImageUrl(a) && forall x :: x in rest ==> IsImageUrl(x)
    ensures forall x :: x in [a] + rest ==> IsImageUrl(x)
  {
  }

  /** One turn of the exec loop: the next URL, then everything after its match. */
  lemma ImageUrlsStep(t: string, i: nat, u: nat, v: nat)
    requires i <= |t| && NextImage(t, i).Some? && NextImage(t, i).value.0 == u && NextImage(t, i).value.1 == v
    ensures u <= v < |t| && ImageUrls(t, i) == [t[u..v]] + ImageUrls(t, v + 1)
  {
    var m := NextImage(t, i);
    var n := m.value.1 + 1;
    assert ImageUrls(t, i) == [t[m.value.0..m.value.1]] + ImageUrls(t, n);
    assert n == v + 1;
  }

  /** The sequence without repeats, each element kept where it first occurs. */
  function Dedup<T(==)>(xs: seq<T>): seq<T> {
    if xs == [] then []
    else
      var d := Dedup(xs[..|xs| - 1]);
      if xs[|xs| - 1] in d then d else d + [xs[|xs| - 1]]
  }

  /** One more element: de-duplication appends it unless it was already there. */
  lemma DedupSnoc<T>(xs: seq<T>, x: T)
    ensures Dedup(xs + [x]) == if x in Dedup(xs) then Dedup(xs) else Dedup(xs) + [x]
  {
    assert (xs + [x])[..|xs|] == xs;
  }

  predicate NoDuplicates<T(==)>(xs: seq<T>) {
    forall i, j :: 0 <= i < j < |xs| ==> xs[i] != xs[j]
  }

  /** Where `x` first occurs in `xs`. */
  function FirstIndex<T(==)>(xs: seq<T>, x: T): (r: nat)
    requires x in xs
    ensures r < |xs| && xs[r] == x
    ensures forall k :: 0 <= k < r ==> xs[k] != x
  {
    if xs[0] == x then 0 else 1 + FirstIndex(xs[1..], x)
  }

  /** A first occurrence inside a prefix is the first occurrence in the whole sequence. */
  lemma FirstIndexPrefix<T>(xs: seq<T>, n: nat, x: T)
    requires n <= |xs| && x in xs[..n]
    ensures x in xs && FirstIndex(xs, x) == FirstIndex(xs[..n], x)
  {
    var p := xs[..n];
    var a, b := FirstIndex(xs, x), FirstIndex(p, x);
    assert xs[b] == p[b];
    forall k | 0 <= k < b
      ensures xs[k] != x
    {
      assert xs[k] == p[k];
    }
  }

  /** De-duplication keeps exactly the elements there were, each once, in the order of their
      first occurrences. */
  lemma {:induction false} DedupSpec<T>(xs: seq<T>)
    ensures forall x :: x in Dedup(xs) ==> x in xs
    ensures forall x :: x in xs ==> x in Dedup(xs)
    ensures NoDuplicates(Dedup(xs))
    ensures forall i, j :: 0 <= i < j < |Dedup(xs)| ==>
      Dedup(xs)[i] in xs && Dedup(xs)[j] in xs && FirstIndex(xs, Dedup(xs)[i]) < FirstIndex(xs, Dedup(xs)[j])
  {
    if xs != [] {
      var n := |xs| - 1;
      var p, x := xs[..n], xs[n];
      assert xs == p + [x];
      DedupSpec(p);
      var d := Dedup(p);
      forall y | y in d
        ensures y in xs && FirstIndex(xs, y) == FirstIndex(p, y) < n
      {
        FirstIndexPrefix(xs, n, y);
      }
      if x !in d {
        assert x !in p;
        assert FirstIndex(xs, x) == n by {
          forall k | 0 <= k < n ensures xs[k] != x { assert xs[k] == p[k]; }
        }
        var d' := d + [x];
        forall i, j | 0 <= i < j < |d'|
          ensures FirstIndex(xs, d'[i]) < FirstIndex(xs, d'[j])
        {
          assert d'[i] == d[i];
          if j < |d| {
            assert d'[j] == d[j];
          }
        }
      }
    }
  }

  /** The URLs that are note pictures rather than avatars, icons or logos. */
  predicate IsDecoration(url: string) {
    Contains(url, "avatar") || Contains(url, "icon") || Contains(url, "logo")
  }

  /** The final `filter`: drop every avatar, icon and logo, keep the rest in order. */
  function KeepNoteImages(urls: seq<string>): (r: seq<string>)
    ensures forall u :: u in r ==> u in urls && !IsDecoration(u)
    ensures forall u :: u in urls && !IsDecoration(u) ==> u in r
    ensures IsSubsequence(r, urls)
    ensures NoDuplicates(urls) ==> NoDuplicates(r)
  {
    if urls == [] then []
    else
      var rest := KeepNoteImages(urls[1..]);
      if IsDecoration(urls[0]) then
        assert rest == [] || IsSubsequence(rest, urls[1..]);
        rest
      else
        var r := [urls[0]] + rest;
        assert r[1..] == rest;
        assert NoDuplicates(urls) ==> urls[0] !in urls[1..];
        r
  }

  /** The note the parser extracts from a rendering. */
  function NoteOf(html: string): NoteContent {
    NoteContent(Title(html), BodyText(html), KeepNoteImages(Dedup(ImageUrls(html, 0))))
  }

  /** The de-duplicated URLs: each found URL once, and nothing else. */
  lemma DedupedImages(html: string)
    ensures NoDuplicates(Dedup(ImageUrls(html, 0)))
    ensures forall u :: u in Dedup(ImageUrls(html, 0)) ==> u in ImageUrls(html, 0)
    ensures forall u :: u in ImageUrls(html, 0) ==> u in Dedup(ImageUrls(html, 0))
    ensures forall k :: 0 <= k < |Dedup(ImageUrls(html, 0))| ==> IsImageUrl(Dedup(ImageUrls(html, 0))[k])
  {
    var urls := ImageUrls(html, 0);
    DedupSpec(urls);
    ImageUrlsAreImages(html, 0);
    forall k | 0 <= k < |Dedup(urls)|
      ensures IsImageUrl(Dedup(urls)[k])
    {
      assert Dedup(urls)[k] in urls;
    }
  }

  /** What the loop does with the URLs still to come, starting from the list `acc`: each URL is
      pushed unless the list already includes it. */
  function DedupInto<T(==)>(acc: seq<T>, xs: seq<T>): seq<T>
    decreases |xs|
  {
    if xs == [] then acc
    else DedupInto(if xs[0] in acc then acc else acc + [xs[0]], xs[1..])
  }

  /** Pushing the rest of a sequence into the de-duplication of its beginning gives the
      de-duplication of the whole sequence. */
  lemma {:induction false} DedupIntoSpec<T>(p: seq<T>, xs: seq<T>)
    ensures DedupInto(Dedup(p), xs) == Dedup(p + xs)
    decreases |xs|
  {
    if xs == [] {
      assert p + xs == p;
    } else {
      var x, rest := xs[0], xs[1..];
      var q := p + [x];
      DedupSnoc(p, x);
      assert DedupInto(Dedup(p), xs) == DedupInto(Dedup(q), rest);
      DedupIntoSpec(q, rest);
      assert q + rest == p + xs;
    }
  }

  /** One turn of the exec loop: after the URL found is pushed, unless the list includes it, and
      `lastIndex` moves past its match, pushing what is still to come gives the same list. */
  lemma CollectStep(html: string, i: nat, u: nat, v: nat, j: nat, images: seq<string>, images': seq<string>)
    requires i <= |html| && NextImage(html, i) == Some((u, v)) && j == v + 1
    requires images' == if html[u..v] in images then images else images + [html[u..v]]
    ensures j <= |html|
    ensures DedupInto(images, ImageUrls(html, i)) == DedupInto(images', ImageUrls(html, j))
  {
    ImageUrlsStep(html, i, u, v);
    var xs := ImageUrls(html, i);
    assert xs[0] == html[u..v] && xs[1..] == ImageUrls(html, j);
  }

  /** The exec loop: every match, in order, each URL pushed the first time it is seen. */
  method CollectImages(html: string) returns (images: seq<string>)
    ensures images == Dedup(ImageUrls(html, 0))
  {
    images := [];
    var lastIndex := 0;
    var m := NextImage(html, lastIndex);
    DedupIntoSpec([], ImageUrls(html, 0));
    assert [] + ImageUrls(html, 0) == ImageUrls(html, 0);
    while m.Some?
      invariant lastIndex <= |html|
      invariant m == NextImage(html, lastIndex)
      invariant DedupInto(images, ImageUrls(html, lastIndex)) == Dedup(ImageUrls(html, 0))
      decreases |html| - lastIndex
    {
      var u, v := m.value.0, m.value.1;
      var imgUrl := html[u..v];
      ghost var before, i := images, lastIndex;
      if imgUrl !in images {
        images := images + [imgUrl];
      }
      lastIndex := v + 1;
      CollectStep(html, i, u, v, lastIndex, before, images);
      m := NextImage(html, lastIndex);
    }
  }

  /** `parseXHSContent`. */
  method ParseXHSContent(html: string) returns (note: NoteContent)
    ensures note == NoteOf(html)
    ensures note.text != ""
    ensures NoDuplicates(note.images)
    ensures forall k :: 0 <= k < |note.images| ==> IsImageUrl(note.images[k]) && !IsDecoration(note.images[k])
    ensures IsSubsequence(note.images, Dedup(ImageUrls(html, 0)))
    ensures forall u :: u in note.images ==> u in ImageUrls(html, 0)
  {
    var title := Title(html);
    var text := BodyText(html);
    var images := CollectImages(html);
    note := NoteContent(title, text, KeepNoteImages(images));
    DedupedImages(html);
    forall k | 0 <= k < |note.images|
      ensures IsImageUrl(note.images[k]) && !IsDecoration(note.images[k])
    {
      var u := note.images[k];
      assert u in note.images;
      assert u in images;
    }
    forall u | u in note.images
      ensures u in ImageUrls(html, 0)
    {
      SubsequenceMembers(note.images, images, u);
    }
  }
}
