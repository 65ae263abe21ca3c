# Xiaohongshu note extractor — a Dafny model of the fetch route

The web app takes whatever a user pasted from the Xiaohongshu (小红书) app. That is usually a
share text with a link somewhere inside. The route `src/app/api/fetch-xhs/route.ts` then does four
things:

- it resolves the paste to a note link (`extractXHSUrl`);
- it asks the r.jina.ai reader proxy for a text rendering of that page
  (`fetchRawXiaohongshuContent`);
- it pulls the title, the body paragraph and the note pictures out of the rendering
  (`parseXHSContent`);
- it answers the `POST` with the note, or with an error message and a status code.

This project models those four steps and proves what they promise.

- `text.dfy` has the shared character classes. JavaScript's `\s`, which is also what `trim()`
  strips, is one concrete predicate. It also has `trim`, character counts and subsequences.
- `resolver.dfy` has the link resolver. Each regular expression is an explicit scan over the
  string. Where backtracking could change the result, the backtracking order is written out.
- `fetcher.dfy` has the proxy URL and the error mapping of the fetch. The network is a function
  parameter that says how a request for a given URL ends: a response, an abort, or a failure.
- `patterns.dfy` has the `.replace` chain that cleans the body and the `'|'` padding of the
  title. Global replacement resumes after each match. A replacement without `g` replaces only the
  first match.
- `parser.dfy` has the title, body and image rules. The image `exec` loop is a method with a loop
  invariant. The de-duplication and the final filter are specification functions with lemmas.
- `handler.dfy` has `POST`.

One might expect a hashtag written as `[#春天R]` to be removed as a sticker, since the comment on
line 94 describes the pattern as removing `[xxxR]` stickers. The sticker pattern needs a CJK or
Latin letter right after `[`, so the hashtag stays. `Patterns.HashtagStickerKept` proves this.

## Model

| member | source | states |
|---|---|---|
| Text.Trim | src/app/api/fetch-xhs/route.ts:85 | `trim()` leaves no white space at either end, and the result is the input with a white-space prefix and a white-space suffix cut off |
| Text.SpaceEnd | src/app/api/fetch-xhs/route.ts:84 | a greedy `\s*` from `i` stops at the first non-space character, and everything it passes is white space |
| Text.LineRunEnd | src/app/api/fetch-xhs/route.ts:84 | `.` from `i` can reach exactly up to the first line terminator or the end |
| Text.TrimKeepsCount | src/app/api/fetch-xhs/route.ts:85 | trimming keeps the number of every non-space character, `'\|'` included |
| Text.TrimKeepsNoDoubleSpace | src/app/api/fetch-xhs/route.ts:99 | the final `trim()` of the body keeps "no two adjacent spaces" |
| Text.TrimKeepsSpaceKind | src/app/api/fetch-xhs/route.ts:99 | the final `trim()` of the body keeps "every space is the plain space" |
| Resolver.SchemeLengthAt | src/app/api/fetch-xhs/route.ts:134 | `https?:\/\/` at `i` is 8 characters exactly when `https://` is there, 7 exactly when `http://` is, and 0 exactly when neither is |
| Resolver.ShortPathEnd | src/app/api/fetch-xhs/route.ts:134 | the `[a-zA-Z0-9/]` run is maximal: every character passed is in the class, and the one after it is not |
| Resolver.NonSpaceEnd | src/app/api/fetch-xhs/route.ts:140 | the `[^\s]` run is maximal: it contains no white space and stops at white space or the end |
| Resolver.ShortLinkTail | src/app/api/fetch-xhs/route.ts:134 | the part after the scheme is `xhslink.com/` and the whole maximal `[a-zA-Z0-9/]+` run; a match exists exactly when `xhslink.com/` is followed by one path character |
| Resolver.WebLinkTail | src/app/api/fetch-xhs/route.ts:140 | the part after the scheme is `xiaohongshu.com/` and the whole maximal `[^\s]+` run; a match exists exactly when `xiaohongshu.com/` is followed by one character that is not white space |
| Resolver.ShortLinkAt | src/app/api/fetch-xhs/route.ts:134 | a short-link match starts with a scheme, has `xhslink.com/` after it, has no white space, and takes the whole non-empty path run; conversely the pattern matches at `i` exactly when a scheme, `xhslink.com/` and one path character follow `i` |
| Resolver.WebLinkAt | src/app/api/fetch-xhs/route.ts:140 | a web-link match starts with a scheme, has no white space, and ends at white space or at the end of the input; the pattern matches at `i` exactly when a scheme, then `xiaohongshu.com/` or `www.xiaohongshu.com/`, then one character that is not white space follow `i` |
| Resolver.FirstLink | src/app/api/fetch-xhs/route.ts:134-143 | `match` without `g` returns the leftmost match: it matches where it says, nothing matches before it, and `None` means nothing matches anywhere |
| Resolver.ExtractXHSUrl | src/app/api/fetch-xhs/route.ts:132-151 | a returned link is a non-empty substring of the input that begins with `http://` or `https://`; `null` holds exactly when there is no short link, no web link and no leading scheme |
| Resolver.FirstLinkAt | src/app/api/fetch-xhs/route.ts:134-143 | the scan from `j` returns the match at `i` when nothing matches in between |
| Resolver.FirstLinkNone | src/app/api/fetch-xhs/route.ts:134-143 | the scan finds nothing when the pattern matches nowhere |
| Resolver.ShortLinkFirst | src/app/api/fetch-xhs/route.ts:134-137 | the leftmost short link is the result, even when a web link comes before it |
| Resolver.WebLinkSecond | src/app/api/fetch-xhs/route.ts:140-143 | with no short link, the leftmost web link is the result, and it reaches up to the first white space or the end |
| Resolver.DirectUrlLast | src/app/api/fetch-xhs/route.ts:146-150 | with neither pattern present, an input with a scheme is returned unchanged and any other input gives `null` |
| Resolver.ShareTextExample | src/app/api/fetch-xhs/route.ts:134-137 | `看看这个 https://xhslink.com/abc123 超好看` resolves to `https://xhslink.com/abc123` |
| Fetcher.InnerFailure | src/app/api/fetch-xhs/route.ts:59-72 | the inner handler throws the timeout error exactly on an abort, and nothing exactly on a 2xx response; any other status gives its status error |
| Fetcher.ProxyUrl | src/app/api/fetch-xhs/route.ts:36-42 | the proxy URL is `https://r.jina.ai/` followed by the link without its `https://`, or without its `http://`, or unchanged when it has no scheme |
| Fetcher.ProxyUrlStripsOneScheme | src/app/api/fetch-xhs/route.ts:36-39 | exactly one scheme is removed, whichever it is, and the rest is kept as it was (a second scheme included) |
| Fetcher.ProxyUrlRoundTrip | src/app/api/fetch-xhs/route.ts:36-42 | putting the removed scheme back in front of the proxy path gives the link back |
| Fetcher.FetchRawContent | src/app/api/fetch-xhs/route.ts:33-79 | the body is returned exactly when the proxy answers 2xx; every other outcome ends with the one generic retrieval message, so an abort never reaches the caller as the timeout message |
| Patterns.StickerCloseAt | src/app/api/fetch-xhs/route.ts:94 | defines where `\s*R\]` matches after a name: after the longest white-space run, since a space given back cannot be `R` |
| Patterns.StickerNameStop | src/app/api/fetch-xhs/route.ts:94 | the backtracked name ends at the last point, from the greedy end down to one letter, after which `\s*R\]` matches; `None` means it matches after none of them |
| Patterns.StickerNameEnd | src/app/api/fetch-xhs/route.ts:94 | the `[一-龥a-zA-Z]` run is maximal: every character passed is in the class, and the one after it is not |
| Patterns.EscapedTail | src/app/api/fetch-xhs/route.ts:95 | after the greedy `[^[\]]*` run, the match closes at the last `R]` that starts between the run's start and its greedy end, and `None` means there is no such `R]` |
| Patterns.NonBracketEnd | src/app/api/fetch-xhs/route.ts:95 | the `[^[\]]` run is maximal: it contains no `[` or `]` and stops at one of them or at the end |
| Patterns.ImageCloseAt | src/app/api/fetch-xhs/route.ts:96 | defines where the alt text may stop: at `](` followed by a complete lazy target |
| Patterns.ImageAltStop | src/app/api/fetch-xhs/route.ts:96 | the lazy alt text stops at the first `](` on the line whose target closes; `None` means no `](` up to the end of the line has one |
| Patterns.ImageTargetEnd | src/app/api/fetch-xhs/route.ts:96 | the lazy image target ends just after the first `)` on the current line; `None` means the line has no `)` |
| Patterns.NonParenEnd | src/app/api/fetch-xhs/route.ts:97 | the `[^)]` run contains no `)` and stops at `)` or at the end |
| Patterns.StickerEnd | src/app/api/fetch-xhs/route.ts:94 | a sticker match starts at `[`, closes with `R]`, and holds no `'#'` |
| Patterns.MatchEnd | src/app/api/fetch-xhs/route.ts:94-98 | no cleaning pattern matches the empty string; a sticker match starts at `[` and holds no `'#'`; a `\s+` match is a whole white-space run; the bar pattern matches exactly at a `'\|'`, one character long (the other patterns' shapes are the lemmas below) |
| Patterns.StickerMatchShape | src/app/api/fetch-xhs/route.ts:94 | a sticker match is `[`, a name within the letter run, the longest white-space run and `R]`, with the longest name that works |
| Patterns.StickerShapeMatches | src/app/api/fetch-xhs/route.ts:94 | conversely, `[`, a name of letters and `\s*R\]` after it always make a sticker match |
| Patterns.EscapedMatchShape | src/app/api/fetch-xhs/route.ts:95 | an escaped-sticker match is `\[`, a run without brackets cut at its last `R]`, and that `R]` |
| Patterns.EscapedShapeMatches | src/app/api/fetch-xhs/route.ts:95 | conversely, `\[` and an `R]` before the next bracket make a match |
| Patterns.MarkdownImageShape | src/app/api/fetch-xhs/route.ts:96 | an image match is `![`, alt text on one line up to the first `](` whose target closes, and that target up to its first `)` |
| Patterns.MarkdownImageShapeMatches | src/app/api/fetch-xhs/route.ts:96 | conversely, `![` and, on the same line, a `](` whose target closes make a match |
| Patterns.LinkTargetShape | src/app/api/fetch-xhs/route.ts:97 | a link-target match is `](`, at least one character other than `)`, and `)` |
| Patterns.LinkTargetShapeMatches | src/app/api/fetch-xhs/route.ts:97 | conversely, `](` and a first `)` after at least one other character make a match ending just after that `)` |
| Patterns.StickerRemoved | src/app/api/fetch-xhs/route.ts:94 | the sticker step removes `[开心R]` entirely |
| Patterns.EscapedStickerRemoved | src/app/api/fetch-xhs/route.ts:95 | `\[aR]` is one escaped-sticker match, as long as the token |
| Patterns.MarkdownImageRemoved | src/app/api/fetch-xhs/route.ts:96 | `![a](b)` is one image match, as long as the token |
| Patterns.LinkTargetRemoved | src/app/api/fetch-xhs/route.ts:97 | `](u)` is one link-target match, as long as the token |
| Patterns.ReplaceAllFrom | src/app/api/fetch-xhs/route.ts:94-98 | defines a global `replace` from index `i`: each match is replaced and the search resumes at its end; elsewhere one character is copied |
| Patterns.ReplaceAllFromMatch | src/app/api/fetch-xhs/route.ts:94-98 | at a match, the replacement is written and the search resumes at the match's end |
| Patterns.ReplaceAllFromCopy | src/app/api/fetch-xhs/route.ts:94-98 | where nothing matches, the character is copied and the search moves one on |
| Patterns.ReplaceAll | src/app/api/fetch-xhs/route.ts:94-98 | defines `replace` with the `g` flag as the scan from index 0 |
| Patterns.ReplaceFirst | src/app/api/fetch-xhs/route.ts:95 | defines `replace` without `g`: only the leftmost match is replaced |
| Patterns.CleanBody | src/app/api/fetch-xhs/route.ts:93-99 | defines the cleaning chain, in the source's order: stickers, the first escaped sticker, Markdown images, link targets, white-space runs, then `trim()` |
| Patterns.FirstMatch | src/app/api/fetch-xhs/route.ts:95 | `replace` without `g` acts on the leftmost match: it matches, nothing matches earlier, and `None` means no match anywhere |
| Patterns.FirstMatchNone | src/app/api/fetch-xhs/route.ts:95 | conversely, when nothing matches anywhere, the search finds nothing |
| Patterns.CollapseFrom | src/app/api/fetch-xhs/route.ts:98 | `replace(/\s+/g, ' ')` leaves single plain spaces, and keeps the first character unless it was white space |
| Patterns.CleanBodyShape | src/app/api/fetch-xhs/route.ts:93-99 | the cleaned body has no white space at either end, no two adjacent white-space characters, and only plain spaces |
| Patterns.StickersKeepHashes | src/app/api/fetch-xhs/route.ts:94 | removing stickers removes no `'#'`: the hashtag marks of the paragraph all survive that step |
| Patterns.ReplaceAllNoMatch | src/app/api/fetch-xhs/route.ts:94-98 | a global replacement that finds no match leaves the text unchanged |
| Patterns.HashtagStickerKept | src/app/api/fetch-xhs/route.ts:94 | `[#春天R]` is not a sticker, so the sticker step leaves it unchanged |
| Patterns.UnpadPadFrom | src/app/api/fetch-xhs/route.ts:118 | undoing the `' \| '` padding from any point gives back the rest of the text |
| Patterns.PadBarsRoundTrip | src/app/api/fetch-xhs/route.ts:118 | `replace(/\|/g, ' \| ')` loses nothing: undoing the padding gives the title back |
| Patterns.PadFromCount | src/app/api/fetch-xhs/route.ts:118 | padding keeps the number of `'\|'` and adds exactly two characters for each |
| Patterns.PadFromChars | src/app/api/fetch-xhs/route.ts:118 | padding brings in no character except spaces |
| Patterns.PadBars | src/app/api/fetch-xhs/route.ts:118 | defines `replace(/\|/g, ' \| ')` as the global replacement with the bar pattern |
| Parser.TitleLazyEnd | src/app/api/fetch-xhs/route.ts:84 | the lazy capture ends at the first point where the title may close and never crosses a line terminator; `None` means the line ends at a terminator before any such point |
| Parser.TitleEndsAt | src/app/api/fetch-xhs/route.ts:84 | defines where `(?:-\s*小红书\|\n\|$)` matches: at the end, at a `\n`, or at `-` followed by white space and `小红书` |
| Parser.TitleClosesAt | src/app/api/fetch-xhs/route.ts:84 | defines where the capture may stop: the trailing `\s*`, given back one space at a time, reaches a place where the title ends |
| Parser.TitleCaptureFrom | src/app/api/fetch-xhs/route.ts:84 | the capture starts at the last place, from the end of the white space after `Title:` down to its start, where the lazy capture can close, and ends where it closes; `None` means it can close nowhere in that range |
| Parser.TitleAt | src/app/api/fetch-xhs/route.ts:84 | a match at `q` has `Title:` at `q`; its capture starts within the white space after the tag, as late as possible, and ends where the lazy capture first closes |
| Parser.TitleMatch | src/app/api/fetch-xhs/route.ts:84 | `match` returns the leftmost `Title:` where the pattern matches; nothing matches before it, and `None` means it matches nowhere |
| Parser.TitleCapture | src/app/api/fetch-xhs/route.ts:84-85 | defines `titleMatch[1]`: the capture of the match at the leftmost matching `Title:` |
| Parser.CaptureInLine | src/app/api/fetch-xhs/route.ts:84 | a title capture holds no line terminator |
| Parser.TrimShape | src/app/api/fetch-xhs/route.ts:85 | trimming the capture keeps its `'\|'` count and brings in no line break |
| Parser.PadTrimShape | src/app/api/fetch-xhs/route.ts:118 | padding and trimming keep the `'\|'` count and bring in no line break |
| Parser.Title | src/app/api/fetch-xhs/route.ts:85-118 | the title is `''` when there is no match; otherwise it is the captured text trimmed, with each `'\|'` padded to `' \| '`, trimmed again; it has no white space at either end, no line break, and as many `'\|'` as the capture |
| Parser.TitleFromCapture | src/app/api/fetch-xhs/route.ts:85-118 | the title made from a capture is the trimmed, padded, trimmed capture, keeps its `'\|'` count, and has no edge space or line break |
| Parser.TitleExample | src/app/api/fetch-xhs/route.ts:84-118 | `Title: 春日穿搭 - 小红书` gives the title `春日穿搭` |
| Parser.NextNewline | src/app/api/fetch-xhs/route.ts:88 | `[^\n]+` runs to the first `\n` or the end |
| Parser.HasHashtag | src/app/api/fetch-xhs/route.ts:88 | defines `[^\n]+\[#[^\n]+` over a whole line: `[#` with at least one character before it and one after it |
| Parser.BodyLineAt | src/app/api/fetch-xhs/route.ts:88 | defines a match of the body pattern at a `\n`: the whole line after it has a hashtag and is closed by `\n` |
| Parser.FirstBodyLine | src/app/api/fetch-xhs/route.ts:88 | the paragraph is the first whole line between two `\n` that has `[#` with a character on each side; no earlier line qualifies, and `None` means none does |
| Parser.BodyText | src/app/api/fetch-xhs/route.ts:119 | the text is never empty; it is `未找到正文内容` when no paragraph qualifies; it has no white space at either end and only single plain spaces inside |
| Parser.ImageAt | src/app/api/fetch-xhs/route.ts:104 | an image match at `i` captures a URL after `i` that is closed by `)` |
| Parser.ImageShape | src/app/api/fetch-xhs/route.ts:104 | defines the image pattern written out: `![Image`, white space, digits, `](`, the CDN URL without `)`, then `)` |
| Parser.DigitEnd | src/app/api/fetch-xhs/route.ts:104 | the `\d*` run ends within the text |
| Parser.DigitEndRun | src/app/api/fetch-xhs/route.ts:104 | the `\d*` run is maximal: every character passed is a digit, and the one after it is not |
| Parser.ImageAtShape | src/app/api/fetch-xhs/route.ts:104 | a match has the pattern's full shape: `![Image`, at least one space, at least one digit, `](`, a CDN URL with a non-empty path and no `)`, and `)` |
| Parser.ImageShapeMatches | src/app/api/fetch-xhs/route.ts:104 | wherever that shape occurs, the pattern matches there, with exactly that URL as the capture: so a match at `i` is unique |
| Parser.ImageAtIsImage | src/app/api/fetch-xhs/route.ts:104 | the captured URL starts with `https://sns-webpic-qc.xhscdn.com/`, is longer than it and has no `)` |
| Parser.NextImage | src/app/api/fetch-xhs/route.ts:107 | `exec` from `lastIndex` returns a capture that starts after `lastIndex` |
| Parser.NextImageIsMatch | src/app/api/fetch-xhs/route.ts:107 | what `exec` returns is the match at some index from `lastIndex` on, with no match between |
| Parser.NextImageLeftmost | src/app/api/fetch-xhs/route.ts:107 | `exec` returns the leftmost match at or after `lastIndex` |
| Parser.NextImageNone | src/app/api/fetch-xhs/route.ts:107 | `exec` returns `null` exactly when the pattern matches nowhere from `lastIndex` on |
| Parser.NextImageIsImage | src/app/api/fetch-xhs/route.ts:104-107 | what `exec` finds is a CDN image URL |
| Parser.ImageUrls | src/app/api/fetch-xhs/route.ts:104-114 | defines the URLs the loop meets: the capture `exec` finds, then those found after its match, where `lastIndex` moves |
| Parser.ImageUrlsAreImages | src/app/api/fetch-xhs/route.ts:104-109 | every URL the loop meets is a CDN image URL without `)` |
| Parser.ImageUrlsStep | src/app/api/fetch-xhs/route.ts:107-109 | after one `exec`, the URLs still to come are the one found, then those after its match |
| Parser.Dedup | src/app/api/fetch-xhs/route.ts:103-114 | defines the reference de-duplication: each element kept where it first occurs |
| Parser.DedupSnoc | src/app/api/fetch-xhs/route.ts:110-112 | the `includes` check and `push` append a URL exactly when it is new |
| Parser.DedupSpec | src/app/api/fetch-xhs/route.ts:103-114 | de-duplication keeps exactly the URLs there were, each once, ordered by where each first occurs |
| Parser.IsDecoration | src/app/api/fetch-xhs/route.ts:120-124 | defines the filter's test: the URL contains `avatar`, `icon` or `logo` |
| Parser.DedupedImages | src/app/api/fetch-xhs/route.ts:103-114 | the collected list has no duplicates, holds exactly the URLs met, and each is a CDN image URL |
| Parser.DedupInto | src/app/api/fetch-xhs/route.ts:110-112 | defines what the loop does with the URLs still to come: push each one unless the list includes it |
| Parser.DedupIntoSpec | src/app/api/fetch-xhs/route.ts:107-113 | pushing the remaining URLs one by one, skipping those already in the list, into the de-duplication of the ones seen gives the de-duplication of all of them |
| Parser.CollectStep | src/app/api/fetch-xhs/route.ts:107-113 | one loop turn: once the found URL is pushed (unless the list includes it) and `lastIndex` moves past its match, pushing the URLs still to come gives the same final list |
| Parser.CollectImages | src/app/api/fetch-xhs/route.ts:103-114 | the `exec` loop returns the de-duplicated list of all matches, in order of first occurrence |
| Parser.KeepNoteImages | src/app/api/fetch-xhs/route.ts:120-124 | a URL is kept exactly when it was in the list and contains none of `avatar`, `icon`, `logo`; the result is an order-preserving subsequence, and has no duplicates when the list had none |
| Parser.NoteOf | src/app/api/fetch-xhs/route.ts:117-125 | defines the parser's result: the title, the text, and the filtered de-duplicated image list |
| Parser.ParseXHSContent | src/app/api/fetch-xhs/route.ts:81-130 | the parser returns the title, body and image rules together; its text is non-empty, and its images are distinct CDN URLs without `)` or `avatar`/`icon`/`logo`, an order-preserving subsequence of the de-duplicated matches, each one a URL the pattern matched |
| Handler.Post | src/app/api/fetch-xhs/route.ts:3-31 | status 400 with `无效的小红书链接` exactly when no link is found; 500 with the generic retrieval message whenever the proxy does not answer 2xx; otherwise 200 with the parsed note of the body |

## Left out

- The network request itself, its headers, the `AbortController` with the 15-second timer, and
  `response.text()` are left out. The fetch is a function parameter that says how the request
  ends. A failure while reading the body is not modelled; it would end with the same generic
  message.
- `request.json()` is left out, along with a JSON body whose `url` is missing or not a string.
  `Handler.Post` receives the `url` string itself. In the source, such a body ends in the catch
  block with status 500 and the runtime's own error message.
- `NextResponse.json` serialisation is left out. An answer is a status and a payload value.
- `console.log` and `console.error` output is left out.
- The catch block of `parseXHSContent` (lines 126-128) is left out. Nothing in the parser can
  throw on a string input, so that branch is unreachable here.
- The fallback message `获取内容失败` of `POST` is left out. It is used only for a thrown value
  that is not an `Error`, and no modelled path throws one.
- `extractNoteId` is left out. Nothing calls it.
- `src/components/XHSFetcher.tsx` is not part of this model. It is user interface.
- JavaScript strings are UTF-16 code units, while Dafny strings are Unicode scalar values. Every
  literal and class in the patterns lies in the Basic Multilingual Plane. The two readings differ
  only for characters outside it, such as emoji: there `.` or `[^\n]` consumes one code unit in the
  source and one whole character here.
- Parser.BodyText: states the shape of the text and the empty-paragraph default. That a found
  paragraph is the cleaned line is its definition.
