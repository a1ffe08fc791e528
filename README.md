# TruthTrace fact checker: a Dafny model of its core

TruthTrace is a small web application that checks a claim. It does five things:

- it derives a short search keyword from the claim;
- it asks a web-search API for the top sources and inline images;
- it gathers a few distinct related images, from the search images first, then from the Wikipedia infobox images of the Wikipedia sources, then from a stock-photo search;
- it lists related videos from a video-search API;
- it asks a language model for an explanation and reads a verdict line (`REAL`, `FAKE` or `MISLEADING`) out of its reply.

This project models the program logic between those remote calls, and proves what it guarantees:

| file | module | models |
|---|---|---|
| `wrappers.dfy` | `Wrappers` | `Option`, for Python's `None` and for dictionary keys that may be missing |
| `strings.dfy` | `Strings` | the Python string operations used: `lower`, `upper`, `isspace`, `strip`, `in`, `index` and `replace`, on ASCII |
| `keyword.dfy` | `KeywordExtractor`, `KeywordExamples` | `extract_main_keyword` as a recursive function, with two worked claims |
| `search.dfy` | `SourceSearch` | the response shaping of `serper_search_with_top_sources_and_images`, as methods with loops |
| `images.dfy` | `ImageAggregator` | the Wikipedia page-title derivation of `fetch_wikipedia_infobox_image`, and `gather_images` as a method with its three loops, proved against a functional specification |
| `videos.dfy` | `VideoSearch` | the response shaping of `search_youtube_videos`, as a method with its loop |
| `verdict.dfy` | `VerdictParser` | the regular-expression parse of the verdict in `ask_deepseek_with_sources_and_claim` |

The remote services do not appear in the model.

- The parsed JSON responses arrive as datatypes. A key that may be missing is an `Option`.
- The two lookups that `gather_images` makes are function parameters (oracles):
  - the Wikipedia infobox image, by source link;
  - the stock-photo search, by query and number of images needed.
- `GatherImages` also returns the lookups it makes, in order. The short-circuit behaviour ("no remote call once there are enough images") is stated over that trace.
- The language model's reply arrives as a string.

## Model

| member | source | states |
|---|---|---|
| Strings.Lower | app.py:30 | lower-casing keeps the length, so an index found in the lowered claim is a position in the claim |
| Strings.Upper | app.py:167 | upper-casing keeps the length and maps `a`-`z` to `A`-`Z`, character by character, leaving every other character as it is |
| Strings.IsSpace | app.py:166 | the whitespace of `\s` (and of `str.strip()` at app.py:33-34) on ASCII: tab, line feed, vertical tab, form feed, carriage return, the separators 0x1C-0x1F and space; no whitespace character is a letter |
| Strings.Strip | app.py:33-34 | the result is the contiguous slice left after removing leading and trailing whitespace. It is empty exactly when the string is all whitespace, and otherwise neither starts nor ends with whitespace |
| Strings.StripIdempotent | app.py:33-34 | stripping a stripped string changes nothing |
| Strings.FindIsFirst | app.py:32-33 | `cl.index(s)` is the first index where `s` occurs, and the search finds nothing exactly when `s` occurs nowhere |
| Strings.ContainsOccurs | app.py:108 | the substring test `p in t` holds exactly when `p` occurs at some index of `t` |
| Strings.ContainsIsFind | app.py:32-33 | `s in cl` holds exactly when the search for `s` succeeds, so the guard and the `index` call agree |
| Strings.IsTruthy | app.py:55-56 | Python truthiness of an optional string, as used at app.py:55-56, 76, 110 and 117: a value counts only when it is present and non-empty, so a missing key and an empty string are treated alike |
| Strings.Find | app.py:33 | `cl.index(s)`: when the search succeeds, `s` occurs at the index it returns; `FindIsFirst` proves it is the first such index |
| Strings.Contains | app.py:32 | the substring test `s in cl` (also at app.py:108), compared by prefix one position after another; `ContainsOccurs` proves it holds exactly when `s` occurs at some index |
| Strings.ReplaceChar | app.py:64 | replacing one character keeps the length, changes exactly the positions holding that character, and leaves none of it behind |
| Strings.ReplaceKeepsAbsence | app.py:64 | replacing a character by one the pattern does not hold cannot create an occurrence of the pattern |
| KeywordExtractor.CutAtFirstListed | app.py:31-34 | the scan over the delimiter list returns the stripped form of some prefix of the claim, never longer than the claim |
| KeywordExtractor.ExtractMainKeyword | app.py:27-34 | the keyword is no longer than the claim |
| KeywordExtractor.KeywordIsStrippedPrefix | app.py:33-34 | the keyword is `strip` of a prefix of the claim, so it carries no surrounding whitespace |
| KeywordExtractor.CutAtListed | app.py:31-33 | over any delimiter list, the earliest-listed delimiter that occurs in the lowered claim cuts the claim at that delimiter's first occurrence |
| KeywordExtractor.CutAtNone | app.py:31-34 | when no delimiter of the list occurs, the whole claim is stripped |
| KeywordExtractor.KeywordAtFirstListedDelimiter | app.py:28-33 | priority over position: if the `k`-th delimiter is the first listed one to occur, the keyword is the claim before its first occurrence, whatever later-listed delimiters occur further left |
| KeywordExtractor.KeywordWithoutDelimiter | app.py:34 | a claim containing none of the ten delimiters gives `claim.strip()` |
| KeywordExamples.PriorityOverPositionExample | app.py:28-33 | "Art is a gift that heals" gives "Art is a gift": " that " is listed before " is ", though " is " occurs first |
| KeywordExamples.FirstListedExample | app.py:28-33 | "Mars has red soil" gives "Mars", cut at the only delimiter present |
| SourceSearch.ToSource | app.py:47-52 | a source record takes each missing field as the empty string, and its `link_lower` is the lowered link |
| SourceSearch.ImageUrl | app.py:55-56 | an entry yields its thumbnail when that is a non-empty string, otherwise its URL when that is non-empty, otherwise nothing |
| SourceSearch.ImageUrls | app.py:53-57 | the specification of the image loop: one entry after another, each usable URL appended; the list is no longer than the entries and holds no empty URL |
| SourceSearch.ShapeSearchResponse | app.py:45-57 | the sources are the first `top_n` organic results (all of them when fewer), in order, each shaped by `ToSource`; the images are the URLs of every image entry, in order; a missing key gives an empty list |
| SourceSearch.TopSources | app.py:45-52 | the loop over `data["organic"][:top_n]` produces exactly `min(top_n, len)` records, the k-th built from the k-th result |
| SourceSearch.CollectImageUrls | app.py:53-57 | the loop over the image entries produces exactly the specification list `ImageUrls` |
| SourceSearch.ImageUrlsMembership | app.py:53-57 | a URL is listed exactly when some entry yields it, and no listed URL is empty |
| SourceSearch.ImageUrlsCount | app.py:54-57 | one URL per entry that has a usable thumbnail or URL, and none for the others |
| SourceSearch.ImageUrlsAllThumbnails | app.py:55-57 | when every entry carries a thumbnail, the URLs are those thumbnails, position by position |
| ImageAggregator.LastPieceStart | app.py:64 | where the last piece of `split(sep)` starts, found by cutting at each occurrence of the separator from left to right without overlaps; it lies within the link |
| ImageAggregator.LastSegment | app.py:64 | `split(sep)[-1]` is a suffix of the link, no longer than it |
| ImageAggregator.LastSegmentHasNoSeparator | app.py:64 | the last piece of the split holds no separator |
| ImageAggregator.LastSegmentFollowsSeparator | app.py:64 | a link without `/wiki/` is its own last piece, so the whole link becomes the title; otherwise the last piece is at least six characters shorter than the link and `/wiki/` occurs right in front of it, whatever the number of occurrences |
| ImageAggregator.WikiTitle | app.py:64 | the page title is no longer than the link and contains no underscore |
| ImageAggregator.TitleHasNoSeparator | app.py:64 | the page title never contains `/wiki/` |
| ImageAggregator.TitleAfterOnlySeparator | app.py:64 | for a link with exactly one `/wiki/`, the title is the text after it with underscores read as spaces |
| ImageAggregator.FetchInfoboxImage | app.py:62-80 | the result is the page image the wiki reports for the title, present only when it is a non-empty string |
| ImageAggregator.IsWikipediaSource | app.py:108 | a source counts as a Wikipedia source exactly when its lowered link contains `wikipedia.org` |
| ImageAggregator.Take | app.py:106 | `images[:n]` is a prefix of length `n`, or the whole list when it is shorter |
| ImageAggregator.AppendDistinct | app.py:103-104 | the `if u not in images: images.append(u)` pattern over a list of candidates, in order, which each of the three loops uses (also app.py:110-111 and app.py:117-118); the old list is always a prefix of the result |
| ImageAggregator.AppendDistinctIsDistinct | app.py:103-104 | appending each URL only when it is absent keeps the list free of duplicates |
| ImageAggregator.AppendDistinctMembers | app.py:103-104 | that appending loses nothing and invents nothing: the result holds exactly the old elements and the new ones |
| ImageAggregator.NonEmpty | app.py:117 | the `if u` filter on the stock URLs, keeping order; the result is no longer than its input and holds no empty string |
| ImageAggregator.NonEmptyMembers | app.py:116-117 | the `if u` filter keeps exactly the non-empty stock URLs |
| ImageAggregator.WikiThumbOf | app.py:108-110 | a source contributes a wiki image only when it is a Wikipedia source and its lookup finds a non-empty image |
| ImageAggregator.WikiStageStep | app.py:107-111 | one source of the second loop appends the image its lookup finds when that image is non-empty and not yet listed, and otherwise leaves the list unchanged |
| ImageAggregator.WikiLookupsAreWikipedia | app.py:107-109 | every infobox lookup of the second loop is for the link of a Wikipedia source |
| ImageAggregator.WikiLookups | app.py:107-109 | the lookups of the second loop over a run of sources: one infobox lookup for the link of each Wikipedia source, in source order; `WikiLookupsAreWikipedia` and `WikiLookupsLength` are proved about it |
| ImageAggregator.SearchFills | app.py:102-106 | the first loop returns early exactly when some search image was seen and the distinct search images reach `min_images`; with no search image the length check never runs, even for `min_images = 0` |
| ImageAggregator.WikiFillsAt | app.py:110-113 | the second loop returns right after the `k`-th source exactly when that source's image was appended and the list then reaches `min_images`; a source that appends nothing is never followed by the check |
| ImageAggregator.StockPart | app.py:114-118 | the stock photos the third loop draws on: the non-empty results of one stock search for the shortfall, made only when the list is short after the wiki stage; `StockPartMembers` and `StockLookedUpOnce` are proved about it |
| ImageAggregator.GatheredImages | app.py:100-121 | the result has at most `min_images` URLs and no duplicates. Each URL is a search image, a wiki image of a source, or a stock photo from the one stock search, made only when the list was short |
| ImageAggregator.GatheredLookups | app.py:100-121 | the remote lookups `gather_images` makes, in order: never more than the number of sources plus one, and every lookup but the last is an infobox lookup |
| ImageAggregator.SearchShortCircuit | app.py:102-106 | when some search image is seen and the distinct search images reach `min_images`, the result is the first `min_images` of them and no lookup is made |
| ImageAggregator.SearchPrefixFills | app.py:102-106 | returning from inside the first loop gives the same list as the specification's cut of all distinct search images |
| ImageAggregator.WikiShortCircuit | app.py:107-113 | when the second loop fills, the result is the list at that point cut at `min_images`; only the sources up to that point are looked up, and no stock search is made |
| ImageAggregator.WikiFilledStage | app.py:107-113 | when the second loop returns early, its list has at least `min_images` URLs and is a prefix of the list a full pass over the sources would give |
| ImageAggregator.NoShortCircuit | app.py:107-115 | when neither early return happens, every Wikipedia source is looked up. The stock search follows exactly when the list is still short, and asks for the shortfall |
| ImageAggregator.StockPrefix | app.py:116-121 | the `break` in the third loop gives the same result as looking at every stock photo and cutting at `min_images` |
| ImageAggregator.StockStep | app.py:116-118 | one stock photo is appended exactly when it is non-empty and not yet listed |
| ImageAggregator.StockLookedUpOnce | app.py:114-115 | the stock search is made at most once, as the last lookup, for the keyword and for `min_images - len(images)` images, a number between 1 and `min_images` |
| ImageAggregator.InfoboxLookupsAreWikipedia | app.py:102-109 | infobox lookups happen only when the search images do not suffice, and only for links of Wikipedia sources |
| ImageAggregator.AddSearchImages | app.py:102-106 | the first loop returns early exactly when the search stage fills, with the cut list; otherwise it leaves the distinct search images in order |
| ImageAggregator.AddWikiImage | app.py:108-111 | one pass of the second loop's body moves the list and the lookup trace one source further along their specifications, and reports whether it appended |
| ImageAggregator.AddWikiImages | app.py:107-113 | the second loop returns early exactly when some source fills the list, with the cut list and the lookups so far; otherwise it leaves the full wiki-stage list and one lookup per Wikipedia source |
| ImageAggregator.AddStockImages | app.py:116-121 | the third loop and the final slice give the distinct non-empty stock photos appended to the list, cut at `min_images` |
| ImageAggregator.GatherImages | app.py:100-121 | `gather_images` returns exactly `GatheredImages` and makes exactly the lookups `GatheredLookups`, in that order |
| VideoSearch.Breaks | app.py:135-140 | an item makes the loop raise `KeyError` exactly when it carries a video identifier but lacks its title (app.py:138) or its thumbnail (app.py:140) |
| VideoSearch.FirstBreak | app.py:134-141 | the index of the first item whose missing title or thumbnail makes the loop raise, or the length when no item does |
| VideoSearch.Identified | app.py:135 | the items the loop keeps carry a video identifier and come from the input |
| VideoSearch.IdentifiedComplete | app.py:135 | no item carrying a video identifier is dropped |
| VideoSearch.IdentifiedCount | app.py:135 | exactly one item is kept per index whose item carries an identifier |
| VideoSearch.IdentifiedSingle | app.py:135 | a single item is kept exactly when it carries an identifier |
| VideoSearch.IdentifiedAppend | app.py:134-135 | order is kept: the items kept from two batches are those of the first followed by those of the second |
| VideoSearch.ToVideo | app.py:136-141 | a video record takes the item's title and thumbnail, and its URL is the watch prefix followed by the identifier, which can be read back from the URL |
| VideoSearch.VideosOf | app.py:134-141 | the specification of the video loop on items that do not raise: at most one record per item, each with a watch URL |
| VideoSearch.ShapeVideos | app.py:133-144 | the error is reported exactly when some item with an identifier lacks its title or thumbnail. The videos returned are those built from the items before it, all of them when there is none |
| VideoSearch.VideosFollowIdentified | app.py:134-141 | items without an identifier are skipped, and the k-th video has the k-th identified item's title and thumbnail and the watch URL for its identifier |
| VideoSearch.VideosOfAppend | app.py:134-141 | shaping two batches of items gives the videos of the first followed by those of the second |
| VerdictParser.UpperAlternative | app.py:167 | upper-casing an alternative of the pattern gives the reported label |
| VerdictParser.LabelAt | app.py:166 | the alternative that matches at an index is one of the three labels, and it really occurs there ignoring case |
| VerdictParser.MatchAt | app.py:166 | the pattern tried at one index: the marker ignoring case, the greedy whitespace run, then the first alternative that matches; a match never names `UNKNOWN` |
| VerdictParser.LabelsDisjoint | app.py:166 | at most one alternative matches at an index |
| VerdictParser.SpaceRunFrom | app.py:166 | the greedy `\s*` stops at a non-space character or at the end of the text |
| VerdictParser.SpaceRunIsSpace | app.py:166 | every character of the `\s*` run is whitespace |
| VerdictParser.SpaceRunUnique | app.py:166 | a whitespace run that ends at a non-space character or at the end of the text is the greedy run |
| VerdictParser.PatternAt | app.py:166 | the regular expression's own reading of a match at an index: the marker ignoring case, then some `w` whitespace characters, then an alternative ignoring case; it fixes no `w`, which `MatchAtIsPattern` relates to the greedy `MatchAt` |
| VerdictParser.MatchAtIsPattern | app.py:166 | the match found at an index is the regular expression's match: some amount of whitespace after the marker is followed by that label, and since `\s*` can only stop where a letter begins, greedy matching loses nothing |
| VerdictParser.SearchFrom | app.py:166 | `re.search` finds the leftmost index where the pattern matches, and none exactly when it matches nowhere |
| VerdictParser.ParseVerdict | app.py:166-167 | the verdict is `UNKNOWN` exactly when the pattern matches nowhere; otherwise it is the label of the leftmost match |
| VerdictParser.GroupAt | app.py:167 | the matched group is the label as written in the reply: it lowers to the matched alternative |
| VerdictParser.VerdictText | app.py:167 | the reported string is always one of the four labels, and it agrees with `ParseVerdict` |
| VerdictParser.ParseDeterminedByMatches | app.py:166 | the verdict depends on the reply only through where the pattern matches |
| VerdictParser.ParseIgnoresCase | app.py:166 | `re.IGNORECASE`: lower-casing the reply does not change the verdict |

## Left out

- The Streamlit page (app.py:173-214) is left out. So are the environment and client setup (app.py:1-25), the HTTP requests, the JSON decoding and the error messages shown with `st.error`. These are I/O: each parsed response is a parameter of the model.
- The prompt and the chat-completion call (app.py:146-165) are left out, as I/O. The reply reaches `ParseVerdict` as a string, and the model does not apply the `strip()` of app.py:165 to it.
- `fetch_pixabay_images` (app.py:82-98) is the `stock` oracle of `GatherImages`, so its own filtering of hits and its `per_page` request parameter are inside the oracle. `GatherImages` still filters empty URLs itself, as app.py:117 does.
- The remote part of `fetch_wikipedia_infobox_image` (app.py:65-80) is left out. It is the `pageImage` oracle of `FetchInfoboxImage`, and an exception counts as the oracle answering `None`.
- GatherImages: it takes its infobox lookup keyed by link, as app.py:109 calls it. The source's lookup is `FetchInfoboxImage` over a page-image query; `GatherImages` applies to it by passing `link => FetchInfoboxImage(pageImage, link)` as the oracle.
- `top_n`, `min_images` and `max_results` take their default values (4, 3 and 3) at every call in app.py:184-200.
  - `top_n` and `min_images` are modelled as natural numbers, so Python's slicing with negative bounds is not modelled.
  - `max_results` is only a request parameter and is not modelled.
  - `min_images = 0` is modelled exactly. With some search image, the first loop returns `[]` after that image and no lookup is made. With no search image, the second loop looks up Wikipedia sources until its first append and then returns `[]`; when nothing is appended, every Wikipedia source is looked up and no stock search is made.
- Case and whitespace are modelled on ASCII. `Strings.Lower` maps only `A`-`Z`; Python's `str.lower` can change a non-ASCII string's length, which would shift the index at app.py:33. `Strings.IsSpace` is `str.isspace` and `\s` restricted to ASCII: tab, line feed, vertical tab, form feed, carriage return, the four separators 0x1C-0x1F, and space. Non-ASCII case equivalents that `re.IGNORECASE` accepts, such as the Kelvin sign for `k`, are not modelled.
- VerdictParser.VerdictText: it is always one of the four labels only on ASCII replies. With `re.IGNORECASE` the source also accepts "Verdict: FA\u212AE" (a Kelvin sign for `K`), and `.upper()` leaves the Kelvin sign as it is, so the source can then report a label outside the four. The model, being ASCII-only, does not see that case.
- VideoSearch.ShapeVideos: an item without an `id` key, or any other response that is not of the documented shape, is not modelled. In the source such an item raises too, and the loop stops the same way.
- The source-search loops of app.py:45-57 cannot raise on a response of the documented shape, so the exception path of app.py:58-59 is not modelled for them.
- `ask_deepseek_with_sources_and_claim` also returns the reply text itself (app.py:168). Only the verdict is modelled.
