/**
 * The image aggregator: up to `minImages` distinct image URLs gathered from
 * the search response's images, then from the Wikipedia infobox images of the
 * Wikipedia sources, then from the stock-photo search, stopping as soon as
 * enough are found. The two remote lookups are oracle parameters, and the
 * method also returns the lookups it made, in order.
 */
module ImageAggregator {
  import opened Wrappers
  import opened Strings
  import opened SourceSearch

  /** The path separator in front of a Wikipedia page name. */
  const WikiSeparator: string := "/wiki/"

  /** A source counts as a Wikipedia source when its lower-cased link contains this. */
  const WikiDomain: string := "wikipedia.org"

  // ---------------------------------------------------------------------------
  // Page title derivation

  /** Where the last piece of `s.split(sep)` starts: the string is cut at each occurrence
      of `sep`, scanning left to right without overlaps. */
  function LastPieceStart(s: string, sep: string): (i: nat)
    requires sep != []
    ensures i <= |s|
    decreases |s|
  {
    match Find(sep, s)
    case None => 0
    case Some(f) => f + |sep| + LastPieceStart(s[f + |sep|..], sep)
  }

  /** `s.split(sep)[-1]`: the last piece of the split. */
  function LastSegment(s: string, sep: string): (r: string)
    requires sep != []
    ensures |r| <= |s|
    ensures r == s[|s| - |r|..]
  {
    s[LastPieceStart(s, sep)..]
  }

  /** Past the first separator, the last piece is that of the rest of the string. */
  lemma LastSegmentOfRest(s: string, sep: string)
    requires sep != [] && Find(sep, s).Some?
    ensures Find(sep, s).value + |sep| <= |s|
    ensures LastSegment(s, sep) == LastSegment(s[Find(sep, s).value + |sep|..], sep)
  {
    var k := Find(sep, s).value + |sep|;
    assert s[k..][LastPieceStart(s[k..], sep)..] == s[k + LastPieceStart(s[k..], sep)..];
  }

  /** The last piece holds no separator. */
  lemma {:induction false} LastSegmentHasNoSeparator(s: string, sep: string)
    requires sep != []
    ensures forall j :: !OccursAt(sep, LastSegment(s, sep), j)
    decreases |s|
  {
    var f := Find(sep, s);
    if f.Some? {
      LastSegmentOfRest(s, sep);
      LastSegmentHasNoSeparator(s[f.value + |sep|..], sep);
    } else {
      FindIsFirst(sep, s);
    }
  }

  /** An occurrence in a suffix is an occurrence in the whole string. */
  lemma OccursShifted(p: string, s: string, k: nat, j: int)
    requires k <= |s| && OccursAt(p, s[k..], j)
    ensures OccursAt(p, s, k + j)
  {
    assert s[k..][j..j + |p|] == s[k + j..k + j + |p|];
  }

  /** Where the last piece starts, whatever the number of separators: a string without the
      separator is its own last piece; otherwise the last piece follows an occurrence of
      the separator. */
  lemma {:induction false} LastSegmentFollowsSeparator(s: string, sep: string)
    requires sep != []
    ensures Find(sep, s).None? ==> LastSegment(s, sep) == s
    ensures Find(sep, s).Some? ==>
      && |LastSegment(s, sep)| + |sep| <= |s|
      && OccursAt(sep, s, |s| - |LastSegment(s, sep)| - |sep|)
    decreases |s|
  {
    var f := Find(sep, s);
    if f.Some? {
      var k := f.value + |sep|;
      var rest := s[k..];
      LastSegmentOfRest(s, sep);
      if Find(sep, rest).Some? {
        LastSegmentFollowsSeparator(rest, sep);
        OccursShifted(sep, s, k, |rest| - |LastSegment(rest, sep)| - |sep|);
      }
    }
  }

  /** The page title a Wikipedia link names: the last piece of `split("/wiki/")`, with
      underscores read as spaces. */
  function WikiTitle(link: string): (title: string)
    ensures |title| <= |link|
    ensures '_' !in title
  {
    ReplaceChar(LastSegment(link, WikiSeparator), '_', ' ')
  }

  /** The title never contains the separator: replacing underscores by spaces cannot
      create one, since the separator holds neither. */
  lemma TitleHasNoSeparator(link: string)
    ensures forall j :: !OccursAt(WikiSeparator, WikiTitle(link), j)
  {
    LastSegmentHasNoSeparator(link, WikiSeparator);
    assert ' ' !in WikiSeparator;
    ReplaceKeepsAbsence(WikiSeparator, LastSegment(link, WikiSeparator), '_', ' ');
  }

  /** A link holding the separator exactly once is titled by the text after it. */
  lemma {:induction false} TitleAfterOnlySeparator(link: string, i: nat)
    requires OccursAt(WikiSeparator, link, i)
    requires forall j :: j != i ==> !OccursAt(WikiSeparator, link, j)
    ensures LastSegment(link, WikiSeparator) == link[i + |WikiSeparator|..]
    ensures WikiTitle(link) == ReplaceChar(link[i + |WikiSeparator|..], '_', ' ')
  {
    var sep := WikiSeparator;
    FindIsFirst(sep, link);
    assert Find(sep, link) == Some(i);
    var rest := link[i + |sep|..];
    forall j: int
      ensures !OccursAt(sep, rest, j)
    {
      if 0 <= j && j + |sep| <= |rest| {
        assert rest[j..j + |sep|] == link[i + |sep| + j..i + |sep| + j + |sep|];
        assert !OccursAt(sep, link, i + |sep| + j);
      }
    }
    FindIsFirst(sep, rest);
    assert Find(sep, rest).None?;
    assert LastPieceStart(rest, sep) == 0;
  }

  // ---------------------------------------------------------------------------
  // The remote lookups

  /** `fetch_wikipedia_infobox_image`: the page image the wiki reports for the link's title
      (`pageImage` stands for the remote query), kept only when it is a non-empty string. */
  function FetchInfoboxImage(pageImage: string -> Option<string>, link: string): (r: Option<string>)
    ensures r.Some? ==> r.value != "" && r == pageImage(WikiTitle(link))
    ensures IsTruthy(pageImage(WikiTitle(link))) ==> r == pageImage(WikiTitle(link))
  {
    var found := pageImage(WikiTitle(link));
    if IsTruthy(found) then found else None
  }

  /** One remote lookup the aggregator makes. */
  datatype Lookup =
    | InfoboxLookup(link: string)
    | StockLookup(query: string, needed: nat)

  /** A source whose lower-cased link contains the Wikipedia domain. */
  predicate IsWikipediaSource(src: Source) {
    Contains(WikiDomain, src.linkLower)
  }

  // ---------------------------------------------------------------------------
  // Sequence helpers

  /** No URL occurs twice. */
  predicate Distinct(s: seq<string>) {
    forall i, j :: 0 <= i < j < |s| ==> s[i] != s[j]
  }

  /** `s[:n]`. */
  function Take(s: seq<string>, n: nat): (r: seq<string>)
    ensures |r| <= n && r <= s
    ensures |s| >= n ==> |r| == n
    ensures |s| <= n ==> r == s
  {
    if n <= |s| then s[..n] else s
  }

  /** Appends each element of `xs`, in order, unless it is already present (`if u not in
      images: images.append(u)`). */
  function AppendDistinct(acc: seq<string>, xs: seq<string>): (r: seq<string>)
    decreases |xs|
    ensures acc <= r
  {
    if xs == [] then acc
    else
      var init := AppendDistinct(acc, xs[..|xs| - 1]);
      var x := xs[|xs| - 1];
      if x in init then init else init + [x]
  }

  /** Appending distinctly keeps a list free of duplicates. */
  lemma {:induction false} AppendDistinctIsDistinct(acc: seq<string>, xs: seq<string>)
    requires Distinct(acc)
    ensures Distinct(AppendDistinct(acc, xs))
    decreases |xs|
  {
    if xs != [] {
      AppendDistinctIsDistinct(acc, xs[..|xs| - 1]);
    }
  }

  /** Nothing is lost and nothing is invented: the result holds exactly the elements of
      `acc` and of `xs`. */
  lemma {:induction false} AppendDistinctMembers(acc: seq<string>, xs: seq<string>)
    ensures forall x :: x in AppendDistinct(acc, xs) <==> x in acc || x in xs
    decreases |xs|
  {
    if xs != [] {
      var init := xs[..|xs| - 1];
      AppendDistinctMembers(acc, init);
      assert forall y :: y in xs <==> y in init || y == xs[|xs| - 1];
    }
  }

  /** The elements that are non-empty strings, in order. */
  function NonEmpty(xs: seq<string>): (r: seq<string>)
    decreases |xs|
    ensures |r| <= |xs|
    ensures forall k :: 0 <= k < |r| ==> r[k] != ""
  {
    if xs == [] then []
    else
      var init := NonEmpty(xs[..|xs| - 1]);
      var x := xs[|xs| - 1];
      if x != "" then init + [x] else init
  }

  /** The filter keeps exactly the non-empty strings. */
  lemma {:induction false} NonEmptyMembers(xs: seq<string>)
    ensures forall x :: x in NonEmpty(xs) <==> x in xs && x != ""
    decreases |xs|
  {
    if xs != [] {
      var init := xs[..|xs| - 1];
      NonEmptyMembers(init);
      assert forall y :: y in xs <==> y in init || y == xs[|xs| - 1];
    }
  }

  lemma {:induction false} AppendDistinctMonotone(acc: seq<string>, ys: seq<string>, xs: seq<string>)
    requires ys <= xs
    ensures AppendDistinct(acc, ys) <= AppendDistinct(acc, xs)
    decreases |xs|
  {
    if ys != xs {
      var init := xs[..|xs| - 1];
      assert ys <= init;
      AppendDistinctMonotone(acc, ys, init);
    }
  }

  lemma {:induction false} NonEmptyMonotone(ys: seq<string>, xs: seq<string>)
    requires ys <= xs
    ensures NonEmpty(ys) <= NonEmpty(xs)
    decreases |xs|
  {
    if ys != xs {
      var init := xs[..|xs| - 1];
      assert ys <= init;
      NonEmptyMonotone(ys, init);
    }
  }

  /** When a prefix already reaches `n` elements, cutting it or the whole at `n` agrees. */
  lemma TakePrefix(a: seq<string>, b: seq<string>, n: nat)
    requires a <= b && n <= |a|
    ensures Take(a, n) == Take(b, n)
  {
    assert a[..n] == b[..n];
  }

  lemma TakeDistinct(s: seq<string>, n: nat)
    requires Distinct(s)
    ensures Distinct(Take(s, n))
  {
  }

  // ---------------------------------------------------------------------------
  // The wiki stage, source by source

  /** The infobox image the wiki stage sees for one source: none unless it is a Wikipedia
      source and the lookup finds one. */
  function WikiThumbOf(infobox: string -> Option<string>, src: Source): (r: seq<string>)
    ensures |r| <= 1
    ensures r != [] ==> IsWikipediaSource(src) && Some(r[0]) == infobox(src.link) && r[0] != ""
  {
    if IsWikipediaSource(src) && IsTruthy(infobox(src.link)) then [infobox(src.link).value] else []
  }

  /** The infobox images of the Wikipedia sources, in source order. */
  function WikiThumbs(infobox: string -> Option<string>, sources: seq<Source>): seq<string>
    decreases |sources|
  {
    if sources == [] then []
    else WikiThumbs(infobox, sources[..|sources| - 1]) + WikiThumbOf(infobox, sources[|sources| - 1])
  }

  /** The lookups the wiki stage makes for a run of sources: one per Wikipedia source. */
  function WikiLookups(sources: seq<Source>): seq<Lookup>
    decreases |sources|
  {
    if sources == [] then []
    else
      var src := sources[|sources| - 1];
      WikiLookups(sources[..|sources| - 1]) + (if IsWikipediaSource(src) then [InfoboxLookup(src.link)] else [])
  }

  /** One source of the wiki stage: a Wikipedia source adds one infobox lookup. */
  lemma WikiLookupsStep(sources: seq<Source>, i: nat)
    requires i < |sources|
    ensures WikiLookups(sources[..i + 1]) == WikiLookups(sources[..i])
      + (if IsWikipediaSource(sources[i]) then [InfoboxLookup(sources[i].link)] else [])
  {
    assert sources[..i + 1][..i] == sources[..i];
  }

  lemma {:induction false} WikiThumbsMonotone(infobox: string -> Option<string>, sources: seq<Source>, k: nat)
    requires k <= |sources|
    ensures WikiThumbs(infobox, sources[..k]) <= WikiThumbs(infobox, sources)
    decreases |sources|
  {
    if k < |sources| {
      var init := sources[..|sources| - 1];
      assert init[..k] == sources[..k];
      WikiThumbsMonotone(infobox, init, k);
    } else {
      assert sources[..k] == sources;
    }
  }

  /** At most one lookup per source. */
  lemma {:induction false} WikiLookupsLength(sources: seq<Source>)
    ensures |WikiLookups(sources)| <= |sources|
    decreases |sources|
  {
    if sources != [] {
      WikiLookupsLength(sources[..|sources| - 1]);
    }
  }

  /** Every wiki lookup is for a Wikipedia source of the run, in the order of the run. */
  lemma {:induction false} WikiLookupsAreWikipedia(sources: seq<Source>)
    ensures forall m :: 0 <= m < |WikiLookups(sources)| ==>
      WikiLookups(sources)[m].InfoboxLookup? &&
      exists s :: s in sources && IsWikipediaSource(s) && s.link == WikiLookups(sources)[m].link
    decreases |sources|
  {
    if sources != [] {
      var init := sources[..|sources| - 1];
      var src := sources[|sources| - 1];
      WikiLookupsAreWikipedia(init);
      var before, all := WikiLookups(init), WikiLookups(sources);
      forall m | 0 <= m < |all|
        ensures all[m].InfoboxLookup? && exists s :: s in sources && IsWikipediaSource(s) && s.link == all[m].link
      {
        if m < |before| {
          assert all[m] == before[m];
          var s :| s in init && IsWikipediaSource(s) && s.link == before[m].link;
          assert s in sources;
        } else {
          assert all[m] == InfoboxLookup(src.link);
          assert src in sources;
        }
      }
    }
  }

  // ---------------------------------------------------------------------------
  // The specification of `gather_images`

  /** The distinct search-response images, in order. */
  function SearchStage(serperImages: seq<string>): seq<string> {
    AppendDistinct([], serperImages)
  }

  /** The list after the wiki stage has looked at the first `k` sources. */
  function WikiStage(infobox: string -> Option<string>, serperImages: seq<string>, sources: seq<Source>, k: nat): seq<string>
    requires k <= |sources|
  {
    AppendDistinct(SearchStage(serperImages), WikiThumbs(infobox, sources[..k]))
  }

  /** The search stage returns early: some search image was seen and the distinct ones reach
      `n` (the length check follows each search image, appended or not). */
  predicate SearchFills(serperImages: seq<string>, n: nat) {
    serperImages != [] && |SearchStage(serperImages)| >= n
  }

  /** The wiki stage returns right after the `k`-th source: its image was appended and the
      list has reached `n` (the length check follows each append only). */
  predicate WikiFillsAt(infobox: string -> Option<string>, serperImages: seq<string>, sources: seq<Source>, n: nat, k: nat)
    requires 1 <= k <= |sources|
  {
    var after := WikiStage(infobox, serperImages, sources, k);
    |after| > |WikiStage(infobox, serperImages, sources, k - 1)| && |after| >= n
  }

  /** The index of the first `true`, or the length when there is none. */
  function FirstTrue(b: seq<bool>): (r: nat)
    ensures r <= |b|
    ensures forall m :: 0 <= m < r ==> !b[m]
    ensures r < |b| ==> b[r]
  {
    if b == [] || b[0] then 0 else 1 + FirstTrue(b[1..])
  }

  /** Passing a `false` at or before the first `true` moves past it. */
  lemma FirstTrueAdvance(b: seq<bool>, i: nat)
    requires i <= FirstTrue(b) && i < |b| && !b[i]
    ensures i + 1 <= FirstTrue(b)
  {
  }

  /** For each source, whether the wiki stage returns right after it. */
  function WikiFills(infobox: string -> Option<string>, serperImages: seq<string>, sources: seq<Source>, n: nat): (fills: seq<bool>)
    ensures |fills| == |sources|
  {
    seq(|sources|, m requires 0 <= m < |sources| => WikiFillsAt(infobox, serperImages, sources, n, m + 1))
  }

  lemma WikiFillsIndex(infobox: string -> Option<string>, serperImages: seq<string>, sources: seq<Source>, n: nat, m: nat)
    requires m < |sources|
    ensures WikiFills(infobox, serperImages, sources, n)[m] == WikiFillsAt(infobox, serperImages, sources, n, m + 1)
  {
  }

  /** A `true` at or before the first `true` is the first. */
  lemma FirstTrueAt(b: seq<bool>, i: nat)
    requires i <= FirstTrue(b) && i < |b| && b[i]
    ensures FirstTrue(b) == i
  {
  }

  /** The number of sources the wiki stage looks at: up to the first after which it
      returns, or all of them. */
  function WikiScanned(infobox: string -> Option<string>, serperImages: seq<string>, sources: seq<Source>, n: nat): (k: nat)
    ensures k <= |sources|
  {
    var f := FirstTrue(WikiFills(infobox, serperImages, sources, n));
    if f < |sources| then f + 1 else |sources|
  }

  /** One source of the wiki stage: the image a Wikipedia source's lookup finds is appended
      when it is a non-empty string not yet present; otherwise the list stays as it was. */
  lemma WikiStageStep(infobox: string -> Option<string>, serperImages: seq<string>, sources: seq<Source>, i: nat)
    requires i < |sources|
    ensures var before := WikiStage(infobox, serperImages, sources, i);
      var o := infobox(sources[i].link);
      WikiStage(infobox, serperImages, sources, i + 1) ==
        if IsWikipediaSource(sources[i]) && o.Some? && o.value != "" && o.value !in before then before + [o.value]
        else before
  {
    var xs := WikiThumbs(infobox, sources[..i]);
    var t := WikiThumbOf(infobox, sources[i]);
    assert sources[..i + 1][..i] == sources[..i];
    assert WikiThumbs(infobox, sources[..i + 1]) == xs + t;
    if t == [] {
      assert xs + t == xs;
    } else {
      assert (xs + t)[..|xs|] == xs;
    }
  }

  /** The list after every source has been looked at. */
  function AfterWiki(infobox: string -> Option<string>, serperImages: seq<string>, sources: seq<Source>): seq<string> {
    AppendDistinct(SearchStage(serperImages), WikiThumbs(infobox, sources))
  }

  /** The stock photos the last stage draws on: asked for only while the list is short. */
  function StockPart(keyword: string, infobox: string -> Option<string>, stock: (string, nat) -> seq<string>,
                     serperImages: seq<string>, sources: seq<Source>, n: nat): seq<string>
  {
    var before := AfterWiki(infobox, serperImages, sources);
    if |before| < n then NonEmpty(stock(keyword, n - |before|)) else []
  }

  /** The stock part holds only non-empty results of the one stock search. */
  lemma StockPartMembers(keyword: string, infobox: string -> Option<string>, stock: (string, nat) -> seq<string>,
                         serperImages: seq<string>, sources: seq<Source>, n: nat)
    ensures forall u :: u in StockPart(keyword, infobox, stock, serperImages, sources, n) ==>
      var before := AfterWiki(infobox, serperImages, sources);
      |before| < n && u in stock(keyword, n - |before|) && u != ""
  {
    var before := AfterWiki(infobox, serperImages, sources);
    if |before| < n {
      NonEmptyMembers(stock(keyword, n - |before|));
    }
  }

  /** The images `gather_images` returns: the distinct search images in order, then the
      distinct wiki images in source order, then the distinct stock photos, cut at `n`. */
  function GatheredImages(keyword: string, serperImages: seq<string>, sources: seq<Source>, n: nat,
                          infobox: string -> Option<string>, stock: (string, nat) -> seq<string>): (r: seq<string>)
    ensures |r| <= n
    ensures Distinct(r)
    ensures forall u :: u in r ==>
      u in serperImages || u in WikiThumbs(infobox, sources) ||
      (|AfterWiki(infobox, serperImages, sources)| < n && u in stock(keyword, n - |AfterWiki(infobox, serperImages, sources)|))
  {
    var wiki := AfterWiki(infobox, serperImages, sources);
    var stockPart := StockPart(keyword, infobox, stock, serperImages, sources, n);
    var all := AppendDistinct(wiki, stockPart);
    AppendDistinctIsDistinct([], serperImages);
    AppendDistinctIsDistinct(SearchStage(serperImages), WikiThumbs(infobox, sources));
    AppendDistinctIsDistinct(wiki, stockPart);
    TakeDistinct(all, n);
    AppendDistinctMembers([], serperImages);
    AppendDistinctMembers(SearchStage(serperImages), WikiThumbs(infobox, sources));
    AppendDistinctMembers(wiki, stockPart);
    StockPartMembers(keyword, infobox, stock, serperImages, sources, n);
    Take(all, n)
  }

  /** The lookups `gather_images` makes, in order: none when the search images suffice;
      otherwise one infobox lookup per Wikipedia source the wiki stage looks at, then one
      stock search when the list is still short after all sources. */
  function GatheredLookups(keyword: string, serperImages: seq<string>, sources: seq<Source>, n: nat,
                           infobox: string -> Option<string>): (r: seq<Lookup>)
    ensures |r| <= |sources| + 1
    ensures forall m :: 0 <= m < |r| - 1 ==> r[m].InfoboxLookup?
  {
    if SearchFills(serperImages, n) then []
    else
      var before := AfterWiki(infobox, serperImages, sources);
      WikiLookupsAreWikipedia(sources[..WikiScanned(infobox, serperImages, sources, n)]);
      WikiLookupsLength(sources[..WikiScanned(infobox, serperImages, sources, n)]);
      WikiLookups(sources[..WikiScanned(infobox, serperImages, sources, n)])
        + (if |before| < n then [StockLookup(keyword, n - |before|)] else [])
  }

  // ---------------------------------------------------------------------------
  // What the specification says about the three stages

  /** If the search images alone reach `n` distinct URLs, the result is the first `n` of
      them and no remote lookup is made. */
  lemma SearchShortCircuit(keyword: string, serperImages: seq<string>, sources: seq<Source>, n: nat,
                           infobox: string -> Option<string>, stock: (string, nat) -> seq<string>)
    requires SearchFills(serperImages, n)
    ensures GatheredImages(keyword, serperImages, sources, n, infobox, stock) == Take(SearchStage(serperImages), n)
    ensures GatheredLookups(keyword, serperImages, sources, n, infobox) == []
  {
    var wiki := AfterWiki(infobox, serperImages, sources);
    var all := AppendDistinct(wiki, StockPart(keyword, infobox, stock, serperImages, sources, n));
    assert SearchStage(serperImages) <= wiki <= all;
    TakePrefix(SearchStage(serperImages), all, n);
  }

  /** The search loop returns at the `i`-th image exactly when the search stage fills. */
  lemma SearchPrefixFills(serperImages: seq<string>, i: nat, n: nat)
    requires i < |serperImages|
    requires |AppendDistinct([], serperImages[..i + 1])| >= n
    ensures SearchFills(serperImages, n)
    ensures Take(AppendDistinct([], serperImages[..i + 1]), n) == Take(SearchStage(serperImages), n)
  {
    AppendDistinctMonotone([], serperImages[..i + 1], serperImages);
    TakePrefix(AppendDistinct([], serperImages[..i + 1]), SearchStage(serperImages), n);
  }

  /** If the wiki stage fills, right after the `k`-th source, say, the result is the list at
      that point cut at `n`, the lookups are the infobox lookups of the first `k` sources,
      and the stock search is not made. */
  lemma WikiShortCircuit(keyword: string, serperImages: seq<string>, sources: seq<Source>, n: nat,
                         infobox: string -> Option<string>, stock: (string, nat) -> seq<string>)
    requires !SearchFills(serperImages, n)
    requires FirstTrue(WikiFills(infobox, serperImages, sources, n)) < |sources|
    ensures var k := WikiScanned(infobox, serperImages, sources, n);
      && GatheredImages(keyword, serperImages, sources, n, infobox, stock) == Take(WikiStage(infobox, serperImages, sources, k), n)
      && GatheredLookups(keyword, serperImages, sources, n, infobox) == WikiLookups(sources[..k])
  {
    var k := WikiScanned(infobox, serperImages, sources, n);
    var stage := WikiStage(infobox, serperImages, sources, k);
    var wiki := AfterWiki(infobox, serperImages, sources);
    WikiFilledStage(infobox, serperImages, sources, n);
    assert StockPart(keyword, infobox, stock, serperImages, sources, n) == [];
    assert AppendDistinct(wiki, []) == wiki;
    TakePrefix(stage, wiki, n);
    var wl := WikiLookups(sources[..k]);
    assert GatheredLookups(keyword, serperImages, sources, n, infobox) == wl + [];
    assert wl + [] == wl;
  }

  /** When the wiki stage fills, the list it returns has `n` elements or more. */
  lemma WikiFilledLength(infobox: string -> Option<string>, serperImages: seq<string>, sources: seq<Source>, n: nat)
    requires FirstTrue(WikiFills(infobox, serperImages, sources, n)) < |sources|
    ensures |WikiStage(infobox, serperImages, sources, WikiScanned(infobox, serperImages, sources, n))| >= n
  {
    var k := WikiScanned(infobox, serperImages, sources, n);
    WikiFillsIndex(infobox, serperImages, sources, n, k - 1);
  }

  /** The list after any number of sources is a prefix of the list after all of them. */
  lemma WikiStagePrefix(infobox: string -> Option<string>, serperImages: seq<string>, sources: seq<Source>, k: nat)
    requires k <= |sources|
    ensures WikiStage(infobox, serperImages, sources, k) <= AfterWiki(infobox, serperImages, sources)
  {
    WikiThumbsMonotone(infobox, sources, k);
    AppendDistinctMonotone(SearchStage(serperImages), WikiThumbs(infobox, sources[..k]), WikiThumbs(infobox, sources));
  }

  /** When the wiki stage fills, the list it returns has `n` elements or more and is a prefix
      of the list that looking at every source would give. */
  lemma WikiFilledStage(infobox: string -> Option<string>, serperImages: seq<string>, sources: seq<Source>, n: nat)
    requires FirstTrue(WikiFills(infobox, serperImages, sources, n)) < |sources|
    ensures var k := WikiScanned(infobox, serperImages, sources, n);
      var stage := WikiStage(infobox, serperImages, sources, k);
      |stage| >= n && stage <= AfterWiki(infobox, serperImages, sources)
  {
    WikiFilledLength(infobox, serperImages, sources, n);
    WikiStagePrefix(infobox, serperImages, sources, WikiScanned(infobox, serperImages, sources, n));
  }

  /** If neither the search stage nor the wiki stage fills, every source is looked at and the
      stock search follows exactly when the list is still short, asking for the shortfall. */
  lemma NoShortCircuit(keyword: string, serperImages: seq<string>, sources: seq<Source>, n: nat,
                       infobox: string -> Option<string>)
    requires !SearchFills(serperImages, n)
    requires FirstTrue(WikiFills(infobox, serperImages, sources, n)) == |sources|
    ensures var before := AfterWiki(infobox, serperImages, sources);
      GatheredLookups(keyword, serperImages, sources, n, infobox)
        == WikiLookups(sources) + (if |before| < n then [StockLookup(keyword, n - |before|)] else [])
  {
    var fills := WikiFills(infobox, serperImages, sources, n);
    assert FirstTrue(fills) == |sources|;
    assert sources[..|sources|] == sources;
  }

  /** The stock loop may stop early once `n` images are listed: cutting at `n` gives the same
      as going through every stock photo. */
  lemma StockPrefix(wiki: seq<string>, stockImgs: seq<string>, j: nat, n: nat)
    requires j <= |stockImgs|
    requires |AppendDistinct(wiki, NonEmpty(stockImgs[..j]))| >= n
    ensures Take(AppendDistinct(wiki, NonEmpty(stockImgs[..j])), n) == Take(AppendDistinct(wiki, NonEmpty(stockImgs)), n)
  {
    NonEmptyMonotone(stockImgs[..j], stockImgs);
    AppendDistinctMonotone(wiki, NonEmpty(stockImgs[..j]), NonEmpty(stockImgs));
    TakePrefix(AppendDistinct(wiki, NonEmpty(stockImgs[..j])), AppendDistinct(wiki, NonEmpty(stockImgs)), n);
  }

  /** One stock photo: appended when non-empty and not yet present. */
  lemma StockStep(wiki: seq<string>, stockImgs: seq<string>, j: nat)
    requires j < |stockImgs|
    ensures var before := AppendDistinct(wiki, NonEmpty(stockImgs[..j]));
      var u := stockImgs[j];
      AppendDistinct(wiki, NonEmpty(stockImgs[..j + 1])) == if u != "" && u !in before then before + [u] else before
  {
    var xs := NonEmpty(stockImgs[..j]);
    assert stockImgs[..j + 1][..j] == stockImgs[..j];
    if stockImgs[j] != "" {
      assert NonEmpty(stockImgs[..j + 1]) == xs + [stockImgs[j]];
      assert (xs + [stockImgs[j]])[..|xs|] == xs;
    } else {
      assert NonEmpty(stockImgs[..j + 1]) == xs;
    }
  }

  /** The stock search is made at most once, as the last lookup, for the keyword and for a
      positive number of images: the shortfall left after the wiki stage. */
  lemma StockLookedUpOnce(keyword: string, serperImages: seq<string>, sources: seq<Source>, n: nat,
                          infobox: string -> Option<string>)
    ensures var lookups := GatheredLookups(keyword, serperImages, sources, n, infobox);
      forall m :: 0 <= m < |lookups| && lookups[m].StockLookup? ==>
        && m == |lookups| - 1
        && lookups[m].query == keyword
        && 0 < lookups[m].needed <= n
        && lookups[m].needed == n - |AfterWiki(infobox, serperImages, sources)|
  {
    if !SearchFills(serperImages, n) {
      var k := WikiScanned(infobox, serperImages, sources, n);
      WikiLookupsAreWikipedia(sources[..k]);
    }
  }

  /** Infobox lookups are made only for Wikipedia sources, and only when the search images do
      not suffice. */
  lemma InfoboxLookupsAreWikipedia(keyword: string, serperImages: seq<string>, sources: seq<Source>, n: nat,
                                   infobox: string -> Option<string>)
    ensures var lookups := GatheredLookups(keyword, serperImages, sources, n, infobox);
      forall m :: 0 <= m < |lookups| && lookups[m].InfoboxLookup? ==>
        !SearchFills(serperImages, n) &&
        exists s :: s in sources && IsWikipediaSource(s) && s.link == lookups[m].link
  {
    if !SearchFills(serperImages, n) {
      var k := WikiScanned(infobox, serperImages, sources, n);
      var wl := WikiLookups(sources[..k]);
      WikiLookupsAreWikipedia(sources[..k]);
      var lookups := GatheredLookups(keyword, serperImages, sources, n, infobox);
      forall m | 0 <= m < |lookups| && lookups[m].InfoboxLookup?
        ensures exists s :: s in sources && IsWikipediaSource(s) && s.link == lookups[m].link
      {
        assert m < |wl|;
        assert lookups[m] == wl[m];
        var s :| s in sources[..k] && IsWikipediaSource(s) && s.link == wl[m].link;
        assert s in sources;
      }
    }
  }

  // ---------------------------------------------------------------------------
  // The method, one loop of `gather_images` at a time

  /** The first loop: the search images, each appended unless present, with a return as soon
      as the list reaches `n` (`done`). */
  method AddSearchImages(serperImages: seq<string>, n: nat) returns (images: seq<string>, done: bool)
    ensures done == SearchFills(serperImages, n)
    ensures done ==> images == Take(SearchStage(serperImages), n)
    ensures !done ==> images == SearchStage(serperImages)
  {
    images, done := [], false;
    var i := 0;
    while i < |serperImages|
      invariant 0 <= i <= |serperImages|
      invariant images == AppendDistinct([], serperImages[..i])
      invariant i > 0 ==> |images| < n
    {
      var url := serperImages[i];
      if url !in images {
        images := images + [url];
      }
      assert serperImages[..i + 1][..i] == serperImages[..i];
      if |images| >= n {
        SearchPrefixFills(serperImages, i, n);
        images, done := Take(images, n), true;
        return;
      }
      i := i + 1;
    }
    assert serperImages[..i] == serperImages;
  }

  /** The body of the second loop for source `i`: a Wikipedia source gets an infobox lookup,
      and the image it finds is appended unless empty or present (`appended`). */
  method AddWikiImage(serperImages: seq<string>, sources: seq<Source>, infobox: string -> Option<string>,
                      i: nat, images: seq<string>, lookups: seq<Lookup>)
    returns (images': seq<string>, lookups': seq<Lookup>, appended: bool)
    requires i < |sources|
    requires images == WikiStage(infobox, serperImages, sources, i)
    requires lookups == WikiLookups(sources[..i])
    ensures images' == WikiStage(infobox, serperImages, sources, i + 1)
    ensures lookups' == WikiLookups(sources[..i + 1])
    ensures appended <==> |images'| > |images|
  {
    images', lookups', appended := images, lookups, false;
    var src := sources[i];
    WikiStageStep(infobox, serperImages, sources, i);
    WikiLookupsStep(sources, i);
    if IsWikipediaSource(src) {
      var wikiImg := infobox(src.link);
      lookups' := lookups + [InfoboxLookup(src.link)];
      if wikiImg.Some? && wikiImg.value != "" && wikiImg.value !in images {
        images', appended := images + [wikiImg.value], true;
      }
    }
  }

  /** The second loop: one infobox lookup per Wikipedia source, its image appended unless
      present, with a return as soon as an append brings the list to `n` (`done`). */
  method AddWikiImages(serperImages: seq<string>, sources: seq<Source>, n: nat,
                       infobox: string -> Option<string>, start: seq<string>)
    returns (images: seq<string>, lookups: seq<Lookup>, done: bool)
    requires start == SearchStage(serperImages)
    ensures done == (FirstTrue(WikiFills(infobox, serperImages, sources, n)) < |sources|)
    ensures done ==> var k := WikiScanned(infobox, serperImages, sources, n);
      images == Take(WikiStage(infobox, serperImages, sources, k), n) && lookups == WikiLookups(sources[..k])
    ensures !done ==> images == AfterWiki(infobox, serperImages, sources) && lookups == WikiLookups(sources)
    ensures !done ==> FirstTrue(WikiFills(infobox, serperImages, sources, n)) == |sources|
  {
    images, lookups, done := start, [], false;
    ghost var fills := WikiFills(infobox, serperImages, sources, n);
    var i := 0;
    assert sources[..0] == [];
    while i < |sources|
      invariant 0 <= i <= |sources|
      invariant images == WikiStage(infobox, serperImages, sources, i)
      invariant lookups == WikiLookups(sources[..i])
      invariant i <= FirstTrue(fills)
    {
      var appended;
      images, lookups, appended := AddWikiImage(serperImages, sources, infobox, i, images, lookups);
      WikiFillsIndex(infobox, serperImages, sources, n, i);
      if appended && |images| >= n {
        FirstTrueAt(fills, i);
        images, done := Take(images, n), true;
        return;
      }
      FirstTrueAdvance(fills, i);
      i := i + 1;
    }
    assert sources[..i] == sources;
  }

  /** The third loop: the stock photos, each non-empty one appended unless present, until the
      list reaches `n`; then the list is cut at `n`. */
  method AddStockImages(start: seq<string>, stockImgs: seq<string>, n: nat) returns (images: seq<string>)
    ensures images == Take(AppendDistinct(start, NonEmpty(stockImgs)), n)
  {
    images := start;
    var j := 0;
    assert stockImgs[..0] == [];
    while j < |stockImgs|
      invariant 0 <= j <= |stockImgs|
      invariant images == AppendDistinct(start, NonEmpty(stockImgs[..j]))
    {
      var u := stockImgs[j];
      StockStep(start, stockImgs, j);
      if u != "" && u !in images {
        images := images + [u];
        if |images| >= n {
          j := j + 1;
          break;
        }
      }
      j := j + 1;
    }
    if |images| >= n {
      StockPrefix(start, stockImgs, j, n);
    } else {
      assert stockImgs[..j] == stockImgs;
    }
    images := Take(images, n);
  }

  /** `gather_images(keyword, serper_images, sources, min_images)`, with the infobox lookup
      (by link; the source's own is `FetchInfoboxImage` over a page-image query) and the
      stock-photo search (by query and count) as oracles; `lookups` lists the remote lookups
      made, in order. */
  method GatherImages(keyword: string, serperImages: seq<string>, sources: seq<Source>, minImages: nat,
                      infobox: string -> Option<string>, stock: (string, nat) -> seq<string>)
    returns (images: seq<string>, lookups: seq<Lookup>)
    ensures images == GatheredImages(keyword, serperImages, sources, minImages, infobox, stock)
    ensures lookups == GatheredLookups(keyword, serperImages, sources, minImages, infobox)
  {
    var n := minImages;
    var done;
    images, done := AddSearchImages(serperImages, n);
    if done {
      SearchShortCircuit(keyword, serperImages, sources, n, infobox, stock);
      lookups := [];
      return;
    }
    images, lookups, done := AddWikiImages(serperImages, sources, n, infobox, images);
    if done {
      WikiShortCircuit(keyword, serperImages, sources, n, infobox, stock);
      return;
    }
    NoShortCircuit(keyword, serperImages, sources, n, infobox);
    if |images| < n {
      var needed := n - |images|;
      var stockImgs := stock(keyword, needed);
      lookups := lookups + [StockLookup(keyword, needed)];
      images := AddStockImages(images, stockImgs, n);
    } else {
      images := Take(images, n);
    }
  }
}
