/**
 * The source search client's response shaping: the parsed search response
 * becomes the list of top sources and the list of inline image URLs.
 * The HTTP request and JSON decoding are not modelled; the response arrives
 * already parsed, with every optional field as an `Option`.
 */
module SourceSearch {
  import opened Wrappers
  import opened Strings

  /** One entry of the response's "organic" list; a missing key is `None`. */
  datatype OrganicResult = OrganicResult(title: Option<string>, link: Option<string>, snippet: Option<string>)

  /** One entry of the response's "images" list. */
  datatype ImageResult = ImageResult(thumbnail: Option<string>, url: Option<string>)

  /** The parsed response: `None` where the key "organic" or "images" is missing. */
  datatype SearchResponse = SearchResponse(organic: Option<seq<OrganicResult>>, images: Option<seq<ImageResult>>)

  /** A source record, with the lower-cased link the image aggregator inspects. */
  datatype Source = Source(title: string, link: string, snippet: string, linkLower: string)

  /** `r.get(key, "")`. */
  function GetOrEmpty(o: Option<string>): string {
    match o
    case Some(s) => s
    case None => ""
  }

  /** The record built for one organic result. */
  function ToSource(r: OrganicResult): (s: Source)
    ensures s.linkLower == Lower(s.link)
    ensures s.link == (if r.link.Some? then r.link.value else "")
    ensures s.title == (if r.title.Some? then r.title.value else "")
    ensures s.snippet == (if r.snippet.Some? then r.snippet.value else "")
  {
    var link := GetOrEmpty(r.link);
    Source(GetOrEmpty(r.title), link, GetOrEmpty(r.snippet), Lower(link))
  }

  /** `img.get("thumbnail") or img.get("url")`, kept only when that is a non-empty string. */
  function ImageUrl(img: ImageResult): (u: Option<string>)
    ensures u.Some? ==> u.value != ""
    ensures IsTruthy(img.thumbnail) ==> u == img.thumbnail
    ensures !IsTruthy(img.thumbnail) ==> (u.Some? <==> IsTruthy(img.url)) && (u.Some? ==> u == img.url)
  {
    if IsTruthy(img.thumbnail) then img.thumbnail
    else if IsTruthy(img.url) then img.url
    else None
  }

  /** The URLs gathered from a list of image entries, in order. */
  function ImageUrls(imgs: seq<ImageResult>): (r: seq<string>)
    decreases |imgs|
    ensures |r| <= |imgs|
    ensures forall k :: 0 <= k < |r| ==> r[k] != ""
  {
    if imgs == [] then []
    else
      var init := ImageUrls(imgs[..|imgs| - 1]);
      match ImageUrl(imgs[|imgs| - 1])
      case Some(u) => init + [u]
      case None => init
  }

  /** The organic results, or none when the key is missing. */
  function OrganicOf(data: SearchResponse): seq<OrganicResult> {
    match data.organic
    case Some(rs) => rs
    case None => []
  }

  /** The image entries, or none when the key is missing. */
  function ImagesOf(data: SearchResponse): seq<ImageResult> {
    match data.images
    case Some(entries) => entries
    case None => []
  }

  /** `serper_search_with_top_sources_and_images` after the response is decoded:
      the first `topN` organic results as sources, in order, and every usable image URL. */
  method ShapeSearchResponse(data: SearchResponse, topN: nat) returns (sources: seq<Source>, images: seq<string>)
    ensures |sources| == if topN < |OrganicOf(data)| then topN else |OrganicOf(data)|
    ensures forall k :: 0 <= k < |sources| ==> sources[k] == ToSource(OrganicOf(data)[k])
    ensures forall k :: 0 <= k < |sources| ==> sources[k].linkLower == Lower(sources[k].link)
    ensures images == ImageUrls(ImagesOf(data))
  {
    sources, images := [], [];
    if data.organic.Some? {
      sources := TopSources(data.organic.value, topN);
    }
    if data.images.Some? && data.images.value != [] {
      images := CollectImageUrls(data.images.value);
    }
  }

  /** The loop over `data["organic"][:top_n]`: one source record per result, in order. */
  method TopSources(organic: seq<OrganicResult>, topN: nat) returns (sources: seq<Source>)
    ensures |sources| == if topN < |organic| then topN else |organic|
    ensures forall k :: 0 <= k < |sources| ==> sources[k] == ToSource(organic[k])
  {
    sources := [];
    var n := if topN < |organic| then topN else |organic|;
    var i := 0;
    while i < n
      invariant 0 <= i <= n
      invariant |sources| == i
      invariant forall k :: 0 <= k < i ==> sources[k] == ToSource(organic[k])
    {
      sources := sources + [ToSource(organic[i])];
      i := i + 1;
    }
  }

  /** The loop over `data["images"]`: the usable URL of each entry, in order. */
  method CollectImageUrls(imgs: seq<ImageResult>) returns (images: seq<string>)
    ensures images == ImageUrls(imgs)
  {
    images := [];
    var i := 0;
    while i < |imgs|
      invariant 0 <= i <= |imgs|
      invariant images == ImageUrls(imgs[..i])
    {
      var imgUrl := ImageUrl(imgs[i]);
      if imgUrl.Some? {
        images := images + [imgUrl.value];
      }
      assert imgs[..i + 1][..i] == imgs[..i];
      i := i + 1;
    }
    assert imgs[..|imgs|] == imgs;
  }

  /** Every gathered URL is non-empty, and a URL is gathered exactly when some entry yields it. */
  lemma {:induction false} ImageUrlsMembership(imgs: seq<ImageResult>, u: string)
    ensures u in ImageUrls(imgs) <==> exists k :: 0 <= k < |imgs| && ImageUrl(imgs[k]) == Some(u)
    ensures u in ImageUrls(imgs) ==> u != ""
    decreases |imgs|
  {
    if imgs != [] {
      var init := imgs[..|imgs| - 1];
      ImageUrlsMembership(init, u);
      if exists k :: 0 <= k < |imgs| && ImageUrl(imgs[k]) == Some(u) {
        var k :| 0 <= k < |imgs| && ImageUrl(imgs[k]) == Some(u);
        if k < |imgs| - 1 {
          assert init[k] == imgs[k];
        }
      }
      if exists k :: 0 <= k < |init| && ImageUrl(init[k]) == Some(u) {
        var k :| 0 <= k < |init| && ImageUrl(init[k]) == Some(u);
        assert imgs[k] == init[k];
      }
    }
  }

  /** Entries with neither a thumbnail nor a URL are skipped; the others each give one URL. */
  lemma {:induction false} ImageUrlsCount(imgs: seq<ImageResult>)
    ensures |ImageUrls(imgs)| == |set k | 0 <= k < |imgs| && ImageUrl(imgs[k]).Some?|
    decreases |imgs|
  {
    if imgs != [] {
      var n := |imgs| - 1;
      var init := imgs[..n];
      ImageUrlsCount(init);
      var before := set k | 0 <= k < n && ImageUrl(init[k]).Some?;
      var after := set k | 0 <= k < |imgs| && ImageUrl(imgs[k]).Some?;
      if ImageUrl(imgs[n]).Some? {
        assert after == before + {n};
      } else {
        assert after == before;
      }
    }
  }

  /** When every entry carries a thumbnail, the URLs are exactly the thumbnails, position by position. */
  lemma {:induction false} ImageUrlsAllThumbnails(imgs: seq<ImageResult>)
    requires forall k :: 0 <= k < |imgs| ==> IsTruthy(imgs[k].thumbnail)
    ensures |ImageUrls(imgs)| == |imgs|
    ensures forall k :: 0 <= k < |imgs| ==> Some(ImageUrls(imgs)[k]) == imgs[k].thumbnail
    decreases |imgs|
  {
    if imgs != [] {
      ImageUrlsAllThumbnails(imgs[..|imgs| - 1]);
    }
  }
}
