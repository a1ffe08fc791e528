/**
 * The video search client's response shaping: each returned item that carries
 * a video identifier becomes a video record with a watch URL. The request and
 * JSON decoding are not modelled; the `items` list arrives already parsed.
 */
module VideoSearch {
  import opened Wrappers

  /** One entry of the response's "items" list: `id.videoId`, `snippet.title` and
      `snippet.thumbnails.default.url`, each `None` when its key is missing. */
  datatype VideoItem = VideoItem(videoId: Option<string>, title: Option<string>, thumbnail: Option<string>)

  datatype Video = Video(title: string, url: string, thumbnail: string)

  const WatchPrefix: string := "https://www.youtube.com/watch?v="

  /** An item with a video identifier but without its title or thumbnail: reading the
      missing key raises, which ends the loop with the videos built so far. */
  predicate Breaks(it: VideoItem) {
    it.videoId.Some? && (it.title.None? || it.thumbnail.None?)
  }

  /** The index of the first item that breaks the loop, or the length when none does. */
  function FirstBreak(items: seq<VideoItem>): (n: nat)
    ensures n <= |items|
    ensures forall k :: 0 <= k < n ==> !Breaks(items[k])
    ensures n < |items| ==> Breaks(items[n])
  {
    if items == [] || Breaks(items[0]) then 0 else 1 + FirstBreak(items[1..])
  }

  /** The items that carry a video identifier, in their original order. */
  function Identified(items: seq<VideoItem>): (r: seq<VideoItem>)
    ensures forall k :: 0 <= k < |r| ==> r[k].videoId.Some? && r[k] in items
    decreases |items|
  {
    if items == [] then []
    else
      var init := Identified(items[..|items| - 1]);
      assert forall x :: x in init ==> x in items;
      var it := items[|items| - 1];
      if it.videoId.Some? then init + [it] else init
  }

  /** The record built for one item that carries an identifier and both snippet fields:
      its URL is the watch prefix followed by the identifier, which can be read back from it. */
  function ToVideo(it: VideoItem): (v: Video)
    requires it.videoId.Some? && !Breaks(it)
    ensures WatchPrefix <= v.url && v.url[|WatchPrefix|..] == it.videoId.value
  {
    Video(it.title.value, WatchPrefix + it.videoId.value, it.thumbnail.value)
  }

  /** The records for a list of items none of which breaks the loop. */
  function VideosOf(items: seq<VideoItem>): (r: seq<Video>)
    requires forall k :: 0 <= k < |items| ==> !Breaks(items[k])
    decreases |items|
    ensures |r| <= |items|
    ensures forall k :: 0 <= k < |r| ==> WatchPrefix <= r[k].url
  {
    if items == [] then []
    else
      var it := items[|items| - 1];
      var init := VideosOf(items[..|items| - 1]);
      if it.videoId.Some? then init + [ToVideo(it)] else init
  }

  /** `search_youtube_videos` after the response is decoded. `failed` is the error the source
      reports when an item lacks a snippet field; the videos built before it are kept. */
  method ShapeVideos(items: seq<VideoItem>) returns (videos: seq<Video>, failed: bool)
    ensures failed <==> exists k :: 0 <= k < |items| && Breaks(items[k])
    ensures videos == VideosOf(items[..FirstBreak(items)])
  {
    videos, failed := [], false;
    var i := 0;
    while i < |items|
      invariant 0 <= i <= |items|
      invariant forall k :: 0 <= k < i ==> !Breaks(items[k])
      invariant videos == VideosOf(items[..i])
    {
      var it := items[i];
      if it.videoId.Some? {
        if it.title.None? || it.thumbnail.None? {
          failed := true;
          assert FirstBreak(items) == i;
          return;
        }
        var vid := it.videoId.value;
        videos := videos + [Video(it.title.value, WatchPrefix + vid, it.thumbnail.value)];
      }
      assert items[..i + 1][..i] == items[..i];
      i := i + 1;
    }
    assert items[..|items|] == items;
  }

  /** Items without an identifier are skipped and the rest keep their order: the k-th video
      is built from the k-th identified item, with its title and thumbnail and a watch URL
      made of the prefix followed by its identifier. */
  lemma {:induction false} VideosFollowIdentified(items: seq<VideoItem>)
    requires forall k :: 0 <= k < |items| ==> !Breaks(items[k])
    ensures |VideosOf(items)| == |Identified(items)|
    ensures forall k :: 0 <= k < |VideosOf(items)| ==>
      var it := Identified(items)[k];
      VideosOf(items)[k] == Video(it.title.value, WatchPrefix + it.videoId.value, it.thumbnail.value)
    decreases |items|
  {
    if items != [] {
      VideosFollowIdentified(items[..|items| - 1]);
    }
  }

  /** Shaping distributes over concatenation: the records of two batches are the records
      of the first followed by those of the second. */
  lemma {:induction false} VideosOfAppend(a: seq<VideoItem>, b: seq<VideoItem>)
    requires forall k :: 0 <= k < |a| ==> !Breaks(a[k])
    requires forall k :: 0 <= k < |b| ==> !Breaks(b[k])
    ensures forall k :: 0 <= k < |a + b| ==> !Breaks((a + b)[k])
    ensures VideosOf(a + b) == VideosOf(a) + VideosOf(b)
    decreases |b|
  {
    if b == [] {
      assert a + b == a;
    } else {
      var b' := b[..|b| - 1];
      assert (a + b)[..|a + b| - 1] == a + b';
      VideosOfAppend(a, b');
    }
  }

  /** No identified item is dropped: every item carrying an identifier is kept. */
  lemma {:induction false} IdentifiedComplete(items: seq<VideoItem>, k: nat)
    requires k < |items| && items[k].videoId.Some?
    ensures items[k] in Identified(items)
    decreases |items|
  {
    if k < |items| - 1 {
      assert items[..|items| - 1][k] == items[k];
      IdentifiedComplete(items[..|items| - 1], k);
    }
  }

  /** One item per index that carries an identifier. */
  lemma {:induction false} IdentifiedCount(items: seq<VideoItem>)
    ensures |Identified(items)| == |set k | 0 <= k < |items| && items[k].videoId.Some?|
    decreases |items|
  {
    if items != [] {
      var n := |items| - 1;
      var init := items[..n];
      IdentifiedCount(init);
      var before := set k | 0 <= k < n && init[k].videoId.Some?;
      var after := set k | 0 <= k < |items| && items[k].videoId.Some?;
      if items[n].videoId.Some? {
        assert after == before + {n};
      } else {
        assert after == before;
      }
    }
  }

  /** A single item is kept exactly when it has an identifier. */
  lemma IdentifiedSingle(it: VideoItem)
    ensures Identified([it]) == if it.videoId.Some? then [it] else []
  {
    assert [it][..0] == [];
  }

  /** Order is kept: the identified items of two batches are those of the first followed by
      those of the second. */
  lemma {:induction false} IdentifiedAppend(a: seq<VideoItem>, b: seq<VideoItem>)
    ensures Identified(a + b) == Identified(a) + Identified(b)
    decreases |b|
  {
    if b == [] {
      assert a + b == a;
    } else {
      var b' := b[..|b| - 1];
      assert (a + b)[..|a + b| - 1] == a + b';
      IdentifiedAppend(a, b');
    }
  }
}
