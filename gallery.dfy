/** The admin panel's gallery logic (the category page of the admin portal): turning a
    category's images and videos into one ordered block list, choosing the carousel
    slides, grouping the other media under the slide they belong to, the counters shown
    above the gallery, the category reordering buttons and the media URL resolver. */
module Gallery {
  import opened Options
  import opened Text
  import opened Sequences
  import opened StableSort

  /** A media record of a category, as the category-detail endpoint returns it. A missing
      or `false` `is_carousel` reads as `false`; a `null` or missing `slide_key` is `None`. */
  datatype Medium = Medium(
    id: int,
    imageUrl: Option<string>,
    videoUrl: Option<string>,
    description: Option<string>,
    position: Option<int>,
    isCarousel: bool,
    slideKey: Option<string>)

  datatype Kind = Image | Video

  /** A medium tagged with its kind, as the gallery lists it. */
  datatype MediaBlock = MediaBlock(
    id: int,
    kind: Kind,
    url: string,
    description: string,
    position: Option<int>,
    isCarousel: bool,
    slideKey: Option<string>)

  /** A category of the portfolio; only its id matters to the reordering buttons. */
  datatype Category = Category(id: int, name: string)

  /** `s || ""`. */
  function OrEmpty(s: Option<string>): string {
    s.GetOr("")
  }

  function FromImage(m: Medium): MediaBlock {
    MediaBlock(m.id, Image, OrEmpty(m.imageUrl), OrEmpty(m.description), m.position, m.isCarousel, m.slideKey)
  }

  function FromVideo(m: Medium): MediaBlock {
    MediaBlock(m.id, Video, OrEmpty(m.videoUrl), OrEmpty(m.description), m.position, m.isCarousel, m.slideKey)
  }

  function TagImages(images: seq<Medium>): seq<MediaBlock> {
    seq(|images|, i requires 0 <= i < |images| => FromImage(images[i]))
  }

  function TagVideos(videos: seq<Medium>): seq<MediaBlock> {
    seq(|videos|, i requires 0 <= i < |videos| => FromVideo(videos[i]))
  }

  /** The gallery order: position ascending (a missing position counts as 0), then id. */
  function BlockRank(b: MediaBlock): Rank {
    Rank(b.position.GetOr(0), b.id)
  }

  /** `toBlocks`: every image and every video, tagged, in gallery order. The sort is stable
      over the images followed by the videos, so among blocks of equal position and id the
      images come first, each group in its own input order. */
  function ToBlocks(images: seq<Medium>, videos: seq<Medium>): (r: seq<MediaBlock>)
    ensures |r| == |images| + |videos|
    ensures multiset(r) == multiset(TagImages(images)) + multiset(TagVideos(videos))
    ensures Sorted(r, BlockRank)
    ensures forall k :: SameRank(r, BlockRank, k)
                     == SameRank(TagImages(images), BlockRank, k) + SameRank(TagVideos(videos), BlockRank, k)
  {
    var all := TagImages(images) + TagVideos(videos);
    SortBySpec(all, BlockRank);
    SameRankConcat(TagImages(images), TagVideos(videos), BlockRank);
    SortBy(all, BlockRank)
  }

  /** No record is dropped and none is invented: the blocks are exactly the tagged images
      and the tagged videos. */
  lemma ToBlocksRecords(images: seq<Medium>, videos: seq<Medium>, x: MediaBlock)
    ensures x in ToBlocks(images, videos) <==>
              (exists i :: 0 <= i < |images| && x == FromImage(images[i])) ||
              (exists j :: 0 <= j < |videos| && x == FromVideo(videos[j]))
  {
    var r := ToBlocks(images, videos);
    assert x in r <==> x in multiset(r);
    assert x in r <==> x in TagImages(images) || x in TagVideos(videos);
    if x in TagImages(images) {
      var i :| 0 <= i < |images| && TagImages(images)[i] == x;
    }
    if x in TagVideos(videos) {
      var j :| 0 <= j < |videos| && TagVideos(videos)[j] == x;
    }
    if exists i :: 0 <= i < |images| && x == FromImage(images[i]) {
      var i :| 0 <= i < |images| && x == FromImage(images[i]);
      assert TagImages(images)[i] == x;
    }
    if exists j :: 0 <= j < |videos| && x == FromVideo(videos[j]) {
      var j :| 0 <= j < |videos| && x == FromVideo(videos[j]);
      assert TagVideos(videos)[j] == x;
    }
  }

  predicate IsSlide(b: MediaBlock) {
    b.isCarousel
  }

  /** `slidesFrom`: the blocks marked as carousel slides, in their order; when none is
      marked, every block. */
  function SlidesFrom(all: seq<MediaBlock>): (r: seq<MediaBlock>)
    ensures (exists i :: 0 <= i < |all| && IsSlide(all[i])) ==> r == Filter(all, IsSlide)
    ensures (forall i :: 0 <= i < |all| ==> !IsSlide(all[i])) ==> r == all
    ensures |r| == 0 <==> |all| == 0
  {
    var slides := Filter(all, IsSlide);
    FilterNonEmpty(all, IsSlide);
    NoneMarked(all);
    if |slides| > 0 then slides else all
  }

  /** Without a marked block there are no slides to pick. */
  lemma NoneMarked(all: seq<MediaBlock>)
    ensures (forall i :: 0 <= i < |all| ==> !IsSlide(all[i])) ==> Filter(all, IsSlide) == []
  {
    if forall i :: 0 <= i < |all| ==> !IsSlide(all[i]) {
      FilterNone(all, IsSlide);
    }
  }

  /** When some block is marked, the slides are exactly the marked blocks, each as often as
      it occurs in the gallery. */
  lemma SlidesAreMarked(all: seq<MediaBlock>, x: MediaBlock)
    requires exists i :: 0 <= i < |all| && IsSlide(all[i])
    ensures multiset(SlidesFrom(all))[x] == if IsSlide(x) then multiset(all)[x] else 0
  {
    FilterCount(all, IsSlide, x);
  }

  /** `fullUrl`: a URL starting with `http://` or `https://`, in any letter case, is used as
      it is; anything else is a path on the API origin. */
  function FullUrl(origin: string, u: string): (r: string)
    ensures HasHttpScheme(u) ==> r == u
    ensures !HasHttpScheme(u) ==> r == origin + u
  {
    if HasHttpScheme(u) then u else origin + u
  }

  lemma {:induction false} SchemeOfConcat(a: string, b: string)
    requires HasHttpScheme(a)
    ensures HasHttpScheme(a + b)
  {
    if MatchesAt(a, 0, "http://") {
      assert forall k :: 0 <= k < 7 ==> (a + b)[k] == a[k];
    } else {
      assert forall k :: 0 <= k < 8 ==> (a + b)[k] == a[k];
    }
  }

  /** With an absolute API origin, resolving a resolved URL again changes nothing. */
  lemma FullUrlIdempotent(origin: string, u: string)
    requires HasHttpScheme(origin)
    ensures FullUrl(origin, FullUrl(origin, u)) == FullUrl(origin, u)
  {
    if !HasHttpScheme(u) {
      SchemeOfConcat(origin, u);
    }
  }

  /** The media `itemsBySlide` files under slide key `k`: not a slide, and carrying the
      non-empty key `k`. */
  predicate InBucket(m: MediaBlock, k: string) {
    !m.isCarousel && m.slideKey == Some(k) && k != ""
  }

  /** The media of `s` filed under `k`, in the order the loop meets them. */
  function Members(s: seq<MediaBlock>, k: string): (r: seq<MediaBlock>)
    ensures forall i :: 0 <= i < |r| ==> InBucket(r[i], k)
  {
    if |s| == 0 then []
    else Members(s[..|s| - 1], k) + (if InBucket(s[|s| - 1], k) then [s[|s| - 1]] else [])
  }

  /** The slide keys that have at least one medium filed under them. */
  function SlideKeys(s: seq<MediaBlock>): set<string> {
    if |s| == 0 then {}
    else
      var m := s[|s| - 1];
      SlideKeys(s[..|s| - 1]) + (if !m.isCarousel && m.slideKey.Some? && m.slideKey.value != "" then {m.slideKey.value} else {})
  }

  /** The order `itemsBySlide` sorts each bucket in: position only (missing counts as 0). */
  function PositionRank(b: MediaBlock): Rank {
    Rank(b.position.GetOr(0), 0)
  }

  /** `itemsBySlide`: one bucket per slide key, holding the media filed under that key,
      sorted by position (stable, so equal positions keep the gallery order). */
  method ItemsBySlide(all: seq<MediaBlock>) returns (buckets: map<string, seq<MediaBlock>>)
    ensures buckets.Keys == SlideKeys(all)
    ensures forall k :: k in buckets ==> buckets[k] == SortBy(Members(all, k), PositionRank)
  {
    var filed := FileBySlide(all);
    buckets := SortEachBucket(filed);
  }

  /** The first loop of `itemsBySlide`: skip slides and media without a key, create a
      key's bucket on first sight, and push each medium onto its key's bucket. */
  method FileBySlide(all: seq<MediaBlock>) returns (buckets: map<string, seq<MediaBlock>>)
    ensures buckets.Keys == SlideKeys(all)
    ensures forall k :: k in buckets ==> buckets[k] == Members(all, k)
  {
    buckets := map[];
    for i := 0 to |all|
      invariant buckets.Keys == SlideKeys(all[..i])
      invariant forall k :: k in buckets ==> buckets[k] == Members(all[..i], k)
    {
      var m := all[i];
      ghost var before := buckets;
      if !m.isCarousel && m.slideKey.Some? && m.slideKey.value != "" {
        var key := m.slideKey.value;
        if key !in buckets {
          MembersOfUnseenKey(all[..i], key);
          buckets := buckets[key := []];
        }
        buckets := buckets[key := buckets[key] + [m]];
      }
      GroupStep(all, i, before, buckets);
    }
    assert all[..|all|] == all;
  }

  /** The second loop of `itemsBySlide`: sort every bucket by position. */
  method SortEachBucket(unsorted: map<string, seq<MediaBlock>>) returns (buckets: map<string, seq<MediaBlock>>)
    ensures buckets.Keys == unsorted.Keys
    ensures forall k :: k in buckets ==> buckets[k] == SortBy(unsorted[k], PositionRank)
  {
    buckets := unsorted;
    var pending := buckets.Keys;
    while pending != {}
      invariant pending <= buckets.Keys == unsorted.Keys
      invariant forall k :: k in buckets ==>
        buckets[k] == if k in pending then unsorted[k] else SortBy(unsorted[k], PositionRank)
      decreases |pending|
    {
      var k :| k in pending;
      buckets := buckets[k := SortBy(buckets[k], PositionRank)];
      pending := pending - {k};
    }
  }

  /** One turn of the grouping loop keeps the buckets equal to the media filed so far. */
  lemma GroupStep(all: seq<MediaBlock>, i: nat, before: map<string, seq<MediaBlock>>,
                  after: map<string, seq<MediaBlock>>)
    requires i < |all|
    requires before.Keys == SlideKeys(all[..i])
    requires forall k :: k in before ==> before[k] == Members(all[..i], k)
    requires var m := all[i];
      if !m.isCarousel && m.slideKey.Some? && m.slideKey.value != "" then
        after == before[m.slideKey.value := Members(all[..i], m.slideKey.value) + [m]]
      else after == before
    ensures after.Keys == SlideKeys(all[..i + 1])
    ensures forall k :: k in after ==> after[k] == Members(all[..i + 1], k)
  {
    assert all[..i + 1][..i] == all[..i];
  }

  lemma {:induction false} MembersOfUnseenKey(s: seq<MediaBlock>, k: string)
    requires k !in SlideKeys(s)
    ensures Members(s, k) == []
  {
    if |s| > 0 {
      MembersOfUnseenKey(s[..|s| - 1], k);
    }
  }

  lemma {:induction false} SlideKeysSpec(s: seq<MediaBlock>, k: string)
    ensures k in SlideKeys(s) <==> exists i :: 0 <= i < |s| && InBucket(s[i], k)
  {
    if |s| > 0 {
      var init := s[..|s| - 1];
      SlideKeysSpec(init, k);
      assert forall i :: 0 <= i < |init| ==> init[i] == s[i];
    }
  }

  lemma {:induction false} MembersCount(s: seq<MediaBlock>, k: string, x: MediaBlock)
    ensures multiset(Members(s, k))[x] == if InBucket(x, k) then multiset(s)[x] else 0
  {
    if |s| > 0 {
      var init := s[..|s| - 1];
      MembersCount(init, k, x);
      assert s == init + [s[|s| - 1]];
    }
  }

  /** What a bucket of `itemsBySlide` holds: a medium is in the bucket of `k` exactly when
      it is not a slide and its slide key is `k` (so slides and media without a key are in
      no bucket), it is there as often as in the gallery, the bucket ascends by position,
      and media of equal position keep their gallery order. A key has a bucket exactly
      when some medium is filed under it. */
  lemma BucketContents(all: seq<MediaBlock>, k: string)
    ensures k in SlideKeys(all) <==> exists i :: 0 <= i < |all| && InBucket(all[i], k)
    ensures forall x :: multiset(SortBy(Members(all, k), PositionRank))[x]
                     == if InBucket(x, k) then multiset(all)[x] else 0
    ensures Sorted(SortBy(Members(all, k), PositionRank), PositionRank)
    ensures forall p :: SameRank(SortBy(Members(all, k), PositionRank), PositionRank, p)
                     == SameRank(Members(all, k), PositionRank, p)
  {
    SlideKeysSpec(all, k);
    SortBySpec(Members(all, k), PositionRank);
    forall x ensures multiset(SortBy(Members(all, k), PositionRank))[x]
                  == if InBucket(x, k) then multiset(all)[x] else 0 {
      MembersCount(all, k, x);
    }
  }

  /** The counters shown above a category's gallery. */
  datatype Stats = Stats(slides: nat, items: nat, imgItems: nat, vidItems: nat)

  predicate IsItem(b: MediaBlock) {
    !b.isCarousel
  }

  predicate IsImageItem(b: MediaBlock) {
    !b.isCarousel && b.kind == Image
  }

  predicate IsVideoItem(b: MediaBlock) {
    !b.isCarousel && b.kind == Video
  }

  lemma {:induction false} ItemsSplit(s: seq<MediaBlock>)
    ensures |Filter(s, IsItem)| == |Filter(s, IsImageItem)| + |Filter(s, IsVideoItem)|
    ensures |Filter(s, IsItem)| + |Filter(s, IsSlide)| == |s|
  {
    if |s| > 0 {
      ItemsSplit(s[1..]);
    }
  }

  /** `stats`: the slide count is that of the carousel (all blocks when none is marked),
      and every non-slide block is counted once, as an image or as a video. */
  function ComputeStats(all: seq<MediaBlock>): (r: Stats)
    ensures r.slides == |SlidesFrom(all)|
    ensures r.items == r.imgItems + r.vidItems
    ensures (exists i :: 0 <= i < |all| && IsSlide(all[i])) ==> r.slides + r.items == |all|
    ensures (forall i :: 0 <= i < |all| ==> !IsSlide(all[i])) ==> r.slides == r.items == |all|
  {
    ItemsSplit(all);
    FilterNonEmpty(all, IsSlide);

    Stats(|SlidesFrom(all)|, |Filter(all, IsItem)|, |Filter(all, IsImageItem)|, |Filter(all, IsVideoItem)|)
  }

  /** Each counter counts its own kind of block: `items` the non-slide blocks, `imgItems`
      the non-slide images and `vidItems` the non-slide videos. */
  lemma StatsCounts(all: seq<MediaBlock>)
    ensures ComputeStats(all).items == |set i | 0 <= i < |all| && IsItem(all[i])|
    ensures ComputeStats(all).imgItems == |set i | 0 <= i < |all| && IsImageItem(all[i])|
    ensures ComputeStats(all).vidItems == |set i | 0 <= i < |all| && IsVideoItem(all[i])|
  {
    ItemsCount(all);
    ImageItemsCount(all);
    VideoItemsCount(all);
  }

  lemma ItemsCount(all: seq<MediaBlock>)
    ensures |Filter(all, IsItem)| == |set i | 0 <= i < |all| && IsItem(all[i])|
  {
    FilterSize(all, IsItem);
    assert (set i | 0 <= i < |all| && IsItem(all[i])) == IndicesBelow(all, IsItem, |all|);
  }

  lemma ImageItemsCount(all: seq<MediaBlock>)
    ensures |Filter(all, IsImageItem)| == |set i | 0 <= i < |all| && IsImageItem(all[i])|
  {
    FilterSize(all, IsImageItem);
    assert (set i | 0 <= i < |all| && IsImageItem(all[i])) == IndicesBelow(all, IsImageItem, |all|);
  }

  lemma VideoItemsCount(all: seq<MediaBlock>)
    ensures |Filter(all, IsVideoItem)| == |set i | 0 <= i < |all| && IsVideoItem(all[i])|
  {
    FilterSize(all, IsVideoItem);
    assert (set i | 0 <= i < |all| && IsVideoItem(all[i])) == IndicesBelow(all, IsVideoItem, |all|);
  }

  function Ids(cats: seq<Category>): (r: seq<int>)
    ensures |r| == |cats|
  {
    seq(|cats|, i requires 0 <= i < |cats| => cats[i].id)
  }

  /** `moveUp`: nothing is submitted for the first category; otherwise the category ids are
      submitted with the entry at `idx` exchanged with the one before it. */
  method MoveUp(cats: seq<Category>, idx: int) returns (order: Option<seq<int>>)
    requires idx < |cats|
    ensures order.None? <==> idx <= 0
    ensures order.Some? ==>
              && |order.value| == |cats|
              && order.value[idx - 1] == cats[idx].id && order.value[idx] == cats[idx - 1].id
              && (forall i :: 0 <= i < |cats| && i != idx - 1 && i != idx ==> order.value[i] == cats[i].id)
              && multiset(order.value) == multiset(Ids(cats))
  {
    if idx <= 0 {
      return None;
    }
    var ids := Ids(cats);
    var arr := new int[|ids|](i requires 0 <= i < |ids| => ids[i]);
    arr[idx - 1], arr[idx] := arr[idx], arr[idx - 1];
    assert arr[..] == Swap(ids, idx - 1, idx);
    return Some(arr[..]);
  }

  /** `moveDown`: nothing is submitted for the last category; otherwise the category ids
      are submitted with the entry at `idx` exchanged with the one after it. */
  method MoveDown(cats: seq<Category>, idx: int) returns (order: Option<seq<int>>)
    requires 0 <= idx
    ensures order.None? <==> idx >= |cats| - 1
    ensures order.Some? ==>
              && |order.value| == |cats|
              && order.value[idx] == cats[idx + 1].id && order.value[idx + 1] == cats[idx].id
              && (forall i :: 0 <= i < |cats| && i != idx && i != idx + 1 ==> order.value[i] == cats[i].id)
              && multiset(order.value) == multiset(Ids(cats))
  {
    if idx >= |cats| - 1 {
      return None;
    }
    var ids := Ids(cats);
    var arr := new int[|ids|](i requires 0 <= i < |ids| => ids[i]);
    arr[idx], arr[idx + 1] := arr[idx + 1], arr[idx];
    assert arr[..] == Swap(ids, idx, idx + 1);
    return Some(arr[..]);
  }
}
