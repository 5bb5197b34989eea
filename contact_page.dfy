/** The public contact page: how it resolves media URLs against the API origin, how it turns
    a YouTube or Vimeo link into an embeddable player, which pictures it shows in the
    thumbnail strip, which blocks it renders, and when the contact form sends a message. */
module ContactPage {
  import opened Options
  import opened Text
  import opened Sequences
  import opened StableSort
  import opened ContactBlocks
  import Gallery

  /** `full`: a URL beginning with the four letters "http" (case-sensitive) is kept, any
      other is appended to the API origin. */
  function Full(origin: string, u: string): (r: string)
    ensures StartsWith(u, "http") ==> r == u
    ensures !StartsWith(u, "http") ==> r == origin + u
  {
    if StartsWith(u, "http") then u else origin + u
  }

  /** With an origin that begins with "http", resolving a resolved URL changes nothing. */
  lemma FullIdempotent(origin: string, u: string)
    requires StartsWith(origin, "http")
    ensures Full(origin, Full(origin, u)) == Full(origin, u)
    ensures StartsWith(Full(origin, u), "http")
  {
    if !StartsWith(u, "http") {
      assert (origin + u)[..4] == origin[..4];
    }
  }

  /** `full` tests a looser prefix than the admin panel's `fullUrl`: a relative path that
      merely begins with "http" is left alone here and resolved there, and an upper-case
      scheme is resolved here and left alone there. */
  lemma FullDiffersFromFullUrl(origin: string)
    ensures Full(origin, "httpdocs/a.png") == "httpdocs/a.png"
    ensures Gallery.FullUrl(origin, "httpdocs/a.png") == origin + "httpdocs/a.png"
    ensures Full(origin, "HTTP://x") == origin + "HTTP://x"
    ensures Gallery.FullUrl(origin, "HTTP://x") == "HTTP://x"
  {
    assert "httpdocs/a.png"[..4] == "http";
    assert !MatchesAt("httpdocs/a.png", 0, "http://") by {
      assert Lower("httpdocs/a.png"[4]) != "http://"[4];
    }
    assert !MatchesAt("httpdocs/a.png", 0, "https://") by {
      assert Lower("httpdocs/a.png"[4]) != "https://"[4];
    }
    assert "HTTP://x"[..4] != "http" by {
      assert "HTTP://x"[..4][0] != "http"[0];
    }
    assert MatchesAt("HTTP://x", 0, "http://");
  }

  /** The pattern `pat` (lower case, compared without regard to case) occurs at `i` and is
      followed by a character `ok` accepts: where `pat` followed by `ok+` can match. */
  predicate Hit(s: string, pat: string, ok: char -> bool, i: nat) {
    MatchesAt(s, i, pat) && i + |pat| < |s| && ok(s[i + |pat|])
  }

  predicate FirstHit(s: string, pat: string, ok: char -> bool, i: nat) {
    Hit(s, pat, ok, i) && forall m: nat :: m < i ==> !Hit(s, pat, ok, m)
  }

  /** The leftmost hit at or after `i`, as a regular-expression search from `i` finds it. */
  function HitFrom(s: string, pat: string, ok: char -> bool, i: nat): (r: Option<nat>)
    decreases |s| - i
    ensures r.Some? ==> i <= r.value && Hit(s, pat, ok, r.value)
    ensures r.Some? ==> forall m: nat :: i <= m < r.value ==> !Hit(s, pat, ok, m)
    ensures r.None? ==> forall m: nat :: i <= m ==> !Hit(s, pat, ok, m)
  {
    if i >= |s| then None
    else if Hit(s, pat, ok, i) then Some(i)
    else HitFrom(s, pat, ok, i + 1)
  }

  /** The longest run of characters `ok` accepts starting at `start`, as a greedy `+` or `*`
      takes it. */
  function Run(s: string, start: nat, ok: char -> bool): (r: string)
    requires start <= |s|
    decreases |s| - start
    ensures start + |r| <= |s| && r == s[start..start + |r|]
    ensures forall k :: 0 <= k < |r| ==> ok(r[k])
    ensures start + |r| == |s| || !ok(s[start + |r|])
  {
    if start == |s| || !ok(s[start]) then []
    else
      var rest := Run(s, start + 1, ok);
      assert s[start..start + 1 + |rest|] == [s[start]] + s[start + 1..start + 1 + |rest|];
      [s[start]] + rest
  }

  /** The text of `s` after `pat` that the regular expression /pat(ok+)/i captures, or `None`
      when it does not match. */
  predicate Captured(s: string, pat: string, ok: char -> bool, id: string) {
    exists i: nat :: FirstHit(s, pat, ok, i) && i + |pat| <= |s| && id == Run(s, i + |pat|, ok)
  }

  /** `s.match(/pat(ok+)/i)?.[1]`. */
  function Capture(s: string, pat: string, ok: char -> bool): Option<string> {
    var first := HitFrom(s, pat, ok, 0);
    if first.None? then None else Some(Run(s, first.value + |pat|, ok))
  }

  /** The group matches exactly when `pat` followed by an accepted character occurs; it is
      then the whole run of accepted characters after the leftmost such occurrence, and it
      is never empty. */
  lemma CaptureSpec(s: string, pat: string, ok: char -> bool)
    ensures Capture(s, pat, ok).Some? <==> exists i: nat :: Hit(s, pat, ok, i)
    ensures Capture(s, pat, ok).Some? ==>
              var id := Capture(s, pat, ok).value;
              Captured(s, pat, ok, id) && |id| > 0 && forall k :: 0 <= k < |id| ==> ok(id[k])
  {
    var first := HitFrom(s, pat, ok, 0);
    if first.Some? {
      var i := first.value;
      var id := Run(s, i + |pat|, ok);
      assert FirstHit(s, pat, ok, i);
      assert id[0] == s[i + |pat|];
    }
  }

  /** `/<pat>/i.test(s)`. */
  predicate Contains(s: string, pat: string) {
    exists i :: 0 <= i <= |s| && MatchesAt(s, i, pat)
  }

  predicate NotAmpersand(c: char) {
    c != '&'
  }

  predicate NotQuestionMark(c: char) {
    c != '?'
  }

  /** `/youtube\.com\/watch\?v=|youtu\.be\//i.test(vurl)`. */
  predicate IsYouTube(v: string) {
    Contains(v, "youtube.com/watch?v=") || Contains(v, "youtu.be/")
  }

  /** `/vimeo\.com\/\d+/i.test(vurl)`. */
  predicate IsVimeo(v: string) {
    exists i :: 0 <= i < |v| && Hit(v, "vimeo.com/", IsDigit, i)
  }

  /** The YouTube video id: the group of `/v=([^&]+)/i`, and only when that does not match,
      the group of `/youtu\.be\/([^?]+)/i`. */
  function YouTubeId(v: string): (r: Option<string>)
    ensures r.Some? ==> |r.value| > 0
  {
    CaptureSpec(v, "v=", NotAmpersand);
    CaptureSpec(v, "youtu.be/", NotQuestionMark);
    var fromQuery := Capture(v, "v=", NotAmpersand);
    if fromQuery.Some? then fromQuery else Capture(v, "youtu.be/", NotQuestionMark)
  }

  /** The Vimeo video id: the group of `/vimeo\.com\/(\d+)/i`. */
  function VimeoId(v: string): (r: Option<string>)
    ensures r.Some? <==> IsVimeo(v)
    ensures r.Some? ==> |r.value| > 0
  {
    CaptureSpec(v, "vimeo.com/", IsDigit);
    Capture(v, "vimeo.com/", IsDigit)
  }

  /** How a video block is rendered: an `<iframe>` player or a `<video>` element. */
  datatype Media = IFrame(src: string) | Video(src: string)

  /** The video part of the blocks render (`embed` and the element chosen for it). */
  function EmbedFor(origin: string, v: string): (r: Media)
    ensures r.IFrame? <==> IsYouTube(v) || IsVimeo(v)
  {
    if IsYouTube(v) then
      var id := YouTubeId(v);
      IFrame(if id.Some? then "https://www.youtube.com/embed/" + id.value else v)
    else if IsVimeo(v) then
      var id := VimeoId(v);
      IFrame(if id.Some? then "https://player.vimeo.com/video/" + id.value else v)
    else if !StartsWith(v, "http") then Video(Full(origin, v))
    else Video(v)
  }

  /** A YouTube link becomes the YouTube embed URL of its id, and stays exactly as it is
      when no id can be taken from it; a Vimeo link always has an id (a run of digits) and
      becomes the Vimeo player URL; an iframe is used exactly for these two; any other URL
      is played by a `<video>` element from its `full` address. What the ids themselves
      are (the run after the leftmost match) is stated by `YouTubeIdSpec` and
      `CaptureSpec`. */
  lemma EmbedSpec(origin: string, v: string)
    ensures EmbedFor(origin, v).IFrame? <==> IsYouTube(v) || IsVimeo(v)
    ensures IsYouTube(v) && YouTubeId(v).Some? ==>
              EmbedFor(origin, v).src == "https://www.youtube.com/embed/" + YouTubeId(v).value
    ensures IsYouTube(v) && YouTubeId(v).None? ==> EmbedFor(origin, v).src == v
    ensures !IsYouTube(v) && IsVimeo(v) ==>
              exists id :: && Captured(v, "vimeo.com/", IsDigit, id) && |id| > 0
                           && (forall k :: 0 <= k < |id| ==> IsDigit(id[k]))
                           && EmbedFor(origin, v).src == "https://player.vimeo.com/video/" + id
    ensures !IsYouTube(v) && !IsVimeo(v) ==> EmbedFor(origin, v).src == Full(origin, v)
  {
    if !IsYouTube(v) && IsVimeo(v) {
      VimeoIdExists(v);
      CaptureSpec(v, "vimeo.com/", IsDigit);
      var id := VimeoId(v).value;
      assert Captured(v, "vimeo.com/", IsDigit, id);
    }
  }

  /** A YouTube id, when there is one, is a non-empty run without '&' after the leftmost
      "v=", or failing that a non-empty run without '?' after the leftmost "youtu.be/". */
  lemma YouTubeIdSpec(v: string)
    ensures YouTubeId(v).Some? ==>
              && |YouTubeId(v).value| > 0
              && (Captured(v, "v=", NotAmpersand, YouTubeId(v).value)
                  || ((forall i: nat :: !Hit(v, "v=", NotAmpersand, i))
                      && Captured(v, "youtu.be/", NotQuestionMark, YouTubeId(v).value)))
    ensures YouTubeId(v).None? <==>
              (forall i: nat :: !Hit(v, "v=", NotAmpersand, i))
              && (forall i: nat :: !Hit(v, "youtu.be/", NotQuestionMark, i))
  {
    CaptureSpec(v, "v=", NotAmpersand);
    CaptureSpec(v, "youtu.be/", NotQuestionMark);
  }

  /** A watch link whose "v=" is directly followed by '&' has no YouTube id: the page then
      hands the watch link itself, unchanged, to the iframe. */
  lemma WatchLinkWithoutId(origin: string)
    ensures EmbedFor(origin, "youtube.com/watch?v=&") == IFrame("youtube.com/watch?v=&")
  {
    var v := "youtube.com/watch?v=&";
    WatchLinkIsYouTube();
    WatchLinkNoQuery();
    WatchLinkNoShort();
    CaptureNone(v, "v=", NotAmpersand);
    CaptureNone(v, "youtu.be/", NotQuestionMark);
  }

  lemma WatchLinkIsYouTube()
    ensures Contains("youtube.com/watch?v=&", "youtube.com/watch?v=")
  {
    assert MatchesAt("youtube.com/watch?v=&", 0, "youtube.com/watch?v=");
  }

  lemma WatchLinkNoQuery()
    ensures forall i: nat :: !Hit("youtube.com/watch?v=&", "v=", NotAmpersand, i)
  {
    var v := "youtube.com/watch?v=&";
    assert forall k :: 0 <= k < |v| && k != 19 ==> v[k] != '=';
    forall i: nat
      ensures !Hit(v, "v=", NotAmpersand, i)
    {
      if i == 18 {
        assert !NotAmpersand(v[20]);
      } else if i + 2 <= |v| {
        assert Lower(v[i + 1]) != "v="[1];
      }
    }
  }

  lemma WatchLinkNoShort()
    ensures forall i: nat :: !Hit("youtube.com/watch?v=&", "youtu.be/", NotQuestionMark, i)
  {
    var v := "youtube.com/watch?v=&";
    assert forall k :: 0 <= k < |v| && k != 7 ==> v[k] != '.';
    forall i: nat
      ensures !Hit(v, "youtu.be/", NotQuestionMark, i)
    {
      if i == 2 {
        assert Lower(v[2]) != "youtu.be/"[0];
      } else if i + 9 <= |v| {
        assert Lower(v[i + 5]) != "youtu.be/"[5];
      }
    }
  }

  /** Deriving the player URL is not idempotent: a short link whose path spells a Vimeo
      address becomes a YouTube embed URL, which the same rule then turns into a Vimeo
      player URL. */
  lemma EmbedNotIdempotent(origin: string)
    ensures EmbedFor(origin, "youtu.be/vimeo.com/5") == IFrame("https://www.youtube.com/embed/vimeo.com/5")
    ensures EmbedFor(origin, "https://www.youtube.com/embed/vimeo.com/5") == IFrame("https://player.vimeo.com/video/5")
  {
    ShortLinkEmbed(origin);
    EmbedOfEmbed(origin);
  }

  lemma ShortLinkEmbed(origin: string)
    ensures EmbedFor(origin, "youtu.be/vimeo.com/5") == IFrame("https://www.youtube.com/embed/vimeo.com/5")
  {
    assert "https://www.youtube.com/embed/" + "vimeo.com/5" == "https://www.youtube.com/embed/vimeo.com/5";
    ShortLinkId();
    ShortLinkHit();
    assert IsYouTube("youtu.be/vimeo.com/5");
  }

  /** The short link has no "v=", so its id is the whole path after "youtu.be/". */
  lemma ShortLinkId()
    ensures YouTubeId("youtu.be/vimeo.com/5") == Some("vimeo.com/5")
  {
    var v := "youtu.be/vimeo.com/5";
    ShortLinkNoQuery();
    CaptureNone(v, "v=", NotAmpersand);
    ShortLinkHit();
    CaptureAt(v, "youtu.be/", NotQuestionMark, 0);
    ShortLinkRun();
  }

  lemma ShortLinkNoQuery()
    ensures forall i: nat :: !Hit("youtu.be/vimeo.com/5", "v=", NotAmpersand, i)
  {
    var v := "youtu.be/vimeo.com/5";
    assert forall k :: 0 <= k < |v| ==> Lower(v[k]) != "v="[1];
    NoMatchWithout(v, "v=", 1);
  }

  lemma ShortLinkHit()
    ensures FirstHit("youtu.be/vimeo.com/5", "youtu.be/", NotQuestionMark, 0)
    ensures Contains("youtu.be/vimeo.com/5", "youtu.be/")
  {
    assert MatchesAt("youtu.be/vimeo.com/5", 0, "youtu.be/");
  }

  lemma ShortLinkRun()
    ensures Run("youtu.be/vimeo.com/5", 9, NotQuestionMark) == "vimeo.com/5"
  {
    var v := "youtu.be/vimeo.com/5";
    assert forall k :: 9 <= k < |v| ==> NotQuestionMark(v[k]);
    RunToEnd(v, 9, NotQuestionMark);
    assert v[9..] == "vimeo.com/5";
  }

  lemma EmbedOfEmbed(origin: string)
    ensures EmbedFor(origin, "https://www.youtube.com/embed/vimeo.com/5") == IFrame("https://player.vimeo.com/video/5")
  {
    assert "https://player.vimeo.com/video/" + "5" == "https://player.vimeo.com/video/5";
    EmbedUrlNotYouTube();
    EmbedUrlVimeoId();
  }

  lemma EmbedUrlNotYouTube()
    ensures !IsYouTube("https://www.youtube.com/embed/vimeo.com/5")
  {
    EmbedUrlNoWatch();
    EmbedUrlNoShort();
  }

  lemma EmbedUrlNoWatch()
    ensures !Contains("https://www.youtube.com/embed/vimeo.com/5", "youtube.com/watch?v=")
  {
    var u := "https://www.youtube.com/embed/vimeo.com/5";
    assert forall k :: 0 <= k < |u| ==> Lower(u[k]) != "youtube.com/watch?v="[17];
    NoMatchWithout(u, "youtube.com/watch?v=", 17);
  }

  lemma EmbedUrlNoShort()
    ensures !Contains("https://www.youtube.com/embed/vimeo.com/5", "youtu.be/")
  {
    var u := "https://www.youtube.com/embed/vimeo.com/5";
    assert forall k :: 0 <= k < |u| && k != 12 ==> Lower(u[k]) != "youtu.be/"[0];
    forall i: nat
      ensures !MatchesAt(u, i, "youtu.be/")
    {
      if i == 12 {
        assert Lower(u[17]) != "youtu.be/"[5];
      } else if i + 9 <= |u| {
        assert Lower(u[i]) != "youtu.be/"[0];
      }
    }
  }

  lemma EmbedUrlVimeoId()
    ensures IsVimeo("https://www.youtube.com/embed/vimeo.com/5")
    ensures VimeoId("https://www.youtube.com/embed/vimeo.com/5") == Some("5")
  {
    var u := "https://www.youtube.com/embed/vimeo.com/5";
    EmbedUrlHit();
    CaptureAt(u, "vimeo.com/", IsDigit, 30);
    EmbedUrlRun();
  }

  lemma EmbedUrlHit()
    ensures FirstHit("https://www.youtube.com/embed/vimeo.com/5", "vimeo.com/", IsDigit, 30)
  {
    var u := "https://www.youtube.com/embed/vimeo.com/5";
    EmbedUrlMatch();
    assert forall k :: 0 <= k < 30 ==> Lower(u[k]) != "vimeo.com/"[0];
    forall m: nat | m < 30
      ensures !Hit(u, "vimeo.com/", IsDigit, m)
    {
      assert Lower(u[m]) != "vimeo.com/"[0];
    }
  }

  lemma EmbedUrlMatch()
    ensures Hit("https://www.youtube.com/embed/vimeo.com/5", "vimeo.com/", IsDigit, 30)
  {
    assert MatchesAt("https://www.youtube.com/embed/vimeo.com/5", 30, "vimeo.com/");
  }

  lemma EmbedUrlRun()
    ensures Run("https://www.youtube.com/embed/vimeo.com/5", 40, IsDigit) == "5"
  {
    var u := "https://www.youtube.com/embed/vimeo.com/5";
    assert IsDigit(u[40]);
    RunToEnd(u, 40, IsDigit);
    assert u[40..] == "5";
  }

  /** The group is taken after the leftmost hit. */
  lemma CaptureAt(s: string, pat: string, ok: char -> bool, i: nat)
    requires FirstHit(s, pat, ok, i)
    ensures i + |pat| < |s|
    ensures Capture(s, pat, ok) == Some(Run(s, i + |pat|, ok))
  {
  }

  lemma CaptureNone(s: string, pat: string, ok: char -> bool)
    requires forall i: nat :: !Hit(s, pat, ok, i)
    ensures Capture(s, pat, ok) == None
  {
  }

  /** A run of accepted characters up to the end of `s` is taken whole. */
  lemma RunToEnd(s: string, start: nat, ok: char -> bool)
    requires start <= |s|
    requires forall k :: start <= k < |s| ==> ok(s[k])
    ensures Run(s, start, ok) == s[start..]
  {
  }

  /** A pattern containing a character that occurs nowhere in `s` (folded) never matches. */
  lemma NoMatchWithout(s: string, pat: string, j: nat)
    requires j < |pat|
    requires forall k :: 0 <= k < |s| ==> Lower(s[k]) != pat[j]
    ensures forall i: nat :: !MatchesAt(s, i, pat)
  {
    forall i: nat
      ensures !MatchesAt(s, i, pat)
    {
      if i + |pat| <= |s| {
        assert Lower(s[i + j]) != pat[j];
      }
    }
  }

  /** Any Vimeo link has an id, so the `if (id)` guard of the Vimeo branch always holds. */
  lemma VimeoIdExists(v: string)
    requires IsVimeo(v)
    ensures VimeoId(v).Some? && forall k :: 0 <= k < |VimeoId(v).value| ==> IsDigit(VimeoId(v).value[k])
  {
    CaptureSpec(v, "vimeo.com/", IsDigit);
  }

  predicate IsImageBlock(b: StoredBlock) {
    b.body.ImageBody?
  }

  /** The thumbnails the page picks from its blocks: `full` of the URL of every image block,
      in the order the blocks arrived (not in position order). */
  function ChosenThumbnails(origin: string, blocks: seq<StoredBlock>): (r: seq<string>)
    ensures |r| == 0 <==> forall i :: 0 <= i < |blocks| ==> !IsImageBlock(blocks[i])
  {
    NoImageBlocks(blocks);
    ThumbnailsOf(origin, Filter(blocks, IsImageBlock))
  }

  /** `full` of the URL of each of `images`, in order. */
  function ThumbnailsOf(origin: string, images: seq<StoredBlock>): (r: seq<string>)
    requires forall k :: 0 <= k < |images| ==> IsImageBlock(images[k])
    ensures |r| == |images|
  {
    seq(|images|, k requires 0 <= k < |images| && IsImageBlock(images[k]) => Full(origin, images[k].body.url))
  }

  lemma ThumbnailsOfAppend(origin: string, a: seq<StoredBlock>, b: seq<StoredBlock>)
    requires forall k :: 0 <= k < |a| ==> IsImageBlock(a[k])
    requires forall k :: 0 <= k < |b| ==> IsImageBlock(b[k])
    ensures ThumbnailsOf(origin, a + b) == ThumbnailsOf(origin, a) + ThumbnailsOf(origin, b)
  {
    var l, m, r := ThumbnailsOf(origin, a), ThumbnailsOf(origin, b), ThumbnailsOf(origin, a + b);
    forall k | 0 <= k < |r|
      ensures r[k] == (l + m)[k]
    {
      if k < |a| {
        assert (a + b)[k] == a[k];
      } else {
        assert (a + b)[k] == b[k - |a|];
      }
    }
  }

  /** The image blocks are missing exactly when no block is an image. */
  lemma NoImageBlocks(blocks: seq<StoredBlock>)
    ensures |Filter(blocks, IsImageBlock)| == 0 <==> forall i :: 0 <= i < |blocks| ==> !IsImageBlock(blocks[i])
  {
    FilterNonEmpty(blocks, IsImageBlock);
    if forall i :: 0 <= i < |blocks| ==> !IsImageBlock(blocks[i]) {
      FilterNone(blocks, IsImageBlock);
    }
  }

  /** Every image block contributes exactly one thumbnail, at its rank among the image
      blocks: the block at index `i` gives thumbnail number `k`, where `k` counts the image
      blocks before it, and that thumbnail is `full` of its URL. */
  lemma ChosenSpec(origin: string, blocks: seq<StoredBlock>)
    ensures forall i :: 0 <= i < |blocks| && IsImageBlock(blocks[i]) ==>
      var k := |Filter(blocks[..i], IsImageBlock)|;
      k < |ChosenThumbnails(origin, blocks)| && ChosenThumbnails(origin, blocks)[k] == Full(origin, blocks[i].body.url)
  {
    forall i | 0 <= i < |blocks| && IsImageBlock(blocks[i])
      ensures var k := |Filter(blocks[..i], IsImageBlock)|;
        k < |ChosenThumbnails(origin, blocks)| && ChosenThumbnails(origin, blocks)[k] == Full(origin, blocks[i].body.url)
    {
      var before, after := blocks[..i], blocks[i + 1..];
      assert blocks == before + ([blocks[i]] + after);
      FilterAppend(before, [blocks[i]] + after, IsImageBlock);
      FilterAppend([blocks[i]], after, IsImageBlock);
      assert [blocks[i]][1..] == [];
      assert Filter([blocks[i]], IsImageBlock) == [blocks[i]];
      assert Filter(blocks, IsImageBlock)[|Filter(before, IsImageBlock)|] == blocks[i];
    }
  }

  /** The thumbnails keep the order of the blocks: the image blocks of `a + b` give the
      thumbnails of `a` followed by those of `b`. */
  lemma ChosenAppend(origin: string, a: seq<StoredBlock>, b: seq<StoredBlock>)
    ensures ChosenThumbnails(origin, a + b) == ChosenThumbnails(origin, a) + ChosenThumbnails(origin, b)
  {
    FilterAppend(a, b, IsImageBlock);
    ThumbnailsOfAppend(origin, Filter(a, IsImageBlock), Filter(b, IsImageBlock));
  }

  /** The fallback strip from the categories: the API origin in front of every non-empty
      image URL of every category, in order (with no test for an absolute URL); nothing when
      any request fails (`details` is `None`). */
  function FallbackThumbnails(origin: string, details: Option<seq<seq<string>>>): (r: seq<string>)
    ensures details.None? ==> r == []
    ensures forall k :: 0 <= k < |r| ==> |r[k]| > |origin| && r[k][..|origin|] == origin
  {
    if details.None? then [] else Prefixed(origin, details.value)
  }

  function Prefixed(origin: string, cats: seq<seq<string>>): (r: seq<string>)
    ensures forall k :: 0 <= k < |r| ==> |r[k]| > |origin| && r[k][..|origin|] == origin
  {
    if |cats| == 0 then [] else PrefixedUrls(origin, cats[0]) + Prefixed(origin, cats[1..])
  }

  function PrefixedUrls(origin: string, urls: seq<string>): (r: seq<string>)
    ensures |r| <= |urls|
    ensures forall k :: 0 <= k < |r| ==> |r[k]| > |origin| && r[k][..|origin|] == origin
  {
    if |urls| == 0 then []
    else
      var rest := PrefixedUrls(origin, urls[1..]);
      if urls[0] == "" then rest
      else
        assert (origin + urls[0])[..|origin|] == origin;
        [origin + urls[0]] + rest
  }

  /** The thumbnail list: the image blocks when there are any, and the category fallback
      exactly when there are none. */
  function Thumbnails(origin: string, blocks: seq<StoredBlock>, fallback: Option<seq<seq<string>>>): (r: seq<string>)
    ensures (exists i :: 0 <= i < |blocks| && IsImageBlock(blocks[i])) ==> r == ChosenThumbnails(origin, blocks)
    ensures (forall i :: 0 <= i < |blocks| ==> !IsImageBlock(blocks[i])) ==> r == FallbackThumbnails(origin, fallback)
  {
    var chosen := ChosenThumbnails(origin, blocks);
    if |chosen| > 0 then chosen else FallbackThumbnails(origin, fallback)
  }

  /** The strip renders the thumbnails twice in a row, so that its scrolling loops. */
  function Strip(thumbs: seq<string>): (r: seq<string>)
    ensures |r| == 2 * |thumbs|
    ensures forall i :: 0 <= i < |thumbs| ==> r[i] == thumbs[i] && r[i + |thumbs|] == thumbs[i]
  {
    thumbs + thumbs
  }

  /** The blocks as the render sorts them: a missing position counts as 0. */
  function Shown(stored: seq<StoredBlock>): (r: seq<Block>)
    ensures |r| == |stored|
    ensures forall i :: 0 <= i < |r| ==> r[i] == Block(stored[i].body, stored[i].position.GetOr(0))
  {
    seq(|stored|, i requires 0 <= i < |stored| => Block(stored[i].body, stored[i].position.GetOr(0)))
  }

  /** The rendered content blocks: the blocks that are not images, sorted by position. */
  function ContentBlocks(stored: seq<StoredBlock>): (r: seq<Block>)
    ensures Sorted(r, PositionRank)
    ensures forall i :: 0 <= i < |r| ==> !IsImage(r[i])
    ensures forall x :: multiset(r)[x] == if IsImage(x) then 0 else multiset(Shown(stored))[x]
  {
    var content := Filter(Shown(stored), NotImage);
    SortBySpec(content, PositionRank);
    forall x ensures multiset(SortBy(content, PositionRank))[x] == if IsImage(x) then 0 else multiset(Shown(stored))[x] {
      FilterCount(Shown(stored), NotImage, x);
    }
    SortBy(content, PositionRank)
  }

  /** Filtering before sorting gives what the admin page shows as its other section: when
      every stored block has a position, the public page renders exactly the admin page's
      "videos and texts" section, in the same order. */
  lemma ContentMatchesAdmin(stored: seq<StoredBlock>)
    ensures ContentBlocks(stored) == OtherSection(Shown(stored))
    ensures (forall i :: 0 <= i < |stored| ==> stored[i].position.Some?) ==>
              ContentBlocks(stored) == OtherSection(Loaded(stored))
  {
    SortCommutesWithFilter(Shown(stored), NotImage, PositionRank);
    if forall i :: 0 <= i < |stored| ==> stored[i].position.Some? {
      assert Shown(stored) == Loaded(stored);
    }
  }

  /** The contact form's fields; `website` is the hidden honeypot. */
  datatype Form = Form(name: string, lastName: string, email: string, content: string, website: string)

  /** The body of the message request. */
  datatype Message = Message(name: string, lastName: string, email: string, content: string)

  /** The checks `submit` makes before it posts: nothing is sent when the honeypot holds
      anything but white space or when a visible field is blank; otherwise the four trimmed
      values are sent, each non-empty and without surrounding white space. */
  function Submission(form: Form): (r: Option<Message>)
    ensures r.Some? <==>
              Blank(form.website) && !Blank(form.name) && !Blank(form.lastName)
              && !Blank(form.email) && !Blank(form.content)
    ensures r.Some? ==> r.value == Message(Trim(form.name), Trim(form.lastName), Trim(form.email), Trim(form.content))
    ensures r.Some? ==> r.value.name != "" && r.value.lastName != "" && r.value.email != "" && r.value.content != ""
    ensures r.Some? ==> Trimmed(r.value.name) && Trimmed(r.value.lastName) && Trimmed(r.value.email) && Trimmed(r.value.content)
  {
    if Trim(form.website) != "" then None
    else if Trim(form.name) == "" || Trim(form.lastName) == "" || Trim(form.email) == "" || Trim(form.content) == "" then None
    else Some(Message(Trim(form.name), Trim(form.lastName), Trim(form.email), Trim(form.content)))
  }

  /** The form after `submit`: the four visible fields are cleared once the message was
      delivered, and left as they were when nothing was sent or the request failed. */
  function AfterSubmit(form: Form, delivered: bool): (r: Form)
    ensures r.website == form.website
    ensures Submission(form).Some? && delivered ==> r == Form("", "", "", "", form.website)
    ensures Submission(form).None? || !delivered ==> r == form
  {
    if Submission(form).Some? && delivered then Form("", "", "", "", form.website) else form
  }

  /** Submitting again after a delivered message sends nothing, since the fields are empty. */
  lemma NoDoubleSend(form: Form)
    requires Submission(form).Some?
    ensures Submission(AfterSubmit(form, true)).None?
  {
    assert Blank("") by {
      assert Trim("") == [];
    }
  }
}
