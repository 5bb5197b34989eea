/** The social-links editor of the admin panel: the link a user types is normalised, and
    saving either deletes the platform's link or stores the normalised one. */
module Socials {
  import opened Text

  datatype Platform = LinkedIn | ArtStation

  /** The request `save` sends to the API. */
  datatype SaveRequest = DeleteLink(platform: Platform) | StoreLink(platform: Platform, url: string)

  /** `normalize`: a blank entry becomes "", an entry with an `http://` or `https://` scheme
      (any letter case) is kept once trimmed, and anything else gets `https://` in front. */
  function Normalize(u: string): (r: string)
    ensures r == "" <==> Blank(u)
    ensures r != "" ==> HasHttpScheme(r) && Trimmed(r)
    ensures HasHttpScheme(Trim(u)) ==> r == Trim(u)
    ensures r != "" && !HasHttpScheme(Trim(u)) ==> r == "https://" + Trim(u)
  {
    var t := Trim(u);
    if t == "" then ""
    else if HasHttpScheme(t) then t
    else
      WithHttps(t);
      "https://" + t
  }

  /** Putting `https://` in front of a trimmed, non-empty entry gives a trimmed link with a
      scheme. */
  lemma WithHttps(t: string)
    requires t != "" && Trimmed(t)
    ensures HasHttpScheme("https://" + t) && Trimmed("https://" + t)
  {
    var r := "https://" + t;
    assert forall k :: 0 <= k < 8 ==> r[k] == "https://"[k];
    assert MatchesAt(r, 0, "https://");
    assert r[|r| - 1] == t[|t| - 1];
  }

  /** Normalising a normalised link changes nothing. */
  lemma NormalizeIdempotent(u: string)
    ensures Normalize(Normalize(u)) == Normalize(u)
  {
    var r := Normalize(u);
    if r != "" {
      TrimOfTrimmed(r);
    }
  }

  /** `save`: the link is deleted exactly when the entry is blank; otherwise the stored link
      is the normalised entry, which always carries a scheme. */
  function Save(platform: Platform, entry: string): (req: SaveRequest)
    ensures req.platform == platform
    ensures req.DeleteLink? <==> Blank(entry)
    ensures req.StoreLink? ==> req.url == Normalize(entry) && HasHttpScheme(req.url)
  {
    var clean := Normalize(entry);
    if clean == "" then DeleteLink(platform) else StoreLink(platform, clean)
  }
}
