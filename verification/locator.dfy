/** Telling locators apart: `is_url` and `is_magnet` from helpers.py and the
    routing at the top of `Downloader.download`. */
module Locator {
  import opened PyStr

  /** The prefixes `is_url` accepts. */
  const UrlPrefixes: seq<string> := ["http://", "https://", "www.", "ftp://", "ftps://"]

  /** The prefix `is_magnet` accepts. */
  const MagnetPrefix: string := "magnet:?"

  /** The host fragments that send a locator to the media extractor. */
  const VideoDomains: seq<string> := [
    "youtube.com", "youtu.be", "instagram.com", "facebook.com",
    "twitter.com", "tiktok.com", "vimeo.com", "dailymotion.com",
    "vt.tiktok.com", "vm.tiktok.com", "x.com", "twitch.tv",
    "reddit.com", "streamable.com", "imgur.com"
  ]

  /** `text.lower().strip()` */
  function Normalize(text: string): string {
    StripSpace(Lower(text))
  }

  /** `any(s.startswith(p) for p in ps)` */
  function StartsWithAny(s: string, ps: seq<string>): (b: bool)
    ensures b <==> exists i :: 0 <= i < |ps| && StartsWith(s, ps[i])
  {
    if ps == [] then false
    else StartsWith(s, ps[0]) || StartsWithAny(s, ps[1..])
  }

  /** `any(d in s for d in ds)` */
  function ContainsAny(s: string, ds: seq<string>): (b: bool)
    ensures b <==> exists i :: 0 <= i < |ds| && Contains(s, ds[i])
  {
    if ds == [] then false
    else Contains(s, ds[0]) || ContainsAny(s, ds[1..])
  }

  /** `is_url(text)` */
  function IsUrl(text: string): bool {
    text != [] && StartsWithAny(Normalize(text), UrlPrefixes)
  }

  /** `is_magnet(text)` */
  function IsMagnet(text: string): bool {
    text != [] && StartsWith(Normalize(text), MagnetPrefix)
  }

  /** A magnet link is never taken for a URL: the normalised text starts
      with `m`, and no URL prefix does. */
  lemma MagnetIsNotUrl(text: string)
    ensures IsMagnet(text) ==> !IsUrl(text)
  {
    if IsMagnet(text) {
      var n := Normalize(text);
      assert n[0] == 'm';
      forall i | 0 <= i < |UrlPrefixes| ensures !StartsWith(n, UrlPrefixes[i]) {
        assert UrlPrefixes[i][0] != 'm';
      }
    }
  }

  /** Both tests ignore letter case. */
  lemma CaseInsensitive(text: string)
    ensures IsUrl(Lower(text)) == IsUrl(text)
    ensures IsMagnet(Lower(text)) == IsMagnet(text)
  {
    LowerIdempotent(text);
  }

  // ---------------------------------------------------------------------------
  // Routing in Downloader.download

  datatype Route = Empty | Torrent | Media | Http

  /** `url_or_file.startswith('magnet:') or url_or_file.endswith('.torrent')`,
      both case-sensitive. */
  predicate IsTorrentLocator(u: string) {
    StartsWith(u, "magnet:") || EndsWith(u, ".torrent")
  }

  /** The route `download` takes: nothing to do for an empty locator; the
      torrent engine for a magnet link or `.torrent` name; the media
      extractor when a video host appears anywhere in the lower-cased
      locator; plain HTTP otherwise. Exactly one route is chosen. */
  function Classify(u: string): (r: Route)
    ensures r == Empty <==> u == []
    ensures r == Torrent <==> u != [] && IsTorrentLocator(u)
    ensures r == Media <==> (u != [] && !IsTorrentLocator(u) &&
      exists i :: 0 <= i < |VideoDomains| && Contains(Lower(u), VideoDomains[i]))
    ensures r == Http <==> (u != [] && !IsTorrentLocator(u) &&
      forall i :: 0 <= i < |VideoDomains| ==> !Contains(Lower(u), VideoDomains[i]))
  {
    if u == [] then Empty
    else if IsTorrentLocator(u) then Torrent
    else if ContainsAny(Lower(u), VideoDomains) then Media
    else Http
  }

  /** The torrent test comes before the host test: a magnet link that
      mentions a video host still goes to the torrent engine. */
  lemma TorrentBeforeMedia(u: string, i: int)
    requires StartsWith(u, "magnet:") && 0 <= i < |VideoDomains| && Contains(Lower(u), VideoDomains[i])
    ensures Classify(u) == Torrent
  {
  }

  /** Host matching is plain substring matching: any locator that mentions
      `dropbox.com` (and is not a torrent) contains `x.com` and goes to the
      media extractor. */
  lemma DropboxIsMedia(u: string)
    requires !IsTorrentLocator(u) && Contains(Lower(u), "dropbox.com")
    ensures Classify(u) == Media
  {
    var l := Lower(u);
    var i :| 0 <= i <= |l| && Occurs(l, "dropbox.com", i);
    assert l[i + 6..i + 11] == "dropbox.com"[6..] == "x.com";
    assert Occurs(l, VideoDomains[10], i + 6);
  }

  /** Stripping keeps a prefix whose first and last characters are not
      whitespace. */
  lemma StripKeepsPrefix(l: string, p: string)
    requires StartsWith(l, p) && p != []
    requires p[0] !in Whitespace && p[|p| - 1] !in Whitespace
    ensures StartsWith(StripSpace(l), p)
  {
    var n := Strip(l, Whitespace);
    assert l[0] == p[0] && l[|p| - 1] == p[|p| - 1];
    assert LeadCount(l, Whitespace) == 0;
    assert |n| >= |p|;
    assert n[..|p|] == l[..|p|];
  }

  /** Lower-casing keeps a prefix that has no upper-case letter. */
  lemma LowerKeepsPrefix(u: string, p: string)
    requires StartsWith(u, p) && forall k :: 0 <= k < |p| ==> LowerChar(p[k]) == p[k]
    ensures StartsWith(Lower(u), p)
  {
    forall k | 0 <= k < |p| ensures Lower(u)[k] == p[k] {
      assert u[k] == p[k];
    }
  }

  /** A lower-case `magnet:?` link is both a magnet per `is_magnet` and a
      torrent route. */
  lemma MagnetRoutesToTorrent(u: string)
    requires StartsWith(u, MagnetPrefix)
    ensures IsMagnet(u) && Classify(u) == Torrent
  {
    assert u[..7] == MagnetPrefix[..7];
    LowerKeepsPrefix(u, MagnetPrefix);
    StripKeepsPrefix(Lower(u), MagnetPrefix);
  }
}
