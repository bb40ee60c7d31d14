/** `Downloader.download_ytdlp`: TikTok links try the direct fallback first;
    after the extractor has run, the saved file is looked up among the
    names it may have been written under. The fallback's reply, the
    extractor's outcome, the directory listing and the set of existing paths
    are parameters. */
module Media {
  import opened PyStr
  import opened Filenames
  import opened Outcomes
  import opened Locator

  /** The hosts that make a URL a TikTok URL. */
  const TikTokDomains: seq<string> := ["tiktok.com", "vm.tiktok.com", "vt.tiktok.com"]

  /** The extensions a merged or remuxed output may carry. */
  const VideoExtensions: seq<string> := [".mp4", ".mkv", ".webm"]

  /** `is_tiktok` */
  function IsTikTok(url: string): bool {
    ContainsAny(Lower(url), TikTokDomains)
  }

  /** The two short-link hosts contain `tiktok.com`, so `is_tiktok` is a
      single substring test. */
  lemma TikTokIsOneTest(url: string)
    ensures IsTikTok(url) <==> Contains(Lower(url), "tiktok.com")
  {
    var l := Lower(url);
    ShortHostsEndInMain();
    if Contains(l, TikTokDomains[1]) {
      ContainsTail(l, TikTokDomains[1], 3);
    }
    if Contains(l, TikTokDomains[2]) {
      ContainsTail(l, TikTokDomains[2], 3);
    }
  }

  /** Both short-link hosts are `tiktok.com` behind a three-letter prefix. */
  lemma ShortHostsEndInMain()
    ensures |TikTokDomains| == 3 && TikTokDomains[0] == "tiktok.com"
    ensures TikTokDomains[1][3..] == TikTokDomains[0] && TikTokDomains[2][3..] == TikTokDomains[0]
  {
  }

  /** A text that contains `long` contains every suffix of it. */
  lemma ContainsTail(s: string, long: string, k: nat)
    requires k <= |long| && Contains(s, long)
    ensures Contains(s, long[k..])
  {
    var i :| 0 <= i <= |s| && Occurs(s, long, i);
    assert s[i + k..i + |long|] == long[k..];
    assert Occurs(s, long[k..], i + k);
  }

  /** What `ydl.extract_info` plus `prepare_filename` produced: the file name
      the extractor reports and the title, or the failure message the
      exception handlers turn its error into. */
  datatype Extraction = Extracted(filename: string, title: string) | ExtractorFailed(message: string)

  /** Everything outside the code that the call observes. */
  datatype MediaEnv = MediaEnv(
    fallback: Reply,          // download_tiktok_fallback's reply
    extraction: Extraction,
    listing: seq<string>,     // os.listdir(download_dir)
    existing: set<string>)    // the paths os.path.exists accepts

  /** A directory entry that belongs to this download: it holds the URL hash
      and ends in one of the video extensions. */
  predicate HashMatch(f: string, hash: string) {
    Contains(f, hash) && exists k :: 0 <= k < |VideoExtensions| && EndsWith(f, VideoExtensions[k])
  }

  /** The directory entries that match, joined to the directory, in listing order. */
  function HashMatches(dir: string, hash: string, listing: seq<string>): (r: seq<string>)
    ensures |r| <= |listing|
    ensures forall f :: f in listing && HashMatch(f, hash) ==> Join(dir, f) in r
    ensures forall p :: p in r ==> exists f :: f in listing && HashMatch(f, hash) && p == Join(dir, f)
  {
    if listing == [] then []
    else
      var rest := HashMatches(dir, hash, listing[1..]);
      assert forall f :: f in listing <==> f == listing[0] || f in listing[1..];
      if HashMatch(listing[0], hash) then [Join(dir, listing[0])] + rest else rest
  }

  /** Matching keeps the listing's order: the matches of two listings in a
      row are the first listing's matches followed by the second's, and a
      single entry contributes itself, joined, exactly when it matches. */
  lemma {:induction false} HashMatchesAppend(dir: string, hash: string, u: seq<string>, v: seq<string>)
    ensures HashMatches(dir, hash, u + v) == HashMatches(dir, hash, u) + HashMatches(dir, hash, v)
    ensures |u| == 1 ==> HashMatches(dir, hash, u) == MatchOf(dir, hash, u[0])
    decreases |u|
  {
    if u == [] {
      assert u + v == v;
    } else {
      var w := u + v;
      assert w[0] == u[0] && w[1..] == u[1..] + v;
      var head := MatchOf(dir, hash, u[0]);
      HashMatchesCons(dir, hash, w);
      HashMatchesCons(dir, hash, u);
      HashMatchesAppend(dir, hash, u[1..], v);
      AssocHead(head, HashMatches(dir, hash, u[1..]), HashMatches(dir, hash, v));
      if |u| == 1 {
        assert u[1..] == [];
      }
    }
  }

  /** What one directory entry contributes to the matches. */
  function MatchOf(dir: string, hash: string, f: string): seq<string> {
    if HashMatch(f, hash) then [Join(dir, f)] else []
  }

  lemma HashMatchesCons(dir: string, hash: string, l: seq<string>)
    requires l != []
    ensures HashMatches(dir, hash, l) == MatchOf(dir, hash, l[0]) + HashMatches(dir, hash, l[1..])
  {
  }

  lemma AssocHead(a: seq<string>, b: seq<string>, c: seq<string>)
    ensures a + (b + c) == (a + b) + c
  {
  }

  /** `possible_files`: the reported name, the same stem with each video
      extension, then the matching directory entries. */
  function Candidates(filename: string, dir: string, hash: string, listing: seq<string>): seq<string> {
    var base := SplitExt(filename).0;
    [filename, base + ".mp4", base + ".mkv", base + ".webm"] + HashMatches(dir, hash, listing)
  }

  /** `cands[i]` exists and no earlier candidate does. */
  predicate FirstAt(cands: seq<string>, existing: set<string>, i: int) {
    0 <= i < |cands| && cands[i] in existing && forall j :: 0 <= j < i ==> cands[j] !in existing
  }

  /** The first candidate that exists, if any. */
  function FirstExisting(cands: seq<string>, existing: set<string>): (r: Option<string>)
    ensures r.None? <==> forall i :: 0 <= i < |cands| ==> cands[i] !in existing
    ensures r.Some? ==> exists i :: FirstAt(cands, existing, i) && cands[i] == r.value
  {
    if cands == [] then None
    else if cands[0] in existing then Some(cands[0])
    else
      var r := FirstExisting(cands[1..], existing);
      FirstExistingShift(cands, existing, r);
      r
  }

  /** A first existing candidate of the tail is one of the whole list when
      the head does not exist. */
  lemma FirstExistingShift(cands: seq<string>, existing: set<string>, r: Option<string>)
    requires cands != [] && cands[0] !in existing
    requires r.Some? ==> exists i :: FirstAt(cands[1..], existing, i) && cands[1..][i] == r.value
    ensures r.Some? ==> exists i :: FirstAt(cands, existing, i) && cands[i] == r.value
  {
    if r.Some? {
      var i :| FirstAt(cands[1..], existing, i) && cands[1..][i] == r.value;
      assert forall j :: 0 < j <= i ==> cands[j] == cands[1..][j - 1];
      assert cands[i + 1] == r.value;
    }
  }

  /** Whichever candidate is the first to exist is the one found. */
  lemma FirstExistingIsFirst(cands: seq<string>, existing: set<string>)
    ensures forall i :: FirstAt(cands, existing, i) ==> FirstExisting(cands, existing) == Some(cands[i])
  {
    forall i | FirstAt(cands, existing, i)
      ensures FirstExisting(cands, existing) == Some(cands[i])
    {
      assert cands[i] in existing;
      var r := FirstExisting(cands, existing);
      assert r.Some?;
      var j :| FirstAt(cands, existing, j) && cands[j] == r.value;
      assert 0 <= j < |cands|;
    }
  }

  /** The failures the media route can end with. */
  predicate MediaFailure(f: Failure) {
    f.MediaNotFound? || f.MediaError?
  }

  /** The fallback produced a path (`if result:`). */
  predicate FallbackWins(url: string, env: MediaEnv) {
    IsTikTok(url) && env.fallback.result.Saved? && env.fallback.result.path != []
  }

  /** `download_ytdlp(url, progress_callback)`; `digest` stands for the MD5
      hex digest. */
  function DownloadMedia(url: string, cb: bool, dir: string, digest: string -> string, env: MediaEnv): (r: Reply)
    requires IsHexDigest(digest)
    ensures !r.result.StillPolling? && (r.result.Failed? ==> MediaFailure(r.result.failure))
    ensures FallbackWins(url, env) ==> r.result == env.fallback.result
    ensures !FallbackWins(url, env) && env.extraction.Extracted? ==>
      var cands := Candidates(env.extraction.filename, dir, digest(url)[..12], env.listing);
      && (r.result == Failed(MediaNotFound) <==> forall i :: 0 <= i < |cands| ==> cands[i] !in env.existing)
      && (r.result.Saved? ==> exists i :: FirstAt(cands, env.existing, i) && cands[i] == r.result.path)
      && (forall i :: FirstAt(cands, env.existing, i) ==> r.result == Saved(cands[i]))
    ensures !FallbackWins(url, env) && env.extraction.ExtractorFailed? ==>
      r.result == Failed(MediaError(env.extraction.message))
    ensures IsTikTok(url) && cb ==> |r.events| > 0 && r.events[0] == Sample(0, 100, TryingTikTok)
    ensures FallbackWins(url, env) && cb ==> r.events == [Sample(0, 100, TryingTikTok)] + env.fallback.events
    ensures !FallbackWins(url, env) && IsTikTok(url) && cb ==>
      r.events == [Sample(0, 100, TryingTikTok)] + env.fallback.events + [Sample(0, 100, TryingAlternative)]
    ensures !IsTikTok(url) || !cb ==> r.events == []
  {
    var tiktok := IsTikTok(url);
    var tried := if tiktok && cb then [Sample(0, 100, TryingTikTok)] else [];
    var fallbackEvents := if tiktok && cb then env.fallback.events else [];
    if FallbackWins(url, env) then Reply(env.fallback.result, tried + fallbackEvents)
    else
      var events := tried + fallbackEvents + (if tiktok && cb then [Sample(0, 100, TryingAlternative)] else []);
      match env.extraction
      case ExtractorFailed(m) => Reply(Failed(MediaError(m)), events)
      case Extracted(filename, _) =>
        var cands := Candidates(filename, dir, digest(url)[..12], env.listing);
        var found := FirstExisting(cands, env.existing);
        FirstExistingIsFirst(cands, env.existing);
        var path := if found.Some? then found.value else filename;
        if path in env.existing then Reply(Saved(path), events)
        else Reply(Failed(MediaNotFound), events)
  }

  /** Off TikTok the fallback is never consulted. */
  lemma FallbackOnlyForTikTok(url: string, cb: bool, dir: string, digest: string -> string, env: MediaEnv, other: Reply)
    requires IsHexDigest(digest) && !IsTikTok(url)
    ensures DownloadMedia(url, cb, dir, digest, env) == DownloadMedia(url, cb, dir, digest, env.(fallback := other))
  {
  }

  /** The reported name wins whenever it exists. */
  lemma ReportedNameFirst(url: string, cb: bool, dir: string, digest: string -> string, env: MediaEnv)
    requires IsHexDigest(digest) && !FallbackWins(url, env)
    requires env.extraction.Extracted? && env.extraction.filename in env.existing
    ensures DownloadMedia(url, cb, dir, digest, env).result == Saved(env.extraction.filename)
  {
  }
}
