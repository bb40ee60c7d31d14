/** `Downloader.download`: the single entry point, which hands the locator
    to the torrent engine, the media extractor or plain HTTP. */
module Dispatcher {
  import opened PyStr
  import opened Filenames
  import opened Outcomes
  import opened Locator
  import opened Http
  import opened Media
  import opened Torrent

  /** The downloader's configuration and everything the three routes
      observe. `ctx.dir` is the download directory, shared by HTTP and the
      media extractor. */
  datatype Environment = Environment(
    ctx: Context,
    torrentDir: string,
    exchange: Exchange,
    media: MediaEnv,
    torrent: TorrentEnv)

  /** The failures that belong to a route. */
  predicate RouteFailure(route: Route, f: Failure) {
    match route
    case Empty => f == NoLocator
    case Torrent => LoopFailure(f) || f == TorrentFileMissing
    case Media => MediaFailure(f)
    case Http => HttpFailure(f)
  }

  /** `download(url_or_file, filename, progress_callback)`; an empty
      `filename` stands for None. */
  function Download(locator: string, filename: string, cb: bool, env: Environment): (r: Reply)
    requires IsHexDigest(env.ctx.digest)
    ensures r.result == Failed(NoLocator) <==> locator == []
    ensures r.result.Failed? ==> RouteFailure(Classify(locator), r.result.failure)
    ensures r.result.StillPolling? ==> Classify(locator) == Torrent
    ensures Classify(locator) == Torrent ==> r == DownloadTorrent(locator, cb, env.torrentDir, env.torrent).reply
    ensures Classify(locator) == Media ==> r == DownloadMedia(locator, cb, env.ctx.dir, env.ctx.digest, env.media)
    ensures Classify(locator) == Http ==> r == DownloadFile(locator, filename, cb, env.ctx, env.exchange)
    ensures !cb ==> r.events == []
  {
    match Classify(locator)
    case Empty => Reply(Failed(NoLocator), [])
    case Torrent =>
      var r := DownloadTorrent(locator, cb, env.torrentDir, env.torrent).reply;
      OnRoute(Torrent, r);
      r
    case Media =>
      var r := DownloadMedia(locator, cb, env.ctx.dir, env.ctx.digest, env.media);
      OnRoute(Media, r);
      r
    case Http =>
      var r := DownloadFile(locator, filename, cb, env.ctx, env.exchange);
      OnRoute(Http, r);
      r
  }

  /** A reply that keeps to its route's failures is not the empty-locator
      failure. */
  lemma OnRoute(route: Route, r: Reply)
    requires route != Empty
    requires r.result.Failed? ==> RouteFailure(route, r.result.failure)
    ensures r.result != Failed(NoLocator)
  {
  }

  /** Which route served a call can be read off the kind of its failure
      (the `Failure` constructor), though not always off the text the
      user sees: see `GenericTextsCollide`. */
  lemma FailureNamesRoute(locator: string, filename: string, cb: bool, env: Environment)
    requires IsHexDigest(env.ctx.digest)
    requires Download(locator, filename, cb, env).result.Failed?
    ensures var f := Download(locator, filename, cb, env).result.failure;
      forall route :: RouteFailure(route, f) ==> route == Classify(locator)
  {
    var f := Download(locator, filename, cb, env).result.failure;
    forall route | RouteFailure(route, f) ensures route == Classify(locator) {
      RoutesDisjoint(f, route, Classify(locator));
    }
  }

  /** No failure kind belongs to two routes. */
  lemma RoutesDisjoint(f: Failure, a: Route, b: Route)
    requires RouteFailure(a, f) && RouteFailure(b, f)
    ensures a == b
  {
  }

  /** The text returned for the two catch-all failures: HTTP's
      `except Exception` formats the exception as `Download error: <e>`,
      and the media route returns its message as it stands. The other
      failures' texts are not modelled. */
  function CatchAllText(f: Failure): Option<string> {
    match f
    case Unexpected(d) => Some("Download error: " + d)
    case MediaError(m) => Some(m)
    case _ => None
  }

  /** An exception `e` that escapes the HTTP route and one that escapes the
      media route's `except Exception` both read `Download error: <e>`, so
      that text does not say which route produced it, although the two
      failures belong to different routes. */
  lemma GenericTextsCollide(d: string)
    ensures RouteFailure(Http, Unexpected(d)) && !RouteFailure(Media, Unexpected(d))
    ensures RouteFailure(Media, MediaError("Download error: " + d)) && !RouteFailure(Http, MediaError("Download error: " + d))
    ensures CatchAllText(Unexpected(d)) == CatchAllText(MediaError("Download error: " + d)) == Some("Download error: " + d)
  {
  }

  /** The caller's file name is only used by plain HTTP. */
  lemma FilenameOnlyForHttp(locator: string, f1: string, f2: string, cb: bool, env: Environment)
    requires IsHexDigest(env.ctx.digest) && Classify(locator) != Http
    ensures Download(locator, f1, cb, env) == Download(locator, f2, cb, env)
  {
  }

  /** A magnet link goes to the torrent engine even when it names a video
      host, and nothing about the media or HTTP side is consulted. */
  lemma MagnetIgnoresOtherRoutes(locator: string, filename: string, cb: bool, env: Environment, ex: Exchange, m: MediaEnv)
    requires IsHexDigest(env.ctx.digest) && StartsWith(locator, "magnet:")
    ensures Download(locator, filename, cb, env) == Download(locator, filename, cb, env.(exchange := ex, media := m))
    ensures Download(locator, filename, cb, env) == DownloadTorrent(locator, cb, env.torrentDir, env.torrent).reply
  {
  }

  /** A saved plain download lands directly inside the download directory. */
  lemma HttpSavesInsideDir(locator: string, filename: string, cb: bool, env: Environment)
    requires IsHexDigest(env.ctx.digest) && Classify(locator) == Http
    ensures var r := Download(locator, filename, cb, env);
      r.result.Saved? ==>
        && IsPlainName(Basename(r.result.path))
        && (env.ctx.dir != [] ==> StartsWith(r.result.path, env.ctx.dir))
        && DirectChild(r.result.path, env.ctx.dir)
        && r.result.path == DirPrefix(env.ctx.dir) + Basename(r.result.path)
  {
    SavedInsideDir(locator, filename, cb, env.ctx, env.exchange);
  }
}
