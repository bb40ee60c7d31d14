/** `Downloader.download_torrent`: the polling loop over a libtorrent handle
    and the set-up and tear-down around it. The engine is not modelled; what
    the loop observes on each pass (the clock, the popped alerts, the
    handle's status) is a trace given as a parameter. */
module Torrent {
  import opened PyStr
  import opened Filenames
  import opened Outcomes

  /** Seconds without metadata before giving up. */
  const MetadataTimeoutSeconds: real := 180.0

  /** Seconds before the whole download is abandoned. */
  const DownloadTimeoutSeconds: real := 7200.0

  /** The value `last_progress` starts from. */
  const NoProgressYet: real := -1.0

  /** The alert kinds the loop distinguishes; every other kind is ignored. */
  datatype Alert =
    | TorrentErrorAlert(message: string)
    | MetadataFailedAlert
    | MetadataReceivedAlert
    | OtherAlert

  /** What one pass of the loop reads: seconds since the start, the alerts
      `pop_alerts` returned, and the handle's status. `totalSize` is only
      read once metadata is present. */
  datatype Status = Status(
    elapsed: real,
    alerts: seq<Alert>,
    hasMetadata: bool,
    peers: nat,
    totalSize: int,
    progress: real,     // s.progress, a fraction
    totalDone: int)

  /** One observation of the loop head: `is_seed()` already holds, a pass
      with the given status runs, or a library call in the pass raised. */
  datatype Poll = Seeding | Active(status: Status) | Raised(detail: string)

  /** The failures the polling loop itself can end with. */
  predicate LoopFailure(f: Failure) {
    f.TorrentTimeout? || f.TorrentFailure? || f.MetadataFailed? || f.MetadataTimeout? || f.TorrentTooLarge?
  }

  predicate IsFatal(a: Alert) {
    a.TorrentErrorAlert? || a.MetadataFailedAlert?
  }

  function FatalFailure(a: Alert): (f: Failure)
    requires IsFatal(a)
    ensures LoopFailure(f)
  {
    if a.TorrentErrorAlert? then TorrentFailure(a.message) else MetadataFailed
  }

  /** The first fatal alert, in the order the alerts were popped, ends the
      download with its failure. */
  function AlertFailure(alerts: seq<Alert>): (r: Option<Failure>)
    ensures r.None? <==> forall i :: 0 <= i < |alerts| ==> !IsFatal(alerts[i])
    ensures r.Some? ==> exists i :: FirstFatalAt(alerts, i) && r.value == FatalFailure(alerts[i])
    ensures r.Some? ==> LoopFailure(r.value)
  {
    if alerts == [] then None
    else if IsFatal(alerts[0]) then
      assert FirstFatalAt(alerts, 0);
      Some(FatalFailure(alerts[0]))
    else
      var r := AlertFailure(alerts[1..]);
      FatalShift(alerts, r);
      r
  }

  /** `alerts[i]` is fatal and no earlier alert is. */
  predicate FirstFatalAt(alerts: seq<Alert>, i: int) {
    0 <= i < |alerts| && IsFatal(alerts[i]) && forall j :: 0 <= j < i ==> !IsFatal(alerts[j])
  }

  lemma FatalShift(alerts: seq<Alert>, r: Option<Failure>)
    requires alerts != [] && !IsFatal(alerts[0])
    requires r.Some? ==> exists i :: FirstFatalAt(alerts[1..], i) && r.value == FatalFailure(alerts[1..][i])
    ensures r.Some? ==> exists i :: FirstFatalAt(alerts, i) && r.value == FatalFailure(alerts[i])
  {
    if r.Some? {
      var i :| FirstFatalAt(alerts[1..], i) && r.value == FatalFailure(alerts[1..][i]);
      assert forall j :: 0 < j <= i ==> alerts[j] == alerts[1..][j - 1];
      assert FirstFatalAt(alerts, i + 1);
    }
  }

  /** `abs(a - b) >= 1` */
  predicate Apart(a: real, b: real) {
    a - b >= 1.0 || b - a >= 1.0
  }

  /** The percentage the last torrenting sample showed, or `last` when
      there is none. */
  function LastPercent(events: seq<Sample>, last: real): real {
    if events == [] then last
    else LastPercent(events[1..], if events[0].status.Torrenting? then events[0].status.percent else last)
  }

  /** Each torrenting sample's percentage differs by at least one point from
      the one shown before it (or from `last` for the first). */
  predicate Spaced(events: seq<Sample>, last: real) {
    if events == [] then true
    else if events[0].status.Torrenting? then
      Apart(events[0].status.percent, last) && Spaced(events[1..], events[0].status.percent)
    else Spaced(events[1..], last)
  }

  /** The shapes a torrent sample can have: connecting samples report 0 of
      100, and torrenting samples are only sent once the size has passed
      the limit check. */
  predicate Shaped(e: Sample) {
    (e.status.Connecting? ==> e.done == 0 && e.total == 100) &&
    (e.status.Torrenting? ==> e.total <= MaxFileSize) &&
    (e.status.Connecting? || e.status.Torrenting?)
  }

  datatype Outcome = Continue(last: real, events: seq<Sample>) | Stop(failure: Failure)

  /** One pass of the loop body. */
  function Step(s: Status, last: real, cb: bool): (r: Outcome)
    ensures r.Stop? <==> (s.elapsed > DownloadTimeoutSeconds || AlertFailure(s.alerts).Some? ||
      (!s.hasMetadata && s.elapsed > MetadataTimeoutSeconds) || (s.hasMetadata && s.totalSize > MaxFileSize))
    ensures r.Stop? ==> LoopFailure(r.failure)
    ensures s.elapsed > DownloadTimeoutSeconds ==> r == Stop(TorrentTimeout)
    ensures s.elapsed <= DownloadTimeoutSeconds && AlertFailure(s.alerts).Some? ==> r == Stop(AlertFailure(s.alerts).value)
    ensures r.Continue? ==> |r.events| <= 1 && Spaced(r.events, last) && r.last == LastPercent(r.events, last)
    ensures r.Continue? ==> forall i :: 0 <= i < |r.events| ==> Shaped(r.events[i])
    ensures r.Continue? && !cb ==> r.events == [] && r.last == last
    ensures r.Continue? && cb && !s.hasMetadata ==> r.events == [Sample(0, 100, Connecting(s.peers))]
    ensures (s.elapsed <= DownloadTimeoutSeconds && AlertFailure(s.alerts).None? && !s.hasMetadata &&
      s.elapsed > MetadataTimeoutSeconds) ==> r == Stop(MetadataTimeout)
    ensures (s.elapsed <= DownloadTimeoutSeconds && AlertFailure(s.alerts).None? && s.hasMetadata &&
      s.totalSize > MaxFileSize) ==> r == Stop(TorrentTooLarge(s.totalSize))
    ensures r.Continue? && cb && s.hasMetadata ==>
      && (r.events != [] <==> Apart(s.progress * 100.0, last))
      && (r.events != [] ==>
        r.events == [Sample(s.totalDone, s.totalSize, Torrenting(s.peers, s.progress * 100.0))])
  {
    if s.elapsed > DownloadTimeoutSeconds then Stop(TorrentTimeout)
    else
      var fatal := AlertFailure(s.alerts);
      if fatal.Some? then Stop(fatal.value)
      else if !s.hasMetadata then
        if s.elapsed > MetadataTimeoutSeconds then Stop(MetadataTimeout)
        else Continue(last, if cb then [Sample(0, 100, Connecting(s.peers))] else [])
      else if s.totalSize > MaxFileSize then Stop(TorrentTooLarge(s.totalSize))
      else
        var p := s.progress * 100.0;
        if cb && Apart(p, last) then Continue(p, [Sample(s.totalDone, s.totalSize, Torrenting(s.peers, p))])
        else Continue(last, [])
  }

  /** The first pass with metadata reports as soon as the progress is not
      negative, because `last_progress` starts at -1. */
  lemma FirstProgressReported(s: Status)
    requires s.elapsed <= DownloadTimeoutSeconds && AlertFailure(s.alerts).None?
    requires s.hasMetadata && s.totalSize <= MaxFileSize && s.progress >= 0.0
    ensures Step(s, NoProgressYet, true).Continue?
    ensures |Step(s, NoProgressYet, true).events| == 1
  {
  }

  datatype RunOutcome =
    | Finished(events: seq<Sample>)
    | Stopped(failure: Failure, events: seq<Sample>)
    | Exhausted(events: seq<Sample>)

  /** Every poll before `k` ran a pass to completion. */
  predicate ActiveBefore(trace: seq<Poll>, k: int) {
    0 <= k <= |trace| && forall j :: 0 <= j < k ==> trace[j].Active?
  }

  function Prepend(events: seq<Sample>, r: RunOutcome): (q: RunOutcome)
    ensures q.Finished? == r.Finished? && q.Stopped? == r.Stopped? && q.Exhausted? == r.Exhausted?
    ensures q.Stopped? ==> q.failure == r.failure
    ensures q.events == events + r.events
  {
    r.(events := events + r.events)
  }

  /** The loop, pass by pass, from `last_progress == last`. */
  function Run(trace: seq<Poll>, last: real, cb: bool): (r: RunOutcome)
    ensures r.Finished? ==> exists k :: ActiveBefore(trace, k) && k < |trace| && trace[k].Seeding?
    ensures r.Exhausted? ==> ActiveBefore(trace, |trace|)
    ensures r.Stopped? ==> LoopFailure(r.failure)
    ensures Spaced(r.events, last)
    ensures forall i :: 0 <= i < |r.events| ==> Shaped(r.events[i])
    ensures !cb ==> r.events == []
    decreases |trace|
  {
    if trace == [] then Exhausted([])
    else match trace[0]
      case Seeding =>
        assert ActiveBefore(trace, 0);
        Finished([])
      case Raised(d) => Stopped(TorrentFailure(d), [])
      case Active(s) =>
        match Step(s, last, cb)
        case Stop(f) => Stopped(f, [])
        case Continue(l, evs) =>
          var rest := Run(trace[1..], l, cb);
          RunShift(trace, rest);
          SpacedAppend(evs, rest.events, last);
          Prepend(evs, rest)
  }

  lemma RunShift(trace: seq<Poll>, rest: RunOutcome)
    requires trace != [] && trace[0].Active?
    requires rest.Finished? ==> exists k :: ActiveBefore(trace[1..], k) && k < |trace[1..]| && trace[1..][k].Seeding?
    requires rest.Exhausted? ==> ActiveBefore(trace[1..], |trace[1..]|)
    ensures rest.Finished? ==> exists k :: ActiveBefore(trace, k) && k < |trace| && trace[k].Seeding?
    ensures rest.Exhausted? ==> ActiveBefore(trace, |trace|)
  {
    assert forall j :: 0 < j < |trace| ==> trace[j] == trace[1..][j - 1];
    if rest.Finished? {
      var k :| ActiveBefore(trace[1..], k) && k < |trace[1..]| && trace[1..][k].Seeding?;
      assert ActiveBefore(trace, k + 1);
    }
  }

  /** Spacing splits at any point, the second half continuing from the
      percentage the first half ended on. */
  lemma {:induction false} SpacedAppend(a: seq<Sample>, b: seq<Sample>, last: real)
    ensures Spaced(a + b, last) <==> Spaced(a, last) && Spaced(b, LastPercent(a, last))
    decreases |a|
  {
    if a == [] {
      assert a + b == b;
    } else {
      assert (a + b)[1..] == a[1..] + b;
      SpacedAppend(a[1..], b, if a[0].status.Torrenting? then a[0].status.percent else last);
    }
  }

  /** Polls observed after the loop has ended change nothing. */
  lemma {:induction false} RunIgnoresLaterPolls(trace: seq<Poll>, more: seq<Poll>, last: real, cb: bool)
    requires !Run(trace, last, cb).Exhausted?
    ensures Run(trace + more, last, cb) == Run(trace, last, cb)
    decreases |trace|
  {
    assert (trace + more)[0] == trace[0];
    if trace[0].Active? {
      var st := Step(trace[0].status, last, cb);
      if st.Continue? {
        assert (trace + more)[1..] == trace[1..] + more;
        RunIgnoresLaterPolls(trace[1..], more, st.last, cb);
      }
    }
  }

  /** The loop state after the first `k` polls, read left to right: the
      `last_progress` value and the samples sent so far, or `None` when one
      of those polls did not run a pass to completion. */
  function Fold(trace: seq<Poll>, last: real, cb: bool, k: nat): Option<(real, seq<Sample>)>
    requires k <= |trace|
  {
    if k == 0 then Some((last, []))
    else
      var p := Fold(trace, last, cb, k - 1);
      if p.None? || !trace[k - 1].Active? then None
      else match Step(trace[k - 1].status, p.value.0, cb)
        case Stop(_) => None
        case Continue(l, evs) => Some((l, p.value.1 + evs))
  }

  /** A fold that gets past the first poll continued from it. */
  lemma {:induction false} FoldFirst(trace: seq<Poll>, last: real, cb: bool, k: nat)
    requires 1 <= k <= |trace| && Fold(trace, last, cb, k).Some?
    ensures trace[0].Active? && Step(trace[0].status, last, cb).Continue?
  {
    if k > 1 {
      FoldFirst(trace, last, cb, k - 1);
    }
  }

  /** Folding `k` polls is the first pass followed by folding the other
      `k - 1` from where the first left off. */
  lemma {:induction false} FoldShift(trace: seq<Poll>, last: real, cb: bool, k: nat)
    requires 1 <= k <= |trace| && trace[0].Active? && Step(trace[0].status, last, cb).Continue?
    ensures var st := Step(trace[0].status, last, cb);
      var p := Fold(trace[1..], st.last, cb, k - 1);
      Fold(trace, last, cb, k) == if p.None? then None else Some((p.value.0, st.events + p.value.1))
  {
    var st := Step(trace[0].status, last, cb);
    if k == 1 {
      assert st.events + [] == [] + st.events;
    } else {
      FoldShift(trace, last, cb, k - 1);
      assert trace[k - 1] == trace[1..][k - 2];
      var p := Fold(trace[1..], st.last, cb, k - 2);
      if p.Some? && trace[k - 1].Active? {
        var q := Step(trace[k - 1].status, p.value.0, cb);
        if q.Continue? {
          assert st.events + p.value.1 + q.events == st.events + (p.value.1 + q.events);
        }
      }
    }
  }

  /** The loop's outcome is decided by the first poll that does not run a
      pass to completion: seeding finishes, a raising call fails with its
      message, and a pass that stops fails with the pass's failure; the
      samples are those the earlier passes sent. */
  lemma {:induction false} RunDecidedAt(trace: seq<Poll>, last: real, cb: bool, k: nat)
    requires k < |trace| && Fold(trace, last, cb, k).Some?
    ensures var l := Fold(trace, last, cb, k).value.0;
      var evs := Fold(trace, last, cb, k).value.1;
      && (trace[k].Seeding? ==> Run(trace, last, cb) == Finished(evs))
      && (trace[k].Raised? ==> Run(trace, last, cb) == Stopped(TorrentFailure(trace[k].detail), evs))
      && (trace[k].Active? && Step(trace[k].status, l, cb).Stop? ==>
            Run(trace, last, cb) == Stopped(Step(trace[k].status, l, cb).failure, evs))
  {
    if k > 0 {
      FoldFirst(trace, last, cb, k);
      FoldShift(trace, last, cb, k);
      var st := Step(trace[0].status, last, cb);
      assert trace[k] == trace[1..][k - 1];
      RunDecidedAt(trace[1..], st.last, cb, k - 1);
    }
  }

  /** The loop runs out of polls exactly when every poll ran a pass to
      completion, having sent the samples the fold collects. */
  lemma {:induction false} RunExhaustedIffFold(trace: seq<Poll>, last: real, cb: bool)
    ensures Run(trace, last, cb).Exhausted? <==> Fold(trace, last, cb, |trace|).Some?
    ensures Fold(trace, last, cb, |trace|).Some? ==>
      Run(trace, last, cb).events == Fold(trace, last, cb, |trace|).value.1
    decreases |trace|
  {
    if trace != [] {
      if trace[0].Active? && Step(trace[0].status, last, cb).Continue? {
        FoldShift(trace, last, cb, |trace|);
        RunExhaustedIffFold(trace[1..], Step(trace[0].status, last, cb).last, cb);
      } else if Fold(trace, last, cb, |trace|).Some? {
        FoldFirst(trace, last, cb, |trace|);
      }
    }
  }

  // ---------------------------------------------------------------------------
  // Set-up, finalisation and tear-down

  /** What `get_torrent_info()` reports once seeding, or the error reading
      it raised. */
  datatype Finale = Finale(numFiles: int, name: string, firstPath: string) | FinaleFault(detail: string)

  /** Everything outside the code that the call observes. */
  datatype TorrentEnv = TorrentEnv(
    sessionFault: Option<string>,  // creating or configuring the session raised
    fileExists: bool,              // os.path.exists(magnet_or_file)
    addFault: Option<string>,      // parsing the locator or add_torrent raised
    trace: seq<Poll>,
    finale: Finale,
    handleValid: bool)             // handle.is_valid() in the finally block

  /** The reply together with what happened to the handle. */
  datatype TorrentReply = TorrentReply(reply: Reply, handleCreated: bool, removed: bool)

  /** The path a finished download is reported under: the single file
      itself, or the torrent's directory. */
  function Finalize(dir: string, finale: Finale): (r: Result)
    ensures r.Saved? <==> finale.Finale?
    ensures finale.FinaleFault? ==> r == Failed(TorrentFailure(finale.detail))
    ensures finale.Finale? ==>
      var chosen := if finale.numFiles == 1 then finale.firstPath else finale.name;
      && EndsWith(r.path, chosen)
      && (dir != [] && !StartsWith(chosen, "/") ==> StartsWith(r.path, dir))
      && (StartsWith(chosen, "/") ==> r.path == chosen)
      && (!StartsWith(chosen, "/") ==> r.path == DirPrefix(dir) + chosen)
      && ('/' !in chosen && chosen != [] ==> DirectChild(r.path, dir))
    ensures finale.Finale? && '/' !in finale.firstPath && finale.numFiles == 1 ==> Basename(r.path) == finale.firstPath
    ensures finale.Finale? && '/' !in finale.name && finale.numFiles != 1 ==> Basename(r.path) == finale.name
  {
    match finale
    case FinaleFault(d) => Failed(TorrentFailure(d))
    case Finale(n, name, first) =>
      var chosen := if n == 1 then first else name;
      Saved(Join(dir, chosen))
  }

  /** `download_torrent(magnet_or_file, progress_callback)` saving under `dir`. */
  function DownloadTorrent(locator: string, cb: bool, dir: string, env: TorrentEnv): (r: TorrentReply)
    ensures r.reply.result.Failed? ==>
      LoopFailure(r.reply.result.failure) || r.reply.result.failure == TorrentFileMissing
    ensures r.handleCreated <==> (env.sessionFault.None? &&
      (StartsWith(locator, "magnet:") || env.fileExists) && env.addFault.None?)
    ensures r.reply.result == Failed(TorrentFileMissing) <==> (env.sessionFault.None? &&
      !StartsWith(locator, "magnet:") && !env.fileExists)
    ensures r.reply.result == StillPolling <==> r.handleCreated && Run(env.trace, NoProgressYet, cb).Exhausted?
    ensures r.removed <==> r.handleCreated && env.handleValid && r.reply.result != StillPolling
    ensures r.reply.result.Saved? ==>
      r.handleCreated && Run(env.trace, NoProgressYet, cb).Finished? && r.reply.result == Finalize(dir, env.finale)
    ensures r.handleCreated && Run(env.trace, NoProgressYet, cb).Stopped? ==>
      r.reply.result == Failed(Run(env.trace, NoProgressYet, cb).failure)
    ensures r.handleCreated && Run(env.trace, NoProgressYet, cb).Finished? ==>
      r.reply.result == Finalize(dir, env.finale)
    ensures r.handleCreated ==> r.reply.events == Run(env.trace, NoProgressYet, cb).events
    ensures !r.handleCreated ==> r.reply.events == [] && !r.removed
    ensures env.sessionFault.Some? ==> r.reply.result == Failed(TorrentFailure(env.sessionFault.value))
    ensures env.sessionFault.None? && (StartsWith(locator, "magnet:") || env.fileExists) && env.addFault.Some? ==>
      r.reply.result == Failed(TorrentFailure(env.addFault.value))
    ensures Spaced(r.reply.events, NoProgressYet)
    ensures !cb ==> r.reply.events == []
  {
    if env.sessionFault.Some? then
      TorrentReply(Reply(Failed(TorrentFailure(env.sessionFault.value)), []), false, false)
    else if !StartsWith(locator, "magnet:") && !env.fileExists then
      TorrentReply(Reply(Failed(TorrentFileMissing), []), false, false)
    else if env.addFault.Some? then
      TorrentReply(Reply(Failed(TorrentFailure(env.addFault.value)), []), false, false)
    else
      var run := Run(env.trace, NoProgressYet, cb);
      var result :=
        match run
        case Exhausted(_) => StillPolling
        case Stopped(f, _) => Failed(f)
        case Finished(_) => Finalize(dir, env.finale);
      TorrentReply(Reply(result, run.events), true, result != StillPolling && env.handleValid)
  }

  /** A trace that starts seeding finishes at once with no samples, and the
      handle is released. */
  lemma AlreadySeeding(locator: string, cb: bool, dir: string, env: TorrentEnv, n: int, name: string, first: string)
    requires env.sessionFault.None? && env.addFault.None? && StartsWith(locator, "magnet:")
    requires |env.trace| > 0 && env.trace[0] == Seeding && env.finale == Finale(n, name, first) && env.handleValid
    ensures DownloadTorrent(locator, cb, dir, env) ==
      TorrentReply(Reply(Saved(if n == 1 then Join(dir, first) else Join(dir, name)), []), true, true)
  {
  }
}
