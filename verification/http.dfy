/** `Downloader.download_file`: the status and size gate, the choice of a
    local file name, and the throttled progress reports over the stream of
    chunks. The server's answer is a parameter: its status, headers and the
    chunks it delivers, each with the clock reading taken after it arrived. */
module Http {
  import opened PyStr
  import opened Filenames
  import opened Outcomes

  /** The failures a plain HTTP download can end with. */
  predicate HttpFailure(f: Failure) {
    f.HttpStatus? || f.HttpTooLarge? || f.HttpTimeout? || f.Network? || f.Unexpected?
  }

  /** How a request or a read can fail. */
  datatype Fault =
    | Timeout                   // asyncio.TimeoutError
    | ClientFault(detail: string) // aiohttp.ClientError
    | OtherFault(detail: string)  // any other exception

  /** The error each kind of exception is reported as. */
  function FaultFailure(f: Fault): (r: Failure)
    ensures HttpFailure(r)
  {
    match f
    case Timeout => HttpTimeout
    case ClientFault(d) => Network(d)
    case OtherFault(d) => Unexpected(d)
  }

  /** The `content-length` header: missing, an integer, or text `int()`
      rejects (with the ValueError's message). */
  datatype ContentLength = Absent | Declared(value: int) | Malformed(detail: string)

  /** One chunk of the body and the `time.time()` reading after writing it. */
  datatype Chunk = Chunk(size: nat, at: real)

  /** What the network and the file system do during one call. */
  datatype Exchange =
    | Unreachable(fault: Fault)
    | Answered(
        status: int,
        length: ContentLength,
        disposition: string,        // content-disposition, "" when missing
        openFault: Option<string>,  // open(filepath, 'wb') raising
        chunks: seq<Chunk>,
        streamFault: Option<Fault>) // the body read failing after `chunks`

  /** The call's inputs that are not per-request: the download directory,
      the MD5 hex digest, and the clock reading taken as `start_time`. */
  datatype Context = Context(dir: string, digest: string -> string, start: real)

  /** The message of the ZeroDivisionError the speed computation raises when
      the clock has not moved since `start_time`. */
  const ZeroDivision: string := "float division by zero"

  // ---------------------------------------------------------------------------
  // The gate

  /** The declared size, with a missing header counting as 0. */
  function DeclaredSize(l: ContentLength): int
    requires !l.Malformed?
  {
    if l.Absent? then 0 else l.value
  }

  /** The checks made before any file is opened: status 200 or 206, a
      parsable length, and a declared size within the limit. */
  function Gate(status: int, length: ContentLength): (r: Option<Failure>)
    ensures r == Some(HttpStatus(status)) <==> status != 200 && status != 206
    ensures r == Some(HttpTooLarge) <==>
      (status == 200 || status == 206) && length.Declared? && length.value > MaxFileSize
    ensures r == None <==> ((status == 200 || status == 206) &&
      (length.Absent? || (length.Declared? && length.value <= MaxFileSize)))
    ensures (status == 200 || status == 206) && length.Malformed? ==> r == Some(Unexpected(length.detail))
    ensures r.Some? ==> HttpFailure(r.value)
  {
    if status != 200 && status != 206 then Some(HttpStatus(status))
    else if length.Malformed? then Some(Unexpected(length.detail))
    else if DeclaredSize(length) > MaxFileSize then Some(HttpTooLarge)
    else None
  }

  // ---------------------------------------------------------------------------
  // The file name

  /** `url` split around its leaf `r`: `u` is empty or ends in the last `/`,
      and `v` is empty or the query from the first `?` on. */
  predicate LeafSplit(url: string, r: string, u: string, v: string) {
    url == u + r + v && (u == [] || u[|u| - 1] == '/') && '/' !in v && (v == [] || v[0] == '?')
  }

  /** `url.split('/')[-1].split('?')[0]`: the last path segment without its
      query. */
  function UrlLeaf(url: string): (r: string)
    ensures '/' !in r && !Contains(r, "?")
    ensures exists u, v :: LeafSplit(url, r, u, v)
  {
    var leaf := AfterLast(url, '/');
    var r := BeforeFirst(leaf, "?");
    QueryStart(leaf, r);
    LeafSplitOf(url, leaf, r);
    r
  }

  /** What follows the text before the first `?` is that `?`, if anything. */
  lemma QueryStart(leaf: string, r: string)
    requires r == BeforeFirst(leaf, "?")
    ensures StartsWith(leaf, r) && (|r| == |leaf| || leaf[|r|] == '?')
  {
    if |r| < |leaf| {
      assert Contains(leaf, "?");
      assert leaf[|r|..|r| + 1] == "?";
    }
  }

  lemma LeafSplitOf(url: string, leaf: string, r: string)
    requires EndsWith(url, leaf) && '/' !in leaf && (|leaf| == |url| || url[|url| - |leaf| - 1] == '/')
    requires StartsWith(leaf, r) && (|r| == |leaf| || leaf[|r|] == '?')
    ensures exists u, v :: LeafSplit(url, r, u, v)
  {
    var p := |url| - |leaf|;
    var q := p + |r|;
    assert r == url[p..q];
    var u, v := url[..p], url[q..];
    assert forall k :: 0 <= k < |v| ==> v[k] == leaf[|r| + k];
    ThreeParts(url, p, q);
    assert LeafSplit(url, r, u, v);
  }

  lemma ThreeParts(s: string, p: int, q: int)
    requires 0 <= p <= q <= |s|
    ensures s == s[..p] + s[p..q] + s[q..]
  {
  }

  /** The quote characters stripped from a content-disposition file name. */
  const Quotes: set<char> := {'"', '\''}

  /** The marker that introduces the file name in content-disposition. */
  const FilenameKey: string := "filename="

  /** `t` opens with `a` quotes, then `r`, then `b` quotes, and then either
      ends or holds the next `filename=`, which is its first. */
  predicate QuotedName(t: string, r: string, a: int, b: int) {
    && 0 <= a && 0 <= b && a + |r| + b <= |t|
    && (forall k :: 0 <= k < a ==> t[k] in Quotes)
    && t[a..a + |r|] == r
    && (forall k :: a + |r| <= k < a + |r| + b ==> t[k] in Quotes)
    && !Contains(t[..a + |r| + b], FilenameKey)
    && (a + |r| + b == |t| || Occurs(t, FilenameKey, a + |r| + b))
  }

  /** `r` is framed by quotes right after the first `filename=` of `d`,
      which sits at `i`. */
  predicate NamedAfterKey(d: string, r: string, i: int, a: int, b: int) {
    FirstOccurrence(d, FilenameKey, i) && QuotedName(d[i + |FilenameKey|..], r, a, b)
  }

  /** `content_disp.split('filename=')[1].strip('"\'')`: the text after the
      first `filename=` up to any second one, without surrounding quotes. */
  function DispositionName(disposition: string): (r: string)
    requires Contains(disposition, FilenameKey)
    ensures exists i, a, b :: NamedAfterKey(disposition, r, i, a, b)
    ensures !Contains(r, FilenameKey)
    ensures r == [] || (r[0] !in Quotes && r[|r| - 1] !in Quotes)
  {
    var field := SecondField(disposition, FilenameKey);
    StrippedField(disposition, field);
    StrippedEnds(field);
    Strip(field, Quotes)
  }

  /** Stripping quotes from the field after the first `filename=` leaves a
      name framed by quotes in the text after that marker. */
  lemma StrippedField(s: string, field: string)
    requires exists i :: FirstOccurrence(s, FilenameKey, i) && UpToNext(s[i + |FilenameKey|..], FilenameKey, field)
    ensures exists i, a, b :: NamedAfterKey(s, Strip(field, Quotes), i, a, b)
    ensures !Contains(field, FilenameKey)
  {
    var i :| FirstOccurrence(s, FilenameKey, i) && UpToNext(s[i + |FilenameKey|..], FilenameKey, field);
    var t := s[i + |FilenameKey|..];
    var r := Strip(field, Quotes);
    var a := LeadCount(field, Quotes);
    var b := |field| - a - |r|;
    QuotedFromField(t, field, r, a, b);
    assert NamedAfterKey(s, r, i, a, b);
  }

  /** A quote-stripped prefix of `t` that runs up to the next `filename=`
      frames its name with the quotes stripped. */
  lemma QuotedFromField(t: string, field: string, r: string, a: nat, b: nat)
    requires UpToNext(t, FilenameKey, field)
    requires a + |r| + b == |field| && r == field[a..a + |r|]
    requires forall k :: 0 <= k < a ==> field[k] in Quotes
    requires forall k :: a + |r| <= k < |field| ==> field[k] in Quotes
    ensures QuotedName(t, r, a, b)
  {
    assert t[..a + |r| + b] == field;
    assert forall k :: 0 <= k < |field| ==> t[k] == field[k];
  }

  /** A field without `filename=` keeps none once stripped, and loses its
      outer quotes. */
  lemma StrippedEnds(field: string)
    requires !Contains(field, FilenameKey)
    ensures !Contains(Strip(field, Quotes), FilenameKey)
    ensures var r := Strip(field, Quotes); r == [] || (r[0] !in Quotes && r[|r| - 1] !in Quotes)
  {
    StripInfixNoSub(field, Quotes, FilenameKey);
  }

  /** The name used when the URL's last segment is empty. */
  const DefaultName: string := "downloaded_file"

  lemma DefaultNameShape()
    ensures DefaultName != [] && '/' !in DefaultName && !Contains(DefaultName, "?")
  {
    assert forall k :: 0 <= k < |DefaultName| ==> DefaultName[k] != '/' && DefaultName[k] != '?';
    NoCharNoSub(DefaultName, '?');
  }

  /** The name taken from the URL, or `downloaded_file` when the last
      segment is empty. */
  function UrlName(url: string): (r: string)
    ensures r != [] && '/' !in r && !Contains(r, "?")
    ensures UrlLeaf(url) != [] ==> r == UrlLeaf(url)
    ensures UrlLeaf(url) == [] ==> r == DefaultName
  {
    var leaf := UrlLeaf(url);
    if leaf == [] then
      DefaultNameShape();
      DefaultName
    else leaf
  }

  /** The name before sanitising: the caller's, else the one after
      `filename=` in content-disposition with quotes stripped, else the last
      URL segment, else `downloaded_file`. */
  function ChooseName(url: string, filename: string, disposition: string): (r: string)
    ensures filename != [] ==> r == filename
    ensures filename == [] && Contains(disposition, FilenameKey) ==> r == DispositionName(disposition)
    ensures filename == [] && !Contains(disposition, FilenameKey) ==> r == UrlName(url)
  {
    if filename != [] then filename
    else if Contains(disposition, FilenameKey) then DispositionName(disposition)
    else UrlName(url)
  }

  lemma NoCharNoSub(s: string, c: char)
    requires c !in s
    ensures !Contains(s, [c])
  {
    assert forall j :: 0 <= j <= |s| && Occurs(s, [c], j) ==> s[j] == c;
  }

  /** Stripping cannot create an occurrence of `sub`. */
  lemma StripInfixNoSub(s: string, cs: set<char>, sub: string)
    requires !Contains(s, sub)
    ensures !Contains(Strip(s, cs), sub)
  {
    var r := Strip(s, cs);
    var a := LeadCount(s, cs);
    forall j | 0 <= j <= |r| && Occurs(r, sub, j) ensures false {
      assert r[j..j + |sub|] == s[a + j..a + j + |sub|];
      assert Occurs(s, sub, a + j);
    }
  }

  /** The file name the download is saved under. */
  function LocalName(url: string, filename: string, disposition: string, digest: string -> string): (r: string)
    requires IsHexDigest(digest)
    ensures IsPlainName(r)
  {
    var clean := Sanitize(ChooseName(url, filename, disposition));
    TruncateKeepsPlain(clean, DefaultMaxLength, digest);
    TruncateFilename(clean, DefaultMaxLength, digest)
  }

  // ---------------------------------------------------------------------------
  // Progress over the chunk stream: a reference definition by position

  /** Bytes received in the first `k` chunks. */
  function Received(chunks: seq<Chunk>, k: nat): nat
    requires k <= |chunks|
  {
    if k == 0 then 0 else Received(chunks, k - 1) + chunks[k - 1].size
  }

  /** `last_update` after the first `k` chunks with a callback present:
      0 at the start, and the clock reading of every chunk that fired. */
  function LastUpdate(chunks: seq<Chunk>, k: nat): real
    requires k <= |chunks|
    decreases k, 0
  {
    if k == 0 then 0.0
    else if Fires(chunks, k - 1) then chunks[k - 1].at
    else LastUpdate(chunks, k - 1)
  }

  /** Chunk `k` triggers a report: at least a second has passed since the
      last one. */
  predicate Fires(chunks: seq<Chunk>, k: nat)
    requires k < |chunks|
    decreases k, 1
  {
    chunks[k].at - LastUpdate(chunks, k) >= 1.0
  }

  /** The reports made for the first `k` chunks. */
  function Emitted(chunks: seq<Chunk>, k: nat, total: int): seq<Sample>
    requires k <= |chunks|
  {
    if k == 0 then []
    else if Fires(chunks, k - 1) then Emitted(chunks, k - 1, total) + [Sample(Received(chunks, k), total, Downloading)]
    else Emitted(chunks, k - 1, total)
  }

  /** The first chunk from `k` on that fires with the clock still at
      `start_time`, where the speed computation divides by zero; -1 if none. */
  function CrashPoint(chunks: seq<Chunk>, start: real, k: nat): (c: int)
    requires k <= |chunks|
    ensures c == -1 || k <= c < |chunks|
    decreases |chunks| - k
  {
    if k == |chunks| then -1
    else if Fires(chunks, k) && chunks[k].at - start == 0.0 then k
    else CrashPoint(chunks, start, k + 1)
  }

  // ---------------------------------------------------------------------------
  // The chunk loop itself

  /** The loop variables `downloaded` and `last_update`, and the reports so far. */
  datatype Progress = Progress(written: nat, last: real, events: seq<Sample>)

  /** How the loop ends: bytes written, reports made, and whether the speed
      computation raised. */
  datatype Transfer = Transfer(written: nat, events: seq<Sample>, crashed: bool)

  /** The `async for chunk in ...` loop from chunk `i` on. */
  function Pump(chunks: seq<Chunk>, i: nat, st: Progress, start: real, total: int, cb: bool): Transfer
    requires i <= |chunks|
    decreases |chunks| - i
  {
    if i == |chunks| then Transfer(st.written, st.events, false)
    else
      var w := st.written + chunks[i].size;
      if cb && chunks[i].at - st.last >= 1.0 then
        if chunks[i].at - start == 0.0 then Transfer(w, st.events, true)
        else Pump(chunks, i + 1, Progress(w, chunks[i].at, st.events + [Sample(w, total, Downloading)]), start, total, cb)
      else Pump(chunks, i + 1, Progress(w, st.last, st.events), start, total, cb)
  }

  /** What the loop should produce according to the reference definition. */
  function Expected(chunks: seq<Chunk>, start: real, total: int, cb: bool): Transfer {
    if !cb then Transfer(Received(chunks, |chunks|), [], false)
    else
      var c := CrashPoint(chunks, start, 0);
      if c < 0 then Transfer(Received(chunks, |chunks|), Emitted(chunks, |chunks|, total), false)
      else Transfer(Received(chunks, c + 1), Emitted(chunks, c, total), true)
  }

  lemma {:induction false} PumpFrom(chunks: seq<Chunk>, i: nat, start: real, total: int)
    requires i <= |chunks|
    requires forall k :: 0 <= k < i ==> !(Fires(chunks, k) && chunks[k].at - start == 0.0)
    ensures var t := Pump(chunks, i, Progress(Received(chunks, i), LastUpdate(chunks, i), Emitted(chunks, i, total)), start, total, true);
      var c := CrashPoint(chunks, start, i);
      && (c < 0 ==> t == Transfer(Received(chunks, |chunks|), Emitted(chunks, |chunks|, total), false))
      && (c >= 0 ==> t == Transfer(Received(chunks, c + 1), Emitted(chunks, c, total), true))
    decreases |chunks| - i
  {
    if i < |chunks| {
      var st := Progress(Received(chunks, i), LastUpdate(chunks, i), Emitted(chunks, i, total));
      var next := Progress(Received(chunks, i + 1), LastUpdate(chunks, i + 1), Emitted(chunks, i + 1, total));
      if Fires(chunks, i) && chunks[i].at - start == 0.0 {
        assert CrashPoint(chunks, start, i) == i;
      } else {
        assert CrashPoint(chunks, start, i) == CrashPoint(chunks, start, i + 1);
        assert Pump(chunks, i, st, start, total, true) == Pump(chunks, i + 1, next, start, total, true);
        PumpFrom(chunks, i + 1, start, total);
      }
    }
  }

  lemma {:induction false} PumpSilent(chunks: seq<Chunk>, i: nat, w: nat, last: real, start: real, total: int)
    requires i <= |chunks| && w == Received(chunks, i)
    ensures Pump(chunks, i, Progress(w, last, []), start, total, false) == Transfer(Received(chunks, |chunks|), [], false)
    decreases |chunks| - i
  {
    if i < |chunks| {
      PumpSilent(chunks, i + 1, w + chunks[i].size, last, start, total);
    }
  }

  /** The loop computes the reference: every byte is counted, a report goes
      out exactly for the chunks that fire, and the first firing chunk read
      at `start_time` ends the loop with a ZeroDivisionError. */
  lemma PumpIsExpected(chunks: seq<Chunk>, start: real, total: int, cb: bool)
    ensures Pump(chunks, 0, Progress(0, 0.0, []), start, total, cb) == Expected(chunks, start, total, cb)
  {
    if cb {
      PumpFrom(chunks, 0, start, total);
    } else {
      PumpSilent(chunks, 0, 0, 0.0, start, total);
    }
  }

  // ---------------------------------------------------------------------------
  // What the reference says about the reports

  /** The last chunk before `k` that fired, or -1. */
  function LastFired(chunks: seq<Chunk>, k: nat): (j: int)
    requires k <= |chunks|
    ensures -1 <= j < k
    ensures j >= 0 ==> Fires(chunks, j)
    ensures forall m :: j < m < k ==> !Fires(chunks, m)
  {
    if k == 0 then -1
    else if Fires(chunks, k - 1) then k - 1
    else LastFired(chunks, k - 1)
  }

  /** `last_update` is the clock reading of the last report, or 0 before
      the first one. */
  lemma {:induction false} LastUpdateIsLastReport(chunks: seq<Chunk>, k: nat)
    requires k <= |chunks|
    ensures LastUpdate(chunks, k) == (if LastFired(chunks, k) < 0 then 0.0 else chunks[LastFired(chunks, k)].at)
  {
    if k > 0 && !Fires(chunks, k - 1) {
      LastUpdateIsLastReport(chunks, k - 1);
    }
  }

  /** Reports are at least a second apart, and a chunk that does not report
      arrived less than a second after the previous report. */
  lemma Throttle(chunks: seq<Chunk>, k: nat)
    requires k < |chunks| && LastFired(chunks, k) >= 0
    ensures Fires(chunks, k) <==> chunks[k].at - chunks[LastFired(chunks, k)].at >= 1.0
  {
    LastUpdateIsLastReport(chunks, k);
  }

  /** Before any report, a chunk reports as soon as the clock reads at
      least 1; with real clock readings (seconds since the epoch) this is
      the first chunk. */
  lemma FirstReport(chunks: seq<Chunk>, k: nat)
    requires k < |chunks| && LastFired(chunks, k) < 0
    ensures Fires(chunks, k) <==> chunks[k].at >= 1.0
  {
    LastUpdateIsLastReport(chunks, k);
  }

  lemma {:induction false} ReceivedGrows(chunks: seq<Chunk>, j: nat, k: nat)
    requires j <= k <= |chunks|
    ensures Received(chunks, j) <= Received(chunks, k)
    decreases k - j
  {
    if j < k {
      ReceivedGrows(chunks, j, k - 1);
    }
  }

  /** The reported byte counts never go down and never exceed what arrived. */
  lemma {:induction false} EmittedMonotone(chunks: seq<Chunk>, k: nat, total: int)
    requires k <= |chunks|
    ensures Monotone(Emitted(chunks, k, total))
    ensures forall e :: e in Emitted(chunks, k, total) ==> e.done <= Received(chunks, k) && e.total == total
  {
    if k > 0 {
      EmittedMonotone(chunks, k - 1, total);
      ReceivedGrows(chunks, k - 1, k);
      var prev := Emitted(chunks, k - 1, total);
      var es := Emitted(chunks, k, total);
      if Fires(chunks, k - 1) {
        assert es == prev + [Sample(Received(chunks, k), total, Downloading)];
        forall i, j | 0 <= i < j < |es| ensures es[i].done <= es[j].done {
          if j < |prev| {
            assert es[i] == prev[i] && es[j] == prev[j];
          } else {
            assert es[i] in prev;
          }
        }
      } else {
        assert es == prev;
      }
    }
  }

  // ---------------------------------------------------------------------------
  // download_file

  /** After the gate: open the file, stream the chunks, and report. */
  function Stream(path: string, chunks: seq<Chunk>, streamFault: Option<Fault>, start: real, total: int, cb: bool): (r: Reply)
    ensures !r.result.StillPolling? && (r.result.Failed? ==> HttpFailure(r.result.failure))
    ensures r.result.Saved? ==> r.result.path == path
    ensures cb && CrashPoint(chunks, start, 0) >= 0 ==> r.result == Failed(Unexpected(ZeroDivision))
    ensures (!cb || CrashPoint(chunks, start, 0) < 0) && streamFault.Some? ==>
      r.result == Failed(FaultFailure(streamFault.value))
    ensures (!cb || CrashPoint(chunks, start, 0) < 0) && streamFault.None? ==> r.result == Saved(path)
    ensures r.events == Expected(chunks, start, total, cb).events
    ensures !cb ==> r.events == []
    ensures Monotone(r.events)
  {
    var t := Pump(chunks, 0, Progress(0, 0.0, []), start, total, cb);
    PumpIsExpected(chunks, start, total, cb);
    EmittedMonotone(chunks, |chunks|, total);
    if t.crashed then
      EmittedMonotone(chunks, CrashPoint(chunks, start, 0), total);
      Reply(Failed(Unexpected(ZeroDivision)), t.events)
    else if streamFault.Some? then Reply(Failed(FaultFailure(streamFault.value)), t.events)
    else Reply(Saved(path), t.events)
  }

  /** `download_file(url, filename, progress_callback)`; an empty `filename`
      stands for None, and `cb` says whether a callback was passed. */
  function DownloadFile(url: string, filename: string, cb: bool, ctx: Context, ex: Exchange): (r: Reply)
    requires IsHexDigest(ctx.digest)
    ensures !r.result.StillPolling? && (r.result.Failed? ==> HttpFailure(r.result.failure))
    ensures ex.Answered? && ex.status != 200 && ex.status != 206 ==>
      r == Reply(Failed(HttpStatus(ex.status)), [])
    ensures ex.Answered? && Gate(ex.status, ex.length) == Some(HttpTooLarge) ==>
      r == Reply(Failed(HttpTooLarge), [])
    ensures ex.Answered? && Gate(ex.status, ex.length).Some? ==> r == Reply(Failed(Gate(ex.status, ex.length).value), [])
    ensures ex.Unreachable? ==> r == Reply(Failed(FaultFailure(ex.fault)), [])
    ensures ex.Answered? && Gate(ex.status, ex.length).None? && ex.openFault.Some? ==>
      r == Reply(Failed(Unexpected(ex.openFault.value)), [])
    ensures r.result.Saved? ==>
      && ex.Answered? && Gate(ex.status, ex.length).None?
      && r.result.path == Join(ctx.dir, LocalName(url, filename, ex.disposition, ctx.digest))
    ensures ex.Answered? && Gate(ex.status, ex.length).None? && ex.openFault.None? ==>
      var crashed := cb && CrashPoint(ex.chunks, ctx.start, 0) >= 0;
      && r.events == Expected(ex.chunks, ctx.start, DeclaredSize(ex.length), cb).events
      && (crashed ==> r.result == Failed(Unexpected(ZeroDivision)))
      && (!crashed && ex.streamFault.Some? ==> r.result == Failed(FaultFailure(ex.streamFault.value)))
      && (!crashed && ex.streamFault.None? ==>
            r.result == Saved(Join(ctx.dir, LocalName(url, filename, ex.disposition, ctx.digest))))
    ensures !cb ==> r.events == []
    ensures Monotone(r.events)
  {
    match ex
    case Unreachable(f) => Reply(Failed(FaultFailure(f)), [])
    case Answered(status, length, disposition, openFault, chunks, streamFault) =>
      var gate := Gate(status, length);
      if gate.Some? then Reply(Failed(gate.value), [])
      else if openFault.Some? then Reply(Failed(Unexpected(openFault.value)), [])
      else
        var path := Join(ctx.dir, LocalName(url, filename, disposition, ctx.digest));
        Stream(path, chunks, streamFault, ctx.start, DeclaredSize(length), cb)
  }

  /** A saved file always lands directly inside the download directory,
      whatever the URL, header or caller-supplied name. */
  lemma SavedInsideDir(url: string, filename: string, cb: bool, ctx: Context, ex: Exchange)
    requires IsHexDigest(ctx.digest)
    ensures var r := DownloadFile(url, filename, cb, ctx, ex);
      r.result.Saved? ==>
        && IsPlainName(Basename(r.result.path))
        && (ctx.dir != [] ==> StartsWith(r.result.path, ctx.dir))
        && DirectChild(r.result.path, ctx.dir)
        && r.result.path == DirPrefix(ctx.dir) + Basename(r.result.path)
  {
    var r := DownloadFile(url, filename, cb, ctx, ex);
    if r.result.Saved? {
      JoinPlainChild(ctx.dir, LocalName(url, filename, ex.disposition, ctx.digest));
    }
  }

  /** Nothing inside the chunk loop checks the size: without a
      content-length header, a body larger than the limit is saved. */
  lemma NoSizeCheckWhileStreaming(url: string, filename: string, ctx: Context)
    requires IsHexDigest(ctx.digest)
    ensures var ex := Answered(200, Absent, "", None, [Chunk(MaxFileSize + 1, ctx.start + 2.0)], None);
      DownloadFile(url, filename, true, ctx, ex).result.Saved?
  {
    var chunks := [Chunk(MaxFileSize + 1, ctx.start + 2.0)];
    assert Fires(chunks, 0) <==> ctx.start + 2.0 >= 1.0;
    assert CrashPoint(chunks, ctx.start, 1) == -1;
    assert CrashPoint(chunks, ctx.start, 0) == -1;
    PumpIsExpected(chunks, ctx.start, 0, true);
  }
}
