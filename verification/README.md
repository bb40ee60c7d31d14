# Url-uploader download engine, modelled in Dafny

Url-uploader is a chat bot that fetches a file from a link and uploads it
again. Its download engine (`Downloader` in downloader.py, plus the string
helpers in helpers.py) takes a locator and routes it to one of three
strategies:

- a magnet link or `.torrent` file goes to the torrent engine;
- a link that mentions one of fifteen video hosts goes to the media extractor;
- anything else is fetched over plain HTTP.

Each strategy returns a path or an error text, and reports progress to an
optional callback.

This project models the decision logic of that engine as pure Dafny
functions. The network, the file system, the torrent engine, the media
extractor, the clock and MD5 all become parameters. The modules follow the
program's structure:

| module | file | models |
|---|---|---|
| `PyStr` | pystr.dfy | the Python `str` operations the code uses: `startswith`, `in`, `strip`, `lower` (ASCII), `rfind`, `split`, `replace` of doubled characters, negative slices, `str` of a non-negative integer |
| `Filenames` | filenames.dfy | `sanitize_filename`, `split_filename_ext`, `get_file_extension`, `truncate_filename`, POSIX `os.path.splitext`/`join` |
| `Formatting` | formatting.dfy | `format_time`, `format_duration`, `truncate_text`, `create_progress_bar` on integers; the two time formatters come with readers that take the text back to its fields and seconds |
| `Locator` | locator.dfy | `is_url`, `is_magnet` and the routing order of `Downloader.download` |
| `Outcomes` | outcomes.dfy | the `(path, error)` pair, every error the engine reports, progress samples |
| `Http` | http.dfy | `download_file`: the status and size gate, the file-name priority, the throttled chunk loop |
| `Media` | media.dfy | `download_ytdlp`: TikTok-first ordering and the search for the file the extractor wrote |
| `Torrent` | torrent.dfy | `download_torrent`: the polling loop as a step function folded over observed polls, finalisation and handle removal |
| `Dispatcher` | dispatcher.dfy | `Downloader.download` end to end |

Behaviour of the code that is easy to miss, and that the model keeps:

- **The dispatcher does no extra work.** `Downloader.download` neither checks the size again after a strategy succeeds nor renames the result to the caller's file name. The caller's name only reaches `download_file`, which uses it before downloading (`Dispatcher.FilenameOnlyForHttp`).
- **Zero elapsed time crashes the speed computation.** `download_file` divides by `current_time - start_time` whenever a report is due. A chunk that fires with the clock still at `start_time` raises ZeroDivisionError, which surfaces as "Download error: float division by zero" (`Http.CrashPoint`, `Http.PumpIsExpected`, `Http.Stream`).
- **The torrent handle is removed only when it is still valid.** `download_torrent` calls `remove_torrent` in its `finally` block only when a handle was created and `is_valid()` holds (`Torrent.DownloadTorrent`).
- **Nothing inside the HTTP chunk loop checks the size.** Without a `content-length` header, any amount is written (`Http.NoSizeCheckWhileStreaming`).

## Model

| member | source | states |
|---|---|---|
| Locator.MagnetIsNotUrl | helpers.py:148-165 | a text `is_magnet` accepts is never accepted by `is_url`: the normalised text starts with `m` and no URL prefix does |
| Locator.CaseInsensitive | helpers.py:148-165 | `is_url` and `is_magnet` give the same answer for a text and its lower-cased form |
| Locator.Classify | downloader.py:426-447 | exactly one route is chosen: empty input has no route; a locator starting with `magnet:` or ending in `.torrent` (case-sensitive) goes to torrent; otherwise a case-insensitive match of one of the 15 hosts goes to media; everything else goes to HTTP, each as an if-and-only-if |
| Locator.TorrentBeforeMedia | downloader.py:432-445 | a magnet link that mentions a video host still goes to the torrent engine |
| Locator.DropboxIsMedia | downloader.py:435-445 | host matching is by substring, so any non-torrent locator mentioning `dropbox.com` contains `x.com` and goes to the media extractor |
| Locator.MagnetRoutesToTorrent | downloader.py:432-433 | a lower-case `magnet:?` link is a magnet per `is_magnet` and is routed to the torrent engine |
| PyStr.CollapseLoopIsSquash | helpers.py:183-186 | the `while c+c in s: s = s.replace(c+c, c)` loop yields the reference squash, in which every run of `c` keeps one `c` |
| Filenames.ReplaceLoopIsMap | helpers.py:172-177 | replacing each invalid character in turn is a position-wise map that turns exactly the characters `<>:"/\|?*` and NUL into `_` |
| Filenames.DropControl | helpers.py:179-180 | the result has no character with code 31 or below, keeps valid input unchanged, and keeps validity |
| Filenames.DropControlAppend | helpers.py:179-180 | dropping works character by character: it distributes over concatenation, and a single character is kept exactly when its code is above 31, so the kept characters stay in order |
| Filenames.CollapseRunsFacts | helpers.py:182-186 | after both collapse loops, the text has neither a doubled space nor a doubled underscore, and every character is still valid |
| Filenames.CleanIsCleanForm | helpers.py:172-189 | cleaning always gives valid characters, no doubled space or underscore, and no `.`, space or `_` at either end |
| Filenames.CleanFixpoint | helpers.py:172-189 | a name already in that clean form passes through cleaning unchanged |
| Filenames.Sanitize | helpers.py:167-201 | the result is never empty, never `.` or `..`, and holds no invalid or control character and no doubled space or underscore; it is `file` for empty input or when cleaning strips everything; without a length cut it is in clean form |
| Filenames.SanitizeIdempotent | helpers.py:167-201 | sanitising a result that needed no length cut gives it back unchanged |
| Filenames.SanitizeParentPrefix | helpers.py:172-193 | a leading `../` before a clean name is removed entirely |
| Filenames.SanitizeTraversal | helpers.py:172-193 | `../../a/b` with clean components `a`, `b` becomes `a_b` (so `../../etc/passwd` becomes `etc_passwd`) |
| Filenames.SanitizeLengthBound | helpers.py:195-199 | the result is at most 255 characters whenever the extension after the last `.` is at most 254 characters, and a non-empty extension survives the cut |
| Filenames.SanitizeLongExtension | helpers.py:195-199 | an extension of 255 or more characters makes the stem slice index negative: `a.<ext>` becomes `.<ext>`, longer than 255 and starting with `.` |
| Filenames.LimitLengthSize | helpers.py:196-199 | a cut name is at least 255 characters, and exactly 255 when the extension is at most 254 |
| Filenames.LimitLengthKeepsExtension | helpers.py:196-199 | a non-empty extension is still at the end, after a `.`, once the name is cut |
| Filenames.LimitLengthValid | helpers.py:196-199 | the length cut adds no invalid character and no doubled space or underscore |
| Filenames.FinishFacts | helpers.py:191-199 | after the empty check and the length cut, the name is plain and has no doubled space or underscore; a short name is unchanged |
| Filenames.SplitFilenameExt | helpers.py:203-208 | with a `.`, `name + "." + ext` rebuilds the input and `ext` has no `.`; without one, the result is `(input, "")` |
| Filenames.GetFileExtensionAgrees | helpers.py:210-214 | `get_file_extension` is the lower-cased extension of `split_filename_ext`, and never contains `.` |
| Filenames.SplitExt | downloader.py:27 | `os.path.splitext`: stem plus extension rebuild the path, and the extension is empty or a `.` followed by no other `.` and no `/` |
| Filenames.SplitExtCharacterized | downloader.py:27 | the extension is non-empty exactly when the last path component has a `.` after some character other than `.` |
| Filenames.SplitExtHidden | downloader.py:27 | a name made of a leading `.` and no other `.` (such as `.bashrc`) has an empty extension |
| Filenames.Join | downloader.py:90 | `os.path.join(dir, name)` always ends in `name`; a relative name is preceded by exactly `dir` and one `/`, or by `dir` alone when it is empty or already ends in `/`, so a non-empty slash-free name is a direct child of `dir` and is the last component; an absolute name replaces `dir` |
| Filenames.JoinPlainChild | downloader.py:90 | a plain name joined to a directory is a direct child of it, with that name as its last component |
| Filenames.SiblingIsNotChild | downloader.py:90 | being a direct child is not a prefix test: `/downloadsX/f` is not inside `/downloads`, while `/downloads/f` is |
| Filenames.TruncateFilename | downloader.py:25-37 | a stem within `max_length - len(ext) - 10` leaves the name unchanged; otherwise the result is a prefix of the stem, `_`, eight digest characters and the extension; that prefix is `max_length - len(ext) - 19` long when this is not negative (so the result is `max_length - 10` long), and otherwise, through the negative slice, the stem minus its last `len(ext) + 19 - max_length` characters (or nothing) |
| Filenames.TruncateOverBudget | downloader.py:25-37 | when the extension leaves no room (`len(ext) > max_length - 19`), the truncated name is longer than `max_length - 10` |
| Filenames.TruncateKeepsPlain | downloader.py:25-37 | truncating a plain name gives a plain name |
| Formatting.FormatTime | helpers.py:107-123 | text under an hour ends in `s`, from an hour on in `m`; reading it back, with every number written as `str` writes it, gives `Ns`, `Nm Ns` or `Nh Nm` fields with every lower field under 60 and a non-zero leading minute or hour field, standing for the seconds shown: 0 for a negative input, all of them under an hour, whole minutes from an hour on |
| Formatting.ReadTimeShows | helpers.py:107-123 | the reader accepts a text only when it is exactly the fields it reads printed back, so empty numbers and leading zeros are rejected |
| Formatting.FormatTimeUnique | helpers.py:107-123 | `format_time(s)` is the only text whose fields are in that form and stand for the seconds shown: `0s` for 0, `5s` for 5 |
| Formatting.CanonicalTimeUnique | helpers.py:107-123 | two texts with fields in that form that stand for the same seconds have the same fields |
| Formatting.Pad2 | helpers.py:262-264 | `{n:02d}` is all digits, at least two long, exactly two below 100, with a leading zero only when two long, and reads back as `n` |
| Formatting.PaddedIsPad2 | helpers.py:262-264 | every field of that form is what `{n:02d}` prints for its value |
| Formatting.FormatDuration | helpers.py:251-264 | five characters under an hour, at least eight from an hour on; reading it back, with each field in `{n:02d}` form, gives minutes and seconds under 60 and an hour field only when it is not zero, standing for `s`, or 0 when `s <= 0` |
| Formatting.ReadClockShows | helpers.py:251-264 | the reader accepts a text only when it is exactly its fields printed back with `{n:02d}` and `:` |
| Formatting.FormatDurationUnique | helpers.py:251-264 | `format_duration(s)` is the only text whose fields are in that form and stand for the seconds: `00:05` for 5, `05:00` for 300 |
| Formatting.CanonicalClockUnique | helpers.py:251-264 | two clock texts with fields in that form that stand for the same seconds have the same fields |
| Formatting.TruncateText | helpers.py:281-289 | an empty text gives the empty string whatever the budget; a text within the budget is unchanged; a longer one ends in `...` after a prefix of the text, and is exactly `max_length` long when `max_length >= 3`; below 3 the negative slice keeps the text minus its last `3 - max_length` characters (or nothing) before the `...` |
| Formatting.TruncateTextIdempotent | helpers.py:281-289 | with a budget of at least 3, truncating a truncated text changes nothing |
| Formatting.TruncateTextSmallBudget | helpers.py:281-289 | below a budget of 3 the negative slice makes the result longer than the budget: `truncate_text("abcdef", 2)` is `abcde...` |
| Formatting.CreateProgressBar | helpers.py:291-306 | the bar has exactly `length` characters: full blocks up to the filled count, then medium shade, or light shade throughout when nothing is filled |
| Formatting.FilledBounds | helpers.py:293-298 | the filled count lies between 0 and `length`, grows with the percentage, is `length` from 100% and 0 at or below 0% |
| Formatting.ProgressBarCount | helpers.py:291-306 | the bar holds exactly the filled count of full blocks |
| Http.Gate | downloader.py:73-79 | a status other than 200/206 fails with `HTTP <status>`; a declared length above 4 GiB fails with the size error; a missing length counts as 0 and passes; each as an if-and-only-if; a length `int()` rejects fails with its ValueError message |
| Http.FaultFailure | downloader.py:110-115 | a timeout, a client error or any other exception raised during the request is reported as one of the HTTP route's own failures |
| Http.UrlLeaf | downloader.py:86 | the URL splits as `u + leaf + v` where `u` is empty or ends in the last `/`, and `v` is empty or starts at the first `?` after it; the leaf holds no `/` and no `?` |
| Http.DispositionName | downloader.py:83-84 | right after the first `filename=` come some quotes, then the name, then some quotes, then either the end or the next `filename=`; the name holds no `filename=` and has no quote at either end |
| Http.UrlName | downloader.py:86 | the name is the URL's leaf when that is non-empty and `downloaded_file` otherwise; it is never empty and holds no `/` or `?` |
| Http.ChooseName | downloader.py:81-86 | the caller's name wins; else the content-disposition name; else the URL's last segment or `downloaded_file` |
| Http.LocalName | downloader.py:81-89 | whatever the source, the saved name is plain: non-empty, not `.`/`..`, no `/` |
| Http.PumpIsExpected | downloader.py:92-106 | the chunk loop computes the reference: every byte is counted, a report goes out exactly for the chunks that fire, and the first firing chunk read at `start_time` ends the loop with a ZeroDivisionError |
| Http.LastUpdateIsLastReport | downloader.py:94-104 | `last_update` is the clock reading of the last report, or 0 before the first |
| Http.Throttle | downloader.py:102-104 | a chunk reports exactly when at least a second has passed since the previous report |
| Http.FirstReport | downloader.py:94-104 | before any report, a chunk reports exactly when the clock reads at least 1, which holds for the first chunk under a real clock |
| Http.EmittedMonotone | downloader.py:98-106 | reported byte counts never go down, never exceed what has arrived, and carry the declared total |
| Http.Stream | downloader.py:92-115 | a chunk that fires at `start_time` fails with the ZeroDivisionError; otherwise a read failure is reported by its kind and a complete body is saved at the destination path; the samples are the reference's, non-decreasing, and absent without a callback |
| Http.DownloadFile | downloader.py:48-115 | an unreachable server, a bad status, a rejected or oversize length, or a failing `open` each fail with their own error and no samples; past those, the samples are the reference's and the result is the ZeroDivisionError when a chunk fires at `start_time`, else the read failure, else the file saved at the joined local name; failures are HTTP failures only |
| Http.SavedInsideDir | downloader.py:81-90 | a saved file is a direct child of the download directory: its path is the directory, one `/` where needed, and a plain name |
| Http.NoSizeCheckWhileStreaming | downloader.py:76-108 | with no `content-length`, a body over 4 GiB is saved |
| Media.TikTokIsOneTest | downloader.py:204 | the three-host TikTok test is the same as testing for `tiktok.com` alone |
| Media.HashMatches | downloader.py:277-280 | exactly the directory entries holding the URL hash and ending in `.mp4`, `.mkv` or `.webm` are added, joined to the directory |
| Media.HashMatchesAppend | downloader.py:277-284 | matching keeps listing order: the matches of two listings in a row are the first's followed by the second's, and one entry contributes itself, joined, exactly when it matches |
| Media.FirstExisting | downloader.py:282-284 | the chosen candidate exists and no earlier one does; none is chosen only when no candidate exists |
| Media.DownloadMedia | downloader.py:191-318 | a TikTok fallback that returns a path wins; otherwise the result is the extractor's error, or else exactly the first existing candidate (reported name, then `.mp4`, `.mkv`, `.webm` stems, then hash matches), with "file not found" exactly when none exists; on TikTok with a callback the samples are "trying direct download", the fallback's samples, and "trying alternative" when the fallback did not win; otherwise there are none |
| Media.FirstExistingIsFirst | downloader.py:282-284 | whichever candidate is the first to exist is the one found |
| Media.FallbackOnlyForTikTok | downloader.py:204-217 | off TikTok, the fallback's outcome has no effect |
| Media.ReportedNameFirst | downloader.py:270-284 | when the reported name exists, it is the result |
| Torrent.AlertFailure | downloader.py:370-377 | the first fatal alert in queue order decides the error; none exactly when no alert is fatal |
| Torrent.Step | downloader.py:363-407 | a pass stops exactly on the 2-hour timeout, a fatal alert, the 3-minute metadata timeout, or an oversize torrent, in that order of priority and each with its own error; a connecting sample is `(0, 100)`; with metadata and a callback a progress sample `(total_done, total_size)` goes out exactly when the percentage moved at least a point; samples carry a total within the limit |
| Torrent.FirstProgressReported | downloader.py:360-405 | because `last_progress` starts at -1, the first pass with metadata and non-negative progress reports |
| Torrent.Run | downloader.py:363-407 | the loop finishes only at a seeding poll preceded by completed passes; all samples are spaced at least a point apart from the previous one and have the shapes above; no callback means no samples |
| Torrent.RunIgnoresLaterPolls | downloader.py:363-407 | once the loop has ended, polls observed afterwards change nothing |
| Torrent.RunDecidedAt | downloader.py:363-407 | the first poll that does not complete a pass decides the loop: seeding finishes, a raising library call fails with "Torrent error" and its message, a stopping pass fails with that pass's error; the samples are those the earlier passes sent, computed by a left-to-right fold |
| Torrent.RunExhaustedIffFold | downloader.py:363-407 | the observed polls run out without an ending exactly when every pass completes, with the samples the fold collects |
| Torrent.Finalize | downloader.py:409-418 | a single-file torrent resolves to its file, a multi-file one to its named directory: the path is the torrent directory, one `/` where needed, and that name, so a slash-free name is a direct child (an absolute name stands alone); an error reading the torrent info fails with "Torrent error" |
| Torrent.DownloadTorrent | downloader.py:320-424 | a session or add failure is a "Torrent error" and a missing `.torrent` file fails, all before any handle exists; the handle exists exactly when set-up succeeded; a loop that stops gives its error, one that reaches seeding gives the finalised path, with the loop's samples; the handle is removed exactly when it exists, is valid and the call has ended |
| Torrent.AlreadySeeding | downloader.py:363-418 | a torrent that is already seeding finishes at once, with no samples, and its handle is removed |
| Dispatcher.Download | downloader.py:426-447 | "No URL or file provided" exactly for the empty locator; otherwise the reply is the chosen route's own reply, so every failure belongs to that route; only a torrent can still be polling; no callback means no samples |
| Dispatcher.FailureNamesRoute | downloader.py:426-447 | the kind of failure (its `Outcomes.Failure` constructor) identifies the route that produced it; the text need not (see `Dispatcher.GenericTextsCollide`) |
| Dispatcher.RoutesDisjoint | downloader.py:426-447 | the failure kinds of the four routes (no locator, torrent, media, plain HTTP) never overlap |
| Dispatcher.GenericTextsCollide | downloader.py:314-318 | an exception that escapes the media route and one that escapes plain HTTP (downloader.py:114-115) both read `Download error: <e>`, although the two failures belong to different routes |
| Dispatcher.FilenameOnlyForHttp | downloader.py:426-447 | the caller's file name only affects the HTTP route |
| Dispatcher.MagnetIgnoresOtherRoutes | downloader.py:432-433 | a magnet link is answered by the torrent engine alone, whatever the HTTP and media sides would do |
| Dispatcher.HttpSavesInsideDir | downloader.py:444-447 | a file saved by the HTTP route is a direct child of the download directory: the directory, one `/` where needed, and a plain name |

## Left out

- **Floating-point formatting.** `format_bytes`, `humanbytes`, `get_speed_indicator`, `format_speed` and `calculate_percentage` are left out, as are the speed and ETA texts inside `Progress.progress_callback` and the NaN/infinity branch of `format_time`. Progress samples carry a label without the speed.
- **Error texts.** Each error the engine reports is a constructor of `Outcomes.Failure`; the strings built from them (such as `Failed to download: HTTP 404` or the `format_bytes` size in the torrent-size error) are not modelled. The exception is the `Download error: <e>` text of the HTTP and media catch-all errors (`Dispatcher.CatchAllText`).
- **Exact reals for the clock and progress.** Clock readings and torrent progress are Dafny reals, so float rounding in the `current_time - last_update >= 1` throttle and in `abs(progress - last_progress) >= 1` is not modelled.
- **Exceptions raised by the progress callback.** A callback that raises inside the HTTP chunk loop (downloader.py:106), the torrent loop (downloader.py:387, 405) or the TikTok announcements (downloader.py:208, 217) ends the call through that function's exception handler. The callback is modelled as a flag and its calls as samples, so such exceptions are not modelled.
- Formatting.CreateProgressBar: takes an integer percentage and computes `p * length / 100` exactly, so float rounding in `(percentage / 100) * length` (for example 29% of 100 giving 28) is not modelled.
- Dispatcher.FailureNamesRoute: holds for the kind of failure only. HTTP's catch-all (downloader.py:114-115) and the media route's (downloader.py:314-318) both return `Download error: <e>`, so the returned text does not always name the route.
- Dispatcher.RoutesDisjoint: the kinds never overlap, but the texts do: HTTP's and the media route's catch-all errors both read `Download error: <e>` (`Dispatcher.GenericTextsCollide`).
- Formatting.FormatTime: integer seconds only; `int()` truncation of a float input is not modelled.
- **External services become inputs.** The aiohttp session, libtorrent, yt-dlp, `os.listdir` and `os.path.exists` are not modelled. Their results are inputs: `Http.Exchange`, the poll trace in `Torrent.TorrentEnv`, and `Media.MediaEnv`.
- **MD5 is a parameter.** It is a function assumed to give 32 lower-case hex digits for every input (`Filenames.IsHexDigest`).
- **The TikTok fallback's internals.** `download_tiktok_fallback` uses regex video-id extraction, oEmbed and feed-API JSON. Its reply is an input to `Media.DownloadMedia`.
- **yt-dlp error texts.** The rewriting of DownloadError texts in `download_ytdlp` is substring heuristics over third-party output. The resulting message is an input (`Media.ExtractorFailed`).
- **The yt-dlp options and version warning** are configuration and printing with no decision logic.
- **Torrent loop details.** `Torrent.Step` reads the clock once per pass, while the source reads it twice (timeout, then metadata check). The `metadata_received` flag is only read to decide whether to set itself (downloader.py:390-391), so it affects nothing and is not modelled. The one-second sleep is not modelled.
- Torrent.Run: a finite trace of polls stands for the unbounded loop. A trace that ends before the loop does yields `StillPolling`, which is not a result the source can return.
- **Lower-casing is ASCII only.** Python's full Unicode `lower()` is not modelled.
- **`Downloader.cleanup`, `Downloader.__init__`, `run_command`, `speed_limiter`, `validate_url`, `is_video_file`/`is_audio_file`/`is_document_file`, `parse_torrent_info`, `get_readable_message` and `estimate_completion_time`** are file-system, subprocess or display helpers outside the download decisions.
- **bot.py** is not part of this model. It is the chat front end.
- **config.py** is not part of this model. The 4 GiB limit is taken from the "exceeds 4GB limit" error text.
- **Non-string inputs.** The `isinstance` checks are not modelled, because every input here is a string. An empty caller file name stands for None.
