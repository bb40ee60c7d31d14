/** What a download call hands back: a saved path or the error the user
    is told about, plus the progress samples the callback received on the
    way. */
module Outcomes {
  /** `Config.MAX_FILE_SIZE`: 4 GiB, the limit the "exceeds 4GB limit"
      message names. */
  const MaxFileSize: int := 4294967296

  datatype Option<T> = None | Some(value: T)

  /** The status text that goes with a progress sample. Download speed and
      torrent rate are floating-point decorations and are not carried. */
  datatype Label =
    | Downloading
    | TryingTikTok
    | TryingAlternative
    | Connecting(peers: nat)
    | Torrenting(peers: nat, percent: real)

  /** One `progress_callback(current, total, status)` call. */
  datatype Sample = Sample(done: int, total: int, status: Label)

  /** Every error a download can end with. */
  datatype Failure =
    | NoLocator
    | HttpStatus(status: int)
    | HttpTooLarge
    | HttpTimeout
    | Network(detail: string)
    | Unexpected(detail: string)
    | MediaNotFound
    | MediaError(message: string)
    | TorrentTimeout
    | TorrentFailure(detail: string)
    | MetadataFailed
    | MetadataTimeout
    | TorrentTooLarge(size: int)
    | TorrentFileMissing

  /** The `(path, error)` pair: a path, an error, or (for a torrent whose
      observed polls ran out before it finished) nothing yet. */
  datatype Result = Saved(path: string) | Failed(failure: Failure) | StillPolling

  datatype Reply = Reply(result: Result, events: seq<Sample>)

  /** The `done` counts of a run of samples never go down. */
  predicate Monotone(events: seq<Sample>) {
    forall i, j :: 0 <= i < j < |events| ==> events[i].done <= events[j].done
  }
}
