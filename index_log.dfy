/**
 * The in-memory activity log of the indexer (`indexing_logs`): newest
 * entry first, at most `max_logs` entries (`_add_log_to_memory`,
 * `get_recent_logs`).  The wall-clock `time` field of an entry is not
 * modelled; the detail text is kept as the structured value it is
 * rendered from.
 */
module IndexLog {
  import opened PyStr
  import opened SkipReasons

  /** `max_logs`. */
  const MaxLogs: nat := 500

  datatype Status = Success | Skip | Error | Indexing | RetrySuccess

  /** Why a file could not be processed, as `_log_error` reports it. */
  datatype ErrorKind =
    | FileMissing      // `os.path.getmtime` raised: the path no longer exists
    | StorageFailure   // the database raised on a write

  datatype Detail =
    | Processing                                           // '처리 중...'
    | Extracted(chars: nat, tokens: nat, saved: bool)      // '{chars}자 / {tokens}토큰 | …'
    | Reason(reason: string)                               // a skip reason
    | Failure(kind: ErrorKind)                             // `str(error)`

  datatype LogEntry = LogEntry(status: Status, filename: string, detail: Detail)

  /**
   * `_add_log_to_memory`: the entry goes to the front, older entries move
   * back by one, and the list is cut to `max_logs`.
   */
  function Pushed(logs: seq<LogEntry>, e: LogEntry): (r: seq<LogEntry>)
    ensures |r| == if |logs| < MaxLogs then |logs| + 1 else MaxLogs
    ensures r[0] == e
    ensures forall i :: 1 <= i < |r| ==> r[i] == logs[i - 1]
  {
    var grown := [e] + logs;
    if |grown| > MaxLogs then grown[..MaxLogs] else grown
  }

  /** `get_recent_logs(count)`: `indexing_logs[:count]`, negative counts from the end. */
  function Recent(logs: seq<LogEntry>, count: int): (r: seq<LogEntry>)
    ensures r <= logs
    ensures count >= 0 ==> |r| == if count < |logs| then count else |logs|
  {
    PrefixSlice(logs, count)
  }

  /** After `k` pushes the last entry pushed first sits at index `k - 1`, while it fits. */
  lemma {:induction false} PushedShifts(logs: seq<LogEntry>, e: LogEntry, later: seq<LogEntry>)
    requires |logs| <= MaxLogs && |later| < MaxLogs
    ensures |later| < |PushAll(Pushed(logs, e), later)|
    ensures PushAll(Pushed(logs, e), later)[|later|] == e
    decreases |later|
  {
    PushAllLength(Pushed(logs, e), later);
    if later != [] {
      var init := later[..|later| - 1];
      PushedShifts(logs, e, init);
      assert PushAll(Pushed(logs, e), later) == Pushed(PushAll(Pushed(logs, e), init), later[|later| - 1]);
      PushAllLength(Pushed(logs, e), init);
    }
  }

  /** Pushing several entries in order, the last one ending in front. */
  function PushAll(logs: seq<LogEntry>, es: seq<LogEntry>): (r: seq<LogEntry>)
    decreases |es|
  {
    if es == [] then logs else Pushed(PushAll(logs, es[..|es| - 1]), es[|es| - 1])
  }

  lemma {:induction false} PushAllLength(logs: seq<LogEntry>, es: seq<LogEntry>)
    requires |logs| <= MaxLogs
    ensures |PushAll(logs, es)| == if |logs| + |es| < MaxLogs then |logs| + |es| else MaxLogs
    decreases |es|
  {
    if es != [] {
      PushAllLength(logs, es[..|es| - 1]);
    }
  }
}
