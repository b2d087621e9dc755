/**
 * Why the indexer skipped a file, and which of those reasons put the file
 * on the retry list (`FileIndexer._log_skip`, `_extract_text_safe` and the
 * size check of `_process_files_incremental`).
 */
module SkipReasons {
  import opened PyStr

  /** `MAX_FILE_SIZE`: 100 MiB. */
  const MaxFileSize: nat := 100 * 1024 * 1024

  /** `PARSE_TIMEOUT`, in seconds. */
  const ParseTimeout: nat := 60

  /** How text extraction failed, as `_extract_text_safe` distinguishes it. */
  datatype Failure =
    | Timeout
    | PermissionDenied
    | Raised(message: string)

  /** Reasons containing one of these are retried later. */
  const RetryableMarkers: seq<string> :=
    ["File locked", "Permission denied", "Parsing timeout", "Password protected"]

  const LockedReason := "File locked or Permission denied"
  const TimeoutReason := "Parsing timeout (>60s)"
  const PasswordReason := "Password protected"
  const CorruptedReason := "File corrupted"
  const ParseErrorPrefix := "Parse error: "

  /** `any(retryable in reason for retryable in retryable_reasons)`. */
  predicate IsRetryable(reason: string) {
    exists i :: 0 <= i < |RetryableMarkers| && Contains(reason, RetryableMarkers[i])
  }

  /** The skip reason `_extract_text_safe` logs for a failure. */
  function FailureReason(f: Failure): (reason: string)
    ensures f.Timeout? ==> reason == "Parsing timeout (>" + DecimalText(ParseTimeout) + "s)"
  {
    match f
    case Timeout => TimeoutReason
    case PermissionDenied => LockedReason
    case Raised(message) =>
      var low := Lower(message);
      if Contains(low, "password") || Contains(low, "encrypted") then PasswordReason
      else if Contains(low, "corrupt") || Contains(low, "damaged") then CorruptedReason
      else ParseErrorPrefix + PrefixSlice(message, 100)
  }

  // ---------------------------------------------------------------------
  // `f"Size exceeded ({file_size / 1024 / 1024:.1f}MB)"`

  function DigitChar(d: nat): (c: char)
    requires d < 10
    ensures '0' <= c <= '9'
  {
    ('0' as int + d) as char
  }

  /** `str(n)` for a natural number. */
  function DecimalText(n: nat): (s: string)
    ensures s != [] && forall i :: 0 <= i < |s| ==> '0' <= s[i] <= '9'
  {
    if n < 10 then [DigitChar(n)] else DecimalText(n / 10) + [DigitChar(n % 10)]
  }

  /**
   * `n / 2^20` rounded to tenths the way `format(x, '.1f')` rounds: to the
   * nearest tenth, ties to even.  Dividing an integer size by 1024 twice is
   * exact in floating point, so this is the value printed.
   */
  function MegabyteTenths(size: nat): (t: nat)
    ensures t * 0x10_0000 <= size * 10 + 0x8_0000
    ensures size * 10 <= t * 0x10_0000 + 0x8_0000
    ensures size * 10 % 0x10_0000 == 0x8_0000 ==> t % 2 == 0
  {
    var q := size * 10 / 0x10_0000;
    var r := size * 10 % 0x10_0000;
    if r > 0x8_0000 || (r == 0x8_0000 && q % 2 == 1) then q + 1 else q
  }

  function MegabyteText(size: nat): (s: string)
    ensures forall i :: 0 <= i < |s| ==> '0' <= s[i] <= '9' || s[i] == '.'
  {
    var t := MegabyteTenths(size);
    DecimalText(t / 10) + "." + [DigitChar(t % 10)]
  }

  function SizeExceededReason(size: nat): string {
    "Size exceeded (" + MegabyteText(size) + "MB)"
  }

  // ---------------------------------------------------------------------
  // Which reasons are retried

  lemma MarkerInitials()
    ensures forall i :: 0 <= i < |RetryableMarkers| ==>
      RetryableMarkers[i] != [] && (RetryableMarkers[i][0] == 'F' || RetryableMarkers[i][0] == 'P')
  {
  }

  /** A reason holding neither `F` nor `P` matches no marker. */
  lemma NoInitialNotRetryable(reason: string)
    requires 'F' !in reason && 'P' !in reason
    ensures !IsRetryable(reason)
  {
    MarkerInitials();
    forall i | 0 <= i < |RetryableMarkers|
      ensures !Contains(reason, RetryableMarkers[i])
    {
      if Contains(reason, RetryableMarkers[i]) {
        ContainsFirstChar(reason, RetryableMarkers[i]);
      }
    }
  }

  /** An oversize file is never put on the retry list. */
  lemma SizeExceededNotRetryable(size: nat)
    ensures !IsRetryable(SizeExceededReason(size))
  {
    var mb := MegabyteText(size);
    var reason := SizeExceededReason(size);
    assert reason == "Size exceeded (" + (mb + "MB)");
    assert 'F' !in mb && 'P' !in mb;
    NoInitialNotRetryable(reason);
  }

  /**
   * A reason without `P` whose characters from index 5 on hold no `l`
   * matches no marker: the `F` marker has its `l` at index 5.
   */
  lemma NoLockNotRetryable(reason: string)
    requires 'P' !in reason
    requires forall j :: 5 <= j < |reason| ==> reason[j] != 'l'
    ensures !IsRetryable(reason)
  {
    forall i | 0 <= i < |RetryableMarkers|
      ensures !Contains(reason, RetryableMarkers[i])
    {
      var m := RetryableMarkers[i];
      if Contains(reason, m) {
        if i == 0 {
          assert m[5] == 'l';
          ContainsCharAt(reason, m, 5);
        } else {
          assert m[0] == 'P';
          ContainsFirstChar(reason, m);
        }
      }
    }
  }

  /** A corrupted file is never put on the retry list. */
  lemma CorruptedNotRetryable()
    ensures !IsRetryable(CorruptedReason)
  {
    NoLockNotRetryable(CorruptedReason);
  }

  /** A locked file, a timeout and a password-protected file are retried. */
  lemma RetryableReasons()
    ensures IsRetryable(LockedReason)
    ensures IsRetryable(TimeoutReason)
    ensures IsRetryable(PasswordReason)
    ensures IsRetryable(FailureReason(Timeout)) && IsRetryable(FailureReason(PermissionDenied))
  {
    assert RetryableMarkers[0] <= LockedReason;
    assert RetryableMarkers[2] <= TimeoutReason;
    assert RetryableMarkers[3] <= PasswordReason;
  }

  /** An error message mentioning a password is always retried. */
  lemma PasswordMessageRetryable(message: string)
    requires Contains(Lower(message), "password")
    ensures FailureReason(Raised(message)) == PasswordReason
    ensures IsRetryable(FailureReason(Raised(message)))
  {
    RetryableReasons();
  }
}
