/**
 * The buffer wait that runs before the transcoder is started.
 *
 * The server checks the selected file's downloaded byte count and the
 * torrent's completion flag; when neither is enough it checks again after a
 * fixed delay, with no cap on the number of checks. Here the successive
 * readings the checks see are an input sequence, so the wait ends either at
 * the first reading that passes or, still pending, when the readings run out.
 */
module Readiness {

  /** The minimum prefix of the selected file, in bytes, before transcoding starts. */
  const START_BUFFER_BYTES: nat := 3 * 1024 * 1024

  /** The delay between two checks, in milliseconds. */
  const POLL_INTERVAL_MS: nat := 500

  /** What one check reads: `file.downloaded` and `torrent.done`. */
  datatype Progress = Progress(downloaded: nat, done: bool)

  /** The condition under which the wait resolves. */
  predicate BufferReady(p: Progress)
  {
    p.downloaded >= START_BUFFER_BYTES || p.done
  }

  /**
   * Runs the checks over `readings`, one reading per check, the first one
   * immediately. `resolved` says whether some check passed; `checks` is the
   * index of the check that passed, or the number of readings when none did;
   * `waitedMs` is the time spent in delays before the last check made.
   */
  method AwaitBuffer(readings: seq<Progress>) returns (resolved: bool, checks: nat, waitedMs: nat)
    ensures resolved <==> exists i :: 0 <= i < |readings| && BufferReady(readings[i])
    ensures resolved ==> checks < |readings| && BufferReady(readings[checks])
    ensures forall i :: 0 <= i < checks && i < |readings| ==> !BufferReady(readings[i])
    ensures !resolved ==> checks == |readings|
    ensures waitedMs == checks * POLL_INTERVAL_MS
  {
    checks := 0;
    waitedMs := 0;
    while checks < |readings| && !BufferReady(readings[checks])
      invariant checks <= |readings|
      invariant forall i :: 0 <= i < checks ==> !BufferReady(readings[i])
      invariant waitedMs == checks * POLL_INTERVAL_MS
    {
      checks := checks + 1;
      waitedMs := waitedMs + POLL_INTERVAL_MS;
    }
    resolved := checks < |readings|;
  }
}
