# Torrent-to-HLS server: session bookkeeping

This project models, in Dafny, the session bookkeeping of a small Express
server (`torent/server.js`) that turns a torrent into an HLS stream. A
client posts a magnet link. The server adds the torrent, picks the file to
stream, waits until enough of it has arrived, starts a transcoder, and
serves the playlist and segment files from a per-session directory. A
session dies when its transcoder exits or when nobody has requested one of
its files for ten minutes.

The model has four modules:

- `Wrappers` (`wrappers.dfy`): an `Option` type, standing for `null` and
  for a missing property.
- `Selection` (`selection.dfy`): the choice of the streamed file. Its
  steps are the same as the source's: filter by extension, sort longest
  first with a stable sort, take the head, and fall back to all files when
  no name matches. The sort is an insertion sort that places each file in
  front of the first file no longer than it. That is a stable descending
  order, which is all `Array.prototype.sort` promises for this comparator.
  The lemmas tie the head of that sort to a reference definition, "the
  earliest file of maximal length".
- `Readiness` (`readiness.dfy`): the buffer threshold (3 MiB) and the
  500 ms poll. The poll is a loop over the sequence of progress readings
  that the successive checks see.
- `Sessions` (`sessions.dfy`): the `sessions` map as a class `Registry`
  with methods for the GET handler, the POST handler, the two assignments
  made once the transcoder runs, `cleanupSession`, and the reaper's sweep.
  The map's key order is kept in a field `order`, because the reaper
  visits entries in insertion order. Two ghost sets record every id ever
  generated (`issued`) and every id torn down (`closed`). The object
  invariant `Valid` says that:
  - each record is stored under its own id;
  - each record's folder is `root/id`;
  - `started` holds exactly when a transcoder handle is set;
  - no torn-down id is still registered.

Scope of the model:

- Clock readings, generated ids, file-existence answers and the
  transcoder's process id are parameters.
- The torrent and transcoder objects are handles that name the session
  that made them. Each POST makes one `client.add` call and each `ready`
  handler spawns one process, so two sessions never share a handle.
- The teardown's calls on those handles (destroy the torrent, kill the
  process, remove the directory) are returned as a list of `Effect` values.
- The transcoder's `close` event is modelled as a call of `Cleanup`.

Points where the source's behaviour is easy to misread, and which the model
follows as written:

- The POST guard is `!magnet`, so it rejects an empty string as well as a
  missing field.
- The session record has only a `started` flag, not a five-state
  lifecycle.
- The teardown destroys the torrent before it kills the transcoder.
- The directory removal is not wrapped in `try`, so cleanup steps are not
  isolated from one another (see "Left out").

A session can be torn down before its `ready` handler has finished. That
happens when the reaper removes it while the handler is still waiting for
the buffer. If the torrent was destroyed before `ready` fired, the handler
never runs. If the handler does run (or its wait still resolves after the
teardown), it updates the record that it holds, not the map entry. So
`Start` on an id that is no longer registered leaves the map unchanged.
Whether WebTorrent still fires `ready` or advances `downloaded` on a
destroyed torrent is outside this model.

## Model

| member | source | states |
|---|---|---|
| `Selection.LowerAscii` | torent/server.js:79 | the case folding of the regex's `i` flag: upper-case ASCII letters map to their lower-case letters, every other character is unchanged |
| `Selection.IsMediaName` | torent/server.js:79 | the regex test: the name is a dot followed by one of `mp4`, `mkv`, `avi`, `mov`, `webm` or `ts` at its end, compared ignoring ASCII case |
| `Selection.EndsWithExtensionIgnoresCase` | torent/server.js:79 | lower-casing a name first does not change whether it ends in a given dotted extension |
| `Selection.IsMediaNameIgnoresCase` | torent/server.js:79 | a name and its lower-cased form are both media names or both not |
| `Selection.MediaFiles` | torent/server.js:78-79 | a file is kept exactly when it is in the list and its name ends, ignoring case, in `.mp4/.mkv/.avi/.mov/.webm/.ts` |
| `Selection.InsertByLength` | torent/server.js:80 | inserting into a longest-first list keeps it longest-first, adds exactly that file to its contents, and decides the new head |
| `Selection.LongerPrefix` | torent/server.js:80 | the count of leading files strictly longer than the inserted one: every file before that point is longer, and the file at that point, if any, is not |
| `Selection.InsertByLengthPosition` | torent/server.js:80 | the insertion places the file right after the leading files strictly longer than it, in front of the first file no longer than it, and moves nothing else |
| `Selection.SortByLength` | torent/server.js:80 | the sort by `b.length - a.length` yields a longest-first permutation of its input |
| `Selection.SelectFile` | torent/server.js:78-82 | the selected file is one of the torrent's files |
| `Selection.SortedHeadIsFirstLongest` | torent/server.js:82 | the head of the sorted list is the earliest file of maximal length |
| `Selection.SortedMediaHeadIsFirstLongestMedia` | torent/server.js:78-80 | if some name matches, the sorted media list is non-empty and its head is the earliest matching file of maximal length among matching files |
| `Selection.SelectPrefersMedia` | torent/server.js:78-82 | if any name matches, the selection matches, no matching file is longer, and every earlier matching file is strictly shorter |
| `Selection.SelectFallsBackToLongest` | torent/server.js:82 | if no name matches, the selection has maximal length among all files, and every earlier file is strictly shorter |
| `Readiness.BufferReady` | torent/server.js:91 | the wait's condition: at least `3*1024*1024` bytes of the file downloaded, or the torrent done |
| `Readiness.AwaitBuffer` | torent/server.js:89-95 | the wait resolves exactly when some reading has `downloaded >= 3*1024*1024` or `done`; it resolves at the first such reading, after `500 ms` per failed check; every earlier check failed; it changes nothing |
| `Sessions.FolderOf` | torent/server.js:59 | a session's directory is the root, one `/`, then the id, and nothing else |
| `Sessions.FolderOfInjective` | torent/server.js:59 | two distinct ids never share an output directory |
| `Sessions.PlaylistUrl` | torent/server.js:148 | the reply URL is `/streams/`, then the id, then `/playlist.m3u8` |
| `Sessions.Idle` | torent/server.js:177 | the reaper's test: more than `600000` ms have passed since `lastSeen` |
| `Sessions.TeardownEffects` | torent/server.js:167-170 | a teardown makes three calls when the session has a process and two otherwise; it first destroys the torrent and last removes the folder; it kills exactly the session's own process, and none when there is none (`ffmpeg.kill` on `null` throws and is swallowed) |
| `Sessions.TeardownsDisjoint` | torent/server.js:59-73 | the teardowns of two different registered sessions share no torrent, no process and no directory |
| `Sessions.TeardownRemovesOneFolder` | torent/server.js:170 | one teardown removes its own session's directory exactly once and no other directory |
| `Sessions.Without` | torent/server.js:171 | deleting a key keeps every other key, keeps the keys in distinct order, and changes nothing when the key is absent |
| `Sessions.WithoutAt` | torent/server.js:171 | in a key order without repeats, deleting the key at position `j` leaves the keys before `j` and after `j` in place, in order |
| `Sessions.SurvivorsMembers` | torent/server.js:176-179 | the keys a sweep keeps are exactly the visited keys that are absent or not idle, and they have no repeats when the visited keys have none |
| `Sessions.SweepRemovesEachIdleFolderOnce` | torent/server.js:174-181 | over distinct keys, a sweep removes each idle session's directory exactly once and never removes the directory of a live or absent session |
| `Sessions.Registry.constructor` | torent/server.js:30 | the registry starts empty |
| `Sessions.Registry.Get` | torent/server.js:35-48 | an unknown id gives 404 and changes nothing; for a known id, its `lastSeen` becomes `now` whether or not the file exists, no other session changes, and the reply is 404 or the file under the session's folder |
| `Sessions.Registry.Create` | torent/server.js:53-73 | a missing or empty `magnet` gives 400 and adds nothing; a throwing setup gives 500 and adds nothing; otherwise the fresh id maps to a record with its own torrent handle, `lastSeen = now`, `started = false` and no process, it is appended to the key order, and existing entries are untouched |
| `Sessions.Registry.Start` | torent/server.js:138-149 | a registered session gets its process handle and `started = true`, nothing else changes, an unregistered id leaves the map unchanged, and the reply is `/streams/<id>/playlist.m3u8` |
| `Sessions.Registry.Cleanup` | torent/server.js:161-172 | an absent id is a no-op with no effects; otherwise exactly that id is removed from the map and from the key order, and its teardown effects are produced once; afterwards the id is absent and its teardown is recorded |
| `Sessions.Registry.Visit` | torent/server.js:177-179 | one pass of the reaper's loop body: the visited key is cleaned up when idle and kept otherwise, and the sweep's invariants on the map, the key order and the closed ids carry over to the next key |
| `Sessions.Registry.Sweep` | torent/server.js:174-181 | afterwards a session remains exactly when it was present and `now - lastSeen <= 600000`, every survivor is unchanged, the key order is the old order with the idle keys taken out, and the effects are the idle sessions' teardowns in insertion order |
| `Sessions.CleanupTwice` | torent/server.js:141-143 | two cleanups of one id end in the state of one cleanup, record at most one teardown, and the second has no effect |
| `Sessions.ExitThenSweep` | torent/server.js:141-144 | after the transcoder's exit has torn a session down, the next sweep does not remove its directory again |

## Left out

- Express routing, JSON body parsing, CORS, request logging, `console` output and `app.listen` (lines 17-20, 187-189) are framework plumbing. URL decoding and route matching are not modelled.
- The WebTorrent client is not modelled: `client.add`, the `ready` event, the torrent's internal state, `createReadStream().pipe(...)`, and what `destroy()` does. A torrent is a handle holding the id of the session that added it and its magnet link, and `destroy` is an opaque effect.
- The transcoder's argument list, its process lifetime and its output files (lines 99-136) are not modelled. Its process id is an input to `Start`. Its `close` event is modelled only as a call of `Cleanup`.
- File-system work is not modelled: `mkdirSync`, `existsSync`, `sendFile` and path normalisation. File existence is an input to `Get`. Folders are `root + "/" + id`, and `..` segments in a requested path are not resolved.
- Sessions.Registry.Get: the sent path is `root/id/file` as written. `path.join` resolves `..` segments, so for a registered id the source can send a file outside the session's directory. The model does not capture that.
- Sessions.Registry.Cleanup: assumes that `rimraf.sync` succeeds. In the source it is not wrapped in `try`. If it throws, `sessions.delete` is skipped and the exception escapes `cleanupSession`, and with it the reaper's loop or the `close` handler. The model does not capture that path.
- Sessions.Registry.Create: the generated UUID is an input that must not have been issued before. A body whose `magnet` is a truthy non-string value is not modelled. The only setup failures modelled are throws from `mkdirSync` or `client.add`, as the flag `setupThrows`.
- Timer scheduling is not modelled: `setTimeout`, the 5-second `setInterval`, and how event-loop callbacks interleave. Each poll check or sweep is one sequential step.
- Readiness.AwaitBuffer: the source's wait has no cap. The model's wait runs over a finite sequence of readings and reports "still pending" when they run out, so a wait that never ends is only approximated.
- Selection.SelectFile: requires a non-empty file list. With no files, the source throws on `file.name` at line 84 inside the `ready` handler.
- Selection.SelectFile: the fallback sort also reorders `torrent.files` in place. Nothing else in the server reads that order, so the model returns only the selected file.
- The POST reply is sent from the `ready` handler. If that handler throws after the session is registered, no reply is sent. The model does not capture this.
- Nothing is proved about `lastSeen` moving forward. Timestamps come from `Date.now()`, and the model does not assume the clock is monotonic.
