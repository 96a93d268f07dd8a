/**
 * The session registry: the `sessions` map of the server and every handler
 * that reads or changes it.
 *
 * A session is created by the POST handler, touched by each GET on its
 * directory, marked started once the transcoder runs, and torn down by
 * `cleanupSession`, which the transcoder's exit and the periodic reaper
 * both call. Clock readings, generated ids, file-system answers and the
 * handles of the torrent and of the transcoder are inputs; the teardown's
 * calls on those handles are returned as a list of effects.
 */
module Sessions {
  import opened Wrappers

  /** The generated session id (a UUID in the server). */
  type Id = string

  /** How long a session may go untouched before the reaper removes it, in milliseconds. */
  const INACTIVITY_TIMEOUT_MS: int := 10 * 60 * 1000

  /**
   * The handle `client.add(magnet)` returns. Each call makes a new object and
   * each session makes one call, so a handle is told apart from every other by
   * the session that made it; the locator it was made from is kept as well.
   */
  datatype Torrent = Torrent(owner: Id, magnet: string)

  /**
   * The handle of a spawned transcoder process. Each session spawns at most
   * one, so it too is told apart by the session that spawned it.
   */
  datatype Process = Process(owner: Id, pid: nat)

  /** The record stored under a session's id. `ffmpeg` is `None` until the transcoder runs. */
  datatype Session = Session(
    id: Id,
    folder: string,
    torrent: Torrent,
    ffmpeg: Option<Process>,
    lastSeen: int,
    started: bool)

  /** A call the teardown makes on something outside the registry. */
  datatype Effect =
    | DestroyTorrent(torrent: Torrent)
    | KillProcess(process: Process)
    | RemoveFolder(folder: string)

  /** The answer to a GET on a file under `/streams/:sessionId/`. */
  datatype GetReply = SessionNotFound | FileNotFound | SendFile(path: string)

  /** What `POST /stream` has decided when its handler returns. */
  datatype CreateReply =
    | MagnetRequired        // 400: the body has no usable `magnet`
    | SetupFailed            // 500: creating the folder or adding the torrent threw
    | Pending(id: Id)        // registered; the reply is sent once the stream is started

  /** The session's output directory, `path.join(root, id)`. */
  function FolderOf(root: string, id: Id): (r: string)
    ensures |r| == |root| + 1 + |id|
    ensures r[..|root|] == root && r[|root|] == '/' && r[|root| + 1..] == id
  {
    root + "/" + id
  }

  /** Two sessions never share a directory. */
  lemma {:induction false} FolderOfInjective(root: string, a: Id, b: Id)
    requires FolderOf(root, a) == FolderOf(root, b)
    ensures a == b
  {
    var n := |root| + 1;
    assert FolderOf(root, a)[n..] == a;
    assert FolderOf(root, b)[n..] == b;
  }

  /** The URL the POST handler answers with once the stream is started. */
  function PlaylistUrl(id: Id): (r: string)
    ensures |r| == |id| + 23
    ensures r[..9] == "/streams/" && r[9..9 + |id|] == id && r[9 + |id|..] == "/playlist.m3u8"
  {
    "/streams/" + id + "/playlist.m3u8"
  }

  /** The reaper's test: idle for strictly longer than the timeout. */
  predicate Idle(s: Session, now: int)
  {
    now - s.lastSeen > INACTIVITY_TIMEOUT_MS
  }

  /**
   * What `cleanupSession` does to a present session outside the map: destroy
   * the torrent, kill the transcoder when there is one (on a session never
   * started `s.ffmpeg.kill` throws and the exception is swallowed), and
   * remove the directory.
   */
  function TeardownEffects(s: Session): (r: seq<Effect>)
    ensures |r| == if s.ffmpeg.Some? then 3 else 2
    ensures r[0] == DestroyTorrent(s.torrent) && r[|r| - 1] == RemoveFolder(s.folder)
    ensures forall p :: KillProcess(p) in r <==> s.ffmpeg == Some(p)
  {
    [DestroyTorrent(s.torrent)]
    + (match s.ffmpeg case Some(p) => [KillProcess(p)] case None => [])
    + [RemoveFolder(s.folder)]
  }

  /** Every effect of a sweep over `keys` of `m` at time `now`, in the order of `keys`. */
  function SweepEffects(keys: seq<Id>, m: map<Id, Session>, now: int): seq<Effect>
  {
    if keys == [] then []
    else
      var last := keys[|keys| - 1];
      SweepEffects(keys[..|keys| - 1], m, now)
      + (if last in m && Idle(m[last], now) then TeardownEffects(m[last]) else [])
  }

  /** A sweep over one more key adds that key's teardown, if it is idle, at the end. */
  lemma SweepEffectsStep(keys: seq<Id>, i: nat, m: map<Id, Session>, now: int)
    requires i < |keys|
    ensures SweepEffects(keys[..i + 1], m, now)
      == SweepEffects(keys[..i], m, now)
         + (if keys[i] in m && Idle(m[keys[i]], now) then TeardownEffects(m[keys[i]]) else [])
  {
    assert keys[..i + 1][..i] == keys[..i];
  }

  /**
   * `cur` is what is left of `m` once the first `i` keys have been visited:
   * the visited idle sessions are gone, every other session is as it was.
   */
  ghost predicate SweptUpTo(cur: map<Id, Session>, m: map<Id, Session>, keys: seq<Id>, i: nat, now: int)
    requires i <= |keys|
  {
    && (forall id :: id in cur <==> id in m && !(id in keys[..i] && Idle(m[id], now)))
    && (forall id :: id in cur ==> cur[id] == m[id])
  }

  /** Visiting one more key removes it exactly when it is idle. */
  lemma SweptUpToStep(cur: map<Id, Session>, m: map<Id, Session>, keys: seq<Id>, i: nat, now: int)
    requires i < |keys| && SweptUpTo(cur, m, keys, i, now)
    requires keys[i] in m && keys[i] !in keys[..i]
    ensures keys[i] in cur && cur[keys[i]] == m[keys[i]]
    ensures SweptUpTo(if Idle(m[keys[i]], now) then cur - {keys[i]} else cur, m, keys, i + 1, now)
  {
    assert keys[..i + 1] == keys[..i] + [keys[i]];
  }

  /** The teardowns of two different registered sessions act on disjoint torrents, processes and directories. */
  lemma TeardownsDisjoint(root: string, a: Id, sa: Session, b: Id, sb: Session)
    requires WellFormed(root, a, sa) && WellFormed(root, b, sb) && a != b
    ensures forall e :: e in TeardownEffects(sa) ==> e !in TeardownEffects(sb)
  {
    if FolderOf(root, a) == FolderOf(root, b) {
      FolderOfInjective(root, a, b);
    }
  }

  /** A teardown removes its session's directory, and no other, exactly once. */
  lemma TeardownRemovesOneFolder(s: Session, f: string)
    ensures multiset(TeardownEffects(s))[RemoveFolder(f)] == if f == s.folder then 1 else 0
  {
  }

  /**
   * Over distinct keys, a sweep removes the directory of every idle session
   * exactly once and the directory of every other session not at all.
   */
  lemma {:induction false} SweepRemovesEachIdleFolderOnce(root: string, keys: seq<Id>, m: map<Id, Session>, now: int, id: Id)
    requires Distinct(keys)
    requires forall k :: k in m ==> m[k].folder == FolderOf(root, k)
    ensures multiset(SweepEffects(keys, m, now))[RemoveFolder(FolderOf(root, id))]
      == if id in keys && id in m && Idle(m[id], now) then 1 else 0
  {
    if keys != [] {
      var init, last := keys[..|keys| - 1], keys[|keys| - 1];
      assert keys == init + [last];
      assert Distinct(init);
      SweepRemovesEachIdleFolderOnce(root, init, m, now, id);
      if last in m {
        TeardownRemovesOneFolder(m[last], FolderOf(root, id));
        if FolderOf(root, id) == m[last].folder {
          FolderOfInjective(root, id, last);
        }
      }
      if id == last {
        assert id !in init;
      }
    }
  }

  /** No id occurs twice. */
  predicate Distinct(s: seq<Id>)
  {
    forall i, j :: 0 <= i < j < |s| ==> s[i] != s[j]
  }

  /** `s` with `x` taken out, the rest in order. */
  function Without(s: seq<Id>, x: Id): (r: seq<Id>)
    ensures forall y :: y in r <==> y in s && y != x
    ensures Distinct(s) ==> Distinct(r)
    ensures x !in s ==> r == s
  {
    if s == [] then []
    else if s[0] == x then Without(s[1..], x)
    else
      var rest := Without(s[1..], x);
      assert Distinct(s) ==> s[0] !in s[1..];
      [s[0]] + rest
  }

  /** In a list without repeats, deleting the key at `j` closes the gap at `j` and changes nothing else. */
  lemma {:induction false} WithoutAt(s: seq<Id>, j: nat)
    requires Distinct(s) && j < |s|
    ensures Without(s, s[j]) == s[..j] + s[j + 1..]
  {
    if j == 0 {
      assert s[0] !in s[1..];
    } else {
      assert s[0] != s[j];
      var tail := s[1..];
      assert Distinct(tail);
      assert tail[j - 1] == s[j];
      WithoutAt(tail, j - 1);
      assert s[..j] == [s[0]] + tail[..j - 1];
      assert s[j + 1..] == tail[j..];
    }
  }

  /** The keys of `keys` that a sweep of `m` at time `now` does not remove, in order. */
  function Survivors(keys: seq<Id>, m: map<Id, Session>, now: int): seq<Id>
  {
    if keys == [] then []
    else
      var last := keys[|keys| - 1];
      Survivors(keys[..|keys| - 1], m, now) + (if last in m && Idle(m[last], now) then [] else [last])
  }

  /** The survivors are exactly the keys that are absent from the map or not idle, and they keep their relative order. */
  lemma {:induction false} SurvivorsMembers(keys: seq<Id>, m: map<Id, Session>, now: int)
    ensures forall k :: k in Survivors(keys, m, now) <==> k in keys && !(k in m && Idle(m[k], now))
    ensures Distinct(keys) ==> Distinct(Survivors(keys, m, now))
  {
    if keys != [] {
      var init, last := keys[..|keys| - 1], keys[|keys| - 1];
      assert keys == init + [last];
      assert Distinct(keys) ==> Distinct(init) && last !in init;
      SurvivorsMembers(init, m, now);
    }
  }

  /** A sweep over one more key keeps that key at the end exactly when it is not idle. */
  lemma SurvivorsStep(keys: seq<Id>, i: nat, m: map<Id, Session>, now: int)
    requires i < |keys|
    ensures Survivors(keys[..i + 1], m, now)
      == Survivors(keys[..i], m, now) + (if keys[i] in m && Idle(m[keys[i]], now) then [] else [keys[i]])
  {
    assert keys[..i + 1][..i] == keys[..i];
  }

  /** Keeping the key at the boundary between the visited survivors and the unvisited keys. */
  lemma KeepNext(order: seq<Id>, kept: seq<Id>, keys: seq<Id>, i: nat)
    requires i < |keys| && order == kept + keys[i..]
    ensures order == (kept + [keys[i]]) + keys[i + 1..]
  {
    assert keys[i..] == [keys[i]] + keys[i + 1..];
  }

  /** Deleting the key at the boundary between the visited survivors and the unvisited keys. */
  lemma WithoutNext(order: seq<Id>, kept: seq<Id>, keys: seq<Id>, i: nat)
    requires i < |keys| && order == kept + keys[i..] && Distinct(order)
    ensures Without(order, keys[i]) == kept + keys[i + 1..]
  {
    assert order[|kept|] == keys[i];
    WithoutAt(order, |kept|);
    assert order[..|kept|] == kept;
    assert order[|kept| + 1..] == keys[i + 1..];
  }

  /** What the registry keeps true of each stored record. */
  predicate WellFormed(root: string, id: Id, s: Session)
  {
    && s.id == id
    && s.folder == FolderOf(root, id)
    && s.torrent.owner == id
    && (s.started <==> s.ffmpeg.Some?)
    && (s.ffmpeg.Some? ==> s.ffmpeg.value.owner == id)
  }

  class Registry {
    /** The directory under which every session's folder lies. */
    const root: string
    /** The `sessions` map. */
    var sessions: map<Id, Session>
    /** The map's keys in insertion order, the order in which `for ... of` visits them. */
    var order: seq<Id>
    /** Every id ever generated; a generated id is never generated again. */
    ghost var issued: set<Id>
    /** Every id whose session has been torn down. */
    ghost var closed: set<Id>

    ghost predicate Valid()
      reads this
    {
      && (forall id :: id in order <==> id in sessions)
      && Distinct(order)
      && (forall id :: id in sessions ==> WellFormed(root, id, sessions[id]))
      && sessions.Keys <= issued
      && closed <= issued
      && closed !! sessions.Keys
    }

    constructor (root: string)
      ensures Valid()
      ensures this.root == root && sessions == map[] && order == []
      ensures issued == {} && closed == {}
    {
      this.root := root;
      sessions := map[];
      order := [];
      issued := {};
      closed := {};
    }

    /**
     * A GET under `/streams/:sessionId/` for `file` inside the session's directory;
     * `fileExists` is the file system's answer for it.
     */
    method Get(id: Id, file: string, fileExists: bool, now: int) returns (reply: GetReply)
      requires Valid()
      modifies this`sessions
      ensures Valid()
      ensures id !in old(sessions) ==> reply == SessionNotFound && sessions == old(sessions)
      ensures id in old(sessions) ==> sessions == old(sessions)[id := old(sessions)[id].(lastSeen := now)]
      ensures id in old(sessions) && !fileExists ==> reply == FileNotFound
      ensures id in old(sessions) && fileExists ==> reply == SendFile(FolderOf(root, id) + "/" + file)
    {
      if id !in sessions {
        return SessionNotFound;
      }
      var s := sessions[id];
      sessions := sessions[id := s.(lastSeen := now)];
      if !fileExists {
        return FileNotFound;
      }
      reply := SendFile(FolderOf(root, id) + "/" + file);
    }

    /**
     * `POST /stream` up to the point where its handler returns: the guard on
     * `magnet`, then a new session under `freshId`. `setupThrows` says whether
     * creating the folder or adding the torrent threw.
     */
    method Create(magnet: Option<string>, freshId: Id, setupThrows: bool, now: int) returns (reply: CreateReply)
      requires Valid()
      requires freshId !in issued
      modifies this`sessions, this`order, this`issued
      ensures Valid()
      ensures (magnet.None? || magnet.value == "") ==> reply == MagnetRequired
      ensures magnet.Some? && magnet.value != "" && setupThrows ==> reply == SetupFailed
      ensures magnet.Some? && magnet.value != "" && !setupThrows ==> reply == Pending(freshId)
      ensures reply.Pending? ==>
        && sessions == old(sessions)[freshId := Session(freshId, FolderOf(root, freshId), Torrent(freshId, magnet.value), None, now, false)]
        && order == old(order) + [freshId]
      ensures !reply.Pending? ==> sessions == old(sessions) && order == old(order)
      ensures issued == if reply.MagnetRequired? then old(issued) else old(issued) + {freshId}
    {
      if magnet.None? || magnet.value == "" {
        return MagnetRequired;
      }
      issued := issued + {freshId};
      if setupThrows {
        return SetupFailed;
      }
      var session := Session(freshId, FolderOf(root, freshId), Torrent(freshId, magnet.value), None, now, false);
      sessions := sessions[freshId := session];
      order := order + [freshId];
      reply := Pending(freshId);
    }

    /**
     * The two assignments after the transcoder is spawned, and the reply that
     * follows. The handler holds the record itself, not its id: once the
     * session has been torn down it updates a record no longer in the map,
     * so the map does not change.
     */
    method Start(id: Id, pid: nat) returns (playlistUrl: string)
      requires Valid()
      modifies this`sessions
      ensures Valid()
      ensures id in old(sessions) ==> sessions == old(sessions)[id := old(sessions)[id].(ffmpeg := Some(Process(id, pid)), started := true)]
      ensures id !in old(sessions) ==> sessions == old(sessions)
      ensures playlistUrl == PlaylistUrl(id)
    {
      if id in sessions {
        var s := sessions[id];
        sessions := sessions[id := s.(ffmpeg := Some(Process(id, pid)), started := true)];
      }
      playlistUrl := PlaylistUrl(id);
    }

    /** `cleanupSession(id)`: nothing when `id` is absent, else the teardown and the removal. */
    method Cleanup(id: Id) returns (effects: seq<Effect>)
      requires Valid()
      modifies this`sessions, this`order, this`closed
      ensures Valid()
      ensures id !in sessions
      ensures sessions == old(sessions) - {id}
      ensures order == Without(old(order), id)
      ensures id !in old(sessions) ==> effects == [] && closed == old(closed)
      ensures id in old(sessions) ==> effects == TeardownEffects(old(sessions)[id]) && closed == old(closed) + {id}
      ensures id in old(sessions) ==> id !in old(closed)
    {
      if id !in sessions {
        return [];
      }
      var s := sessions[id];
      effects := [DestroyTorrent(s.torrent)];
      if s.ffmpeg.Some? {
        effects := effects + [KillProcess(s.ffmpeg.value)];
      }
      effects := effects + [RemoveFolder(s.folder)];
      sessions := sessions - {id};
      order := Without(order, id);
      closed := closed + {id};
    }

    /**
     * One run of the reaper at time `now`: every session idle for longer than
     * the timeout is cleaned up, in insertion order. The loop walks a copy of
     * the keys; that visits what `for ... of` visits, because the only entry
     * removed during the walk is the one being visited.
     */
    method Sweep(now: int) returns (effects: seq<Effect>)
      requires Valid()
      modifies this`sessions, this`order, this`closed
      ensures Valid()
      ensures forall id :: id in sessions <==> id in old(sessions) && !Idle(old(sessions)[id], now)
      ensures forall id :: id in sessions ==> sessions[id] == old(sessions)[id]
      ensures order == Survivors(old(order), old(sessions), now)
      ensures effects == SweepEffects(old(order), old(sessions), now)
      ensures forall id :: id in closed <==> id in old(closed) || (id in old(sessions) && id !in sessions)
    {
      var keys := order;
      ghost var m0 := sessions;
      effects := [];
      var i := 0;
      while i < |keys|
        invariant 0 <= i <= |keys|
        invariant Distinct(keys) && forall id :: id in keys <==> id in m0
        invariant Valid()
        invariant SweptUpTo(sessions, m0, keys, i, now)
        invariant order == Survivors(keys[..i], m0, now) + keys[i..]
        invariant effects == SweepEffects(keys[..i], m0, now)
        invariant forall id :: id in closed <==> id in old(closed) || (id in m0 && id !in sessions)
      {
        var e := Visit(keys, i, m0, now, old(closed));
        SweepEffectsStep(keys, i, m0, now);
        effects := effects + e;
        i := i + 1;
      }
      assert keys[..i] == keys && keys[i..] == [];
      assert SweptUpTo(sessions, m0, keys, |keys|, now);
    }

    /**
     * The body of the reaper's loop for the `i`-th key of the walk over the
     * keys `keys` of the map `m0` it started from: the session is cleaned up
     * when it is idle and kept otherwise.
     */
    method Visit(keys: seq<Id>, i: nat, ghost m0: map<Id, Session>, now: int, ghost closed0: set<Id>)
      returns (effects: seq<Effect>)
      requires Valid()
      requires i < |keys| && Distinct(keys) && forall id :: id in keys <==> id in m0
      requires SweptUpTo(sessions, m0, keys, i, now)
      requires order == Survivors(keys[..i], m0, now) + keys[i..]
      requires forall id :: id in closed <==> id in closed0 || (id in m0 && id !in sessions)
      modifies this`sessions, this`order, this`closed
      ensures Valid()
      ensures SweptUpTo(sessions, m0, keys, i + 1, now)
      ensures order == Survivors(keys[..i + 1], m0, now) + keys[i + 1..]
      ensures effects == if Idle(m0[keys[i]], now) then TeardownEffects(m0[keys[i]]) else []
      ensures forall id :: id in closed <==> id in closed0 || (id in m0 && id !in sessions)
    {
      var id := keys[i];
      assert id !in keys[..i];
      SweptUpToStep(sessions, m0, keys, i, now);
      SurvivorsStep(keys, i, m0, now);
      ghost var kept := Survivors(keys[..i], m0, now);
      if Idle(sessions[id], now) {
        WithoutNext(order, kept, keys, i);
        effects := Cleanup(id);
        assert Survivors(keys[..i + 1], m0, now) == kept;
      } else {
        KeepNext(order, kept, keys, i);
        assert Survivors(keys[..i + 1], m0, now) == kept + [id];
        effects := [];
      }
    }
  }

  /**
   * Two calls of `cleanupSession` for one id, as when the transcoder's exit
   * and the reaper both fire: the second finds nothing and does nothing, so
   * the end state is that of one call.
   */
  method CleanupTwice(r: Registry, id: Id) returns (first: seq<Effect>, second: seq<Effect>)
    requires r.Valid()
    modifies r`sessions, r`order, r`closed
    ensures r.Valid()
    ensures r.sessions == old(r.sessions) - {id} && r.order == Without(old(r.order), id)
    ensures first == if id in old(r.sessions) then TeardownEffects(old(r.sessions)[id]) else []
    ensures second == []
    ensures r.closed == old(r.closed) + (if id in old(r.sessions) then {id} else {})
  {
    first := r.Cleanup(id);
    second := r.Cleanup(id);
  }

  /**
   * The transcoder's exit tears a session down, then the reaper runs: the
   * sweep does not remove that session's directory a second time.
   */
  method ExitThenSweep(r: Registry, id: Id, now: int) returns (onExit: seq<Effect>, onSweep: seq<Effect>)
    requires r.Valid()
    modifies r`sessions, r`order, r`closed
    ensures r.Valid() && id !in r.sessions
    ensures multiset(onExit)[RemoveFolder(FolderOf(r.root, id))] == if id in old(r.sessions) then 1 else 0
    ensures multiset(onSweep)[RemoveFolder(FolderOf(r.root, id))] == 0
  {
    ghost var before := r.sessions;
    onExit := r.Cleanup(id);
    if id in before {
      TeardownRemovesOneFolder(before[id], FolderOf(r.root, id));
    }
    ghost var keys, m := r.order, r.sessions;
    onSweep := r.Sweep(now);
    SweepRemovesEachIdleFolderOnce(r.root, keys, m, now, id);
  }
}
