/** The session manager's restore, add, finish and removal bookkeeping, updated in place, and the
    autosave queue. */
module Session {
  import opened Wrappers
  import opened SessionSpec
  import opened ResumeSaves

  class SessionManager {
    var records: map<InfoHash, Record>
    var handles: map<InfoHash, Handle>
    var pendingRestore: set<InfoHash>
    var pendingRestoreConfirmation: set<InfoHash>
    /** The .fastresume files on disk. */
    var resumeFiles: set<InfoHash>
    /** The Qt signals emitted so far. */
    var signals: seq<Signal>
    var resumeSaveQueue: seq<InfoHash>

    ghost function View(): Manager
      reads this
    {
      Manager(records, handles, pendingRestore, pendingRestoreConfirmation, resumeFiles, signals)
    }

    constructor (resumeFiles: set<InfoHash>)
      ensures View() == Manager(map[], map[], {}, {}, resumeFiles, []) && resumeSaveQueue == []
    {
      records, handles, pendingRestore, pendingRestoreConfirmation := map[], map[], {}, {};
      this.resumeFiles := resumeFiles;
      signals, resumeSaveQueue := [], [];
    }

    /** Queues every saved torrent's add and shows its row; an entry that raises is skipped. */
    method RestorePreviousSession(entries: seq<Entry>) returns (commands: seq<Command>)
      modifies this
      ensures View() == RestoreAll(old(View()), entries) && commands == AsyncAdds(entries)
      ensures resumeSaveQueue == old(resumeSaveQueue)
    {
      commands := [];
      for i := 0 to |entries|
        invariant View() == RestoreAll(old(View()), entries[..i]) && commands == AsyncAdds(entries[..i])
        invariant resumeSaveQueue == old(resumeSaveQueue)
      {
        assert entries[..i + 1][..i] == entries[..i];
        var e := entries[i];
        if e.refused {
          continue;
        }
        commands := commands + [AsyncAdd(e.h)];
        pendingRestore := pendingRestore + {e.h};
        records := records[e.h := Record(None)];
        if e.complete {
          pendingRestoreConfirmation := pendingRestoreConfirmation + {e.h};
        }
        signals := signals + [TorrentAdded(e.h)];
      }
      assert entries[..|entries|] == entries;
    }

    method OnTorrentAdded(h: InfoHash, handle: Handle, failed: bool)
      modifies this
      ensures View() == OnAdded(old(View()), h, handle, failed) && resumeSaveQueue == old(resumeSaveQueue)
    {
      if h !in pendingRestore {
        return;
      }
      pendingRestore := pendingRestore - {h};
      if !failed {
        handles := handles[h := handle];
        return;
      }
      pendingRestoreConfirmation := pendingRestoreConfirmation - {h};
      if h in handles {
        return;
      }
      records := records - {h};
      signals := signals + [RestoreFailed(h)];
    }

    method OnTorrentFinished(h: InfoHash, now: real)
      modifies this
      ensures View() == OnFinished(old(View()), h, now) && resumeSaveQueue == old(resumeSaveQueue)
    {
      if h in pendingRestoreConfirmation {
        pendingRestoreConfirmation := pendingRestoreConfirmation - {h};
        return;
      }
      if h in records {
        if records[h].completedAt.None? {
          records := records[h := Record(Some(now))];
        }
      }
      signals := signals + [TorrentFinished(h)];
    }

    method OnTorrentRemoved(h: InfoHash)
      modifies this
      ensures View() == OnRemoved(old(View()), h) && resumeSaveQueue == old(resumeSaveQueue)
    {
      records := records - {h};
      handles := handles - {h};
      pendingRestoreConfirmation := pendingRestoreConfirmation - {h};
      resumeFiles := resumeFiles - {h};
      signals := signals + [TorrentRemoved(h)];
    }

    method Add(h: InfoHash, handle: Handle)
      modifies this
      ensures View() == AddByHand(old(View()), h, handle) && resumeSaveQueue == old(resumeSaveQueue)
    {
      records := records[h := Record(None)];
      handles := handles[h := handle];
      signals := signals + [TorrentAdded(h)];
    }

    /** Every popped alert in turn, each one even if the handler of another could not use its handle. */
    method DispatchAll(alerts: seq<Alert>, now: real)
      modifies this
      ensures View() == DispatchSeq(old(View()), alerts, now) && resumeSaveQueue == old(resumeSaveQueue)
    {
      for i := 0 to |alerts|
        invariant View() == DispatchSeq(old(View()), alerts[..i], now)
        invariant resumeSaveQueue == old(resumeSaveQueue)
      {
        assert alerts[..i + 1][..i] == alerts[..i];
        match alerts[i] {
          case Added(h, handle, failed) => OnTorrentAdded(h, handle, failed);
          case Finished(h, valid) =>
            if valid {
              OnTorrentFinished(h, now);
            }
          case Removed(h) => OnTorrentRemoved(h);
        }
      }
      assert alerts[..|alerts|] == alerts;
    }

    /** Queues the torrents not queued already, in some order. */
    method SaveAllResumeData() returns (added: seq<InfoHash>)
      modifies this`resumeSaveQueue
      ensures NoDuplicates(added) && Elements(added) == handles.Keys - Elements(old(resumeSaveQueue))
      ensures resumeSaveQueue == old(resumeSaveQueue) + added
    {
      var queued := Elements(resumeSaveQueue);
      var todo := handles.Keys - queued;
      added := [];
      while todo != {}
        invariant NoDuplicates(added) && Elements(added) + todo == handles.Keys - queued
        invariant forall h :: h in added ==> h !in todo
      {
        var h :| h in todo;
        added := added + [h];
        todo := todo - {h};
      }
      resumeSaveQueue := resumeSaveQueue + added;
    }

    /** At most two saves a tick, each only if the torrent's handle is there and valid when popped. */
    method DrainResumeSaveQueue(valid: set<Handle>) returns (requests: seq<InfoHash>)
      modifies this`resumeSaveQueue
      ensures resumeSaveQueue == Rest(old(resumeSaveQueue))
      ensures requests == Requested(Popped(old(resumeSaveQueue)), handles, valid)
    {
      requests := [];
      ghost var start := resumeSaveQueue;
      var n := Min(RESUME_SAVES_PER_TICK, |resumeSaveQueue|);
      for i := 0 to n
        invariant n == Min(RESUME_SAVES_PER_TICK, |start|) && resumeSaveQueue == start[i..]
        invariant requests == Requested(start[..i], handles, valid)
      {
        var h := resumeSaveQueue[0];
        resumeSaveQueue := resumeSaveQueue[1..];
        if h in handles && handles[h] in valid {
          requests := requests + [h];
        }
        assert start[..i + 1][..i] == start[..i];
      }
    }
  }
}
