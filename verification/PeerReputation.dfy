/** The reputation store and tracker, updated in place. */
module PeerReputation {
  import opened PeerReputationSpec
  import opened PeerReputationRuns

  class PeerReputationStore {
    var records: Records
    var dirty: bool
    var lastSavedAt: real
    /** The JSON file on disk. */
    var file: Records

    constructor (file: Records)
      ensures records == this.file == file && !dirty && lastSavedAt == 0.0
    {
      records, this.file, dirty, lastSavedAt := file, file, false, 0.0;
    }

    /** Folds one streak in; `save` also writes at once, the clock then reading `now`. */
    method RecordDisconnect(ip: Ip, streak: Streak, at: real, save: bool, now: real)
      modifies this
      ensures records == old(records)[ip := Fold(Get(old(records), ip), streak, at)]
      ensures if save then file == records && !dirty && lastSavedAt == now
              else dirty && file == old(file) && lastSavedAt == old(lastSavedAt)
    {
      var rec := if ip in records then records[ip] else Record(0, 0.0, 0, 0);
      rec := Record(rec.disconnects + 1, rec.seconds + (at - streak.since),
                    rec.bytes + streak.last.bytes, rec.hashfails + streak.last.hashfails);
      records := records[ip := rec];
      dirty := true;
      if save {
        Save(now);
      }
    }

    method Flush(minInterval: real, flushAt: real, saveAt: real)
      modifies this
      ensures forall active ::
                State(active, records, dirty, lastSavedAt, file) ==
                old(Flushed(State(active, records, dirty, lastSavedAt, file), minInterval, flushAt, saveAt))
    {
      if !dirty || flushAt - lastSavedAt < minInterval {
        return;
      }
      Save(saveAt);
    }

    method Save(now: real)
      modifies this
      ensures records == old(records) && file == records && !dirty && lastSavedAt == now
    {
      file := records;
      dirty := false;
      lastSavedAt := now;
    }
  }

  class PeerReputationTracker {
    const store: PeerReputationStore
    var active: Active

    ghost function View(): State
      reads this, store
    {
      State(active, store.records, store.dirty, store.lastSavedAt, store.file)
    }

    constructor (store: PeerReputationStore)
      ensures this.store == store && active == map[]
    {
      this.store := store;
      active := map[];
    }

    /** Merges the peers into the torrent's inner map and notes the addresses seen. */
    method MergePeers(h: InfoHash, inner: map<Ip, Streak>, peers: seq<Peer>, now: real)
      returns (merged: map<Ip, Streak>, seen: set<Ip>)
      ensures seen == Snapshot(peers).Keys
      ensures merged == inner + Continued(inner, Tick(h, now, Snapshot(peers)))
    {
      merged, seen := inner, {};
      for i := 0 to |peers|
        invariant seen == Snapshot(peers[..i]).Keys
        invariant merged == inner + Continued(inner, Tick(h, now, Snapshot(peers[..i])))
      {
        var p := peers[i];
        seen := seen + {p.address};
        var since := if p.address in merged then merged[p.address].since else now;
        merged := merged[p.address := Streak(since, Counters(p.totalDownload, p.numHashfails))];
        SnapshotOfOneMore(peers, i);
        MergeOneMore(inner, Tick(h, now, Snapshot(peers[..i])), p);
      }
      assert peers[..|peers|] == peers;
    }

    lemma MergeOneMore(inner: map<Ip, Streak>, t: Tick, p: Peer)
      ensures var c, before := Counters(p.totalDownload, p.numHashfails), inner + Continued(inner, t);
              inner + Continued(inner, t.(peers := t.peers[p.address := c])) ==
              before[p.address := Streak(if p.address in before then before[p.address].since else t.now, c)]
    {
    }

    /** Drops the addresses not seen, folding each streak into the store in memory. */
    method DropGone(merged: map<Ip, Streak>, seen: set<Ip>, now: real) returns (kept: map<Ip, Streak>)
      modifies store
      ensures kept == map ip | ip in merged && ip in seen :: merged[ip]
      ensures store.records == Folded(old(store.records), merged, merged.Keys - seen, now)
      ensures store.dirty == (old(store.dirty) || merged.Keys - seen != {})
      ensures store.file == old(store.file) && store.lastSavedAt == old(store.lastSavedAt)
    {
      kept := merged;
      var todo := merged.Keys - seen;
      ghost var gone := todo;
      while todo != {}
        invariant todo <= gone
        invariant kept == map ip | ip in merged && ip !in gone - todo :: merged[ip]
        invariant store.records == Folded(old(store.records), merged, gone - todo, now)
        invariant store.dirty == (old(store.dirty) || gone - todo != {})
        invariant store.file == old(store.file) && store.lastSavedAt == old(store.lastSavedAt)
      {
        var ip :| ip in todo;
        var streak := kept[ip];
        kept := kept - {ip};
        FoldOneMore(old(store.records), merged, gone - todo, ip, now);
        store.RecordDisconnect(ip, streak, now, false, now);
        assert gone - (todo - {ip}) == gone - todo + {ip};
        todo := todo - {ip};
      }
      assert gone - todo == gone;
    }

    lemma FoldOneMore(records: Records, merged: map<Ip, Streak>, done: set<Ip>, ip: Ip, now: real)
      requires done <= merged.Keys && ip in merged && ip !in done
      ensures Folded(records, merged, done + {ip}, now) ==
              var before := Folded(records, merged, done, now);
              before[ip := Fold(Get(before, ip), merged[ip], now)]
    {
    }

    method Observe(h: InfoHash, peers: seq<Peer>, now: real, flushAt: real, saveAt: real)
      modifies this, store
      ensures View() == Step(old(View()), Event.Observe(Tick(h, now, Snapshot(peers)), flushAt, saveAt))
    {
      ghost var before, t := View(), Tick(h, now, Snapshot(peers));
      var inner := if h in active then active[h] else map[];
      var merged, seen := MergePeers(h, inner, peers, now);
      var kept := DropGone(merged, seen, now);
      KeptIsContinued(before, inner, merged, t);
      active := if kept == map[] then active - {h} else active[h := kept];
      assert View() == State(ActiveAfter(before.active, t), RecordsAfter(before, t),
                             before.dirty || Gone(inner, t) != {}, before.savedAt, before.file);
      store.Flush(SAVE_MIN_INTERVAL_SECONDS, flushAt, saveAt);
    }

    /** Merging then dropping keeps just the continued streaks, and folds the ones that ended. */
    lemma KeptIsContinued(s: State, inner: map<Ip, Streak>, merged: map<Ip, Streak>, t: Tick)
      requires inner == Inner(s.active, t.h)
      requires merged == inner + Continued(inner, t)
      ensures (map ip | ip in merged && ip in t.peers.Keys :: merged[ip]) == Continued(inner, t)
      ensures merged.Keys - t.peers.Keys == Gone(inner, t)
      ensures Folded(s.records, merged, Gone(inner, t), t.now) == RecordsAfter(s, t)
    {
      assert forall ip :: ip in Gone(inner, t) ==> merged[ip] == inner[ip];
    }
  }
}
