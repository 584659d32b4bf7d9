/** The statistics store and service, updated in place. Each store method is one commit. */
module Stats {
  import opened Wrappers
  import opened StatsSpec
  import opened StatsRuns

  class StatsStore {
    var totals: Bytes
    var counters: map<InfoHash, Bytes>

    ghost function View(): Store
      reads this
    {
      Store(totals, counters)
    }

    constructor ()
      ensures View() == Store(ZERO, map[])
    {
      totals, counters := ZERO, map[];
    }

    function GetTorrentCounter(h: InfoHash): (value: Bytes)
      reads this
      ensures value == Counter(View(), h)
    {
      if h in counters then counters[h] else ZERO
    }

    method AddTotals(delta: Bytes)
      modifies this
      ensures View() == StatsSpec.AddTotals(old(View()), delta)
    {
      if delta.down <= 0 && delta.up <= 0 {
        return;
      }
      totals := Bytes(totals.down + Max(0, delta.down), totals.up + Max(0, delta.up));
    }

    method SetTorrentCounter(h: InfoHash, value: Bytes)
      modifies this
      ensures View() == SetCounter(old(View()), h, value)
    {
      counters := counters[h := value];
    }

    method ApplyFlush(delta: Bytes, values: map<InfoHash, Bytes>)
      modifies this
      ensures View() == StatsSpec.ApplyFlush(old(View()), delta, values)
    {
      if delta.down > 0 || delta.up > 0 {
        totals := Bytes(totals.down + Max(0, delta.down), totals.up + Max(0, delta.up));
      }
      var todo := values.Keys;
      while todo != {}
        invariant todo <= values.Keys
        invariant totals == Plus(old(totals), Clamp(delta))
        invariant counters == old(counters) + (map h | h in values && h !in todo :: values[h])
      {
        var h :| h in todo;
        counters := counters[h := values[h]];
        todo := todo - {h};
      }
      assert (map h | h in values && h !in todo :: values[h]) == values;
    }

    method RecordRemoval(h: InfoHash, delta: Bytes, value: Bytes)
      modifies this
      ensures View() == StatsSpec.RecordRemoval(old(View()), h, delta, value)
    {
      if delta.down > 0 || delta.up > 0 {
        totals := Bytes(totals.down + Max(0, delta.down), totals.up + Max(0, delta.up));
      }
      counters := counters[h := value];
    }
  }

  class StatsService {
    const store: StatsStore
    var current: map<InfoHash, Bytes>
    var lastSeen: map<InfoHash, Bytes>

    ghost function View(): Service
      reads this, store
    {
      Service(store.View(), current, lastSeen)
    }

    /** A start, or a restart on the same database. */
    constructor (store: StatsStore)
      ensures this.store == store && View() == Service(store.View(), map[], map[])
    {
      this.store := store;
      current, lastSeen := map[], map[];
    }

    method OnStatusUpdated(h: InfoHash, sample: Bytes)
      modifies this
      ensures View() == Step(old(View()), Status(h, sample))
    {
      current := current[h := sample];
    }

    method OnTorrentRemoved(h: InfoHash)
      modifies this, store
      ensures View() == Step(old(View()), Removed(h))
    {
      FlushTorrent(h);
      current := current - {h};
      lastSeen := lastSeen - {h};
    }

    /** Reads through to the store once, then answers from memory. */
    method LastSeenFor(h: InfoHash) returns (value: Bytes)
      modifies this`lastSeen
      ensures value == LastSeen(old(View()), h)
      ensures lastSeen == old(lastSeen)[h := value]
    {
      if h !in lastSeen {
        lastSeen := lastSeen[h := store.GetTorrentCounter(h)];
      }
      value := lastSeen[h];
      assert lastSeen == old(lastSeen)[h := value];
    }

    method FlushTorrent(h: InfoHash)
      modifies this, store
      ensures View() == FlushOne(old(View()), h)
    {
      if h !in current {
        return;
      }
      var now := current[h];
      var last := LastSeenFor(h);
      var delta := Bytes(Max(0, now.down - last.down), Max(0, now.up - last.up));
      store.RecordRemoval(h, delta, now);
      lastSeen := lastSeen[h := now];
    }

    /** One turn of the flush loop. Readings are compared raw: a reset must be written although it
        gains nothing. */
    method FlushTurn(h: InfoHash, total0: Bytes, values0: map<InfoHash, Bytes>)
      returns (total: Bytes, values: map<InfoHash, Bytes>)
      requires h in current
      modifies this`lastSeen
      ensures lastSeen == old(lastSeen)[h := current[h]]
      ensures if current[h] == LastSeen(old(View()), h) then total == total0 && values == values0
              else
                && total == Plus(total0, Gain(LastSeen(old(View()), h), current[h]))
                && values == values0[h := current[h]]
    {
      total, values := total0, values0;
      var now := current[h];
      var last := LastSeenFor(h);
      if now != last {
        total := Bytes(total.down + Max(0, now.down - last.down), total.up + Max(0, now.up - last.up));
        values := values[h := now];
      }
      lastSeen := lastSeen[h := now];
    }

    /** The loop over the torrents with a reading, in any order. */
    method Gather() returns (total: Bytes, values: map<InfoHash, Bytes>)
      modifies this`lastSeen
      ensures Gathered(old(View()), current.Keys, total, values, lastSeen)
    {
      ghost var start := View();
      total := ZERO;
      values := map[];
      var todo := current.Keys;
      ghost var done: set<InfoHash> := {};
      NothingGathered(start);
      while todo != {}
        invariant done + todo == current.Keys && done !! todo
        invariant Gathered(start, done, total, values, lastSeen)
      {
        var h :| h in todo;
        ghost var total0, values0, seen0 := total, values, lastSeen;
        total, values := FlushTurn(h, total, values);
        GatherOne(start, done, h, total0, values0, seen0, total, values);
        done := done + {h};
        todo := todo - {h};
      }
      assert done == current.Keys;
    }

    method Flush()
      modifies this, store
      ensures View() == Step(old(View()), Event.Flush)
    {
      ghost var start := View();
      var total, values := Gather();
      AllGathered(start, total, values, lastSeen);
      if values != map[] {
        store.ApplyFlush(total, values);
      }
    }
  }
}
