/** The local peer cache, updated in place. */
module LanPeerCache {
  import opened LanPeerSpec

  class LanPeerCacheStore {
    var entries: Entries
    var lastSavedAt: real
    /** An update the throttle held back from disk. */
    var dirty: bool
    /** lan_peer_cache.json. */
    var file: Entries
    const parse: Ip -> Parsed

    ghost function View(): State
      reads this
    {
      State(entries, file, dirty, lastSavedAt)
    }

    /** Loads the file, skipping torrents without peers, then purges. */
    constructor (file: Entries, parse: Ip -> Parsed, now: real)
      ensures View() == Started(file, now) && this.parse == parse
    {
      this.file, this.parse, dirty, lastSavedAt := file, parse, false, 0.0;
      entries := map h | h in file && file[h] != map[] :: file[h];
      new;
      PurgeExpired(now);
      EmptyTorrentsAreSkipped(file, now);
    }

    method RecordPeers(h: InfoHash, peers: seq<Peer>, now: real, purgeAt: real, monotonic: real)
      modifies this
      ensures View() == Step(old(View()), Event.RecordPeers(h, peers, now, purgeAt, monotonic), parse)
    {
      var inner := if h in entries then entries[h] else map[];
      ghost var before := inner;
      var changed := false;
      for i := 0 to |peers|
        invariant inner == before + Private(peers[..i], parse, now)
        invariant changed <==> Private(peers[..i], parse, now) != map[]
      {
        assert peers[..i + 1][..i] == peers[..i];
        var p := peers[i];
        if IsRfc1918(parse(p.ip)) {
          inner := inner[p.ip := Record(p.port, now)];
          changed := true;
          assert p.ip in Private(peers[..i + 1], parse, now);
        }
      }
      assert peers[..|peers|] == peers;
      entries := entries[h := inner];
      if !changed {
        return;
      }
      PurgeExpired(purgeAt);
      if monotonic - lastSavedAt < SAVE_MIN_INTERVAL_SECONDS {
        dirty := true;
        return;
      }
      Save();
      lastSavedAt := monotonic;
    }

    method Flush()
      modifies this
      ensures View() == Step(old(View()), Event.Flush, parse)
    {
      if dirty {
        Save();
      }
    }

    method GetPeers(h: InfoHash, now: real) returns (pairs: set<(Ip, nat)>)
      modifies this
      ensures View() == Step(old(View()), Event.GetPeers(h, now), parse)
      ensures pairs == Pairs(entries, h)
    {
      PurgeExpired(now);
      pairs := Pairs(entries, h);
    }

    method Save()
      modifies this`file, this`dirty
      ensures View() == LanPeerSpec.Save(old(View()))
    {
      file := entries;
      dirty := false;
    }

    /** Deletes expired peers torrent by torrent, and torrents left empty. */
    method PurgeExpired(now: real)
      modifies this`entries
      ensures entries == Purge(old(entries), now)
    {
      var todo := entries.Keys;
      while todo != {}
        invariant todo <= old(entries).Keys
        invariant entries == PurgedExcept(old(entries), todo, now)
      {
        var h :| h in todo;
        var inner := AliveIn(entries[h], now);
        PurgeOneMore(old(entries), todo, h, now);
        entries := if inner == map[] then entries - {h} else entries[h := inner];
        todo := todo - {h};
      }
      assert PurgedExcept(old(entries), {}, now) == Purge(old(entries), now);
    }

    /** The purge halfway: torrents in `todo` are still as they were. */
    ghost function PurgedExcept(all: Entries, todo: set<InfoHash>, now: real): Entries {
      map h | h in all && (h in todo || Alive(all[h], now) != map[]) ::
        if h in todo then all[h] else Alive(all[h], now)
    }

    lemma PurgeOneMore(all: Entries, todo: set<InfoHash>, h: InfoHash, now: real)
      requires todo <= all.Keys && h in todo
      ensures PurgedExcept(all, todo - {h}, now) ==
              if Alive(all[h], now) == map[] then PurgedExcept(all, todo, now) - {h}
              else PurgedExcept(all, todo, now)[h := Alive(all[h], now)]
    {
    }

    static method AliveIn(inner: Inner, now: real) returns (alive: Inner)
      ensures alive == Alive(inner, now)
    {
      alive := inner;
      var todo := inner.Keys;
      while todo != {}
        invariant todo <= inner.Keys
        invariant alive == map ip | ip in inner && (ip in todo || Fresh(inner[ip], now)) :: inner[ip]
      {
        var ip :| ip in todo;
        if alive[ip].lastSeen < now - MAX_AGE_SECONDS {
          alive := alive - {ip};
        }
        todo := todo - {ip};
      }
    }
  }
}
