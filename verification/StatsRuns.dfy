/** What every history of the statistics service keeps. */
module StatsRuns {
  import opened Wrappers
  import opened StatsSpec

  /** Every cached counter equals the stored one. */
  ghost predicate CacheAgrees(s: Service) {
    forall h :: h in s.lastSeen ==> s.lastSeen[h] == Counter(s.store, h)
  }

  /** The service's state, torrent by torrent, is what the ledger says. */
  ghost predicate Matches(s: Service, history: seq<Event>, h: InfoHash) {
    && Counter(s.store, h) == Last(Flushed(history, h))
    && Sample(history, h) == (if h in s.current then Some(s.current[h]) else None)
  }

  lemma {:induction false} CacheAgreesAlways(history: seq<Event>)
    ensures CacheAgrees(Run(history))
  {
    if history == [] {
    } else {
      CacheAgreesAlways(history[..|history| - 1]);
      StepKeepsCache(Run(history[..|history| - 1]), history[|history| - 1]);
    }
  }

  lemma StepKeepsCache(s: Service, e: Event)
    requires CacheAgrees(s)
    ensures CacheAgrees(Step(s, e))
  {
    match e
    case Status(_, _) =>
    case Flush =>
      forall h ensures Counter(FlushAll(s).store, h) == if h in s.current then s.current[h] else Counter(s.store, h) {
        FlushedCounter(s, h);
      }
    case Removed(_) =>
    case Restart =>
  }

  /** A flush leaves each current reading in the store, written or not. */
  lemma FlushedCounter(s: Service, h: InfoHash)
    requires CacheAgrees(s)
    ensures Counter(FlushAll(s).store, h) == if h in s.current then s.current[h] else Counter(s.store, h)
  {
    assert h in Moved(s) <==> h in s.current && s.current[h] != LastSeen(s, h);
  }

  lemma {:induction false} MatchesAlways(history: seq<Event>, h: InfoHash)
    ensures Matches(Run(history), history, h)
  {
    if history == [] {
    } else {
      var before, e := history[..|history| - 1], history[|history| - 1];
      MatchesAlways(before, h);
      CacheAgreesAlways(before);
      StepMatches(Run(before), before, e, h);
      assert history == before + [e];
    }
  }

  lemma StepMatches(s: Service, before: seq<Event>, e: Event, h: InfoHash)
    requires CacheAgrees(s) && Matches(s, before, h)
    ensures Matches(Step(s, e), before + [e], h)
  {
    var history := before + [e];
    assert history[..|history| - 1] == before;
    FlushedCounter(s, h);
  }

  /** One torrent's credit grows by what the event makes the service flush for it. */
  lemma CreditStep(s: Service, before: seq<Event>, e: Event, h: InfoHash)
    requires CacheAgrees(s) && Matches(s, before, h)
    ensures Credit(Flushed(before + [e], h)) ==
            if Flushes(e, h) then Plus(Credit(Flushed(before, h)), Gains(s)(h)) else Credit(Flushed(before, h))
  {
    var history := before + [e];
    assert history[..|history| - 1] == before;
    if Flushes(e, h) && h in s.current {
      var readings := Flushed(before, h) + [s.current[h]];
      assert readings[..|readings| - 1] == Flushed(before, h);
    }
  }

  // ------------------------------------------------------------------ conservation

  /** What an event adds to the totals: the gains of the torrents it flushes. */
  function Added(s: Service, e: Event): InfoHash -> Bytes {
    h => if Flushes(e, h) then Gains(s)(h) else ZERO
  }

  lemma GainsNotNegative(s: Service, h: InfoHash)
    ensures Gains(s)(h).down >= 0 && Gains(s)(h).up >= 0
    ensures h !in s.current || s.current[h] == LastSeen(s, h) ==> Gains(s)(h) == ZERO
  {
  }

  lemma {:induction false} SumNotNegative(keys: set<InfoHash>, s: Service)
    ensures SumOver(keys, Gains(s)).down >= 0 && SumOver(keys, Gains(s)).up >= 0
  {
    if keys == {} {
    } else {
      GainsNotNegative(s, Pick(keys));
      SumNotNegative(keys - {Pick(keys)}, s);
    }
  }

  /** Nothing to write means nothing gained. */
  lemma {:induction false} NoMoveNoGain(keys: set<InfoHash>, s: Service)
    requires Moved(s) == map[]
    ensures SumOver(keys, Gains(s)) == ZERO
  {
    if keys == {} {
    } else {
      var h := Pick(keys);
      assert h !in Moved(s);
      GainsNotNegative(s, h);
      NoMoveNoGain(keys - {h}, s);
    }
  }

  lemma FlushTotals(s: Service, keys: set<InfoHash>)
    requires s.current.Keys <= keys
    ensures FlushAll(s).store.totals == Plus(s.store.totals, SumOver(keys, Added(s, Flush)))
  {
    SumNotNegative(s.current.Keys, s);
    if Moved(s) == map[] {
      NoMoveNoGain(s.current.Keys, s);
    }
    SumOverSame(s.current.Keys, Gains(s), Added(s, Flush));
    SumOverMore(s.current.Keys, keys, Added(s, Flush));
  }

  lemma RemovalTotals(s: Service, h: InfoHash, keys: set<InfoHash>)
    requires s.current.Keys <= keys
    ensures Remove(s, h).store.totals == Plus(s.store.totals, SumOver(keys, Added(s, Removed(h))))
  {
    var f := Added(s, Removed(h));
    GainsNotNegative(s, h);
    if h in s.current {
      forall k | k in keys - {h} ensures f(k) == ZERO {
      }
      SumOverMore({h}, keys, f);
      SumOverSplit({h}, f, h);
      assert {h} - {h} == {};
    } else {
      NothingAdded(keys, s, Removed(h));
    }
  }

  lemma NothingAdded(keys: set<InfoHash>, s: Service, e: Event)
    requires forall k :: k in s.current ==> !Flushes(e, k)
    ensures SumOver(keys, Added(s, e)) == ZERO
  {
    forall k | k in keys ensures Added(s, e)(k) == ZERO {
      GainsNotNegative(s, k);
    }
    SumOverMore({}, keys, Added(s, e));
  }

  /** The totals move by the sum of the gains of just the torrents the event flushes. */
  lemma TotalsStep(s: Service, e: Event, keys: set<InfoHash>)
    requires s.current.Keys <= keys
    ensures Step(s, e).store.totals == Plus(s.store.totals, SumOver(keys, Added(s, e)))
  {
    match e
    case Flush => FlushTotals(s, keys);
    case Removed(h) => RemovalTotals(s, h, keys);
    case Status(_, _) => NothingAdded(keys, s, e);
    case Restart => NothingAdded(keys, s, e);
  }

  lemma {:induction false} CurrentIsMentioned(history: seq<Event>)
    ensures Run(history).current.Keys <= Torrents(history)
  {
    if history == [] {
    } else {
      var before, e := history[..|history| - 1], history[|history| - 1];
      CurrentIsMentioned(before);
      assert Torrents(before) <= Torrents(history);
      if e.Status? {
        assert e in history;
      }
    }
  }

  lemma {:induction false} UnmentionedHasNoCredit(history: seq<Event>, h: InfoHash)
    requires h !in Torrents(history)
    ensures Sample(history, h) == None && Flushed(history, h) == []
  {
    if history == [] {
    } else {
      var before, e := history[..|history| - 1], history[|history| - 1];
      assert forall x :: x in before ==> x in history;
      assert e in history;
      UnmentionedHasNoCredit(before, h);
    }
  }

  /** Over any history of updates, flushes, removals, re-adds and restarts, the stored totals are the
      sum, torrent by torrent, of the positive increments between successive flushed readings. */
  lemma {:induction false} Conservation(history: seq<Event>)
    ensures Run(history).store.totals == SumOver(Torrents(history), Credits(history))
  {
    if history == [] {
      assert Torrents(history) == {};
    } else {
      var before, e := history[..|history| - 1], history[|history| - 1];
      var s, keys := Run(before), Torrents(history);
      assert history == before + [e];
      Conservation(before);
      CacheAgreesAlways(before);
      CurrentIsMentioned(before);
      assert Torrents(before) <= keys;
      TotalsStep(s, e, keys);
      forall h | h in keys - Torrents(before) ensures Credits(before)(h) == ZERO {
        UnmentionedHasNoCredit(before, h);
      }
      SumOverMore(Torrents(before), keys, Credits(before));
      forall h ensures Credits(history)(h) == Plus(Credits(before)(h), Added(s, e)(h)) {
        MatchesAlways(before, h);
        CreditStep(s, before, e, h);
      }
      SumOverAdds(keys, Credits(before), Added(s, e), Credits(history));
    }
  }

  // ------------------------------------------------------------------ in integers, each direction by itself

  /** What each torrent's download, or upload, rose by since it was last flushed: nothing if it went back. */
  ghost predicate Rises(s: Service, down: InfoHash -> int, up: InfoHash -> int) {
    forall h :: h in s.current ==>
      var now, stored := s.current[h], Counter(s.store, h);
      && down(h) == (if now.down > stored.down then now.down - stored.down else 0)
      && up(h) == (if now.up > stored.up then now.up - stored.up else 0)
  }

  lemma GainsInIntegers(s: Service, h: InfoHash, down: InfoHash -> int, up: InfoHash -> int)
    requires CacheAgrees(s) && Rises(s, down, up) && h in s.current
    ensures Gains(s)(h).down == down(h) && Gains(s)(h).up == up(h)
  {
  }

  /** Each total grew by just the rises of the torrents in memory, whose readings are stored now. */
  ghost predicate GrewByRises(s: Service, t: Service, down: InfoHash -> int, up: InfoHash -> int) {
    && t.store.totals.down == s.store.totals.down + Total(s.current.Keys, down)
    && t.store.totals.up == s.store.totals.up + Total(s.current.Keys, up)
    && forall h :: Counter(t.store, h) == if h in s.current then s.current[h] else Counter(s.store, h)
  }

  /** After any history, a flush of everything adds the rises; a torrent whose counter went back, or stood
      still, in one direction adds nothing there. */
  lemma FlushInIntegers(history: seq<Event>, down: InfoHash -> int, up: InfoHash -> int)
    requires Rises(Run(history), down, up)
    ensures GrewByRises(Run(history), Run(history + [Flush]), down, up)
  {
    CacheAgreesAlways(history);
    RunOfFlush(history);
    FlushAddsRises(Run(history), down, up);
  }

  lemma RunOfFlush(history: seq<Event>)
    ensures Run(history + [Flush]) == FlushAll(Run(history))
  {
    RunOfOneMore(history, [Flush]);
    assert history + [Flush][..0] == history;
  }

  lemma FlushAddsRises(s: Service, down: InfoHash -> int, up: InfoHash -> int)
    requires CacheAgrees(s) && Rises(s, down, up)
    ensures GrewByRises(s, FlushAll(s), down, up)
  {
    FlushOfAll(s, down, up);
    forall h ensures Counter(FlushAll(s).store, h) == if h in s.current then s.current[h] else Counter(s.store, h) {
      FlushedCounter(s, h);
    }
  }

  lemma FlushOfAll(s: Service, down: InfoHash -> int, up: InfoHash -> int)
    requires CacheAgrees(s) && Rises(s, down, up)
    ensures FlushAll(s).store.totals.down == s.store.totals.down + Total(s.current.Keys, down)
    ensures FlushAll(s).store.totals.up == s.store.totals.up + Total(s.current.Keys, up)
  {
    var added := Added(s, Flush);
    TotalsStep(s, Flush, s.current.Keys);
    forall h | h in s.current.Keys ensures added(h).down == down(h) && added(h).up == up(h) {
      GainsInIntegers(s, h, down, up);
    }
    SumOverIsTotals(s.current.Keys, added, down, up);
  }

  /** After any history, the removal of a torrent adds to each total its own rise, and nothing in a direction
      in which its counter went back. */
  lemma RemovalInIntegers(history: seq<Event>, h: InfoHash)
    requires h in Run(history).current
    ensures var s, t := Run(history), Run(history + [Removed(h)]);
            var now, stored := s.current[h], Counter(s.store, h);
            && t.store.totals.down ==
               s.store.totals.down + (if now.down > stored.down then now.down - stored.down else 0)
            && t.store.totals.up == s.store.totals.up + (if now.up > stored.up then now.up - stored.up else 0)
            && Counter(t.store, h) == now
            && forall k :: k != h ==> Counter(t.store, k) == Counter(s.store, k)
  {
    CacheAgreesAlways(history);
    RunOfOneMore(history, [Removed(h)]);
    assert history + [Removed(h)][..0] == history;
    RemovalOfOne(Run(history), h);
  }

  lemma RemovalOfOne(s: Service, h: InfoHash)
    requires CacheAgrees(s) && h in s.current
    ensures var t, now, stored := Remove(s, h), s.current[h], Counter(s.store, h);
            && t.store.totals.down ==
               s.store.totals.down + (if now.down > stored.down then now.down - stored.down else 0)
            && t.store.totals.up == s.store.totals.up + (if now.up > stored.up then now.up - stored.up else 0)
            && Counter(t.store, h) == now
            && forall k :: k != h ==> Counter(t.store, k) == Counter(s.store, k)
  {
  }

  /** The positive differences between successive numbers, counting from zero, added up. */
  function RisesOf(counter: seq<int>): int {
    if counter == [] then 0 else
      var now, before := counter[|counter| - 1], counter[..|counter| - 1];
      var last := if before == [] then 0 else before[|before| - 1];
      RisesOf(before) + if now > last then now - last else 0
  }

  function Downs(readings: seq<Bytes>): seq<int> {
    seq(|readings|, i requires 0 <= i < |readings| => readings[i].down)
  }

  function Ups(readings: seq<Bytes>): seq<int> {
    seq(|readings|, i requires 0 <= i < |readings| => readings[i].up)
  }

  lemma {:induction false} CreditInIntegers(readings: seq<Bytes>)
    ensures Credit(readings) == Bytes(RisesOf(Downs(readings)), RisesOf(Ups(readings)))
  {
    if readings == [] {
    } else {
      var before := readings[..|readings| - 1];
      CreditInIntegers(before);
      assert Downs(readings)[..|before|] == Downs(before) && Ups(readings)[..|before|] == Ups(before);
    }
  }

  /** The same conservation, each direction by itself and in integers: over any history a total is the sum,
      torrent by torrent, of what the flushed readings rose by. */
  lemma ConservationInIntegers(history: seq<Event>)
    ensures Run(history).store.totals.down == Total(Torrents(history), h => RisesOf(Downs(Flushed(history, h))))
    ensures Run(history).store.totals.up == Total(Torrents(history), h => RisesOf(Ups(Flushed(history, h))))
  {
    Conservation(history);
    var down: InfoHash -> int := h => RisesOf(Downs(Flushed(history, h)));
    var up: InfoHash -> int := h => RisesOf(Ups(Flushed(history, h)));
    forall h ensures Credits(history)(h).down == down(h) && Credits(history)(h).up == up(h) {
      CreditInIntegers(Flushed(history, h));
    }
    SumOverIsTotals(Torrents(history), Credits(history), down, up);
  }

  // ------------------------------------------------------------------ what the ledger says

  /** The last event at which h is reported, with no removal of it and no restart since. */
  ghost predicate LastReport(history: seq<Event>, h: InfoHash, i: int) {
    && 0 <= i < |history| && history[i].Status? && history[i].h == h
    && forall j :: i < j < |history| ==>
         !history[j].Restart? && (history[j].Status? || history[j].Removed? ==> history[j].h != h)
  }

  /** A reading is in memory exactly if it was reported and neither a removal nor a restart came since; it is
      the last one reported. */
  lemma PendingIsLastReport(history: seq<Event>, h: InfoHash)
    ensures h in Run(history).current <==> exists i :: LastReport(history, h, i)
    ensures forall i :: LastReport(history, h, i) ==>
              h in Run(history).current && Run(history).current[h] == history[i].sample
  {
    SampleIsLastReport(history, h);
    MatchesAlways(history, h);
  }

  lemma {:induction false} SampleIsLastReport(history: seq<Event>, h: InfoHash)
    ensures Sample(history, h).Some? <==> exists i :: LastReport(history, h, i)
    ensures forall i :: LastReport(history, h, i) ==> Sample(history, h) == Some(history[i].sample)
  {
    if history == [] {
    } else {
      var n := |history| - 1;
      var before, e := history[..n], history[n];
      SampleIsLastReport(before, h);
      if e.Status? && e.h == h {
        assert LastReport(history, h, n);
      }
      forall i | 0 <= i < n ensures LastReport(history, h, i) <==>
          LastReport(before, h, i) && !e.Restart? && (e.Status? || e.Removed? ==> e.h != h) {
        LaterReport(history, h, i);
      }
    }
  }

  lemma LaterReport(history: seq<Event>, h: InfoHash, i: int)
    requires 0 <= i < |history| - 1
    ensures var n := |history| - 1; var e := history[n];
            LastReport(history, h, i) <==>
            LastReport(history[..n], h, i) && !e.Restart? && (e.Status? || e.Removed? ==> e.h != h)
  {
    var n := |history| - 1;
    assert forall j :: 0 <= j < n ==> history[..n][j] == history[j];
  }

  // ------------------------------------------------------------------ no byte counted twice

  /** Readings of a counter that never went back, from a non-negative start. */
  ghost predicate NeverResets(readings: seq<Bytes>) {
    && (forall i :: 0 <= i < |readings| ==> readings[i].down >= 0 && readings[i].up >= 0)
    && forall i, j :: 0 <= i < j < |readings| ==>
         readings[i].down <= readings[j].down && readings[i].up <= readings[j].up
  }

  lemma {:induction false} CreditTelescopes(readings: seq<Bytes>)
    requires NeverResets(readings)
    ensures Credit(readings) == Last(readings)
  {
    if readings == [] {
    } else {
      CreditTelescopes(readings[..|readings| - 1]);
    }
  }

  function LastReadings(history: seq<Event>): InfoHash -> Bytes {
    h => Last(Flushed(history, h))
  }

  /** If no counter was ever reset, each torrent counts once: the totals are the last flushed readings. */
  lemma NoByteCountedTwice(history: seq<Event>)
    requires forall h :: h in Torrents(history) ==> NeverResets(Flushed(history, h))
    ensures Run(history).store.totals == SumOver(Torrents(history), LastReadings(history))
  {
    Conservation(history);
    forall h | h in Torrents(history) ensures Credits(history)(h) == LastReadings(history)(h) {
      CreditTelescopes(Flushed(history, h));
    }
    SumOverSame(Torrents(history), Credits(history), LastReadings(history));
  }

  // ------------------------------------------------------------------ the cache is invisible

  /** The service without its cache: it asks the store for every counter. */
  ghost function StepUncached(s: Service, e: Event): Service
    requires s.lastSeen == map[]
  {
    Step(s, e).(lastSeen := map[])
  }

  ghost function RunUncached(history: seq<Event>): (s: Service)
    ensures s.lastSeen == map[]
  {
    if history == [] then FRESH
    else StepUncached(RunUncached(history[..|history| - 1]), history[|history| - 1])
  }

  lemma StepIgnoresCache(s: Service, e: Event)
    requires CacheAgrees(s)
    ensures Step(s, e).(lastSeen := map[]) == StepUncached(s.(lastSeen := map[]), e)
  {
    var bare := s.(lastSeen := map[]);
    forall h ensures LastSeen(s, h) == LastSeen(bare, h) && Gains(s)(h) == Gains(bare)(h) {
    }
    assert Moved(s) == Moved(bare);
    SumOverSame(s.current.Keys, Gains(s), Gains(bare));
  }

  /** On every history the caching service leaves the very store, and the pending readings, that a
      service reading the store every time would leave. */
  lemma {:induction false} CacheIsInvisible(history: seq<Event>)
    ensures Run(history).(lastSeen := map[]) == RunUncached(history)
  {
    if history == [] {
    } else {
      var before := history[..|history| - 1];
      CacheIsInvisible(before);
      CacheAgreesAlways(before);
      StepIgnoresCache(Run(before), history[|history| - 1]);
    }
  }

  // ------------------------------------------------------------------ a restart after a flush is invisible

  /** Same totals and counters; `s` may still hold readings that are already in the store. */
  ghost predicate SameEffect(s: Service, t: Service) {
    && CacheAgrees(s) && CacheAgrees(t)
    && s.store.totals == t.store.totals
    && (forall h :: Counter(s.store, h) == Counter(t.store, h))
    && (forall h :: h in t.current ==> h in s.current && s.current[h] == t.current[h])
    && (forall h :: h in s.current && h !in t.current ==> s.current[h] == Counter(s.store, h))
  }

  lemma SameEffectGains(s: Service, t: Service, h: InfoHash)
    requires SameEffect(s, t)
    ensures Gains(s)(h) == Gains(t)(h)
  {
  }

  lemma SameAdded(s: Service, t: Service, e: Event, keys: set<InfoHash>)
    requires SameEffect(s, t)
    ensures SumOver(keys, Added(s, e)) == SumOver(keys, Added(t, e))
  {
    forall h | h in keys ensures Added(s, e)(h) == Added(t, e)(h) {
      SameEffectGains(s, t, h);
    }
    SumOverSame(keys, Added(s, e), Added(t, e));
  }

  lemma SameTotalsStep(s: Service, t: Service, e: Event)
    requires SameEffect(s, t)
    ensures Step(s, e).store.totals == Step(t, e).store.totals
  {
    var keys := s.current.Keys + t.current.Keys;
    TotalsStep(s, e, keys);
    TotalsStep(t, e, keys);
    SameAdded(s, t, e, keys);
  }

  lemma SameCounterStep(s: Service, t: Service, e: Event, h: InfoHash)
    requires SameEffect(s, t)
    ensures Counter(Step(s, e).store, h) == Counter(Step(t, e).store, h)
    ensures var s', t' := Step(s, e), Step(t, e);
            && (h in t'.current ==> h in s'.current && s'.current[h] == t'.current[h])
            && (h in s'.current && h !in t'.current ==> s'.current[h] == Counter(s'.store, h))
  {
    match e
    case Flush =>
      FlushedCounter(s, h);
      FlushedCounter(t, h);
    case Removed(r) =>
      RemovedCounter(s, r, h);
      RemovedCounter(t, r, h);
    case Status(_, _) =>
    case Restart =>
  }

  lemma RemovedCounter(s: Service, r: InfoHash, h: InfoHash)
    ensures Counter(Remove(s, r).store, h) == if h == r && h in s.current then s.current[h] else Counter(s.store, h)
  {
  }

  lemma SameEffectStep(s: Service, t: Service, e: Event)
    requires SameEffect(s, t)
    ensures SameEffect(Step(s, e), Step(t, e))
  {
    StepKeepsCache(s, e);
    StepKeepsCache(t, e);
    SameTotalsStep(s, t, e);
    var s', t' := Step(s, e), Step(t, e);
    forall h
      ensures Counter(s'.store, h) == Counter(t'.store, h)
      ensures h in t'.current ==> h in s'.current && s'.current[h] == t'.current[h]
      ensures h in s'.current && h !in t'.current ==> s'.current[h] == Counter(s'.store, h)
    {
      SameCounterStep(s, t, e, h);
    }
  }

  lemma RunOfOneMore(s: seq<Event>, more: seq<Event>)
    requires more != []
    ensures Run(s + more) == Step(Run(s + more[..|more| - 1]), more[|more| - 1])
  {
    assert (s + more)[..|s + more| - 1] == s + more[..|more| - 1];
  }

  /** The events from a given state on. */
  ghost function RunFrom(s: Service, events: seq<Event>): Service {
    if events == [] then s else Step(RunFrom(s, events[..|events| - 1]), events[|events| - 1])
  }

  lemma {:induction false} RunSplits(history: seq<Event>, more: seq<Event>)
    ensures Run(history + more) == RunFrom(Run(history), more)
  {
    if more == [] {
      assert history + more == history;
    } else {
      RunSplits(history, more[..|more| - 1]);
      RunOfOneMore(history, more);
    }
  }

  lemma {:induction false} SameEffectRun(s: Service, t: Service, more: seq<Event>)
    requires SameEffect(s, t)
    ensures SameEffect(RunFrom(s, more), RunFrom(t, more))
  {
    if more == [] {
    } else {
      var init := more[..|more| - 1];
      SameEffectRun(s, t, init);
      SameEffectStep(RunFrom(s, init), RunFrom(t, init), more[|more| - 1]);
    }
  }

  /** The same totals and the same counters. */
  ghost predicate SameStore(s: Service, t: Service) {
    s.store.totals == t.store.totals && forall h :: Counter(s.store, h) == Counter(t.store, h)
  }

  // ------------------------------------------------------------------ a crash at any moment

  predicate AllReports(reports: seq<Event>) {
    forall e :: e in reports ==> e.Status?
  }

  /** Each reading in memory is reported again or was in the store already. */
  ghost predicate NothingLost(s: Service, reports: seq<Event>) {
    forall h :: h in s.current && h !in Torrents(reports) ==> s.current[h] == Counter(s.store, h)
  }

  /** What readings leave, on a service that kept its memory and on one that crashed just before them. */
  ghost predicate Reported(kept: Service, crashed: Service, start: Service, reports: seq<Event>) {
    && kept.store == crashed.store == start.store
    && crashed.current.Keys == Torrents(reports) && kept.current.Keys == start.current.Keys + Torrents(reports)
    && (forall h :: h in crashed.current ==> kept.current[h] == crashed.current[h])
    && forall h :: h in start.current && h !in Torrents(reports) ==> kept.current[h] == start.current[h]
  }

  lemma OneMoreReport(
    kept: Service, crashed: Service, start: Service, before: seq<Event>, h: InfoHash, sample: Bytes)
    requires Reported(kept, crashed, start, before)
    ensures Reported(Step(kept, Status(h, sample)), Step(crashed, Status(h, sample)), start,
                     before + [Status(h, sample)])
  {
    MentionedInOneMore(before, Status(h, sample));
  }

  lemma MentionedInOneMore(before: seq<Event>, e: Event)
    ensures Torrents(before + [e]) == Torrents(before) + if e.Status? then {e.h} else {}
  {
    forall h ensures h in Torrents(before + [e]) <==> h in Torrents(before) || (e.Status? && h == e.h) {
      if e.Status? && h == e.h {
        assert e in before + [e];
      }
      if h in Torrents(before) {
        var x :| x in before && x.Status? && x.h == h;
        assert x in before + [e];
      }
    }
  }

  lemma {:induction false} ReportsRun(history: seq<Event>, reports: seq<Event>)
    requires AllReports(reports)
    ensures Reported(Run(history + reports), Run(history + [Restart] + reports), Run(history), reports)
  {
    if reports == [] {
      assert history + reports == history && history + [Restart] + reports == history + [Restart];
      RunOfOneMore(history, [Restart]);
      assert history + [Restart][..0] == history;
      assert Torrents(reports) == {};
    } else {
      var before, e := reports[..|reports| - 1], reports[|reports| - 1];
      assert e in reports && reports == before + [e];
      ReportsRun(history, before);
      RunOfOneMore(history, reports);
      RunOfOneMore(history + [Restart], reports);
      OneMoreReport(Run(history + before), Run(history + [Restart] + before), Run(history), before, e.h, e.sample);
    }
  }

  /** Dropping all memory at any moment, with readings not flushed yet, can never be noticed in the store,
      whatever events follow, exactly if the readings that come in next cover the ones that were lost. */
  lemma CrashIsInvisibleIff(history: seq<Event>, reports: seq<Event>)
    requires AllReports(reports)
    ensures (forall more :: SameStore(Run(history + reports + more), Run(history + [Restart] + reports + more))) <==>
            NothingLost(Run(history), reports)
  {
    if NothingLost(Run(history), reports) {
      forall more ensures SameStore(Run(history + reports + more), Run(history + [Restart] + reports + more)) {
        CoveredCrash(history, reports, more);
      }
    } else {
      UncoveredCrash(history, reports);
      assert !SameStore(Run(history + reports + [Flush]), Run(history + [Restart] + reports + [Flush]));
    }
  }

  lemma CoveredCrash(history: seq<Event>, reports: seq<Event>, more: seq<Event>)
    requires AllReports(reports) && NothingLost(Run(history), reports)
    ensures SameStore(Run(history + reports + more), Run(history + [Restart] + reports + more))
  {
    ReportsRun(history, reports);
    CacheAgreesAlways(history + reports);
    CacheAgreesAlways(history + [Restart] + reports);
    SameEffectRun(Run(history + reports), Run(history + [Restart] + reports), more);
    RunSplits(history + reports, more);
    RunSplits(history + [Restart] + reports, more);
  }

  lemma UncoveredCrash(history: seq<Event>, reports: seq<Event>)
    requires AllReports(reports) && !NothingLost(Run(history), reports)
    ensures !SameStore(Run(history + reports + [Flush]), Run(history + [Restart] + reports + [Flush]))
  {
    var h :| h in Run(history).current && h !in Torrents(reports)
             && Run(history).current[h] != Counter(Run(history).store, h);
    ReportsRun(history, reports);
    FlushedLast(history + reports, h);
    FlushedLast(history + [Restart] + reports, h);
  }

  lemma FlushedLast(history: seq<Event>, h: InfoHash)
    ensures var s := Run(history);
            Counter(Run(history + [Flush]).store, h) == if h in s.current then s.current[h] else Counter(s.store, h)
  {
    CacheAgreesAlways(history);
    RunOfOneMore(history, [Flush]);
    assert history + [Flush][..0] == history;
    FlushedCounter(Run(history), h);
  }

  /** In particular right after a flush: nothing needs to be reported again. */
  lemma RestartAfterFlushIsInvisible(history: seq<Event>, more: seq<Event>)
    ensures SameStore(Run(history + [Flush] + more), Run(history + [Flush] + [Restart] + more))
  {
    var flushed := history + [Flush];
    CacheAgreesAlways(history);
    RunOfOneMore(history, [Flush]);
    assert history + [Flush][..0] == history;
    forall h | h in Run(flushed).current ensures Run(flushed).current[h] == Counter(Run(flushed).store, h) {
      FlushedCounter(Run(history), h);
    }
    CoveredCrash(flushed, [], more);
    assert flushed + [] == flushed && flushed + [Restart] + [] == flushed + [Restart];
  }

  /** At any moment, with whatever reading pending, a removal leaves what the flush of its torrent alone
      would leave: that it also forgets the torrent never shows in the store, whatever follows. */
  lemma RemovalForgetsInvisibly(history: seq<Event>, h: InfoHash, more: seq<Event>)
    ensures SameStore(RunFrom(FlushOne(Run(history), h), more), Run(history + [Removed(h)] + more))
  {
    CacheAgreesAlways(history);
    RunOfOneMore(history, [Removed(h)]);
    assert history + [Removed(h)][..0] == history;
    ForgettingHasNoEffect(Run(history), h);
    SameEffectRun(FlushOne(Run(history), h), Remove(Run(history), h), more);
    RunSplits(history + [Removed(h)], more);
  }

  lemma ForgettingHasNoEffect(s: Service, h: InfoHash)
    requires CacheAgrees(s)
    ensures SameEffect(FlushOne(s, h), Remove(s, h))
  {
  }

  /** After a flush of everything a removal has nothing left to flush. */
  lemma RemovalAfterFlushIsInvisible(history: seq<Event>, h: InfoHash, more: seq<Event>)
    ensures SameStore(Run(history + [Flush] + more), Run(history + [Flush] + [Removed(h)] + more))
  {
    var flushed := history + [Flush];
    CacheAgreesAlways(history);
    CacheAgreesAlways(flushed);
    RunOfOneMore(history, [Flush]);
    assert history + [Flush][..0] == history;
    forall k | k in Run(flushed).current ensures Run(flushed).current[k] == Counter(Run(flushed).store, k) {
      FlushedCounter(Run(history), k);
    }
    FlushedAgainHasNoEffect(Run(flushed), h);
    SameEffectRun(Run(flushed), FlushOne(Run(flushed), h), more);
    RunSplits(flushed, more);
    RemovalForgetsInvisibly(flushed, h, more);
  }

  lemma FlushedAgainHasNoEffect(s: Service, h: InfoHash)
    requires CacheAgrees(s) && (h in s.current ==> s.current[h] == Counter(s.store, h))
    ensures SameEffect(s, FlushOne(s, h))
  {
    if h in s.current {
      GainsNotNegative(s, h);
      PlusZero(s.store.totals);
    }
  }

  // ------------------------------------------------------------------ a reading lost in a crash

  /** The ledger of a torrent over two stretches with a crash between them. */
  lemma {:induction false} FlushedAfterCrash(history: seq<Event>, more: seq<Event>, h: InfoHash)
    ensures Sample(history + [Restart] + more, h) == Sample(more, h)
    ensures Flushed(history + [Restart] + more, h) == Flushed(history, h) + Flushed(more, h)
  {
    var crashed := history + [Restart];
    if more == [] {
      assert crashed + more == crashed && crashed[..|crashed| - 1] == history;
    } else {
      var init := more[..|more| - 1];
      assert (crashed + more)[..|crashed + more| - 1] == crashed + init;
      FlushedAfterCrash(history, init, h);
    }
  }

  /** Without the crash, some flushes more of the old reading, and only until the first new one. */
  lemma {:induction false} FlushedWithoutCrash(history: seq<Event>, more: seq<Event>, h: InfoHash)
    returns (extra: seq<Bytes>)
    ensures Flushed(history + more, h) == Flushed(history, h) + extra + Flushed(more, h)
    ensures Sample(more, h).Some? ==> Sample(history + more, h) == Sample(more, h)
    ensures Sample(more, h).None? && Sample(history + more, h).Some? ==>
              Flushed(more, h) == [] && Sample(history + more, h) == Sample(history, h)
    ensures Sample(history, h).None? ==> extra == []
  {
    if more == [] {
      extra := [];
      assert history + more == history;
    } else {
      var init, e := more[..|more| - 1], more[|more| - 1];
      assert (history + more)[..|history + more| - 1] == history + init;
      extra := FlushedWithoutCrash(history, init, h);
      if Flushes(e, h) && Sample(init, h).None? && Sample(history + init, h).Some? {
        extra := extra + [Sample(history + init, h).value];
      }
    }
  }

  lemma SublistNeverResets(first: seq<Bytes>, extra: seq<Bytes>, last: seq<Bytes>)
    requires NeverResets(first + extra + last)
    ensures NeverResets(first + last)
  {
    var all, less := first + extra + last, first + last;
    var at := (i: int) => if i < |first| then i else i + |extra|;
    assert forall i :: 0 <= i < |less| ==> less[i] == all[at(i)];
    forall i | 0 <= i < |less| ensures less[i].down >= 0 && less[i].up >= 0 {
      assert less[i] == all[at(i)];
    }
    forall i, j | 0 <= i < j < |less| ensures less[i].down <= less[j].down && less[i].up <= less[j].up {
      assert less[i] == all[at(i)] && less[j] == all[at(j)];
    }
  }

  /** One torrent over a crash: both ledgers end on the same reading if it was reported and flushed again,
      or had nothing in memory. */
  lemma SameLastReading(history: seq<Event>, more: seq<Event>, h: InfoHash)
    requires NeverResets(Flushed(history + more, h))
    requires Sample(history, h).Some? ==> Flushed(more, h) != []
    ensures NeverResets(Flushed(history + [Restart] + more, h))
    ensures Last(Flushed(history + more, h)) == Last(Flushed(history + [Restart] + more, h))
  {
    FlushedAfterCrash(history, more, h);
    var extra := FlushedWithoutCrash(history, more, h);
    var first, last := Flushed(history, h), Flushed(more, h);
    SublistNeverResets(first, extra, last);
    assert extra == [] ==> first + extra + last == first + last;
  }

  lemma SameTorrents(history: seq<Event>, more: seq<Event>)
    ensures Torrents(history + [Restart] + more) == Torrents(history + more)
  {
    var crashed, kept := history + [Restart] + more, history + more;
    forall e: Event | e.Status? ensures e in crashed <==> e in kept {
    }
  }

  lemma PendingIsSample(history: seq<Event>, h: InfoHash)
    ensures h in Run(history).current <==> Sample(history, h).Some?
  {
    MatchesAlways(history, h);
  }

  /** A crash loses no byte, whatever was pending and however the events go on: if no counter was reset and
      each torrent with a reading in memory is reported and flushed again afterwards, the totals and the
      counters are those of the run without the crash. */
  lemma LostReadingIsRecovered(history: seq<Event>, more: seq<Event>)
    requires forall h :: NeverResets(Flushed(history + more, h))
    requires forall h :: h in Run(history).current ==> Flushed(more, h) != []
    ensures SameStore(Run(history + more), Run(history + [Restart] + more))
  {
    var kept, crashed := history + more, history + [Restart] + more;
    forall h
      ensures NeverResets(Flushed(crashed, h)) && LastReadings(kept)(h) == LastReadings(crashed)(h)
      ensures Counter(Run(kept).store, h) == Counter(Run(crashed).store, h)
    {
      PendingIsSample(history, h);
      SameLastReading(history, more, h);
      MatchesAlways(kept, h);
      MatchesAlways(crashed, h);
    }
    SameTorrents(history, more);
    NoByteCountedTwice(kept);
    NoByteCountedTwice(crashed);
    SumOverSame(Torrents(kept), LastReadings(kept), LastReadings(crashed));
  }

  // ------------------------------------------------------------------ the flush loop

  /** The counters to write, and the cache, once the torrents `done` have been gone through. */
  function MovedIn(start: Service, done: set<InfoHash>): map<InfoHash, Bytes> {
    map h | h in Moved(start) && h in done :: start.current[h]
  }

  function SeenAfter(start: Service, done: set<InfoHash>): map<InfoHash, Bytes> {
    start.lastSeen + map h | h in start.current && h in done :: start.current[h]
  }

  /** One turn of the loop, in whichever order the torrents come. */
  lemma GatherTotal(start: Service, done: set<InfoHash>, h: InfoHash)
    requires h in start.current && h !in done
    ensures SumOver(done + {h}, Gains(start)) ==
            if start.current[h] == LastSeen(start, h) then SumOver(done, Gains(start))
            else Plus(SumOver(done, Gains(start)), Gain(LastSeen(start, h), start.current[h]))
  {
    var gains := Gains(start);
    SumOfOneMore(done, gains, h);
    GainsNotNegative(start, h);
    PlusZero(SumOver(done, gains));
  }

  lemma PlusZero(a: Bytes)
    ensures Plus(a, ZERO) == a
  {
  }

  lemma SumOfOneMore(keys: set<InfoHash>, f: InfoHash -> Bytes, k: InfoHash)
    requires k !in keys
    ensures SumOver(keys + {k}, f) == Plus(SumOver(keys, f), f(k))
  {
    SumOverSplit(keys + {k}, f, k);
    assert keys + {k} - {k} == keys;
  }

  lemma GatherValues(start: Service, done: set<InfoHash>, h: InfoHash)
    requires h in start.current && h !in done
    ensures MovedIn(start, done + {h}) ==
            if start.current[h] == LastSeen(start, h) then MovedIn(start, done)
            else MovedIn(start, done)[h := start.current[h]]
  {
  }

  lemma GatherSeen(start: Service, done: set<InfoHash>, h: InfoHash)
    requires h in start.current && h !in done
    ensures SeenAfter(start, done + {h}) == SeenAfter(start, done)[h := start.current[h]]
    ensures h in SeenAfter(start, done) <==> h in start.lastSeen
    ensures h in start.lastSeen ==> SeenAfter(start, done)[h] == start.lastSeen[h]
  {
  }

  ghost predicate Gathered(
    start: Service, done: set<InfoHash>, total: Bytes, values: map<InfoHash, Bytes>, seen: map<InfoHash, Bytes>)
  {
    total == SumOver(done, Gains(start)) && values == MovedIn(start, done) && seen == SeenAfter(start, done)
  }

  lemma NothingGathered(start: Service)
    ensures Gathered(start, {}, ZERO, map[], start.lastSeen)
  {
  }

  lemma GatherOne(
    start: Service, done: set<InfoHash>, h: InfoHash,
    total0: Bytes, values0: map<InfoHash, Bytes>, seen0: map<InfoHash, Bytes>,
    total: Bytes, values: map<InfoHash, Bytes>)
    requires h in start.current && h !in done && Gathered(start, done, total0, values0, seen0)
    requires var now, last := start.current[h], LastSeen(Service(start.store, start.current, seen0), h);
             if now == last then total == total0 && values == values0
             else total == Plus(total0, Gain(last, now)) && values == values0[h := now]
    ensures Gathered(start, done + {h}, total, values, seen0[h := start.current[h]])
  {
    GatherTotal(start, done, h);
    GatherValues(start, done, h);
    GatherSeen(start, done, h);
  }

  /** The finished loop has gathered just what `FlushAll` writes. */
  lemma AllGathered(start: Service, total: Bytes, values: map<InfoHash, Bytes>, seen: map<InfoHash, Bytes>)
    requires Gathered(start, start.current.Keys, total, values, seen)
    ensures FlushAll(start) ==
            Service(if values == map[] then start.store else ApplyFlush(start.store, total, values),
                    start.current, seen)
  {
    assert MovedIn(start, start.current.Keys) == Moved(start);
    assert SeenAfter(start, start.current.Keys) == start.lastSeen + start.current;
  }
}
