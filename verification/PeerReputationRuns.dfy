/** The nested index and the throttled store, run over any sequence of observations and flushes. */
module PeerReputationRuns {
  import opened PeerReputationSpec

  /** The tracker's index, the store's memory and the file. */
  datatype State = State(active: Active, records: Records, dirty: bool, savedAt: real, file: Records)

  /** Clock readings are part of the event: when the flush looked at the clock and when a save ended. */
  datatype Event =
    | Observe(tick: Tick, flushAt: real, saveAt: real)
    | Flush(flushAt: real, saveAt: real)

  function Inner(active: Active, h: InfoHash): map<Ip, Streak> {
    if h in active then active[h] else map[]
  }

  /** The inner map once the snapshot has been merged in, and the addresses it misses dropped. */
  function Continued(inner: map<Ip, Streak>, t: Tick): map<Ip, Streak> {
    map ip | ip in t.peers :: Streak(if ip in inner then inner[ip].since else t.now, t.peers[ip])
  }

  function Gone(inner: map<Ip, Streak>, t: Tick): set<Ip> {
    inner.Keys - t.peers.Keys
  }

  function ActiveAfter(active: Active, t: Tick): Active {
    var inner := Continued(Inner(active, t.h), t);
    if inner == map[] then active - {t.h} else active[t.h := inner]
  }

  /** The records with the streaks of the addresses `gone` folded in. */
  function Folded(records: Records, inner: map<Ip, Streak>, gone: set<Ip>, now: real): Records
    requires gone <= inner.Keys
  {
    map ip | ip in records.Keys + gone ::
      if ip in gone then Fold(Get(records, ip), inner[ip], now) else records[ip]
  }

  function RecordsAfter(s: State, t: Tick): Records {
    Folded(s.records, Inner(s.active, t.h), Gone(Inner(s.active, t.h), t), t.now)
  }

  /** A throttled write: nothing changed, or the last write is too young. */
  function Flushed(s: State, minInterval: real, flushAt: real, saveAt: real): State {
    if !s.dirty || flushAt - s.savedAt < minInterval then s
    else s.(file := s.records, dirty := false, savedAt := saveAt)
  }

  function Step(s: State, e: Event): State {
    match e
    case Observe(t, flushAt, saveAt) =>
      var changed := Gone(Inner(s.active, t.h), t) != {};
      Flushed(State(ActiveAfter(s.active, t), RecordsAfter(s, t), s.dirty || changed, s.savedAt, s.file),
              SAVE_MIN_INTERVAL_SECONDS, flushAt, saveAt)
    case Flush(flushAt, saveAt) => Flushed(s, 0.0, flushAt, saveAt)
  }

  /** A start that loaded `file`. */
  function Started(file: Records): State { State(map[], file, false, 0.0, file) }

  function Run(file: Records, events: seq<Event>): State {
    if events == [] then Started(file)
    else Step(Run(file, events[..|events| - 1]), events[|events| - 1])
  }

  function Ticks(events: seq<Event>): seq<Tick> {
    if events == [] then [] else
      var before, e := Ticks(events[..|events| - 1]), events[|events| - 1];
      if e.Observe? then before + [e.tick] else before
  }

  // ------------------------------------------------------------------ refinement of the flat folds

  /** The index, torrent by torrent, is the flat streaks; no inner map is empty. */
  ghost predicate IndexMatches(active: Active, history: seq<Tick>) {
    && (forall h :: h in active ==> active[h] != map[])
    && forall h, ip :: Get(Inner(active, h), ip) == StreakOf(history, h, ip)
  }

  ghost predicate RecordsMatch(file: Records, records: Records, history: seq<Tick>) {
    forall ip :: Get(records, ip) == RecordOf(Get(file, ip), history, ip)
  }

  lemma IndexStep(active: Active, history: seq<Tick>, t: Tick)
    requires IndexMatches(active, history)
    ensures IndexMatches(ActiveAfter(active, t), history + [t])
  {
    var all := history + [t];
    assert all[..|all| - 1] == history;
    var inner := Continued(Inner(active, t.h), t);
    forall h, ip ensures Get(Inner(ActiveAfter(active, t), h), ip) == StreakOf(all, h, ip) {
      assert Get(Inner(active, h), ip) == StreakOf(history, h, ip);
      assert Inner(ActiveAfter(active, t), h) == if h == t.h then inner else Inner(active, h);
    }
  }

  lemma RecordsStep(file: Records, s: State, history: seq<Tick>, t: Tick)
    requires IndexMatches(s.active, history) && RecordsMatch(file, s.records, history)
    ensures RecordsMatch(file, RecordsAfter(s, t), history + [t])
  {
    var all := history + [t];
    assert all[..|all| - 1] == history;
    forall ip ensures Get(RecordsAfter(s, t), ip) == RecordOf(Get(file, ip), all, ip) {
      assert Get(Inner(s.active, t.h), ip) == StreakOf(history, t.h, ip);
      assert Get(s.records, ip) == RecordOf(Get(file, ip), history, ip);
    }
  }

  /** After any events, index and records are the folds over the flat (torrent, address) history. */
  lemma {:induction false} RefinesFlatHistory(file: Records, events: seq<Event>)
    ensures var s, history := Run(file, events), Ticks(events);
            IndexMatches(s.active, history) && RecordsMatch(file, s.records, history)
  {
    if events == [] {
    } else {
      var before, e := events[..|events| - 1], events[|events| - 1];
      RefinesFlatHistory(file, before);
      var s := Run(file, before);
      if e.Observe? {
        IndexStep(s.active, Ticks(before), e.tick);
        RecordsStep(file, s, Ticks(before), e.tick);
      }
    }
  }

  /** The index holds just the addresses of each torrent's last snapshot. */
  lemma IndexIsLastSnapshot(file: Records, events: seq<Event>, h: InfoHash, k: int)
    requires LastTick(Ticks(events), h, |Ticks(events)|, k)
    ensures Inner(Run(file, events).active, h).Keys == Ticks(events)[k].peers.Keys
  {
    var history := Ticks(events);
    RefinesFlatHistory(file, events);
    forall ip ensures ip in Inner(Run(file, events).active, h) <==> ip in history[k].peers {
      assert Get(Inner(Run(file, events).active, h), ip) == StreakOf(history, h, ip);
      StreakMeaning(history, h, ip);
    }
  }

  lemma StepKeepsOtherTorrents(s: State, e: Event, h: InfoHash)
    requires e.Observe? ==> e.tick.h != h
    ensures Inner(Step(s, e).active, h) == Inner(s.active, h)
  {
  }

  /** Whatever happens to other torrents, this one's streaks run on. */
  lemma {:induction false} OtherTorrentsKeepTheirStreaks(
    file: Records, events: seq<Event>, more: seq<Event>, h: InfoHash)
    requires forall e :: e in more && e.Observe? ==> e.tick.h != h
    ensures Inner(Run(file, events + more).active, h) == Inner(Run(file, events).active, h)
  {
    if more == [] {
      assert events + more == events;
    } else {
      var init, e := more[..|more| - 1], more[|more| - 1];
      assert (events + more)[..|events + more| - 1] == events + init && e in more;
      assert forall x :: x in init ==> x in more;
      OtherTorrentsKeepTheirStreaks(file, events, init, h);
      StepKeepsOtherTorrents(Run(file, events + init), e, h);
    }
  }

  // ------------------------------------------------------------------ the file

  /** The file holds the records as of some earlier point of the history. */
  ghost predicate FileIsPrefix(file: Records, now: Records, history: seq<Tick>, k: nat) {
    k <= |history| && RecordsMatch(file, now, history[..k])
  }

  /** A crash at any point leaves a file that is exact for a prefix of the history; the prefix is the
      whole history whenever nothing is pending. */
  lemma {:induction false} FileIsExactForAPrefix(file: Records, events: seq<Event>) returns (k: nat)
    ensures FileIsPrefix(file, Run(file, events).file, Ticks(events), k)
    ensures !Run(file, events).dirty ==> Run(file, events).file == Run(file, events).records
  {
    if events == [] {
      k := 0;
    } else {
      var before, e := events[..|events| - 1], events[|events| - 1];
      k := FileIsExactForAPrefix(file, before);
      var s, t := Run(file, before), Run(file, events);
      FileStep(s, e);
      if t.file != s.file {
        k := |Ticks(events)|;
        RefinesFlatHistory(file, events);
        assert Ticks(events)[..k] == Ticks(events);
      } else {
        TicksGrow(events, k);
      }
    }
  }

  lemma TicksGrow(events: seq<Event>, k: nat)
    requires events != [] && k <= |Ticks(events[..|events| - 1])|
    ensures k <= |Ticks(events)| && Ticks(events)[..k] == Ticks(events[..|events| - 1])[..k]
  {
  }

  lemma FileStep(s: State, e: Event)
    requires !s.dirty ==> s.file == s.records
    ensures Step(s, e).file != s.file ==> Step(s, e).file == Step(s, e).records
    ensures !Step(s, e).dirty ==> Step(s, e).file == Step(s, e).records
  {
    if e.Observe? && Gone(Inner(s.active, e.tick.h), e.tick) == {} {
      assert RecordsAfter(s, e.tick) == s.records;
    }
  }

  /** Readings of a clock that never goes back, starting at zero. */
  ghost predicate ClockOk(events: seq<Event>) {
    forall i :: 0 <= i < |events| ==>
      && Reading(events, i) <= events[i].flushAt <= events[i].saveAt
  }

  /** The last reading before event i. */
  function Reading(events: seq<Event>, i: int): real
    requires 0 <= i <= |events|
  {
    if i == 0 then 0.0 else events[i - 1].saveAt
  }

  /** This event writes to the file: some records are unsaved, and an observation also needs the last write
      to be old enough. */
  predicate Writes(s: State, e: Event) {
    match e
    case Observe(t, flushAt, _) =>
      (s.dirty || Gone(Inner(s.active, t.h), t) != {}) && flushAt - s.savedAt >= SAVE_MIN_INTERVAL_SECONDS
    case Flush(flushAt, _) => s.dirty && flushAt >= s.savedAt
  }

  /** The state event i meets. */
  function Before(file: Records, events: seq<Event>, i: nat): State
    requires i <= |events|
  {
    Run(file, events[..i])
  }

  lemma BeforeNext(file: Records, events: seq<Event>, i: nat)
    requires i < |events|
    ensures Before(file, events, i + 1) == Step(Before(file, events, i), events[i])
  {
    assert events[..i + 1][..i] == events[..i];
  }

  lemma WriteStep(s: State, e: Event)
    requires s.savedAt <= e.flushAt <= e.saveAt
    ensures Writes(s, e) ==> Step(s, e).savedAt == e.saveAt && Step(s, e).file == Step(s, e).records
    ensures !Writes(s, e) ==> Step(s, e).savedAt == s.savedAt && Step(s, e).file == s.file
  {
  }

  lemma NextReading(events: seq<Event>, i: nat)
    requires ClockOk(events) && i < |events|
    ensures Reading(events, i) <= events[i].flushAt <= events[i].saveAt == Reading(events, i + 1)
  {
  }

  lemma SavedAtStep(s: State, e: Event)
    requires s.savedAt <= e.flushAt <= e.saveAt
    ensures s.savedAt <= Step(s, e).savedAt <= e.saveAt
  {
  }

  lemma {:induction false} SavedAtIsBounded(file: Records, events: seq<Event>, i: nat)
    requires ClockOk(events) && i <= |events|
    ensures 0.0 <= Before(file, events, i).savedAt <= Reading(events, i)
  {
    if i == 0 {
    } else {
      SavedAtIsBounded(file, events, i - 1);
      NextReading(events, i - 1);
      BeforeNext(file, events, i - 1);
      SavedAtStep(Before(file, events, i - 1), events[i - 1]);
    }
  }

  lemma {:induction false} SavedAtGrows(file: Records, events: seq<Event>, i: nat, j: nat)
    requires ClockOk(events) && i <= j <= |events|
    ensures Before(file, events, i).savedAt <= Before(file, events, j).savedAt
    decreases j - i
  {
    if i == j {
    } else {
      SavedAtGrows(file, events, i, j - 1);
      SavedAtIsBounded(file, events, j - 1);
      BeforeNext(file, events, j - 1);
      SavedAtStep(Before(file, events, j - 1), events[j - 1]);
    }
  }

  /** However often peers vanish, an observation writes no sooner than thirty seconds after any earlier
      write has ended. */
  lemma WritesAreThrottled(file: Records, events: seq<Event>, i: nat, j: nat)
    requires ClockOk(events) && i < j < |events|
    requires Writes(Before(file, events, i), events[i])
    requires Writes(Before(file, events, j), events[j]) && events[j].Observe?
    ensures events[j].flushAt >= events[i].saveAt + 30.0
  {
    SavedAtIsBounded(file, events, i);
    WriteStep(Before(file, events, i), events[i]);
    BeforeNext(file, events, i);
    SavedAtGrows(file, events, i + 1, j);
  }

  /** The file changes only by the writes that are throttled. */
  lemma OnlyWritesChangeTheFile(file: Records, events: seq<Event>, i: nat)
    requires ClockOk(events) && i < |events|
    ensures Before(file, events, i + 1).file != Before(file, events, i).file ==>
              Writes(Before(file, events, i), events[i])
  {
    SavedAtIsBounded(file, events, i);
    BeforeNext(file, events, i);
    WriteStep(Before(file, events, i), events[i]);
  }

  // ------------------------------------------------------------------ how old unsaved data may be

  lemma CleanMeansSaved(file: Records, events: seq<Event>, n: nat)
    requires n <= |events| && !Before(file, events, n).dirty
    ensures Before(file, events, n).file == Before(file, events, n).records
  {
    var _ := FileIsExactForAPrefix(file, events[..n]);
  }

  lemma StepStaysDirty(s: State, e: Event)
    requires Step(s, e).dirty
    ensures Step(s, e).savedAt == s.savedAt && Step(s, e).file == s.file
  {
  }

  /** Since the last moment with nothing unsaved, the file and the time of the last write are the same. */
  lemma {:induction false} UnsavedSince(file: Records, events: seq<Event>, n: nat) returns (k: nat)
    requires n <= |events|
    ensures k <= n
    ensures Before(file, events, n).file == Before(file, events, k).records
    ensures Before(file, events, n).savedAt == Before(file, events, k).savedAt
    ensures Before(file, events, n).dirty <==> k < n
  {
    if !Before(file, events, n).dirty {
      k := n;
      CleanMeansSaved(file, events, n);
    } else if n == 0 {
      assert false;
    } else {
      k := UnsavedSince(file, events, n - 1);
      BeforeNext(file, events, n - 1);
      StepStaysDirty(Before(file, events, n - 1), events[n - 1]);
    }
  }

  lemma ObservationIsPrompt(s: State, e: Event)
    requires e.Observe? && Step(s, e).dirty
    ensures e.flushAt < Step(s, e).savedAt + 30.0
  {
  }

  /** What an observation leaves unsaved is less than thirty seconds old: the file holds the records as of
      some event k, and every event since then happened within those thirty seconds. */
  lemma UnsavedIsYoung(file: Records, events: seq<Event>, i: nat) returns (k: nat)
    requires ClockOk(events) && i < |events| && events[i].Observe?
    ensures k <= i + 1 && Before(file, events, i + 1).file == Before(file, events, k).records
    ensures forall j :: k <= j <= i ==> events[i].flushAt < events[j].flushAt + 30.0
  {
    k := UnsavedSince(file, events, i + 1);
    if k <= i {
      BeforeNext(file, events, i);
      ObservationIsPrompt(Before(file, events, i), events[i]);
      forall j | k <= j <= i ensures Before(file, events, k).savedAt <= events[j].flushAt {
        SavedAtGrows(file, events, k, j);
        SavedAtIsBounded(file, events, j);
      }
    }
  }

  /** The flush at quit leaves nothing behind: the next start loads the very records in memory. */
  lemma QuitFlushKeepsEverything(file: Records, events: seq<Event>, quit: Event)
    requires ClockOk(events + [quit]) && quit.Flush?
    ensures var s := Run(file, events + [quit]);
            !s.dirty && s.file == s.records && Started(s.file).records == s.records
  {
    var all := events + [quit];
    assert all[..|all| - 1] == events;
    SavedAtIsBounded(file, all, |events|);
    var _ := FileIsExactForAPrefix(file, events);
  }
}
