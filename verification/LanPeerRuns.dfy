/** What every run of the local peer cache keeps. */
module LanPeerRuns {
  import opened LanPeerSpec

  // ------------------------------------------------------------------ the file is as good as memory

  /** From `now` on, nobody can tell the two apart by reading. */
  ghost predicate SameFrom(a: Entries, b: Entries, now: real) {
    forall t :: t >= now ==> Purge(a, t) == Purge(b, t)
  }

  /** The latest reading of the wall clock an event makes. */
  function Clock(e: Event, before: real): real {
    match e
    case RecordPeers(_, _, _, purgeAt, _) => purgeAt
    case GetPeers(_, now) => now
    case Flush => before
    case Reload(now) => now
  }

  function ClockAfter(start: real, events: seq<Event>): real {
    if events == [] then start
    else Clock(events[|events| - 1], ClockAfter(start, events[..|events| - 1]))
  }

  /** The wall clock never goes back. */
  ghost predicate ClockOk(start: real, events: seq<Event>) {
    forall i :: 0 <= i < |events| ==>
      var before := ClockAfter(start, events[..i]);
      before <= Clock(events[i], before) &&
      (events[i].RecordPeers? ==> before <= events[i].now <= events[i].purgeAt)
  }

  /** Unless an update was held back, the file and memory read the same from now on. */
  ghost predicate FileOk(s: State, now: real) {
    !s.dirty ==> SameFrom(s.file, s.entries, now)
  }

  lemma PurgedIsSame(entries: Entries, now: real)
    ensures SameFrom(entries, Purge(entries, now), now)
  {
    forall t | t >= now ensures Purge(entries, t) == Purge(Purge(entries, now), t) {
      PurgeTwice(entries, now, t);
    }
  }

  lemma StepKeepsFile(s: State, e: Event, now: real, parse: Ip -> Parsed)
    requires FileOk(s, now) && now <= Clock(e, now)
    ensures FileOk(Step(s, e, parse), Clock(e, now))
  {
    match e
    case RecordPeers(h, peers, seenAt, purgeAt, monotonic) =>
      var seen := Private(peers, parse, seenAt);
      if seen == map[] {
        EmptyInnerIsInvisible(s.entries, h);
      }
    case GetPeers(_, t) => PurgedIsSame(s.entries, t);
    case Flush =>
    case Reload(t) => PurgedIsSame(s.file, t);
  }

  /** A list without private peers may leave an empty inner map behind; no read shows it. */
  lemma EmptyInnerIsInvisible(entries: Entries, h: InfoHash)
    ensures forall t :: Purge(entries[h := InnerOf(entries, h) + map[]], t) == Purge(entries, t)
  {
    assert InnerOf(entries, h) + map[] == InnerOf(entries, h);
    forall t ensures Purge(entries[h := InnerOf(entries, h) + map[]], t) == Purge(entries, t) {
      if h !in entries {
        assert Alive(map[], t) == map[];
      }
    }
  }

  lemma {:induction false} FileAlwaysOk(s: State, start: real, events: seq<Event>, parse: Ip -> Parsed)
    requires FileOk(s, start) && ClockOk(start, events)
    ensures FileOk(Run(s, events, parse), ClockAfter(start, events))
  {
    if events == [] {
    } else {
      var n := |events| - 1;
      var before := events[..n];
      assert forall i :: 0 <= i < n ==> before[..i] == events[..i];
      FileAlwaysOk(s, start, before, parse);
      StepKeepsFile(Run(s, before, parse), events[n], ClockAfter(start, before), parse);
    }
  }

  /** After any run and a flush, a process that loads the file at a later time reads, at any time after
      that, just the peers memory would have given. */
  lemma FlushedFileIsMemory(
    file: Entries, start: real, events: seq<Event>, parse: Ip -> Parsed, loadAt: real, readAt: real, h: InfoHash)
    requires ClockOk(start, events) && ClockAfter(start, events) <= loadAt <= readAt
    ensures var s := Run(Started(file, start), events + [Flush], parse);
            && !s.dirty
            && Purge(Started(s.file, loadAt).entries, readAt) == Purge(s.entries, readAt)
            && Pairs(Purge(Started(s.file, loadAt).entries, readAt), h) == Pairs(Purge(s.entries, readAt), h)
  {
    var all := events + [Flush];
    assert all[..|all| - 1] == events;
    PurgedIsSame(file, start);
    FileAlwaysOk(Started(file, start), start, events, parse);
    var s := Run(Started(file, start), all, parse);
    PurgeTwice(s.file, loadAt, readAt);
  }

  // ------------------------------------------------------------------ the file while an update is held back

  /** The state event i meets. */
  function Before(s: State, events: seq<Event>, parse: Ip -> Parsed, i: nat): State
    requires i <= |events|
  {
    Run(s, events[..i], parse)
  }

  lemma BeforeNext(s: State, events: seq<Event>, parse: Ip -> Parsed, i: nat)
    requires i < |events|
    ensures Before(s, events, parse, i + 1) == Step(Before(s, events, parse, i), events[i], parse)
  {
    assert events[..i + 1][..i] == events[..i];
  }

  /** At any moment n, whatever is held back, the file holds just what memory held after its last write, that
      is after event k, and has not changed since; before any write it is the one that was there. */
  lemma {:induction false} FileIsEarlierMemory(s: State, events: seq<Event>, parse: Ip -> Parsed, n: nat)
    returns (k: nat)
    requires n <= |events|
    ensures k <= n
    ensures Before(s, events, parse, n).file == if k == 0 then s.file else Before(s, events, parse, k).entries
    ensures forall i :: k <= i <= n ==> Before(s, events, parse, i).file == Before(s, events, parse, n).file
  {
    if n == 0 {
      k := 0;
    } else {
      k := FileIsEarlierMemory(s, events, parse, n - 1);
      BeforeNext(s, events, parse, n - 1);
      if Before(s, events, parse, n).file != Before(s, events, parse, n - 1).file {
        SavingFile(Before(s, events, parse, n - 1), events[n - 1], parse);
        k := n;
      }
    }
  }

  lemma SavingFile(s: State, e: Event, parse: Ip -> Parsed)
    requires Step(s, e, parse).file != s.file
    ensures Step(s, e, parse).file == Step(s, e, parse).entries
  {
  }

  // ------------------------------------------------------------------ the write throttle

  /** A list of peers makes the store write at once. */
  predicate Writes(s: State, e: Event, parse: Ip -> Parsed) {
    && e.RecordPeers? && Private(e.peers, parse, e.now) != map[]
    && e.monotonic - s.lastSavedAt >= SAVE_MIN_INTERVAL_SECONDS
  }

  lemma WriteStep(s: State, e: Event, parse: Ip -> Parsed)
    requires !e.Reload?
    ensures Step(s, e, parse).lastSavedAt == if Writes(s, e, parse) then e.monotonic else s.lastSavedAt
    ensures Step(s, e, parse).lastSavedAt >= s.lastSavedAt
    ensures e.RecordPeers? && !Writes(s, e, parse) ==> Step(s, e, parse).file == s.file
  {
  }

  lemma {:induction false} LastSavedAtGrows(s: State, events: seq<Event>, parse: Ip -> Parsed, i: nat, j: nat)
    requires i <= j <= |events| && forall k :: i <= k < j ==> !events[k].Reload?
    ensures Before(s, events, parse, i).lastSavedAt <= Before(s, events, parse, j).lastSavedAt
    decreases j - i
  {
    if i == j {
    } else {
      LastSavedAtGrows(s, events, parse, i, j - 1);
      BeforeNext(s, events, parse, j - 1);
      WriteStep(Before(s, events, parse, j - 1), events[j - 1], parse);
    }
  }

  /** However often the peers are polled, two lists a process writes to the file at once are thirty seconds
      of its own clock apart. */
  lemma WritesAreThrottled(s: State, events: seq<Event>, parse: Ip -> Parsed, i: nat, j: nat)
    requires i < j < |events| && forall k :: i <= k <= j ==> !events[k].Reload?
    requires Writes(Before(s, events, parse, i), events[i], parse)
    requires Writes(Before(s, events, parse, j), events[j], parse)
    ensures events[j].monotonic >= events[i].monotonic + 30.0
  {
    BeforeNext(s, events, parse, i);
    WriteStep(Before(s, events, parse, i), events[i], parse);
    LastSavedAtGrows(s, events, parse, i + 1, j);
  }

  // ------------------------------------------------------------------ how old unsaved data may be

  predicate HasPrivate(e: Event, parse: Ip -> Parsed) {
    e.RecordPeers? && Private(e.peers, parse, e.now) != map[]
  }

  /** The clock of a process starts at zero and never goes back. */
  ghost predicate ProcessClockOk(events: seq<Event>) {
    && (forall j :: 0 <= j < |events| && events[j].RecordPeers? ==> events[j].monotonic >= 0.0)
    && forall i, j :: 0 <= i < j < |events| && NoReload(events, i, j) ==>
         events[i].RecordPeers? && events[j].RecordPeers? ==> events[i].monotonic <= events[j].monotonic
  }

  predicate NoReload(events: seq<Event>, i: nat, j: nat)
    requires j <= |events|
  {
    forall k :: i <= k < j ==> !events[k].Reload?
  }

  /** The throttle counts from a moment that is not in the future. */
  lemma {:induction false} LastSavedAtIsPast(
    file: Entries, now: real, events: seq<Event>, parse: Ip -> Parsed, i: nat, j: nat)
    requires ProcessClockOk(events) && i <= j < |events| && events[j].RecordPeers? && NoReload(events, i, j)
    ensures Before(Started(file, now), events, parse, i).lastSavedAt <= events[j].monotonic
  {
    if i == 0 {
    } else {
      var s, e := Before(Started(file, now), events, parse, i - 1), events[i - 1];
      BeforeNext(Started(file, now), events, parse, i - 1);
      if !e.Reload? {
        LastSavedAtIsPast(file, now, events, parse, i - 1, j);
        WriteStep(s, e, parse);
      }
    }
  }

  lemma ListIsPrompt(s: State, e: Event, parse: Ip -> Parsed)
    requires HasPrivate(e, parse) && !Writes(s, e, parse)
    ensures e.monotonic < s.lastSavedAt + 30.0
  {
  }

  lemma {:induction false} LastSavedAtStays(s: State, events: seq<Event>, parse: Ip -> Parsed, j: nat, i: nat)
    requires j <= i <= |events| && NoReload(events, j, i)
    requires forall k :: j <= k < i ==> !Writes(Before(s, events, parse, k), events[k], parse)
    ensures Before(s, events, parse, i).lastSavedAt == Before(s, events, parse, j).lastSavedAt
  {
    if j == i {
    } else {
      LastSavedAtStays(s, events, parse, j, i - 1);
      BeforeNext(s, events, parse, i - 1);
      WriteStep(Before(s, events, parse, i - 1), events[i - 1], parse);
    }
  }

  /** When a list of local peers is held back, no list recorded since the last such write is older than
      thirty seconds: a process that keeps polling loses no more than that. */
  lemma UnsavedIsYoung(file: Entries, now: real, events: seq<Event>, parse: Ip -> Parsed, j: nat, i: nat)
    requires ProcessClockOk(events) && j <= i < |events| && NoReload(events, j, i)
    requires HasPrivate(events[j], parse) && HasPrivate(events[i], parse)
    requires forall k :: j <= k <= i ==> !Writes(Before(Started(file, now), events, parse, k), events[k], parse)
    ensures events[i].monotonic < events[j].monotonic + 30.0
  {
    var s := Started(file, now);
    LastSavedAtIsPast(file, now, events, parse, j, j);
    LastSavedAtStays(s, events, parse, j, i);
    ListIsPrompt(Before(s, events, parse, i), events[i], parse);
  }

  /** A list without local peers writes nothing and leaves nothing to write. */
  lemma OtherListsWriteNothing(s: State, e: Event, parse: Ip -> Parsed)
    requires e.RecordPeers? && !HasPrivate(e, parse)
    ensures var t := Step(s, e, parse);
            t.file == s.file && t.dirty == s.dirty && t.lastSavedAt == s.lastSavedAt
            && forall at :: Purge(t.entries, at) == Purge(s.entries, at)
  {
    EmptyInnerIsInvisible(s.entries, e.h);
  }

  // ------------------------------------------------------------------ expired peers are let go

  /** No torrent without peers, no peer last seen more than 48 hours before. */
  ghost predicate NothingExpired(entries: Entries, now: real) {
    && (forall h :: h in entries ==> entries[h] != map[])
    && forall h, ip :: h in entries && ip in entries[h] ==> entries[h][ip].lastSeen >= now - 48.0 * 3600.0
  }

  lemma PurgedHoldsNothingExpired(entries: Entries, now: real)
    ensures NothingExpired(Purge(entries, now), now)
  {
  }

  /** A start, a read, and a list with local peers leave nothing expired in memory; nor does such a list in
      the file, if it is written at once. */
  lemma ExpiredPeersAreLetGo(s: State, e: Event, parse: Ip -> Parsed)
    requires HasPrivate(e, parse) || e.GetPeers? || e.Reload?
    ensures NothingExpired(Step(s, e, parse).entries, Clock(e, 0.0))
    ensures Writes(s, e, parse) ==> NothingExpired(Step(s, e, parse).file, Clock(e, 0.0))
  {
    match e
    case RecordPeers(h, peers, now, purgeAt, _) =>
      PurgedHoldsNothingExpired(s.entries[h := InnerOf(s.entries, h) + Private(peers, parse, now)], purgeAt);
    case GetPeers(_, now) => PurgedHoldsNothingExpired(s.entries, now);
    case Reload(now) => PurgedHoldsNothingExpired(s.file, now);
    case Flush =>
  }

  // ------------------------------------------------------------------ only private, never stale

  ghost predicate AllPrivate(entries: Entries, parse: Ip -> Parsed) {
    forall h, ip :: h in entries && ip in entries[h] ==> IsRfc1918(parse(ip))
  }

  lemma {:induction false} PrivateIsPrivate(peers: seq<Peer>, parse: Ip -> Parsed, now: real)
    ensures var seen := Private(peers, parse, now);
            && (forall ip :: ip in seen ==> IsRfc1918(parse(ip)) && seen[ip].lastSeen == now)
            && (forall p :: p in peers && IsRfc1918(parse(p.ip)) ==> p.ip in seen)
  {
    if peers == [] {
    } else {
      var n := |peers| - 1;
      PrivateIsPrivate(peers[..n], parse, now);
      assert forall p :: p in peers <==> p in peers[..n] || p == peers[n];
    }
  }

  /** Neither memory nor the file ever holds an address outside the three private ranges. */
  lemma {:induction false} OnlyPrivateAddresses(s: State, events: seq<Event>, parse: Ip -> Parsed)
    requires AllPrivate(s.entries, parse) && AllPrivate(s.file, parse)
    ensures var t := Run(s, events, parse);
            AllPrivate(t.entries, parse) && AllPrivate(t.file, parse)
  {
    if events == [] {
    } else {
      var n := |events| - 1;
      OnlyPrivateAddresses(s, events[..n], parse);
      var e := events[n];
      if e.RecordPeers? {
        PrivateIsPrivate(e.peers, parse, e.now);
      }
    }
  }

  /** A read returns every cached peer seen within the last 48 hours, and no other. */
  lemma ReadsAreFresh(s: State, h: InfoHash, now: real, parse: Ip -> Parsed, ip: Ip, port: nat)
    ensures (ip, port) in Pairs(Step(s, GetPeers(h, now), parse).entries, h) <==>
            && h in s.entries && ip in s.entries[h]
            && s.entries[h][ip].port == port && s.entries[h][ip].lastSeen >= now - 48.0 * 3600.0
  {
    var inner := InnerOf(Purge(s.entries, now), h);
    assert inner == Alive(InnerOf(s.entries, h), now);
    if (ip, port) in Pairs(Purge(s.entries, now), h) {
      var ip' :| ip' in inner && (ip', inner[ip'].port) == (ip, port);
    }
    if ip in inner {
      assert (ip, inner[ip].port) in Pairs(Purge(s.entries, now), h);
    }
  }
}
