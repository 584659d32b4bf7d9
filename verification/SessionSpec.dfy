/** Restoring a session: the manager's bookkeeping as values, and the protocol it runs with libtorrent,
    whose commands and alerts are served in posting order. */
module SessionSpec {
  import opened Wrappers

  type InfoHash = string
  type Handle = nat

  /** What the window shows of a torrent, as far as this protocol changes it. */
  datatype Record = Record(completedAt: Option<real>)

  datatype Signal =
    | TorrentAdded(h: InfoHash)
    | TorrentFinished(h: InfoHash)
    | TorrentRemoved(h: InfoHash)
    | RestoreFailed(h: InfoHash)

  datatype Manager = Manager(
    records: map<InfoHash, Record>,
    handles: map<InfoHash, Handle>,
    pending: set<InfoHash>,
    confirm: set<InfoHash>,
    resumeFiles: set<InfoHash>,
    signals: seq<Signal>)

  /** A saved torrent: `refused` if async_add_torrent raises on it, `complete` if nothing is missing. */
  datatype Entry = Entry(h: InfoHash, refused: bool, complete: bool)

  datatype Alert =
    | Added(h: InfoHash, handle: Handle, failed: bool)
    | Finished(h: InfoHash, valid: bool)
    | Removed(h: InfoHash)

  // ------------------------------------------------------------------ the handlers

  function RestoreOne(m: Manager, e: Entry): Manager {
    if e.refused then m else
      m.(pending := m.pending + {e.h}, records := m.records[e.h := Record(None)],
         confirm := if e.complete then m.confirm + {e.h} else m.confirm,
         signals := m.signals + [TorrentAdded(e.h)])
  }

  function RestoreAll(m: Manager, entries: seq<Entry>): Manager {
    if entries == [] then m
    else RestoreOne(RestoreAll(m, entries[..|entries| - 1]), entries[|entries| - 1])
  }

  function OnAdded(m: Manager, h: InfoHash, handle: Handle, failed: bool): Manager {
    if h !in m.pending then m else
      var bound := m.(pending := m.pending - {h});
      if !failed then bound.(handles := m.handles[h := handle])
      else
        var unconfirmed := bound.(confirm := m.confirm - {h});
        if h in m.handles then unconfirmed
        else unconfirmed.(records := m.records - {h}, signals := m.signals + [RestoreFailed(h)])
  }

  function OnFinished(m: Manager, h: InfoHash, now: real): Manager {
    if h in m.confirm then m.(confirm := m.confirm - {h})
    else
      m.(records := if h in m.records && m.records[h].completedAt.None?
                    then m.records[h := Record(Some(now))] else m.records,
         signals := m.signals + [TorrentFinished(h)])
  }

  function OnRemoved(m: Manager, h: InfoHash): Manager {
    m.(records := m.records - {h}, handles := m.handles - {h}, confirm := m.confirm - {h},
       resumeFiles := m.resumeFiles - {h}, signals := m.signals + [TorrentRemoved(h)])
  }

  function AddByHand(m: Manager, h: InfoHash, handle: Handle): Manager {
    m.(records := m.records[h := Record(None)], handles := m.handles[h := handle],
       signals := m.signals + [TorrentAdded(h)])
  }

  /** One popped alert; a finished alert whose handle went invalid is skipped. */
  function Dispatch(m: Manager, a: Alert, now: real): Manager {
    match a
    case Added(h, handle, failed) => OnAdded(m, h, handle, failed)
    case Finished(h, valid) => if valid then OnFinished(m, h, now) else m
    case Removed(h) => OnRemoved(m, h)
  }

  function DispatchSeq(m: Manager, alerts: seq<Alert>, now: real): Manager {
    if alerts == [] then m
    else Dispatch(DispatchSeq(m, alerts[..|alerts| - 1], now), alerts[|alerts| - 1], now)
  }

  // ------------------------------------------------------------------ the protocol

  datatype Command = AsyncAdd(h: InfoHash) | Remove(h: InfoHash)

  /** The manager, the commands libtorrent has yet to serve, and the alerts not yet popped. */
  datatype System = System(m: Manager, commands: seq<Command>, alerts: seq<Alert>)

  function AsyncAdds(entries: seq<Entry>): seq<Command> {
    if entries == [] then [] else
      var e := entries[|entries| - 1];
      var before := AsyncAdds(entries[..|entries| - 1]);
      if e.refused then before else before + [AsyncAdd(e.h)]
  }

  /** A process that just started: everything restored, nothing served yet. */
  ghost predicate Starts(s: System, entries: seq<Entry>) {
    && s.m == RestoreAll(Manager(map[], map[], {}, {}, s.m.resumeFiles, []), entries)
    && s.commands == AsyncAdds(entries) && s.alerts == []
    && forall e :: e in entries ==> e.h in s.m.resumeFiles
  }

  ghost predicate Serves(s: System, t: System) {
    && s.commands != []
    && match s.commands[0]
       case AsyncAdd(h) => exists handle, failed ::
         t == s.(commands := s.commands[1..], alerts := s.alerts + [Added(h, handle, failed)])
       case Remove(h) => t == s.(commands := s.commands[1..], alerts := s.alerts + [Removed(h)])
  }

  ghost predicate Completes(s: System, t: System) {
    exists h, valid :: t == s.(alerts := s.alerts + [Finished(h, valid)])
  }

  ghost predicate Delivers(s: System, t: System) {
    s.alerts != [] && exists now :: t == s.(m := Dispatch(s.m, s.alerts[0], now), alerts := s.alerts[1..])
  }

  /** A synchronous add by the user returns once every earlier command has been served; its own alert
      follows. */
  ghost predicate AddsByHand(s: System, t: System) {
    exists h :: AddsTorrent(s, t, h)
  }

  ghost predicate AddsTorrent(s: System, t: System, h: InfoHash) {
    && s.commands == []
    && exists handle :: t == s.(m := AddByHand(s.m, h, handle), alerts := s.alerts + [Added(h, handle, false)])
  }

  ghost predicate RemovesByHand(s: System, t: System) {
    exists h :: RemovesTorrent(s, t, h)
  }

  ghost predicate RemovesTorrent(s: System, t: System, h: InfoHash) {
    h in s.m.handles && t == s.(commands := s.commands + [Remove(h)])
  }

  ghost predicate Next(s: System, t: System) {
    Serves(s, t) || Completes(s, t) || Delivers(s, t) || AddsByHand(s, t) || RemovesByHand(s, t)
  }

  // ------------------------------------------------------------------ the order of adds and removals

  datatype Change = Adds(h: InfoHash) | Drops(h: InfoHash)

  function OfAlert(a: Alert): seq<Change> {
    match a
    case Added(h, _, _) => [Adds(h)]
    case Removed(h) => [Drops(h)]
    case Finished(_, _) => []
  }

  function OfCommand(c: Command): Change {
    match c case AsyncAdd(h) => Adds(h) case Remove(h) => Drops(h)
  }

  function OfAlerts(alerts: seq<Alert>): seq<Change> {
    if alerts == [] then [] else OfAlert(alerts[0]) + OfAlerts(alerts[1..])
  }

  function OfCommands(commands: seq<Command>): seq<Change> {
    if commands == [] then [] else [OfCommand(commands[0])] + OfCommands(commands[1..])
  }

  /** The add and remove alerts still to be delivered, in order. */
  function Upcoming(s: System): seq<Change> { OfAlerts(s.alerts) + OfCommands(s.commands) }

  /** The next thing to happen to h is an add. */
  predicate AddIsNext(changes: seq<Change>, h: InfoHash) {
    changes != [] && if changes[0].h == h then changes[0].Adds? else AddIsNext(changes[1..], h)
  }

  lemma {:induction false} AddIsNextAppend(changes: seq<Change>, more: seq<Change>, h: InfoHash)
    requires AddIsNext(changes, h)
    ensures AddIsNext(changes + more, h)
  {
    assert (changes + more)[0] == changes[0] && (changes + more)[1..] == changes[1..] + more;
    if changes[0].h == h {
    } else {
      AddIsNextAppend(changes[1..], more, h);
    }
  }

  lemma {:induction false} OfAlertsAppend(alerts: seq<Alert>, a: Alert)
    ensures OfAlerts(alerts + [a]) == OfAlerts(alerts) + OfAlert(a)
  {
    var all := alerts + [a];
    if alerts == [] {
      assert all[1..] == [] && OfAlerts(all) == OfAlert(a) + OfAlerts(all[1..]);
    } else {
      assert all[0] == alerts[0] && all[1..] == alerts[1..] + [a];
      OfAlertsAppend(alerts[1..], a);
      assert OfAlerts(all) == OfAlert(alerts[0]) + (OfAlerts(alerts[1..]) + OfAlert(a));
    }
  }

  lemma {:induction false} OfCommandsAppend(commands: seq<Command>, c: Command)
    ensures OfCommands(commands + [c]) == OfCommands(commands) + [OfCommand(c)]
  {
    if commands == [] {
      assert commands + [c] == [c];
    } else {
      assert (commands + [c])[1..] == commands[1..] + [c];
      OfCommandsAppend(commands[1..], c);
    }
  }

  /** Serving a command and finishing a torrent leave the order of adds and removals alone. */
  lemma ServingKeepsUpcoming(s: System, t: System)
    requires Serves(s, t) || Completes(s, t)
    ensures t.m == s.m && Upcoming(t) == Upcoming(s)
  {
    var last := t.alerts[|t.alerts| - 1];
    OfAlertsAppend(s.alerts, last);
  }

  // ------------------------------------------------------------------ what every reachable state keeps

  /** A torrent still waiting for its add alert has its row and its file, and nothing removes it first. */
  ghost predicate WaitsSafely(s: System, h: InfoHash) {
    h in s.m.records && h in s.m.resumeFiles && AddIsNext(Upcoming(s), h)
  }

  ghost predicate Inv(s: System) {
    && s.m.handles.Keys <= s.m.records.Keys <= s.m.handles.Keys + s.m.pending
    && forall h :: h in s.m.pending ==> WaitsSafely(s, h)
  }

  lemma {:induction false} RestoreLeaves(m: Manager, entries: seq<Entry>)
    requires m.records == map[] && m.handles == map[] && m.pending == {}
    ensures var r := RestoreAll(m, entries);
            && r.handles == map[] && r.records.Keys == r.pending && r.resumeFiles == m.resumeFiles
            && forall h :: h in r.pending ==>
                 (exists e :: e in entries && e.h == h) && AddIsNext(OfCommands(AsyncAdds(entries)), h)
  {
    if entries == [] {
    } else {
      var before, e := entries[..|entries| - 1], entries[|entries| - 1];
      RestoreLeaves(m, before);
      var r := RestoreAll(m, entries);
      forall h | h in r.pending
        ensures (exists x :: x in entries && x.h == h) && AddIsNext(OfCommands(AsyncAdds(entries)), h)
      {
        if h in RestoreAll(m, before).pending {
          var x :| x in before && x.h == h;
          assert x in entries;
          if !e.refused {
            OfCommandsAppend(AsyncAdds(before), AsyncAdd(e.h));
            AddIsNextAppend(OfCommands(AsyncAdds(before)), [Adds(e.h)], h);
          }
        } else {
          assert e in entries && e.h == h;
          OfCommandsAppend(AsyncAdds(before), AsyncAdd(e.h));
          OnlyAdds(before, h);
        }
      }
    }
  }

  lemma OnlyAdds(entries: seq<Entry>, h: InfoHash)
    ensures AddIsNext(OfCommands(AsyncAdds(entries)) + [Adds(h)], h)
  {
    AsyncAddsAreAdds(entries);
    AddsThenAdd(OfCommands(AsyncAdds(entries)), h);
  }

  lemma {:induction false} AsyncAddsAreAdds(entries: seq<Entry>)
    ensures forall c :: c in OfCommands(AsyncAdds(entries)) ==> c.Adds?
  {
    if entries == [] {
    } else {
      var before, e := entries[..|entries| - 1], entries[|entries| - 1];
      AsyncAddsAreAdds(before);
      OfCommandsAppend(AsyncAdds(before), AsyncAdd(e.h));
    }
  }

  lemma {:induction false} AddsThenAdd(changes: seq<Change>, h: InfoHash)
    requires forall c :: c in changes ==> c.Adds?
    ensures AddIsNext(changes + [Adds(h)], h)
  {
    if changes == [] {
    } else {
      assert changes[0] in changes;
      assert (changes + [Adds(h)])[1..] == changes[1..] + [Adds(h)];
      AddsThenAdd(changes[1..], h);
    }
  }
}
