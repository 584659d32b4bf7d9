/** What every run of the restore protocol keeps, and which finished alerts are swallowed. */
module SessionRuns {
  import opened Wrappers
  import opened Runs
  import opened SessionSpec

  lemma StartKeeps(s: System, entries: seq<Entry>)
    requires Starts(s, entries)
    ensures Inv(s)
  {
    var blank := Manager(map[], map[], {}, {}, s.m.resumeFiles, []);
    RestoreLeaves(blank, entries);
    assert OfAlerts(s.alerts) == [];
    assert Upcoming(s) == OfCommands(AsyncAdds(entries));
  }

  /** What `Upcoming` loses when the next alert is delivered. */
  lemma DeliveryPops(s: System, t: System)
    requires Delivers(s, t)
    ensures Upcoming(s) == OfAlert(s.alerts[0]) + Upcoming(t)
  {
  }

  lemma DeliveryKeeps(s: System, t: System)
    requires Inv(s) && Delivers(s, t)
    ensures Inv(t)
  {
    DeliveryPops(s, t);
    var a := s.alerts[0];
    forall h | h in t.m.pending ensures WaitsSafely(t, h) {
      assert WaitsSafely(s, h);
      DeliveryKeepsWaiting(s, t, h);
    }
    if a.Added? && a.h in s.m.pending {
      assert WaitsSafely(s, a.h);
    }
  }

  lemma DeliveryKeepsWaiting(s: System, t: System, h: InfoHash)
    requires Delivers(s, t) && WaitsSafely(s, h) && h in t.m.pending
    ensures WaitsSafely(t, h)
  {
    DeliveryPops(s, t);
    var a := s.alerts[0];
    match a
    case Added(g, _, _) =>
      assert g != h && Upcoming(s)[0] == Adds(g) && Upcoming(s)[1..] == Upcoming(t);
    case Removed(g) =>
      assert Upcoming(s)[0] == Drops(g) && Upcoming(s)[1..] == Upcoming(t);
    case Finished(_, _) =>
      assert Upcoming(s) == Upcoming(t);
  }

  lemma UserKeeps(s: System, t: System)
    requires Inv(s) && (AddsByHand(s, t) || RemovesByHand(s, t))
    ensures Inv(t)
  {
    forall h | h in t.m.pending ensures WaitsSafely(t, h) {
      assert WaitsSafely(s, h);
      if AddsByHand(s, t) {
        var g :| AddsTorrent(s, t, g);
        var last := t.alerts[|t.alerts| - 1];
        OfAlertsAppend(s.alerts, last);
        assert Upcoming(t) == Upcoming(s) + OfAlert(last);
        AddIsNextAppend(Upcoming(s), OfAlert(last), h);
      } else {
        var g :| RemovesTorrent(s, t, g);
        var last := t.commands[|t.commands| - 1];
        OfCommandsAppend(s.commands, last);
        assert Upcoming(t) == Upcoming(s) + [OfCommand(last)];
        AddIsNextAppend(Upcoming(s), [OfCommand(last)], h);
      }
    }
  }

  lemma NextKeeps()
    ensures Preserves(Inv, Next)
  {
    forall s, t | Inv(s) && Next(s, t) ensures Inv(t) {
      if Delivers(s, t) {
        DeliveryKeeps(s, t);
      } else if AddsByHand(s, t) || RemovesByHand(s, t) {
        UserKeeps(s, t);
      } else {
        ServingKeepsUpcoming(s, t);
        forall h | h in t.m.pending ensures WaitsSafely(t, h) {
          assert WaitsSafely(s, h);
        }
      }
    }
  }

  /** In every run, whatever is added and removed meanwhile: each handle has a row, each row has a handle
      or still waits for its add alert, and a waiting torrent keeps its row and its resume file. Once
      nothing waits, rows and handles are the same torrents. */
  lemma ReachableIsConsistent(run: seq<System>, entries: seq<Entry>, n: nat)
    requires IsRun(run, Next) && n < |run| && Starts(run[0], entries)
    ensures Inv(run[n])
    ensures run[n].m.pending == {} ==> run[n].m.records.Keys == run[n].m.handles.Keys
    ensures run[n].commands == [] && run[n].alerts == [] ==> run[n].m.pending == {}
  {
    StartKeeps(run[0], entries);
    NextKeeps();
    InvariantAlongRun(run, Inv, Next, 0, n);
    var s := run[n];
    if s.commands == [] && s.alerts == [] {
      assert Upcoming(s) == [];
      forall h ensures h !in s.m.pending {
        assert h in s.m.pending ==> AddIsNext(Upcoming(s), h);
      }
    }
  }

  /** The add alert a torrent waits for settles it: a row with a handle, or, if it failed and the user has
      not added it meanwhile, no row, the resume file kept and no removal signalled. */
  lemma AddAlertSettles(run: seq<System>, entries: seq<Entry>, n: nat)
    requires IsRun(run, Next) && n + 1 < |run| && Starts(run[0], entries)
    requires Delivers(run[n], run[n + 1]) && run[n].alerts[0].Added? && run[n].alerts[0].h in run[n].m.pending
    ensures var a, s, t := run[n].alerts[0], run[n].m, run[n + 1].m;
            && a.h !in t.pending && a.h in t.resumeFiles
            && (a.h in t.records <==> a.h in t.handles)
            && (a.h in t.records <==> !a.failed || a.h in s.handles)
            && (!a.failed ==> t.handles[a.h] == a.handle)
            && (a.failed && a.h in s.handles ==> t.handles[a.h] == s.handles[a.h] && t.records[a.h] == s.records[a.h])
            && t.signals == s.signals + (if a.h in t.records then [] else [RestoreFailed(a.h)])
  {
    ReachableIsConsistent(run, entries, n);
    assert WaitsSafely(run[n], run[n].alerts[0].h);
  }

  // ------------------------------------------------------------------ what an alert leaves alone

  /** All the manager knows of a torrent. */
  ghost predicate SameTorrent(m: Manager, n: Manager, h: InfoHash) {
    && (h in m.records <==> h in n.records) && (h in m.records && h in n.records ==> m.records[h] == n.records[h])
    && (h in m.handles <==> h in n.handles) && (h in m.handles && h in n.handles ==> m.handles[h] == n.handles[h])
    && (h in m.pending <==> h in n.pending) && (h in m.confirm <==> h in n.confirm)
    && (h in m.resumeFiles <==> h in n.resumeFiles)
  }

  /** An alert changes nothing about any other torrent, and signals at most once, about its own. */
  lemma AlertsStayApart(m: Manager, a: Alert, now: real, h: InfoHash)
    requires a.h != h
    ensures SameTorrent(m, Dispatch(m, a, now), h)
    ensures var n := Dispatch(m, a, now);
            n.signals == m.signals
            || exists signal: Signal :: n.signals == m.signals + [signal] && signal.h == a.h
  {
    var n := Dispatch(m, a, now);
    if n.signals != m.signals {
      var signal := n.signals[|n.signals| - 1];
      assert n.signals == m.signals + [signal] && signal.h == a.h;
    }
  }

  /** A removal alert leaves nothing of its torrent but the wait for an add alert, and says so once. */
  lemma RemovalLeavesNothing(m: Manager, h: InfoHash, now: real)
    ensures var n := Dispatch(m, Removed(h), now);
            && h !in n.records && h !in n.handles && h !in n.confirm && h !in n.resumeFiles
            && (h in n.pending <==> h in m.pending)
            && n.signals == m.signals + [TorrentRemoved(h)]
  {
  }

  /** An add by hand lists its torrent anew, without a date even if it had one, under its new handle, and
      announces it; all else stays. */
  lemma AddByHandListsAnew(m: Manager, h: InfoHash, handle: Handle, other: InfoHash)
    ensures var n := AddByHand(m, h, handle);
            && h in n.records && n.records[h].completedAt.None? && h in n.handles && n.handles[h] == handle
            && n.signals == m.signals + [TorrentAdded(h)]
            && n.pending == m.pending && n.confirm == m.confirm && n.resumeFiles == m.resumeFiles
            && (other != h ==> SameTorrent(m, n, other))
  {
  }

  function Accepted(entries: seq<Entry>): seq<Signal> {
    if entries == [] then [] else
      var e := entries[|entries| - 1];
      Accepted(entries[..|entries| - 1]) + if e.refused then [] else [TorrentAdded(e.h)]
  }

  /** After a restore just the torrents that were not refused are listed, without a date, and announced in
      their order. */
  lemma {:induction false} RestoreLists(m: Manager, entries: seq<Entry>, h: InfoHash)
    ensures var r := RestoreAll(m, entries);
            && (h in r.records <==> h in m.records || exists e :: e in entries && e.h == h && !e.refused)
            && (h in r.pending <==> h in m.pending || exists e :: e in entries && e.h == h && !e.refused)
            && ((exists e :: e in entries && e.h == h && !e.refused) ==> r.records[h] == Record(None))
            && r.handles == m.handles && r.signals == m.signals + Accepted(entries)
  {
    if entries == [] {
    } else {
      var before, e := entries[..|entries| - 1], entries[|entries| - 1];
      RestoreLists(m, before, h);
      assert forall x :: x in entries <==> x in before || x == e;
    }
  }

  // ------------------------------------------------------------------ torrents added by hand

  /** The torrent is listed and usable. */
  predicate HasRow(s: System, h: InfoHash) { h in s.m.records && h in s.m.handles }

  /** No removal of it is on its way. */
  ghost predicate Stays(s: System, h: InfoHash) { HasRow(s, h) && Drops(h) !in Upcoming(s) }

  lemma AddingStays(s: System, t: System, h: InfoHash)
    requires AddsTorrent(s, t, h) && Drops(h) !in Upcoming(s)
    ensures Stays(t, h)
  {
    OfAlertsAppend(s.alerts, t.alerts[|t.alerts| - 1]);
  }

  lemma NextStays(s: System, t: System, h: InfoHash)
    requires Stays(s, h) && Next(s, t) && !RemovesTorrent(s, t, h)
    ensures Stays(t, h)
  {
    if Delivers(s, t) {
      DeliveryPops(s, t);
      DeliveryStays(s, t, h);
    } else if AddsByHand(s, t) {
      var g :| AddsTorrent(s, t, g);
      OfAlertsAppend(s.alerts, t.alerts[|t.alerts| - 1]);
    } else if RemovesByHand(s, t) {
      var g :| RemovesTorrent(s, t, g);
      OfCommandsAppend(s.commands, Remove(g));
    } else {
      ServingKeepsUpcoming(s, t);
    }
  }

  lemma DeliveryStays(s: System, t: System, h: InfoHash)
    requires Stays(s, h) && Delivers(s, t) && Upcoming(s) == OfAlert(s.alerts[0]) + Upcoming(t)
    ensures Stays(t, h)
  {
    var a := s.alerts[0];
    if a.Removed? {
      assert Upcoming(s)[0] == Drops(a.h);
    }
  }

  /** A run that starts from t and in which nobody asks for the removal of h. */
  ghost predicate LeavesAlone(run: seq<System>, t: System, h: InfoHash) {
    && run != [] && run[0] == t && IsRun(run, Next)
    && forall i :: 0 <= i < |run| - 1 ==> !RemovesTorrent(run[i], run[i + 1], h)
  }

  lemma {:induction false} StaysAlongRun(run: seq<System>, t: System, n: nat, h: InfoHash)
    requires LeavesAlone(run, t, h) && Stays(t, h) && n < |run|
    ensures Stays(run[n], h)
  {
    if n == 0 {
    } else {
      StaysAlongRun(run, t, n - 1, h);
      assert Next(run[n - 1], run[n - 1 + 1]);
      NextStays(run[n - 1], run[n], h);
    }
  }

  /** Once a removal alert of h is delivered, its row is gone. */
  lemma {:induction false} LateRemovalDrops(t: System, h: InfoHash) returns (run: seq<System>)
    requires Drops(h) in OfAlerts(t.alerts)
    ensures LeavesAlone(run, t, h) && !HasRow(run[|run| - 1], h)
    decreases |t.alerts|
  {
    var a := t.alerts[0];
    var next := t.(m := Dispatch(t.m, a, 0.0), alerts := t.alerts[1..]);
    assert Delivers(t, next);
    if a == Removed(h) {
      run := [t, next];
    } else {
      var rest := LateRemovalDrops(next, h);
      run := [t] + rest;
      OneMoreInFront(t, rest, next, h);
    }
  }

  lemma OneMoreInFront(t: System, rest: seq<System>, next: System, h: InfoHash)
    requires LeavesAlone(rest, next, h) && Delivers(t, next)
    ensures LeavesAlone([t] + rest, t, h)
  {
    var run := [t] + rest;
    forall i | 0 <= i < |run| - 1 ensures Next(run[i], run[i + 1]) && !RemovesTorrent(run[i], run[i + 1], h) {
      if i > 0 {
        assert run[i] == rest[i - 1] && run[i + 1] == rest[i - 1 + 1];
      }
    }
  }

  /** A torrent the user adds keeps its row and its handle until its removal is asked for, in every run,
      exactly if no earlier removal of it was still to be reported at the add. */
  lemma AddedByHandStaysIff(s: System, t: System, h: InfoHash)
    requires AddsTorrent(s, t, h)
    ensures (forall run :: LeavesAlone(run, t, h) ==> HasRow(run[|run| - 1], h)) <==> Drops(h) !in Upcoming(s)
  {
    if Drops(h) !in Upcoming(s) {
      AddingStays(s, t, h);
      forall run | LeavesAlone(run, t, h) ensures HasRow(run[|run| - 1], h) {
        StaysAlongRun(run, t, |run| - 1, h);
      }
    } else {
      OfAlertsAppend(s.alerts, t.alerts[|t.alerts| - 1]);
      assert OfCommands(s.commands) == [];
      var run := LateRemovalDrops(t, h);
      assert LeavesAlone(run, t, h) && !HasRow(run[|run| - 1], h);
    }
  }

  /** From an empty start: added, removed, and added again before the removal is reported, which then drops
      the new row, its handle and its resume file. */
  lemma LateRemovalDropsTheNewRow(start: System, h: InfoHash, first: Handle, second: Handle) returns (run: seq<System>)
    requires Starts(start, []) && first != second
    ensures |run| == 7 && run[0] == start && IsRun(run, Next)
    ensures AddsTorrent(run[4], run[5], h) && run[5].m.handles[h] == second
    ensures !RemovesTorrent(run[5], run[6], h)
    ensures h !in run[6].m.records && h !in run[6].m.handles && h !in run[6].m.resumeFiles
  {
    var s1 := start.(m := AddByHand(start.m, h, first), alerts := [Added(h, first, false)]);
    var s2 := s1.(m := Dispatch(s1.m, s1.alerts[0], 0.0), alerts := []);
    var s3 := s2.(commands := [Remove(h)]);
    var s4 := s3.(commands := [], alerts := [Removed(h)]);
    var s5 := s4.(m := AddByHand(s4.m, h, second), alerts := [Removed(h), Added(h, second, false)]);
    var s6 := s5.(m := Dispatch(s5.m, s5.alerts[0], 0.0), alerts := [Added(h, second, false)]);
    run := [start, s1, s2, s3, s4, s5, s6];
    assert AddsTorrent(start, s1, h);
    assert s1.alerts[1..] == [] && Delivers(s1, s2);
    assert s2.commands + [Remove(h)] == s3.commands && RemovesTorrent(s2, s3, h);
    assert s3.commands[1..] == [] && Serves(s3, s4);
    assert s4.alerts + [Added(h, second, false)] == s5.alerts && AddsTorrent(s4, s5, h);
    assert s5.alerts[1..] == s6.alerts && Delivers(s5, s6);
    assert forall i :: 0 <= i < 6 ==> Next(run[i], run[i + 1]);
  }

  // ------------------------------------------------------------------ finished alerts

  /** What moves a manager after the restore. */
  datatype Op = Deliver(a: Alert, now: real) | ByHand(h: InfoHash, handle: Handle)

  function Apply(m: Manager, op: Op): Manager {
    match op
    case Deliver(a, now) => Dispatch(m, a, now)
    case ByHand(h, handle) => AddByHand(m, h, handle)
  }

  function ApplyAll(m: Manager, ops: seq<Op>): Manager {
    if ops == [] then m else Apply(ApplyAll(m, ops[..|ops| - 1]), ops[|ops| - 1])
  }

  predicate IsFinish(op: Op, h: InfoHash) {
    op.Deliver? && op.a == Finished(h, true)
  }

  /** The manager takes this finished alert for the reconfirmation of a restored torrent. */
  predicate Swallows(m: Manager, op: Op, h: InfoHash) {
    IsFinish(op, h) && h in m.confirm
  }

  /** An alert after which a restored complete torrent's next finish is real news. */
  predicate EndsConfirmation(m: Manager, op: Op, h: InfoHash) {
    op.Deliver? && match op.a
      case Added(g, _, failed) => g == h && failed && h in m.pending
      case Finished(g, valid) => g == h && valid
      case Removed(g) => g == h
  }

  lemma ConfirmStep(m: Manager, op: Op, h: InfoHash)
    ensures h in Apply(m, op).confirm <==> h in m.confirm && !EndsConfirmation(m, op, h)
  {
  }

  /** The i-th operation meets the manager the ones before it left. */
  function Before(m: Manager, ops: seq<Op>, i: nat): Manager
    requires i <= |ops|
  {
    ApplyAll(m, ops[..i])
  }

  lemma {:induction false} StillToConfirm(m: Manager, ops: seq<Op>, i: nat, h: InfoHash)
    requires i <= |ops|
    ensures h in Before(m, ops, i).confirm <==>
            h in m.confirm && forall j :: 0 <= j < i ==> !EndsConfirmation(Before(m, ops, j), ops[j], h)
  {
    if i == 0 {
    } else {
      StillToConfirm(m, ops, i - 1, h);
      assert ops[..i][..i - 1] == ops[..i - 1];
      ConfirmStep(Before(m, ops, i - 1), ops[i - 1], h);
    }
  }

  /** A finished alert is swallowed exactly if the torrent was restored complete and nothing so far has
      finished it, removed it or failed its add. */
  lemma SwallowedIff(m: Manager, ops: seq<Op>, i: nat, h: InfoHash)
    requires i < |ops| && IsFinish(ops[i], h)
    ensures Swallows(Before(m, ops, i), ops[i], h) <==>
            h in m.confirm && forall j :: 0 <= j < i ==> !EndsConfirmation(Before(m, ops, j), ops[j], h)
  {
    StillToConfirm(m, ops, i, h);
  }

  /** At most one finished alert of a torrent is swallowed in a run, and it is the first one delivered. */
  lemma OnlyTheFirstIsSwallowed(m: Manager, ops: seq<Op>, i: nat, j: nat, h: InfoHash)
    requires i < |ops| && j < |ops| && Swallows(Before(m, ops, i), ops[i], h) && IsFinish(ops[j], h)
    ensures i <= j
    ensures i < j ==> !Swallows(Before(m, ops, j), ops[j], h)
  {
    SwallowedIff(m, ops, i, h);
    SwallowedIff(m, ops, j, h);
    assert EndsConfirmation(Before(m, ops, j), ops[j], h);
    assert EndsConfirmation(Before(m, ops, i), ops[i], h);
  }

  /** One operation: a finished alert that is not swallowed is signalled and dates a row that had no date. */
  lemma FinishStep(m: Manager, op: Op, h: InfoHash)
    requires IsFinish(op, h)
    ensures Apply(m, op).signals == if Swallows(m, op, h) then m.signals else m.signals + [TorrentFinished(h)]
    ensures !Swallows(m, op, h) && h in m.records ==>
              Apply(m, op).records[h].completedAt ==
              if m.records[h].completedAt.Some? then m.records[h].completedAt else Some(op.now)
  {
  }

  /** The signals that h is finished. */
  function Announced(signals: seq<Signal>, h: InfoHash): nat { multiset(signals)[TorrentFinished(h)] }

  function FinishedAlerts(ops: seq<Op>, h: InfoHash): nat {
    if ops == [] then 0
    else FinishedAlerts(ops[..|ops| - 1], h) + if IsFinish(ops[|ops| - 1], h) then 1 else 0
  }

  function SwallowedAlerts(m: Manager, ops: seq<Op>, h: InfoHash): nat {
    if ops == [] then 0
    else
      var before, op := ops[..|ops| - 1], ops[|ops| - 1];
      SwallowedAlerts(m, before, h) + if Swallows(ApplyAll(m, before), op, h) then 1 else 0
  }

  lemma SignalStep(m: Manager, op: Op, h: InfoHash)
    ensures Announced(Apply(m, op).signals, h) ==
            Announced(m.signals, h) + (if IsFinish(op, h) && !Swallows(m, op, h) then 1 else 0)
  {
    if IsFinish(op, h) {
      FinishStep(m, op, h);
    }
  }

  /** Whatever is delivered and added, the finished signals of a torrent are its finished alerts but for the
      one that may be swallowed, and none is if it awaits no reconfirmation. */
  lemma {:induction false} OtherFinishesAreSignalled(m: Manager, ops: seq<Op>, h: InfoHash)
    ensures Announced(ApplyAll(m, ops).signals, h) + SwallowedAlerts(m, ops, h) ==
            Announced(m.signals, h) + FinishedAlerts(ops, h)
    ensures SwallowedAlerts(m, ops, h) + (if h in ApplyAll(m, ops).confirm then 1 else 0) <=
            if h in m.confirm then 1 else 0
  {
    if ops == [] {
    } else {
      var before, op := ops[..|ops| - 1], ops[|ops| - 1];
      OtherFinishesAreSignalled(m, before, h);
      SignalStep(ApplyAll(m, before), op, h);
      ConfirmStep(ApplyAll(m, before), op, h);
    }
  }

  /** Only torrents restored complete start out unconfirmed. */
  lemma {:induction false} OnlyCompleteAreUnconfirmed(m: Manager, entries: seq<Entry>, h: InfoHash)
    requires m.confirm == {}
    ensures h in RestoreAll(m, entries).confirm <==>
            exists e :: e in entries && e.h == h && e.complete && !e.refused
  {
    if entries == [] {
    } else {
      var before, e := entries[..|entries| - 1], entries[|entries| - 1];
      OnlyCompleteAreUnconfirmed(m, before, h);
      assert e in entries;
      assert forall x :: x in entries <==> x in before || x == e;
    }
  }
}
