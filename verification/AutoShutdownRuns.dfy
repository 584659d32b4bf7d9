/** Every shutdown is earned, and no put-off countdown is forgotten. */
module AutoShutdownRuns {
  import opened Wrappers
  import opened Runs
  import opened AutoShutdownSpec

  // ------------------------------------------------------------------ reading the log

  predicate Ends(m: Mark) { m.Aborted? || m.Lapsed? || m.Executed? }

  /** The countdown that is running after these marks. */
  function Running(log: seq<Mark>): Option<Action> {
    if log == [] then None else
      var m := log[|log| - 1];
      if m.Started? then Some(m.action) else None
  }

  /** Only one countdown at a time: each start follows an end, each execution follows its own start at
      once, and nothing starts or executes after an abort by the quit. */
  ghost predicate WellPaired(log: seq<Mark>) {
    && (forall i :: 0 <= i < |log| && log[i].Started? && i > 0 ==> Ends(log[i - 1]))
    && (forall i :: 0 <= i < |log| && log[i].Executed? ==>
          i > 0 && log[i - 1].Started? && log[i - 1].action == log[i].action)
    && forall i, j :: 0 <= i < j < |log| && log[i] == Aborted(true) ==> !log[j].Started? && !log[j].Executed?
  }

  // ------------------------------------------------------------------ what every reachable state keeps

  ghost predicate Inv(s: State) {
    && s.pendingAction == Running(s.log)
    && WellPaired(s.log)
    && (Aborted(true) in s.log <==> s.stopped)
    && s.pendingExtractions >= 0
    && (s.deferred && !s.cancelExtractions ==> Busy(s))
    && (s.answer == PutOff && !s.cancelExtractions ==> s.deferred || s.retries > 0)
  }

  lemma MarkKeepsPairs(log: seq<Mark>, m: Mark)
    requires WellPaired(log)
    requires m.Started? ==> Running(log) == None && Aborted(true) !in log
    requires m.Executed? ==> Running(log) == Some(m.action) && Aborted(true) !in log
    ensures WellPaired(log + [m])
    ensures Running(log + [m]) == if m.Started? then Some(m.action) else None
    ensures Aborted(true) in log + [m] <==> Aborted(true) in log || m == Aborted(true)
  {
    var longer := log + [m];
    forall i, j | 0 <= i < j < |longer| && longer[i] == Aborted(true)
      ensures !longer[j].Started? && !longer[j].Executed?
    {
      assert longer[i] in log;
    }
  }

  lemma StartKeeps(s: State)
    requires Inv(s)
    ensures Inv(MaybeStart(s))
  {
    if s.pendingAction.None? && !s.stopped {
      MarkKeepsPairs(s.log, Started(s.action, s.delay));
    }
  }

  lemma AbortKeeps(s: State, byQuit: bool)
    requires Inv(s)
    ensures Inv(Abort(s.(stopped := s.stopped || byQuit), byQuit))
  {
    MarkKeepsPairs(s.log, Aborted(byQuit));
  }

  lemma ElapseKeeps(s: State)
    requires Inv(s)
    ensures Inv(Elapse(s))
  {
    if s.pendingAction.None? || s.stopped || !s.enabled {
      MarkKeepsPairs(s.log, Lapsed);
    } else {
      MarkKeepsPairs(s.log, Executed(s.pendingAction.value));
    }
  }

  lemma StepKeeps(s: State, e: Event)
    requires Inv(s) && Enabled(s, e)
    ensures Inv(Step(s, e))
  {
    match e
    case TorrentFinished(unzips) =>
      StartKeeps(if unzips then s.(pendingExtractions := s.pendingExtractions + 1) else s);
    case RetryRuns =>
      var popped := s.(retries := s.retries - 1, answer := Refused);
      StartKeeps(popped);
      assert MaybeStart(popped) == Step(s, e);
    case Cancel => AbortKeeps(s, false);
    case Stop => AbortKeeps(s, true);
    case CountdownElapses => ElapseKeeps(s);
    case TorrentsChange(_) =>
    case SettingsChange(_, _, _) =>
    case CancelExtractions =>
    case ExtractionReported =>
    case OtherStarts(_) =>
    case OtherEnds(_) =>
  }

  lemma NextKeeps(s: State, t: State)
    requires Inv(s) && Next(s, t)
    ensures Inv(t)
  {
    var e :| Enabled(s, e) && t == Step(s, e);
    StepKeeps(s, e);
  }

  /** In every run: the log is well paired, a deferred request waits for a busy source, and a put-off
      request is either deferred or posted again (until the quit has cancelled the extractions). */
  lemma AlwaysInv(run: seq<State>, n: nat)
    requires IsRun(run, Next) && n < |run| && IsInitial(run[0])
    ensures Inv(run[n])
  {
    forall s, t | Inv(s) && Next(s, t) ensures Inv(t) {
      NextKeeps(s, t);
    }
    InvariantAlongRun(run, Inv, Next, 0, n);
  }

  predicate HoldsOff(state: TorrentState) {
    state == Downloading || state == Queued || state == CheckingMetadata
  }

  predicate NoneHoldsOff(states: seq<TorrentState>) {
    forall i :: 0 <= i < |states| ==> !HoldsOff(states[i])
  }

  /** A torrent that downloads, waits in the queue or is being checked holds a countdown off; no other does. */
  lemma IdleIff(states: seq<TorrentState>)
    ensures AllTorrentsIdle(states) <==> NoneHoldsOff(states)
  {
    assert forall state :: state in ACTIVE_DOWNLOAD_STATES <==> HoldsOff(state);
  }

  // ------------------------------------------------------------------ safety

  /** A countdown starts only with the feature on, every torrent idle, no source busy, none running and
      the quit not begun, and it is to do what the settings say at that moment. */
  lemma StartsOnlyWhenIdle(s: State, e: Event)
    requires Inv(s) && Enabled(s, e) && |Step(s, e).log| > |s.log| && Step(s, e).log[|s.log|].Started?
    ensures var t := Step(s, e);
            && t.log == s.log + [Started(t.action, t.delay)] && t.pendingAction == Some(t.action)
            && s.pendingAction == None && t.enabled && !t.stopped && AllTorrentsIdle(t.torrents) && !Busy(t)
  {
  }

  /** The machine is shut down only by a countdown that elapses with the feature still on and the quit not
      begun; what is executed is the action saved when it started. */
  lemma ShutsDownOnlyOnElapse(s: State, e: Event)
    requires Inv(s) && Enabled(s, e) && |Step(s, e).log| > |s.log| && Step(s, e).log[|s.log|].Executed?
    ensures e == CountdownElapses && s.enabled && !s.stopped
    ensures s.log != [] && s.log[|s.log| - 1].Started?
    ensures Step(s, e).log == s.log + [Executed(s.log[|s.log| - 1].action)]
  {
  }

  /** Over a whole run: each shutdown comes from its own start, with nothing, and so no cancel and no quit,
      between the two; two starts are always separated by an end; and the quit is final. */
  lemma EveryShutdownIsEarned(run: seq<State>, n: nat, i: nat)
    requires IsRun(run, Next) && n < |run| && IsInitial(run[0])
    requires i < |run[n].log| && run[n].log[i].Executed?
    ensures i > 0 && run[n].log[i - 1].Started? && run[n].log[i - 1].action == run[n].log[i].action
    ensures forall k :: 0 <= k < i ==> run[n].log[k] != Aborted(true)
  {
    AlwaysInv(run, n);
  }

  lemma CountdownsNeverOverlap(run: seq<State>, n: nat, i: nat, j: nat)
    requires IsRun(run, Next) && n < |run| && IsInitial(run[0])
    requires i < j < |run[n].log| && run[n].log[i].Started? && run[n].log[j].Started?
    ensures exists k :: i < k < j && Ends(run[n].log[k])
  {
    AlwaysInv(run, n);
    assert Ends(run[n].log[j - 1]);
  }

  // ------------------------------------------------------------------ back to the moment of each mark

  /** One step lays at most one mark. */
  ghost predicate MarksOnce(s: State, t: State) {
    t.log == s.log || (|t.log| == |s.log| + 1 && t.log[..|s.log|] == s.log)
  }

  lemma StepMarksOnce(s: State, e: Event)
    ensures MarksOnce(s, Step(s, e))
  {
  }

  lemma NextMarksOnce(s: State, t: State)
    requires Next(s, t)
    ensures MarksOnce(s, t)
  {
    var e :| Enabled(s, e) && t == Step(s, e);
    StepMarksOnce(s, e);
  }

  /** The step of a run that laid mark i. */
  lemma {:induction false} MarkWasLaid(run: seq<State>, n: nat, i: nat) returns (k: nat)
    requires IsRun(run, Next) && n < |run| && run[0].log == [] && i < |run[n].log|
    ensures k < n && run[k].log == run[n].log[..i] && run[k + 1].log == run[n].log[..i + 1]
  {
    NextMarksOnce(run[n - 1], run[n]);
    if i < |run[n - 1].log| {
      k := MarkWasLaid(run, n - 1, i);
      assert run[n].log[..i] == run[n - 1].log[..i] && run[n].log[..i + 1] == run[n - 1].log[..i + 1];
    } else {
      k := n - 1;
      assert run[n].log[..i + 1] == run[n].log;
    }
  }

  /** Nothing runs that a shutdown would cut short. */
  ghost predicate Quiet(s: State) { AllTorrentsIdle(s.torrents) && !Busy(s) }

  ghost predicate MayStart(s: State) { s.enabled && !s.stopped && Quiet(s) }

  /** In every run each start was laid at a moment when a countdown may start, with the settings of then. */
  lemma EveryStartWasAllowed(run: seq<State>, n: nat, i: nat) returns (k: nat)
    requires IsRun(run, Next) && n < |run| && IsInitial(run[0])
    requires i < |run[n].log| && run[n].log[i].Started?
    ensures k < n && run[k].log == run[n].log[..i] && run[k + 1].log == run[n].log[..i + 1]
    ensures MayStart(run[k + 1]) && run[n].log[i] == Started(run[k + 1].action, run[k + 1].delay)
    ensures NoneHoldsOff(run[k + 1].torrents)
    ensures run[k + 1].pendingExtractions <= 0 && run[k + 1].otherBusy == {}
  {
    k := MarkWasLaid(run, n, i);
    AlwaysInv(run, k);
    assert Next(run[k], run[k + 1]);
    assert run[k + 1].log[i] == run[n].log[i];
    var e :| Enabled(run[k], e) && run[k + 1] == Step(run[k], e);
    StartsOnlyWhenIdle(run[k], e);
    IdleIff(run[k + 1].torrents);
  }

  /** In every run each shutdown has a start, when a countdown might start, and a later moment when it
      elapsed with the feature still on and no quit begun; it does what the settings said at the start. */
  lemma EveryShutdownWasAllowed(run: seq<State>, n: nat, i: nat) returns (start: nat, fire: nat)
    requires IsRun(run, Next) && n < |run| && IsInitial(run[0])
    requires i < |run[n].log| && run[n].log[i].Executed?
    ensures i > 0 && start < fire < n
    ensures run[start + 1].log == run[n].log[..i] == run[fire].log && run[fire + 1].log == run[n].log[..i + 1]
    ensures MayStart(run[start + 1]) && run[n].log[i] == Executed(run[start + 1].action)
    ensures run[fire].enabled && !run[fire].stopped
  {
    EveryShutdownIsEarned(run, n, i);
    start := EveryStartWasAllowed(run, n, i - 1);
    fire := MarkWasLaid(run, n, i);
    AlwaysInv(run, fire);
    assert Next(run[fire], run[fire + 1]);
    assert run[fire + 1].log[i] == run[n].log[i];
    var e :| Enabled(run[fire], e) && run[fire + 1] == Step(run[fire], e);
    ShutsDownOnlyOnElapse(run[fire], e);
    if fire <= start {
      LogGrows(run, fire, start);
    }
  }

  ghost predicate NoShorter(s: State, t: State) { |s.log| <= |t.log| }

  lemma LogGrows(run: seq<State>, i: nat, j: nat)
    requires IsRun(run, Next) && i <= j < |run| && Inv(run[i])
    ensures NoShorter(run[i], run[j])
  {
    forall s, t | Inv(s) && Next(s, t) ensures Inv(t) && NoShorter(s, t) {
      NextKeeps(s, t);
      NextMarksOnce(s, t);
    }
    PreorderAlongRun(run, Inv, Next, NoShorter, i, j);
  }

  // ------------------------------------------------------------------ no lost wake-up

  /** When the last busy source goes idle, a deferred request is posted again. */
  lemma LastSourcePostsRetry(s: State, e: Event)
    requires Inv(s) && Enabled(s, e) && s.deferred && !s.cancelExtractions && !Busy(Step(s, e))
    requires !e.CancelExtractions?
    ensures Step(s, e).retries == s.retries + 1 && !Step(s, e).deferred
  {
  }

  /** A posted retry starts the countdown exactly if it may start at that moment. */
  lemma RetryStartsIff(s: State)
    requires Inv(s) && s.retries > 0
    ensures var t := Step(s, RetryRuns);
            (t.log == s.log + [Started(s.action, s.delay)] && t.pendingAction == Some(s.action) <==>
             !s.stopped && s.enabled && s.pendingAction == None && AllTorrentsIdle(s.torrents) && !Busy(s))
  {
  }

  /** A put-off request is remembered: deferred, or posted again. */
  ghost predicate Owed(s: State) { s.deferred || s.retries > 0 }

  /** A posted retry runs. */
  ghost predicate Retries(s: State, t: State) { s.retries > 0 && t == Step(s, RetryRuns) }

  /** Only a retry settles what is owed. */
  lemma OwedUntilRetry(s: State, t: State)
    requires Owed(s) && Next(s, t) && !Owed(t)
    ensures Retries(s, t)
  {
    var e :| Enabled(s, e) && t == Step(s, e);
    if !e.RetryRuns? {
      StepStaysOwed(s, e);
    }
  }

  lemma StepStaysOwed(s: State, e: Event)
    requires Owed(s) && !e.RetryRuns?
    ensures Owed(Step(s, e))
  {
  }

  /** Once the quit has cancelled the extractions, they stay cancelled. */
  ghost predicate StaysCancelled(s: State, t: State) { s.cancelExtractions ==> t.cancelExtractions }

  lemma NextStaysCancelled(s: State, t: State)
    requires Next(s, t)
    ensures StaysCancelled(s, t)
  {
    var e :| Enabled(s, e) && t == Step(s, e);
  }

  lemma CancelIsFinal(run: seq<State>, m: nat, n: nat)
    requires IsRun(run, Next) && m <= n < |run| && Inv(run[m])
    ensures StaysCancelled(run[m], run[n])
  {
    forall s, t | Inv(s) && Next(s, t) ensures Inv(t) && StaysCancelled(s, t) {
      NextKeeps(s, t);
      NextStaysCancelled(s, t);
    }
    PreorderAlongRun(run, Inv, Next, StaysCancelled, m, n);
  }

  lemma PutOffIsOwed(s: State)
    requires Inv(s) && !s.cancelExtractions
    ensures s.answer == PutOff ==> Owed(s)
    ensures !Busy(s) && s.retries == 0 ==> !Owed(s)
  {
  }

  /** A retry that runs starts the countdown exactly if it may start at that moment. */
  ghost predicate AsksAgain(s: State, t: State) {
    && Retries(s, t)
    && (t.log == s.log + [Started(s.action, s.delay)] && t.pendingAction == Some(s.action) <==>
        s.pendingAction == None && MayStart(s))
  }

  /** No wake-up is lost: if a request was put off, then at any later moment before the quit at which no source
      is busy and no retry is posted, a retry has run in between and asked again. */
  lemma NoRequestIsForgotten(run: seq<State>, m: nat, n: nat) returns (k: nat)
    requires IsRun(run, Next) && m <= n < |run| && IsInitial(run[0])
    requires run[m].answer == PutOff
    requires !run[n].cancelExtractions && !Busy(run[n]) && run[n].retries == 0
    ensures m <= k < n && AsksAgain(run[k], run[k + 1])
  {
    AlwaysInv(run, m);
    AlwaysInv(run, n);
    CancelIsFinal(run, m, n);
    PutOffIsOwed(run[m]);
    PutOffIsOwed(run[n]);
    k := TurningPoint(run, Owed, m, n);
    OwedUntilRetry(run[k], run[k + 1]);
    AlwaysInv(run, k);
    RetryAsks(run[k], run[k + 1]);
  }

  lemma RetryAsks(s: State, t: State)
    requires Inv(s) && Retries(s, t)
    ensures AsksAgain(s, t)
  {
    RetryStartsIff(s);
  }

  /** A deferred request waits for a source that is busy. */
  lemma DeferredMeansBusy(run: seq<State>, n: nat)
    requires IsRun(run, Next) && n < |run| && IsInitial(run[0])
    ensures run[n].deferred && !run[n].cancelExtractions ==> Busy(run[n])
    ensures run[n].answer == PutOff && !run[n].cancelExtractions && !Busy(run[n]) ==> run[n].retries > 0
  {
    AlwaysInv(run, n);
  }

  // ------------------------------------------------------------------ the extraction count

  function After(s: State, events: seq<Event>): State {
    if events == [] then s else Step(After(s, events[..|events| - 1]), events[|events| - 1])
  }

  function Balance(e: Event): int {
    if e == TorrentFinished(true) then 1 else if e.ExtractionReported? then -1 else 0
  }

  /** Extractions begun and not yet reported. */
  function Unreported(events: seq<Event>): int {
    if events == [] then 0 else Unreported(events[..|events| - 1]) + Balance(events[|events| - 1])
  }

  lemma StepBalance(s: State, e: Event)
    ensures Step(s, e).pendingExtractions == s.pendingExtractions + Balance(e)
  {
  }

  lemma {:induction false} CountIsUnreported(s: State, events: seq<Event>)
    ensures After(s, events).pendingExtractions == s.pendingExtractions + Unreported(events)
  {
    if events == [] {
    } else {
      CountIsUnreported(s, events[..|events| - 1]);
      StepBalance(After(s, events[..|events| - 1]), events[|events| - 1]);
    }
  }

  // ------------------------------------------------------------------ the settings in force

  /** Event k is the last change of the settings. */
  ghost predicate LastChange(events: seq<Event>, k: int) {
    0 <= k < |events| && events[k].SettingsChange? && forall j :: k < j < |events| ==> !events[j].SettingsChange?
  }

  /** The settings in force, which the next countdown will follow, are those last set. */
  lemma {:induction false} SettingsAreTheLastSet(s: State, events: seq<Event>, k: int)
    requires LastChange(events, k)
    ensures var t, e := After(s, events), events[k];
            t.enabled == e.enabled && t.action == e.action && t.delay == e.delay
  {
    var n := |events| - 1;
    if k == n {
    } else {
      SettingsAreTheLastSet(s, events[..n], k);
      OtherEventsKeepSettings(After(s, events[..n]), events[n]);
    }
  }

  lemma OtherEventsKeepSettings(s: State, e: Event)
    requires !e.SettingsChange?
    ensures var t := Step(s, e); t.enabled == s.enabled && t.action == s.action && t.delay == s.delay
  {
  }

  // ------------------------------------------------------------------ what a shutdown cuts short

  /** The other source whose work is running after these events, of those begun in them. */
  predicate OtherRuns(events: seq<Event>, id: SourceId) {
    if events == [] then false else
      match events[|events| - 1]
      case OtherStarts(g) => g == id || OtherRuns(events[..|events| - 1], id)
      case OtherEnds(g) => g != id && OtherRuns(events[..|events| - 1], id)
      case _ => OtherRuns(events[..|events| - 1], id)
  }

  /** The torrents as last reported in these events. */
  function Reported(events: seq<Event>): seq<TorrentState> {
    if events == [] then [] else
      match events[|events| - 1]
      case TorrentsChange(torrents) => torrents
      case _ => Reported(events[..|events| - 1])
  }

  /** Of the work begun in these events some still runs: an extraction, another source, or a torrent. */
  ghost predicate WorkRuns(events: seq<Event>) {
    Unreported(events) > 0 || (exists id :: OtherRuns(events, id)) || !AllTorrentsIdle(Reported(events))
  }

  lemma {:induction false} OtherBusyIsRunning(s: State, events: seq<Event>, id: SourceId)
    requires s.otherBusy == {}
    ensures id in After(s, events).otherBusy <==> OtherRuns(events, id)
  {
    if events == [] {
    } else {
      OtherBusyIsRunning(s, events[..|events| - 1], id);
      OtherBusyStep(After(s, events[..|events| - 1]), events[|events| - 1]);
    }
  }

  lemma OtherBusyStep(s: State, e: Event)
    ensures Step(s, e).otherBusy == match e
      case OtherStarts(g) => s.otherBusy + {g}
      case OtherEnds(g) => s.otherBusy - {g}
      case _ => s.otherBusy
  {
  }

  lemma {:induction false} TorrentsAreReported(s: State, events: seq<Event>)
    requires AllTorrentsIdle(s.torrents)
    ensures AllTorrentsIdle(After(s, events).torrents) <==> AllTorrentsIdle(Reported(events))
  {
    if events == [] {
    } else {
      TorrentsAreReported(s, events[..|events| - 1]);
      TorrentsStep(After(s, events[..|events| - 1]), events[|events| - 1]);
    }
  }

  lemma TorrentsStep(s: State, e: Event)
    ensures Step(s, e).torrents == if e.TorrentsChange? then e.torrents else s.torrents
  {
  }

  lemma QuietIff(s: State, events: seq<Event>)
    requires Quiet(s) && s.pendingExtractions >= 0
    ensures Quiet(After(s, events)) <==> !WorkRuns(events)
  {
    var t := After(s, events);
    CountIsUnreported(s, events);
    TorrentsAreReported(s, events);
    forall id ensures id in t.otherBusy <==> OtherRuns(events, id) {
      OtherBusyIsRunning(s, events, id);
    }
    assert t.otherBusy != {} <==> exists id :: id in t.otherBusy;
  }

  /** The events of a stretch of a run. */
  lemma {:induction false} EventsBetween(run: seq<State>, m: nat, n: nat) returns (events: seq<Event>)
    requires IsRun(run, Next) && m <= n < |run|
    ensures |events| == n - m && After(run[m], events) == run[n]
    decreases n
  {
    if m == n {
      events := [];
    } else {
      var first, mid, last := run[m], run[n - 1], run[n];
      assert Next(mid, run[n - 1 + 1]);
      var before := EventsBetween(run, m, n - 1);
      events := OneMoreEvent(first, before, mid, last);
    }
  }

  lemma OneMoreEvent(s: State, before: seq<Event>, mid: State, t: State) returns (events: seq<Event>)
    requires After(s, before) == mid && Next(mid, t)
    ensures |events| == |before| + 1 && After(s, events) == t
  {
    var e :| Enabled(mid, e) && t == Step(mid, e);
    events := before + [e];
    assert events[..|before|] == before;
  }

  /** In every run each shutdown finds the machine quiet exactly if no work begun since its countdown
      started is still running: the elapse checks neither. */
  lemma ShutdownIsQuietIff(run: seq<State>, n: nat, i: nat) returns (start: nat, fire: nat, events: seq<Event>)
    requires IsRun(run, Next) && n < |run| && IsInitial(run[0])
    requires i < |run[n].log| && run[n].log[i].Executed?
    ensures i > 0 && start < fire < n
    ensures run[start + 1].log == run[n].log[..i] == run[fire].log && run[fire + 1].log == run[n].log[..i + 1]
    ensures |events| == fire - (start + 1) && After(run[start + 1], events) == run[fire]
    ensures Quiet(run[fire]) <==> !WorkRuns(events)
  {
    start, fire := EveryShutdownWasAllowed(run, n, i);
    AlwaysInv(run, start + 1);
    events := EventsBetween(run, start + 1, fire);
    QuietIff(run[start + 1], events);
  }

  /** A torrent finishes and the countdown starts; another finishes and is unpacked, a third begins to
      download; the countdown elapses and shuts the machine down in the middle of both. */
  lemma ShutdownInTheMiddle(action: Action, delay: int) returns (run: seq<State>)
    ensures |run| == 5 && IsRun(run, Next) && run[0] == Initial(true, action, delay)
    ensures run[3].pendingExtractions == 1 && run[3].torrents == [Downloading] && !Quiet(run[3])
    ensures run[4].log == [Started(action, delay), Executed(action)]
  {
    var s0 := Initial(true, action, delay);
    var e0, e1 := TorrentFinished(false), TorrentFinished(true);
    var e2, e3 := TorrentsChange([Downloading]), CountdownElapses;
    var s1 := s0.(pendingAction := Some(action), log := [Started(action, delay)], answer := Granted);
    var s2 := s1.(pendingExtractions := 1, answer := Refused);
    var s3 := s2.(torrents := [Downloading]);
    var s4 := s3.(pendingAction := None, log := [Started(action, delay), Executed(action)]);
    assert Enabled(s0, e0) && Step(s0, e0) == s1;
    assert Enabled(s1, e1) && Step(s1, e1) == s2;
    assert Enabled(s2, e2) && Step(s2, e2) == s3;
    assert s3.log + [Executed(action)] == s4.log;
    assert Enabled(s3, e3) && Step(s3, e3) == s4;
    assert s3.torrents[0] in ACTIVE_DOWNLOAD_STATES;
    run := [s0, s1, s2, s3, s4];
    assert forall i :: 0 <= i < 4 ==> Next(run[i], run[i + 1]);
  }
}
