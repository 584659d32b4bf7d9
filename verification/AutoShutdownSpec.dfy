/** The auto-shutdown service and its busy sources as one event-driven state machine. */
module AutoShutdownSpec {
  import opened Wrappers

  datatype TorrentState =
    | Queued | CheckingMetadata | AwaitingAnalysis | Downloading | Paused | Seeding | FinishedState | Error

  const ACTIVE_DOWNLOAD_STATES: set<TorrentState> := {Downloading, Queued, CheckingMetadata}

  predicate AllTorrentsIdle(states: seq<TorrentState>) {
    !exists i :: 0 <= i < |states| && states[i] in ACTIVE_DOWNLOAD_STATES
  }

  datatype Action = Shutdown | Hibernate

  type SourceId = nat

  /** What happened to countdowns, in order. An abort is a cancel by the user or by the quit. */
  datatype Mark =
    | Started(action: Action, delay: int)
    | Aborted(byQuit: bool)
    | Lapsed
    | Executed(action: Action)

  /** How the last request for a countdown was answered. */
  datatype Answer = NeverAsked | Refused | PutOff | Granted

  datatype State = State(
    enabled: bool, action: Action, delay: int,
    torrents: seq<TorrentState>,
    pendingAction: Option<Action>,
    deferred: bool,
    stopped: bool,
    pendingExtractions: int,
    cancelExtractions: bool,
    otherBusy: set<SourceId>,
    retries: nat,
    log: seq<Mark>,
    answer: Answer)

  datatype Event =
    | TorrentFinished(unzips: bool)
    | TorrentsChange(torrents: seq<TorrentState>)
    | SettingsChange(enabled: bool, action: Action, delay: int)
    | Cancel
    | Stop
    | CancelExtractions
    | ExtractionReported
    | OtherStarts(id: SourceId)
    | OtherEnds(id: SourceId)
    | RetryRuns
    | CountdownElapses

  predicate Busy(s: State) { s.pendingExtractions > 0 || s.otherBusy != {} }

  function MaybeStart(s: State): State {
    if s.stopped || !s.enabled || s.pendingAction.Some? || !AllTorrentsIdle(s.torrents) then s.(answer := Refused)
    else if Busy(s) then s.(deferred := true, answer := PutOff)
    else s.(pendingAction := Some(s.action), log := s.log + [Started(s.action, s.delay)], answer := Granted)
  }

  /** A deferred request is posted again, to run on the next turn of the event loop. */
  function SourceIdle(s: State): State {
    if s.deferred then s.(deferred := false, retries := s.retries + 1) else s
  }

  function Abort(s: State, byQuit: bool): State {
    s.(pendingAction := None, log := s.log + [Aborted(byQuit)])
  }

  function Elapse(s: State): State {
    var quiet := s.(pendingAction := None);
    if s.pendingAction.None? || s.stopped || !s.enabled then quiet.(log := s.log + [Lapsed])
    else quiet.(log := s.log + [Executed(s.pendingAction.value)])
  }

  function Step(s: State, e: Event): State {
    match e
    case TorrentFinished(unzips) =>
      MaybeStart(if unzips then s.(pendingExtractions := s.pendingExtractions + 1) else s)
    case TorrentsChange(torrents) => s.(torrents := torrents)
    case SettingsChange(enabled, action, delay) => s.(enabled := enabled, action := action, delay := delay)
    case Cancel => Abort(s, false)
    case Stop => Abort(s.(stopped := true), true)
    case CancelExtractions => s.(cancelExtractions := true)
    case ExtractionReported =>
      var t := s.(pendingExtractions := s.pendingExtractions - 1);
      if t.pendingExtractions == 0 && !s.cancelExtractions then SourceIdle(t) else t
    case OtherStarts(id) => s.(otherBusy := s.otherBusy + {id})
    case OtherEnds(id) => SourceIdle(s.(otherBusy := s.otherBusy - {id}))
    case RetryRuns => MaybeStart(s.(retries := if s.retries > 0 then s.retries - 1 else 0))
    case CountdownElapses => Elapse(s)
  }

  /** What the surroundings guarantee: an extraction reports only if one is running, and a retry runs only
      if one was posted. */
  predicate Enabled(s: State, e: Event) {
    (e.ExtractionReported? ==> s.pendingExtractions > 0) && (e.RetryRuns? ==> s.retries > 0)
  }

  function Initial(enabled: bool, action: Action, delay: int): State {
    State(enabled, action, delay, [], None, false, false, 0, false, {}, 0, [], NeverAsked)
  }

  ghost predicate IsInitial(s: State) { s == Initial(s.enabled, s.action, s.delay) }

  ghost predicate Next(s: State, t: State) {
    exists e :: Enabled(s, e) && t == Step(s, e)
  }
}
