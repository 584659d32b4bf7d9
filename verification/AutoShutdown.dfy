/** The auto-shutdown service and the extraction counter it waits for, updated in place. */
module AutoShutdown {
  import opened Wrappers
  import opened AutoShutdownSpec

  class Settings {
    var enabled: bool
    var action: Action
    var delaySeconds: int

    constructor (enabled: bool, action: Action, delaySeconds: int)
      ensures this.enabled == enabled && this.action == action && this.delaySeconds == delaySeconds
    {
      this.enabled, this.action, this.delaySeconds := enabled, action, delaySeconds;
    }
  }

  class PostCompleteActionService {
    var pendingExtractions: int
    var cancelled: bool

    constructor ()
      ensures pendingExtractions == 0 && !cancelled
    {
      pendingExtractions, cancelled := 0, false;
    }

    predicate HasPendingExtractions()
      reads this
    {
      pendingExtractions > 0
    }

    /** Starts one extraction for a torrent's archives, if it has any. */
    method UnzipFiles(zipCount: nat)
      modifies this
      ensures pendingExtractions == old(pendingExtractions) + (if zipCount > 0 then 1 else 0)
      ensures cancelled == old(cancelled)
    {
      if zipCount > 0 {
        pendingExtractions := pendingExtractions + 1;
      }
    }

    /** `idle` says whether the idle signal is emitted: not any more once quitting. */
    method OnExtractionFinished() returns (idle: bool)
      modifies this
      ensures pendingExtractions == old(pendingExtractions) - 1 && cancelled == old(cancelled)
      ensures idle <==> pendingExtractions == 0 && !cancelled
    {
      pendingExtractions := pendingExtractions - 1;
      idle := pendingExtractions == 0 && !cancelled;
    }

    method CancelRunningExtractions()
      modifies this
      ensures cancelled && pendingExtractions == old(pendingExtractions)
    {
      cancelled := true;
    }
  }

  class AutoShutdownService {
    const settings: Settings
    const extractions: PostCompleteActionService
    /** The states of the session's torrents. */
    var torrents: seq<TorrentState>
    /** The other busy sources that are busy now. */
    var otherBusy: set<SourceId>
    var deferredByBusySource: bool
    var countdownTimer: bool
    var pendingAction: Option<Action>
    var stopped: bool
    /** Zero-delay single shots posted to the event loop and not yet run. */
    var postedRetries: nat
    /** What the service announced and did, in order; an execution is the operating system call. */
    var log: seq<Mark>
    ghost var answer: Answer

    ghost function View(): State
      reads this, settings, extractions
    {
      State(settings.enabled, settings.action, settings.delaySeconds, torrents, pendingAction,
            deferredByBusySource, stopped, extractions.pendingExtractions, extractions.cancelled, otherBusy,
            postedRetries, log, answer)
    }

    /** A timer runs exactly while an action is pending. */
    ghost predicate Valid()
      reads this
    {
      countdownTimer == pendingAction.Some?
    }

    constructor (settings: Settings, extractions: PostCompleteActionService)
      ensures this.settings == settings && this.extractions == extractions && Valid()
      ensures View() == State(settings.enabled, settings.action, settings.delaySeconds, [], None, false, false,
                              extractions.pendingExtractions, extractions.cancelled, {}, 0, [], NeverAsked)
    {
      this.settings, this.extractions := settings, extractions;
      torrents, otherBusy, deferredByBusySource, countdownTimer := [], {}, false, false;
      pendingAction, stopped, postedRetries := None, false, 0;
      log, answer := [], NeverAsked;
    }

    method IsIdle() returns (idle: bool)
      ensures idle <==> AllTorrentsIdle(torrents)
    {
      for i := 0 to |torrents|
        invariant forall j :: 0 <= j < i ==> torrents[j] !in ACTIVE_DOWNLOAD_STATES
      {
        if torrents[i] in ACTIVE_DOWNLOAD_STATES {
          return false;
        }
      }
      return true;
    }

    method MaybeStartCountdown()
      requires Valid()
      modifies this
      ensures Valid() && View() == MaybeStart(old(View()))
    {
      answer := Refused;
      if stopped || !settings.enabled {
        return;
      }
      if pendingAction.Some? {
        return;
      }
      var idle := IsIdle();
      if !idle {
        return;
      }
      if extractions.HasPendingExtractions() || otherBusy != {} {
        deferredByBusySource := true;
        answer := PutOff;
        return;
      }
      StartCountdown();
    }

    /** Saves the action now: later changes of the setting do not affect a running countdown. */
    method StartCountdown()
      requires Valid()
      modifies this
      ensures Valid()
      ensures View() == old(View()).(pendingAction := Some(settings.action), answer := Granted,
                                     log := old(log) + [Started(settings.action, settings.delaySeconds)])
    {
      pendingAction := Some(settings.action);
      countdownTimer := true;
      log := log + [Started(settings.action, settings.delaySeconds)];
      answer := Granted;
    }

    /** The post-complete slot runs first: it was connected first. */
    method OnTorrentFinished(zipCount: nat)
      requires Valid()
      modifies this, extractions
      ensures Valid() && View() == Step(old(View()), TorrentFinished(zipCount > 0))
    {
      extractions.UnzipFiles(zipCount);
      MaybeStartCountdown();
    }

    method OnBusySourceIdle()
      requires Valid()
      modifies this
      ensures Valid() && View() == SourceIdle(old(View()))
    {
      if deferredByBusySource {
        deferredByBusySource := false;
        postedRetries := postedRetries + 1;
      }
    }

    method OnExtractionReported()
      requires Valid()
      modifies this, extractions
      ensures Valid() && View() == Step(old(View()), ExtractionReported)
    {
      var idle := extractions.OnExtractionFinished();
      if idle {
        OnBusySourceIdle();
      }
    }

    method OnOtherStarts(id: SourceId)
      requires Valid()
      modifies this
      ensures Valid() && View() == Step(old(View()), OtherStarts(id))
    {
      otherBusy := otherBusy + {id};
    }

    /** The source turns idle before it signals. */
    method OnOtherEnds(id: SourceId)
      requires Valid()
      modifies this
      ensures Valid() && View() == Step(old(View()), OtherEnds(id))
    {
      otherBusy := otherBusy - {id};
      OnBusySourceIdle();
    }

    method RunRetry()
      requires Valid() && postedRetries > 0
      modifies this
      ensures Valid() && View() == Step(old(View()), RetryRuns)
    {
      postedRetries := postedRetries - 1;
      MaybeStartCountdown();
    }

    method CancelShutdown(byQuit: bool)
      requires Valid()
      modifies this
      ensures Valid() && !countdownTimer && View() == Abort(old(View()), byQuit)
    {
      if countdownTimer {
        countdownTimer := false;
      }
      pendingAction := None;
      log := log + [Aborted(byQuit)];
    }

    method Stop()
      requires Valid()
      modifies this
      ensures Valid() && !countdownTimer && View() == Step(old(View()), Event.Stop)
    {
      stopped := true;
      CancelShutdown(true);
    }

    /** A timeout that arrives after its countdown was stopped executes nothing. */
    method OnCountdownElapsed()
      requires Valid()
      modifies this
      ensures Valid() && View() == Step(old(View()), CountdownElapses)
      ensures !old(countdownTimer) ==> log == old(log) + [Lapsed]
    {
      var action := pendingAction;
      countdownTimer := false;
      pendingAction := None;
      if action.None? || stopped {
        log := log + [Lapsed];
        return;
      }
      if !settings.enabled {
        log := log + [Lapsed];
        return;
      }
      log := log + [Executed(action.value)];
    }
  }
}
