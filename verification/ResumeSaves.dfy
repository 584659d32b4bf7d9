/** The autosave queue: filled with every torrent, drained a few per tick. */
module ResumeSaves {
  import opened Wrappers
  import opened SessionSpec

  const RESUME_SAVES_PER_TICK := 2

  function Popped(queue: seq<InfoHash>): seq<InfoHash> {
    queue[..Min(RESUME_SAVES_PER_TICK, |queue|)]
  }

  function Rest(queue: seq<InfoHash>): seq<InfoHash> {
    queue[Min(RESUME_SAVES_PER_TICK, |queue|)..]
  }

  /** The popped torrents a save is requested for. */
  function Requested(popped: seq<InfoHash>, handles: map<InfoHash, Handle>, valid: set<Handle>): seq<InfoHash> {
    if popped == [] then [] else
      var h := popped[|popped| - 1];
      Requested(popped[..|popped| - 1], handles, valid) + if h in handles && handles[h] in valid then [h] else []
  }

  lemma {:induction false} RequestedIff(
    popped: seq<InfoHash>, handles: map<InfoHash, Handle>, valid: set<Handle>, h: InfoHash)
    ensures h in Requested(popped, handles, valid) <==> h in popped && h in handles && handles[h] in valid
  {
    if popped == [] {
    } else {
      RequestedIff(popped[..|popped| - 1], handles, valid, h);
      assert popped == popped[..|popped| - 1] + [popped[|popped| - 1]];
    }
  }

  // ------------------------------------------------------------------ runs

  /** Between ticks the two-minute timer may refill the queue any number of times, and torrents may come
      and go: `handles` is whatever the event finds. */
  datatype Event =
    | Fill(added: seq<InfoHash>, handles: map<InfoHash, Handle>)
    | Tick(handles: map<InfoHash, Handle>, valid: set<Handle>)

  ghost predicate Possible(queue: seq<InfoHash>, e: Event) {
    e.Fill? ==> NoDuplicates(e.added) && Elements(e.added) == e.handles.Keys - Elements(queue)
  }

  function After(queue: seq<InfoHash>, e: Event): seq<InfoHash> {
    match e
    case Fill(added, _) => queue + added
    case Tick(_, _) => Rest(queue)
  }

  function AfterAll(queue: seq<InfoHash>, events: seq<Event>): seq<InfoHash> {
    if events == [] then queue else After(AfterAll(queue, events[..|events| - 1]), events[|events| - 1])
  }

  ghost predicate AllPossible(queue: seq<InfoHash>, events: seq<Event>) {
    forall i :: 0 <= i < |events| ==> Possible(AfterAll(queue, events[..i]), events[i])
  }

  /** The queue never holds a torrent twice. */
  lemma {:induction false} NeverDuplicates(queue: seq<InfoHash>, events: seq<Event>)
    requires NoDuplicates(queue) && AllPossible(queue, events)
    ensures NoDuplicates(AfterAll(queue, events))
  {
    if events == [] {
    } else {
      var before, e := events[..|events| - 1], events[|events| - 1];
      assert forall i :: 0 <= i < |before| ==> before[..i] == events[..i];
      NeverDuplicates(queue, before);
      var q := AfterAll(queue, before);
      assert events[..|before|] == before;
      if e.Fill? {
        AppendingNewKeepsDistinct(q, e.added);
      }
    }
  }

  lemma AppendingNewKeepsDistinct(queue: seq<InfoHash>, added: seq<InfoHash>)
    requires NoDuplicates(queue) && NoDuplicates(added) && Elements(added) !! Elements(queue)
    ensures NoDuplicates(queue + added)
  {
    var all := queue + added;
    forall i, j | 0 <= i < j < |all| ensures all[i] != all[j] {
      if i < |queue| <= j {
        assert all[i] in Elements(queue) && all[j] in Elements(added);
      }
    }
  }

  function Ticks(events: seq<Event>): nat {
    if events == [] then 0 else
      Ticks(events[..|events| - 1]) + if events[|events| - 1].Tick? then 1 else 0
  }

  /** A queued torrent moves up two places a tick, and refills never overtake it. */
  lemma {:induction false} MovesUpTwoPerTick(queue: seq<InfoHash>, events: seq<Event>, p: nat)
    requires p < |queue| && RESUME_SAVES_PER_TICK * Ticks(events) <= p
    ensures var q := AfterAll(queue, events);
            p - RESUME_SAVES_PER_TICK * Ticks(events) < |q| && q[p - RESUME_SAVES_PER_TICK * Ticks(events)] == queue[p]
  {
    if events == [] {
    } else {
      MovesUpTwoPerTick(queue, events[..|events| - 1], p);
    }
  }

  /** The torrent at position p is popped by tick p / 2 + 1, that is ceil((p + 1) / 2), no sooner and no
      later; its save is requested then exactly if its handle is present and valid at that moment. */
  lemma SavedOnItsTick(queue: seq<InfoHash>, events: seq<Event>, tick: Event, p: nat)
    requires p < |queue| && tick.Tick? && Ticks(events) == p / 2
    ensures var popped := Popped(AfterAll(queue, events));
            && queue[p] in popped
            && (queue[p] in Requested(popped, tick.handles, tick.valid) <==>
                queue[p] in tick.handles && tick.handles[queue[p]] in tick.valid)
  {
    MovesUpTwoPerTick(queue, events, p);
    var popped := Popped(AfterAll(queue, events));
    assert popped[p - RESUME_SAVES_PER_TICK * (p / 2)] == queue[p];
    RequestedIff(popped, tick.handles, tick.valid, queue[p]);
  }

  lemma NotPoppedBefore(queue: seq<InfoHash>, events: seq<Event>, p: nat)
    requires NoDuplicates(queue) && AllPossible(queue, events) && p < |queue| && Ticks(events) < p / 2
    ensures queue[p] !in Popped(AfterAll(queue, events))
  {
    MovesUpTwoPerTick(queue, events, p);
    NeverDuplicates(queue, events);
    var q := AfterAll(queue, events);
    var k := p - RESUME_SAVES_PER_TICK * Ticks(events);
    assert k >= RESUME_SAVES_PER_TICK && q[k] == queue[p];
  }
}
