/** Cumulative byte counts as values: the store, the service's memory, events, and the ledger that
    says what the totals ought to be. */
module StatsSpec {
  import opened Wrappers

  type InfoHash = string

  /** Downloaded and uploaded bytes. */
  datatype Bytes = Bytes(down: int, up: int)

  const ZERO := Bytes(0, 0)

  function Plus(a: Bytes, b: Bytes): Bytes { Bytes(a.down + b.down, a.up + b.up) }

  function Clamp(a: Bytes): Bytes { Bytes(Max(0, a.down), Max(0, a.up)) }

  /** What a counter gained from one reading to the next; a reset gains nothing. */
  function Gain(last: Bytes, now: Bytes): Bytes {
    Clamp(Bytes(now.down - last.down, now.up - last.up))
  }

  // ------------------------------------------------------------------ the store

  datatype Store = Store(totals: Bytes, counters: map<InfoHash, Bytes>)

  function Counter(s: Store, h: InfoHash): Bytes {
    if h in s.counters then s.counters[h] else ZERO
  }

  function AddTotals(s: Store, delta: Bytes): Store {
    if delta.down <= 0 && delta.up <= 0 then s else s.(totals := Plus(s.totals, Clamp(delta)))
  }

  function SetCounter(s: Store, h: InfoHash, value: Bytes): Store {
    s.(counters := s.counters[h := value])
  }

  function ApplyFlush(s: Store, delta: Bytes, values: map<InfoHash, Bytes>): Store {
    Store(Plus(s.totals, Clamp(delta)), s.counters + values)
  }

  function RecordRemoval(s: Store, h: InfoHash, delta: Bytes, value: Bytes): Store {
    Store(Plus(s.totals, Clamp(delta)), s.counters[h := value])
  }

  /** The one-commit removal leaves what the two commits it replaced left. */
  lemma RemovalIsTwoWrites(s: Store, h: InfoHash, delta: Bytes, value: Bytes)
    ensures RecordRemoval(s, h, delta, value) == SetCounter(AddTotals(s, delta), h, value)
  {
    if delta.down <= 0 && delta.up <= 0 {
      assert Plus(s.totals, Clamp(delta)) == s.totals;
    }
  }

  // ------------------------------------------------------------------ sums over torrents

  ghost function Pick(keys: set<InfoHash>): (k: InfoHash)
    requires keys != {}
    ensures k in keys
  {
    var k :| k in keys;
    k
  }

  ghost function SumOver(keys: set<InfoHash>, f: InfoHash -> Bytes): Bytes {
    if keys == {} then ZERO else Plus(f(Pick(keys)), SumOver(keys - {Pick(keys)}, f))
  }

  /** The sum does not depend on the order the keys are picked in. */
  lemma {:induction false} SumOverSplit(keys: set<InfoHash>, f: InfoHash -> Bytes, k: InfoHash)
    requires k in keys
    ensures SumOver(keys, f) == Plus(f(k), SumOver(keys - {k}, f))
  {
    var j := Pick(keys);
    if j == k {
    } else {
      SumOverSplit(keys - {j}, f, k);
      SumOverSplit(keys - {k}, f, j);
      assert keys - {j} - {k} == keys - {k} - {j};
    }
  }

  lemma PlusShuffles(a: Bytes, b: Bytes, c: Bytes, d: Bytes)
    ensures Plus(Plus(a, b), Plus(c, d)) == Plus(Plus(a, c), Plus(b, d))
  {
  }

  lemma {:induction false} SumOverAdds(
    keys: set<InfoHash>, f: InfoHash -> Bytes, g: InfoHash -> Bytes, sum: InfoHash -> Bytes)
    requires forall k :: k in keys ==> sum(k) == Plus(f(k), g(k))
    ensures SumOver(keys, sum) == Plus(SumOver(keys, f), SumOver(keys, g))
  {
    if keys == {} {
    } else {
      var k := Pick(keys);
      var rest := keys - {k};
      SumOverAdds(rest, f, g, sum);
      PlusShuffles(f(k), SumOver(rest, f), g(k), SumOver(rest, g));
    }
  }

  lemma {:induction false} SumOverSame(keys: set<InfoHash>, f: InfoHash -> Bytes, g: InfoHash -> Bytes)
    requires forall k :: k in keys ==> f(k) == g(k)
    ensures SumOver(keys, f) == SumOver(keys, g)
  {
    if keys == {} {
    } else {
      SumOverSame(keys - {Pick(keys)}, f, g);
    }
  }

  /** Keys whose summand is zero may be added. */
  lemma {:induction false} SumOverMore(keys: set<InfoHash>, more: set<InfoHash>, f: InfoHash -> Bytes)
    requires keys <= more && forall k :: k in more - keys ==> f(k) == ZERO
    ensures SumOver(keys, f) == SumOver(more, f)
  {
    var extra := more - keys;
    if extra == {} {
      forall x | x in more ensures x in keys {
        assert x in keys || x in extra;
      }
      assert keys == more;
    } else {
      var k :| k in extra;
      SumOverSplit(more, f, k);
      SumOverMore(keys, more - {k}, f);
    }
  }

  /** A sum of integers over the torrents of a set. */
  ghost function Total(keys: set<InfoHash>, f: InfoHash -> int): int {
    if keys == {} then 0 else
      var k := Pick(keys);
      f(k) + Total(keys - {k}, f)
  }

  /** Sums of byte pairs are sums of their parts. */
  lemma {:induction false} SumOverIsTotals(
    keys: set<InfoHash>, f: InfoHash -> Bytes, down: InfoHash -> int, up: InfoHash -> int)
    requires forall k :: k in keys ==> f(k).down == down(k) && f(k).up == up(k)
    ensures SumOver(keys, f).down == Total(keys, down) && SumOver(keys, f).up == Total(keys, up)
  {
    if keys == {} {
    } else {
      SumOverIsTotals(keys - {Pick(keys)}, f, down, up);
    }
  }

  /** The order does not matter. */
  lemma {:induction false} TotalSplit(keys: set<InfoHash>, f: InfoHash -> int, k: InfoHash)
    requires k in keys
    ensures Total(keys, f) == f(k) + Total(keys - {k}, f)
  {
    var j := Pick(keys);
    if j == k {
    } else {
      TotalSplit(keys - {j}, f, k);
      TotalSplit(keys - {k}, f, j);
      assert keys - {j} - {k} == keys - {k} - {j};
    }
  }

  // ------------------------------------------------------------------ the service

  /** `lastSeen` is the write-behind cache of the store's counters. */
  datatype Service = Service(store: Store, current: map<InfoHash, Bytes>, lastSeen: map<InfoHash, Bytes>)

  datatype Event =
    | Status(h: InfoHash, sample: Bytes)
    | Flush
    | Removed(h: InfoHash)
    | Restart

  function LastSeen(s: Service, h: InfoHash): Bytes {
    if h in s.lastSeen then s.lastSeen[h] else Counter(s.store, h)
  }

  function Gains(s: Service): InfoHash -> Bytes {
    h => if h in s.current then Gain(LastSeen(s, h), s.current[h]) else ZERO
  }

  /** The counters a flush has to write: those that differ from the cache. */
  function Moved(s: Service): map<InfoHash, Bytes> {
    map h | h in s.current && s.current[h] != LastSeen(s, h) :: s.current[h]
  }

  ghost function FlushAll(s: Service): Service {
    var store := if Moved(s) == map[] then s.store
                 else ApplyFlush(s.store, SumOver(s.current.Keys, Gains(s)), Moved(s));
    Service(store, s.current, s.lastSeen + s.current)
  }

  function FlushOne(s: Service, h: InfoHash): Service {
    if h !in s.current then s else
      var now := s.current[h];
      Service(RecordRemoval(s.store, h, Gain(LastSeen(s, h), now), now), s.current, s.lastSeen[h := now])
  }

  function Remove(s: Service, h: InfoHash): Service {
    var flushed := FlushOne(s, h);
    flushed.(current := flushed.current - {h}, lastSeen := flushed.lastSeen - {h})
  }

  ghost function Step(s: Service, e: Event): Service {
    match e
    case Status(h, sample) => s.(current := s.current[h := sample])
    case Flush => FlushAll(s)
    case Removed(h) => Remove(s, h)
    case Restart => s.(current := map[], lastSeen := map[])
  }

  const FRESH := Service(Store(ZERO, map[]), map[], map[])

  ghost function Run(history: seq<Event>): Service {
    if history == [] then FRESH
    else Step(Run(history[..|history| - 1]), history[|history| - 1])
  }

  // ------------------------------------------------------------------ the ledger

  /** The reading of a torrent that a flush would find, by the events alone. */
  function Sample(history: seq<Event>, h: InfoHash): Option<Bytes> {
    if history == [] then None else
      var before, e := history[..|history| - 1], history[|history| - 1];
      if e.Status? && e.h == h then Some(e.sample)
      else if e.Restart? || (e.Removed? && e.h == h) then None
      else Sample(before, h)
  }

  predicate Flushes(e: Event, h: InfoHash) { e.Flush? || (e.Removed? && e.h == h) }

  /** The readings of a torrent that were flushed, in order. */
  function Flushed(history: seq<Event>, h: InfoHash): seq<Bytes> {
    if history == [] then [] else
      var before, e := history[..|history| - 1], history[|history| - 1];
      if Flushes(e, h) && Sample(before, h).Some?
      then Flushed(before, h) + [Sample(before, h).value]
      else Flushed(before, h)
  }

  function Last(readings: seq<Bytes>): Bytes {
    if readings == [] then ZERO else readings[|readings| - 1]
  }

  /** The sum of the positive increments between successive readings, counting from zero. */
  function Credit(readings: seq<Bytes>): Bytes {
    if readings == [] then ZERO else
      var before := readings[..|readings| - 1];
      Plus(Credit(before), Gain(Last(before), readings[|readings| - 1]))
  }

  function Credits(history: seq<Event>): InfoHash -> Bytes {
    h => Credit(Flushed(history, h))
  }

  function Torrents(history: seq<Event>): set<InfoHash> {
    set e | e in history && e.Status? :: e.h
  }
}
