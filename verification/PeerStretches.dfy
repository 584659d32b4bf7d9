/** What the record of an address adds up to, stretch of presence by stretch of presence. */
module PeerStretches {
  import opened Wrappers
  import opened PeerReputationSpec
  import opened PeerReputationRuns

  /** The first and the last tick of its torrent that show the address, and the tick that misses it. */
  datatype Stretch = Stretch(first: int, last: int, gone: int)

  ghost predicate IsStretch(history: seq<Tick>, ip: Ip, d: Stretch) {
    && 0 <= d.gone < |history| && ip !in history[d.gone].peers
    && LastTick(history, history[d.gone].h, d.gone, d.last)
    && PresentFrom(history, history[d.gone].h, ip, d.first, d.last)
  }

  ghost predicate AreStretches(history: seq<Tick>, ip: Ip, ds: seq<Stretch>) {
    forall a :: 0 <= a < |ds| ==> IsStretch(history, ip, ds[a])
  }

  /** All the stretches that ended before tick n, in the order of their ends. */
  ghost predicate AllStretches(history: seq<Tick>, ip: Ip, n: nat, ds: seq<Stretch>) {
    && AreStretches(history, ip, ds)
    && (forall a :: 0 <= a < |ds| ==> ds[a].gone < n)
    && (forall a, b :: 0 <= a < b < |ds| ==> ds[a].gone < ds[b].gone)
    && forall j :: j < n && DisconnectsAt(history, ip, j) ==> exists a :: 0 <= a < |ds| && ds[a].gone == j
  }

  // ------------------------------------------------------------------ the sums

  ghost function BytesReceived(history: seq<Tick>, ip: Ip, ds: seq<Stretch>): nat
    requires AreStretches(history, ip, ds)
  {
    if ds == [] then 0 else
      var d := ds[|ds| - 1];
      BytesReceived(history, ip, ds[..|ds| - 1]) + history[d.last].peers[ip].bytes
  }

  ghost function Hashfails(history: seq<Tick>, ip: Ip, ds: seq<Stretch>): nat
    requires AreStretches(history, ip, ds)
  {
    if ds == [] then 0 else
      var d := ds[|ds| - 1];
      Hashfails(history, ip, ds[..|ds| - 1]) + history[d.last].peers[ip].hashfails
  }

  ghost function SecondsConnected(history: seq<Tick>, ip: Ip, ds: seq<Stretch>): real
    requires AreStretches(history, ip, ds)
  {
    if ds == [] then 0.0 else
      var d := ds[|ds| - 1];
      SecondsConnected(history, ip, ds[..|ds| - 1]) + (history[d.gone].now - history[d.first].now)
  }

  lemma SumsOfOneMore(history: seq<Tick>, ip: Ip, ds: seq<Stretch>, d: Stretch)
    requires AreStretches(history, ip, ds) && IsStretch(history, ip, d)
    ensures AreStretches(history, ip, ds + [d])
    ensures BytesReceived(history, ip, ds + [d]) == BytesReceived(history, ip, ds) + history[d.last].peers[ip].bytes
    ensures Hashfails(history, ip, ds + [d]) == Hashfails(history, ip, ds) + history[d.last].peers[ip].hashfails
    ensures SecondsConnected(history, ip, ds + [d]) ==
            SecondsConnected(history, ip, ds) + (history[d.gone].now - history[d.first].now)
  {
    assert (ds + [d])[..|ds|] == ds;
  }

  // ------------------------------------------------------------------ the record

  const BLANK := Record(0, 0.0, 0, 0)

  /** The record holds what was loaded and the sums over the stretches. */
  ghost predicate AddsUp(loaded: Option<Record>, rec: Option<Record>, history: seq<Tick>, ip: Ip, ds: seq<Stretch>)
    requires AreStretches(history, ip, ds)
  {
    var base, now := loaded.GetOr(BLANK), rec.GetOr(BLANK);
    && (if ds == [] then rec == loaded else rec.Some?)
    && now.disconnects == base.disconnects + |ds|
    && now.bytes == base.bytes + BytesReceived(history, ip, ds)
    && now.hashfails == base.hashfails + Hashfails(history, ip, ds)
    && now.seconds == base.seconds + SecondsConnected(history, ip, ds)
  }

  lemma AddsUpOneMore(
    loaded: Option<Record>, rec: Option<Record>, history: seq<Tick>, ip: Ip, ds: seq<Stretch>, d: Stretch,
    streak: Streak)
    requires AreStretches(history, ip, ds) && IsStretch(history, ip, d) && AddsUp(loaded, rec, history, ip, ds)
    requires streak == Streak(history[d.first].now, history[d.last].peers[ip])
    ensures AreStretches(history, ip, ds + [d])
    ensures AddsUp(loaded, Some(Fold(rec, streak, history[d.gone].now)), history, ip, ds + [d])
  {
    SumsOfOneMore(history, ip, ds, d);
    var longer := ds + [d];
    assert |longer| == |ds| + 1 && longer != [];
  }

  lemma SameUpTo(history: seq<Tick>, h: InfoHash, ip: Ip, n: nat, first: int, last: int)
    requires n <= |history| && LastTick(history[..n], h, n, last) && PresentFrom(history[..n], h, ip, first, last)
    ensures LastTick(history, h, n, last) && PresentFrom(history, h, ip, first, last)
  {
    var before := history[..n];
    forall m | LastTick(history, h, first, m) ensures ip !in history[m].peers {
      assert LastTick(before, h, first, m) && before[m] == history[m];
    }
    forall m | first <= m <= last && history[m].h == h ensures ip in history[m].peers {
      assert before[m] == history[m];
    }
  }

  /** A streak that is running before tick n began and went on as the history says. */
  lemma RunningStreak(history: seq<Tick>, h: InfoHash, ip: Ip, n: nat) returns (first: int, last: int)
    requires n <= |history| && StreakOf(history[..n], h, ip).Some?
    ensures LastTick(history, h, n, last) && PresentFrom(history, h, ip, first, last)
    ensures StreakOf(history[..n], h, ip) == Some(Streak(history[first].now, history[last].peers[ip]))
  {
    var before := history[..n];
    first, last := StreakAsPresence(before, h, ip);
    SameUpTo(history, h, ip, n, first, last);
    assert before[first] == history[first] && before[last] == history[last];
  }

  lemma StreakAsPresence(history: seq<Tick>, h: InfoHash, ip: Ip) returns (first: int, last: int)
    requires StreakOf(history, h, ip).Some?
    ensures LastTick(history, h, |history|, last) && PresentFrom(history, h, ip, first, last)
    ensures StreakOf(history, h, ip).value == Streak(history[first].now, history[last].peers[ip])
  {
    StreakMeaning(history, h, ip);
    first, last :| LastTick(history, h, |history|, last) && PresentFrom(history, h, ip, first, last)
                   && StreakOf(history, h, ip).value == Streak(history[first].now, history[last].peers[ip]);
  }

  lemma DisconnectIffStreak(history: seq<Tick>, ip: Ip, j: nat)
    requires j < |history|
    ensures DisconnectsAt(history, ip, j) <==>
            ip !in history[j].peers && StreakOf(history[..j], history[j].h, ip).Some?
  {
    var upTo := history[..j + 1];
    assert upTo[..j] == history[..j];
    StreakEndsHere(upTo, ip);
    forall k ensures LastTick(history, history[j].h, j, k) <==> LastTick(upTo, history[j].h, j, k) {
    }
  }

  /** After any history, an address has as many disconnects, bytes, hashfails and connected seconds as were
      loaded, and for each stretch of presence that ended one more, the counters of the last tick that
      showed it, and the time from the first such tick to the one that missed it. */
  lemma {:induction false} RecordAddsUp(loaded: Option<Record>, history: seq<Tick>, ip: Ip, n: nat)
    returns (ds: seq<Stretch>)
    requires n <= |history|
    ensures AllStretches(history, ip, n, ds)
    ensures AddsUp(loaded, RecordOf(loaded, history[..n], ip), history, ip, ds)
  {
    if n == 0 {
      ds := [];
    } else {
      ds := RecordAddsUp(loaded, history, ip, n - 1);
      ds := NextTick(loaded, history, ip, n - 1, ds);
    }
  }

  lemma NextTick(loaded: Option<Record>, history: seq<Tick>, ip: Ip, n: nat, ds: seq<Stretch>)
    returns (longer: seq<Stretch>)
    requires n < |history| && AllStretches(history, ip, n, ds)
    requires AddsUp(loaded, RecordOf(loaded, history[..n], ip), history, ip, ds)
    ensures AllStretches(history, ip, n + 1, longer)
    ensures AddsUp(loaded, RecordOf(loaded, history[..n + 1], ip), history, ip, longer)
  {
    DisconnectIffStreak(history, ip, n);
    RecordOfNext(loaded, history, ip, n);
    longer := ds;
    if DisconnectsAt(history, ip, n) {
      var streak, d := EndedStretch(history, ip, n);
      AddsUpOneMore(loaded, RecordOf(loaded, history[..n], ip), history, ip, ds, d, streak);
      OneMoreStretch(history, ip, n, ds, d);
      longer := ds + [d];
    }
  }

  lemma EndedStretch(history: seq<Tick>, ip: Ip, n: nat) returns (streak: Streak, d: Stretch)
    requires n < |history| && ip !in history[n].peers && StreakOf(history[..n], history[n].h, ip).Some?
    ensures StreakOf(history[..n], history[n].h, ip) == Some(streak)
    ensures IsStretch(history, ip, d) && d.gone == n
    ensures streak == Streak(history[d.first].now, history[d.last].peers[ip])
  {
    streak := StreakOf(history[..n], history[n].h, ip).value;
    var first, last := RunningStreak(history, history[n].h, ip, n);
    d := Stretch(first, last, n);
  }

  lemma RecordOfNext(loaded: Option<Record>, history: seq<Tick>, ip: Ip, n: nat)
    requires n < |history|
    ensures var streak, t := StreakOf(history[..n], history[n].h, ip), history[n];
            RecordOf(loaded, history[..n + 1], ip) ==
            if streak.Some? && ip !in t.peers
            then Some(Fold(RecordOf(loaded, history[..n], ip), streak.value, t.now))
            else RecordOf(loaded, history[..n], ip)
  {
    assert history[..n + 1][..n] == history[..n];
  }

  lemma OneMoreStretch(history: seq<Tick>, ip: Ip, n: nat, ds: seq<Stretch>, d: Stretch)
    requires AllStretches(history, ip, n, ds) && IsStretch(history, ip, d) && d.gone == n
    ensures AllStretches(history, ip, n + 1, ds + [d])
  {
    var longer := ds + [d];
    forall j | j < n + 1 && DisconnectsAt(history, ip, j) ensures exists a :: 0 <= a < |longer| && longer[a].gone == j {
      if j == n {
        assert longer[|ds|].gone == j;
      } else {
        var a :| 0 <= a < |ds| && ds[a].gone == j;
        assert longer[a].gone == j;
      }
    }
  }

  /** So it is for the records the tracker and its store hold after any events, over the observations among
      them and what the file held at the start. */
  lemma RecordsAddUp(file: Records, events: seq<Event>, ip: Ip) returns (ds: seq<Stretch>)
    ensures AllStretches(Ticks(events), ip, |Ticks(events)|, ds)
    ensures AddsUp(Get(file, ip), Get(Run(file, events).records, ip), Ticks(events), ip, ds)
  {
    var history := Ticks(events);
    RefinesFlatHistory(file, events);
    ds := RecordAddsUp(Get(file, ip), history, ip, |history|);
    assert history[..|history|] == history;
    assert Get(Run(file, events).records, ip) == RecordOf(Get(file, ip), history, ip);
  }

  // ------------------------------------------------------------------ the label

  /** What the three labels say of an address nothing was loaded for: bad after any failed piece, good after
      some bytes over stretches of a minute on average, neutral otherwise. */
  lemma LabelMeaning(history: seq<Tick>, ip: Ip) returns (ds: seq<Stretch>)
    ensures AllStretches(history, ip, |history|, ds)
    ensures var score := ScoreLabel(RecordOf(None, history, ip));
            && (score == Bad <==> Hashfails(history, ip, ds) > 0)
            && (score == Good <==>
                ds != [] && Hashfails(history, ip, ds) == 0 && BytesReceived(history, ip, ds) > 0
                && SecondsConnected(history, ip, ds) >= 60.0 * |ds| as real)
  {
    ds := RecordAddsUp(None, history, ip, |history|);
    assert history[..|history|] == history;
    LabelOfRecord(RecordOf(None, history, ip));
  }

  lemma LabelOfRecord(rec: Option<Record>)
    requires rec.Some? ==> rec.value.disconnects > 0
    ensures var r := rec.GetOr(BLANK);
            && (ScoreLabel(rec) == Bad <==> r.hashfails > 0)
            && (ScoreLabel(rec) == Good <==>
                rec.Some? && r.hashfails == 0 && r.bytes > 0 && r.seconds >= 60.0 * r.disconnects as real)
  {
    if rec.Some? {
      AverageIsAtLeast(rec.value.seconds, rec.value.disconnects, 60.0);
    }
  }

  lemma AverageIsAtLeast(total: real, n: nat, bound: real)
    requires n > 0
    ensures total / n as real >= bound <==> total >= bound * n as real
  {
    var average := total / n as real;
    assert total == average * n as real;
    if average >= bound {
      assert (average - bound) * n as real >= 0.0;
    } else {
      assert (bound - average) * n as real > 0.0;
    }
  }
}
