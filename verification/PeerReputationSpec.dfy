/** Peer reputation as values: connection streaks, disconnects, and the throttled file. */
module PeerReputationSpec {
  import opened Wrappers

  type InfoHash = string
  type Ip = string

  const SAVE_MIN_INTERVAL_SECONDS := 30.0

  /** One entry of a peer snapshot; the port is not part of a peer's identity. */
  datatype Peer = Peer(address: Ip, port: nat, totalDownload: nat, numHashfails: nat)

  /** The counters of the current connection. */
  datatype Counters = Counters(bytes: nat, hashfails: nat)

  datatype Streak = Streak(since: real, last: Counters)

  datatype Record = Record(disconnects: nat, seconds: real, bytes: nat, hashfails: nat)

  type Records = map<Ip, Record>

  type Active = map<InfoHash, map<Ip, Streak>>

  /** What a snapshot says per address; a later entry for the same address wins. */
  function Snapshot(peers: seq<Peer>): map<Ip, Counters> {
    if peers == [] then map[] else
      var p := peers[|peers| - 1];
      Snapshot(peers[..|peers| - 1])[p.address := Counters(p.totalDownload, p.numHashfails)]
  }

  lemma SnapshotOfOneMore(peers: seq<Peer>, i: nat)
    requires i < |peers|
    ensures Snapshot(peers[..i + 1]) ==
            Snapshot(peers[..i])[peers[i].address := Counters(peers[i].totalDownload, peers[i].numHashfails)]
  {
    assert peers[..i + 1][..i] == peers[..i];
  }

  /** Entry k is the last one for its address. */
  ghost predicate LastEntry(peers: seq<Peer>, k: int) {
    0 <= k < |peers| && forall m :: k < m < |peers| ==> peers[m].address != peers[k].address
  }

  /** An address is in the snapshot exactly if an entry has it, with the counters of the last such entry. */
  lemma {:induction false} SnapshotIsLastEntries(peers: seq<Peer>, ip: Ip)
    ensures ip in Snapshot(peers) <==> exists k :: LastEntry(peers, k) && peers[k].address == ip
    ensures forall k :: LastEntry(peers, k) && peers[k].address == ip ==>
              ip in Snapshot(peers) && Snapshot(peers)[ip] == Counters(peers[k].totalDownload, peers[k].numHashfails)
  {
    if peers == [] {
    } else {
      var n := |peers| - 1;
      var init := peers[..n];
      SnapshotIsLastEntries(init, ip);
      assert LastEntry(peers, n);
      forall k | 0 <= k < n && peers[n].address != ip && peers[k].address == ip
        ensures LastEntry(peers, k) <==> LastEntry(init, k)
      {
        assert init[k] == peers[k];
        assert forall m :: k < m < n ==> init[m] == peers[m];
      }
    }
  }

  function Get<V>(m: map<Ip, V>, ip: Ip): Option<V> {
    if ip in m then Some(m[ip]) else None
  }

  /** Folds one finished streak into a record, starting an empty one if there is none. */
  function Fold(rec: Option<Record>, streak: Streak, now: real): Record {
    var base := if rec.Some? then rec.value else Record(0, 0.0, 0, 0);
    Record(base.disconnects + 1, base.seconds + (now - streak.since),
           base.bytes + streak.last.bytes, base.hashfails + streak.last.hashfails)
  }

  // ------------------------------------------------------------------ the flat history

  /** One observation of one torrent's peers. */
  datatype Tick = Tick(h: InfoHash, now: real, peers: map<Ip, Counters>)

  /** The running streak of one (torrent, address) pair, by that torrent's ticks alone. */
  function StreakOf(history: seq<Tick>, h: InfoHash, ip: Ip): Option<Streak> {
    if history == [] then None else
      var before, t := StreakOf(history[..|history| - 1], h, ip), history[|history| - 1];
      if t.h != h then before
      else if ip !in t.peers then None
      else Some(Streak(if before.Some? then before.value.since else t.now, t.peers[ip]))
  }

  /** The record of an address: what was loaded, and one fold for each tick that ends one of its streaks. */
  function RecordOf(loaded: Option<Record>, history: seq<Tick>, ip: Ip): Option<Record> {
    if history == [] then loaded else
      var before, t := history[..|history| - 1], history[|history| - 1];
      var streak := StreakOf(before, t.h, ip);
      if streak.Some? && ip !in t.peers then Some(Fold(RecordOf(loaded, before, ip), streak.value, t.now))
      else RecordOf(loaded, before, ip)
  }

  function Count(rec: Option<Record>): nat {
    if rec.Some? then rec.value.disconnects else 0
  }

  // ------------------------------------------------------------------ what those folds mean

  /** k is the last tick of torrent h before position n. */
  ghost predicate LastTick(history: seq<Tick>, h: InfoHash, n: int, k: int) {
    0 <= k < n <= |history| && history[k].h == h && forall m :: k < m < n ==> history[m].h != h
  }

  /** The address was in every tick of h from i to k, both of them ticks of h, and i starts that stretch. */
  ghost predicate PresentFrom(history: seq<Tick>, h: InfoHash, ip: Ip, i: int, k: int) {
    && 0 <= i <= k < |history| && history[i].h == h
    && (forall m :: i <= m <= k && history[m].h == h ==> ip in history[m].peers)
    && (forall m :: LastTick(history, h, i, m) ==> ip !in history[m].peers)
  }

  /** A streak runs exactly while the last tick of its torrent shows the address; it carries that tick's
      counters and the time of the first tick of the stretch. */
  lemma {:induction false} StreakMeaning(history: seq<Tick>, h: InfoHash, ip: Ip)
    ensures match StreakOf(history, h, ip)
            case None => forall k :: LastTick(history, h, |history|, k) ==> ip !in history[k].peers
            case Some(s) => exists i, k ::
              && LastTick(history, h, |history|, k) && PresentFrom(history, h, ip, i, k)
              && s == Streak(history[i].now, history[k].peers[ip])
  {
    if history == [] {
    } else {
      var n := |history| - 1;
      var before := history[..n];
      StreakMeaning(before, h, ip);
      if history[n].h != h {
        if StreakOf(before, h, ip).Some? {
          var i, k :| LastTick(before, h, n, k) && PresentFrom(before, h, ip, i, k)
                                && StreakOf(before, h, ip).value == Streak(before[i].now, before[k].peers[ip]);
          LaterTick(history, h, ip, i, k);
        } else {
          forall k | LastTick(history, h, n + 1, k) ensures ip !in history[k].peers {
            assert k != n && LastTick(before, h, n, k);
          }
        }
      } else if ip in history[n].peers {
        if StreakOf(before, h, ip).Some? {
          var i, k :| LastTick(before, h, n, k) && PresentFrom(before, h, ip, i, k)
                                && StreakOf(before, h, ip).value == Streak(before[i].now, before[k].peers[ip]);
          LongerStretch(history, h, ip, i, k);
        } else {
          NewStretch(history, h, ip);
        }
      }
    }
  }

  lemma LaterTick(history: seq<Tick>, h: InfoHash, ip: Ip, i: int, k: int)
    requires |history| > 0 && var n := |history| - 1;
             history[n].h != h && LastTick(history[..n], h, n, k) && PresentFrom(history[..n], h, ip, i, k)
    ensures LastTick(history, h, |history|, k) && PresentFrom(history, h, ip, i, k)
  {
    var before := history[..|history| - 1];
    forall m | LastTick(history, h, i, m) ensures ip !in history[m].peers {
      assert LastTick(before, h, i, m);
    }
  }

  lemma LongerStretch(history: seq<Tick>, h: InfoHash, ip: Ip, i: int, k: int)
    requires |history| > 0 && var n := |history| - 1;
             history[n].h == h && ip in history[n].peers
             && LastTick(history[..n], h, n, k) && PresentFrom(history[..n], h, ip, i, k)
    ensures LastTick(history, h, |history|, |history| - 1) && PresentFrom(history, h, ip, i, |history| - 1)
  {
    var n := |history| - 1;
    var before := history[..n];
    forall m | i <= m <= n && history[m].h == h ensures ip in history[m].peers {
      if m < n {
        assert m <= k && before[m] == history[m];
      }
    }
    forall m | LastTick(history, h, i, m) ensures ip !in history[m].peers {
      assert LastTick(before, h, i, m);
    }
  }

  lemma NewStretch(history: seq<Tick>, h: InfoHash, ip: Ip)
    requires |history| > 0 && var n := |history| - 1;
             history[n].h == h && ip in history[n].peers
             && forall k :: LastTick(history[..n], h, n, k) ==> ip !in history[..n][k].peers
    ensures LastTick(history, h, |history|, |history| - 1)
    ensures PresentFrom(history, h, ip, |history| - 1, |history| - 1)
  {
    var n := |history| - 1;
    forall m | LastTick(history, h, n, m) ensures ip !in history[m].peers {
      assert LastTick(history[..n], h, n, m);
    }
  }

  /** Tick j is the first of its torrent without the address after one with it. */
  ghost predicate DisconnectsAt(history: seq<Tick>, ip: Ip, j: int) {
    && 0 <= j < |history| && ip !in history[j].peers
    && exists k :: LastTick(history, history[j].h, j, k) && ip in history[k].peers
  }

  ghost function Disconnects(history: seq<Tick>, ip: Ip): set<int> {
    set j | 0 <= j < |history| && DisconnectsAt(history, ip, j)
  }

  /** The disconnect count is the number of present-to-absent transitions, over all torrents. */
  lemma {:induction false} DisconnectCount(loaded: Option<Record>, history: seq<Tick>, ip: Ip)
    ensures Count(RecordOf(loaded, history, ip)) == Count(loaded) + |Disconnects(history, ip)|
  {
    if history == [] {
      assert Disconnects(history, ip) == {};
    } else {
      var n := |history| - 1;
      var before, h := history[..n], history[n].h;
      DisconnectCount(loaded, before, ip);
      StreakEndsHere(history, ip);
      DisconnectsGrow(history, ip);
    }
  }

  lemma DisconnectsGrow(history: seq<Tick>, ip: Ip)
    requires |history| > 0
    ensures var n := |history| - 1;
            Disconnects(history, ip) ==
              Disconnects(history[..n], ip) + if DisconnectsAt(history, ip, n) then {n} else {}
    ensures |history| - 1 !in Disconnects(history[..|history| - 1], ip)
  {
    var n := |history| - 1;
    forall j | 0 <= j < n ensures DisconnectsAt(history, ip, j) <==> DisconnectsAt(history[..n], ip, j) {
      DisconnectIsLocal(history, ip, j);
    }
  }

  lemma DisconnectIsLocal(history: seq<Tick>, ip: Ip, j: int)
    requires 0 <= j < |history| - 1
    ensures DisconnectsAt(history, ip, j) <==> DisconnectsAt(history[..|history| - 1], ip, j)
  {
    var before := history[..|history| - 1];
    forall k ensures LastTick(history, history[j].h, j, k) <==> LastTick(before, history[j].h, j, k) {
    }
  }

  lemma StreakEndsHere(history: seq<Tick>, ip: Ip)
    requires |history| > 0
    ensures var n := |history| - 1;
            DisconnectsAt(history, ip, n) <==> ip !in history[n].peers && StreakOf(history[..n], history[n].h, ip).Some?
  {
    var n := |history| - 1;
    var before, h := history[..n], history[n].h;
    StreakMeaning(before, h, ip);
    forall k ensures LastTick(history, h, n, k) <==> LastTick(before, h, n, k) {
    }
    forall k, l | LastTick(before, h, n, k) && LastTick(before, h, n, l) ensures k == l {
    }
  }

  // ------------------------------------------------------------------ labels

  datatype Label = Good | Neutral | Bad

  function ScoreLabel(rec: Option<Record>): Label {
    if rec.None? || rec.value.disconnects == 0 then Neutral
    else if rec.value.hashfails > 0 then Bad
    else if rec.value.seconds / rec.value.disconnects as real >= 60.0 && rec.value.bytes > 0 then Good
    else Neutral
  }

  /** An address labelled bad stays bad, whatever is observed later. */
  lemma {:induction false} BadStaysBad(loaded: Option<Record>, history: seq<Tick>, more: seq<Tick>, ip: Ip)
    requires ScoreLabel(RecordOf(loaded, history, ip)) == Bad
    ensures ScoreLabel(RecordOf(loaded, history + more, ip)) == Bad
  {
    if more == [] {
      assert history + more == history;
    } else {
      var all := history + more;
      assert all[..|all| - 1] == history + more[..|more| - 1];
      BadStaysBad(loaded, history, more[..|more| - 1], ip);
    }
  }

  // ------------------------------------------------------------------ the address shown to the user

  function LastColon(s: string): (i: int)
    ensures -1 <= i < |s|
    ensures i >= 0 ==> s[i] == ':'
    ensures forall j :: i < j < |s| ==> s[j] != ':'
  {
    if |s| == 0 then -1
    else if s[|s| - 1] == ':' then |s| - 1
    else LastColon(s[..|s| - 1])
  }

  /** Drops everything from the last colon on. */
  function IpFromDisplay(display: string): string {
    if LastColon(display) < 0 then display else display[..LastColon(display)]
  }

  /** What is shown without a port is the address. */
  lemma DisplayWithoutPort(address: string)
    requires ':' !in address
    ensures IpFromDisplay(address) == address
  {
  }

  /** "address:port" gives the address back, however many colons the address has. */
  lemma DisplayRoundTrip(address: string, port: string)
    requires ':' !in port
    ensures IpFromDisplay(address + ":" + port) == address
  {
    var display := address + ":" + port;
    assert display[|address|] == ':';
    forall j | |address| < j < |display| ensures display[j] != ':' {
      assert display[j] == port[j - |address| - 1];
    }
  }
}
