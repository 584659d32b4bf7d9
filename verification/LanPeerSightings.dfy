/** What a read of the local peer cache returns, said by the lists that were recorded. */
module LanPeerSightings {
  import opened Wrappers
  import opened LanPeerSpec
  import opened LanPeerRuns

  // ------------------------------------------------------------------ who was seen where

  /** Entry k is the last one of the list for its address. */
  ghost predicate LastEntry(peers: seq<Peer>, k: int) {
    0 <= k < |peers| && forall m :: k < m < |peers| ==> peers[m].ip != peers[k].ip
  }

  /** The list recorded by event j for torrent h holds the private address ip, last with this port. */
  ghost predicate Lists(events: seq<Event>, parse: Ip -> Parsed, h: InfoHash, ip: Ip, port: nat, j: int) {
    && 0 <= j < |events| && events[j].RecordPeers? && events[j].h == h && IsRfc1918(parse(ip))
    && exists k :: LastEntry(events[j].peers, k) && events[j].peers[k] == Peer(ip, port)
  }

  ghost predicate Mentions(events: seq<Event>, parse: Ip -> Parsed, h: InfoHash, ip: Ip, j: int) {
    exists port :: Lists(events, parse, h, ip, port, j)
  }

  /** Event j is the last to list the address for this torrent. */
  ghost predicate SeenLast(events: seq<Event>, parse: Ip -> Parsed, h: InfoHash, ip: Ip, port: nat, j: int) {
    Lists(events, parse, h, ip, port, j) && forall m :: j < m < |events| ==> !Mentions(events, parse, h, ip, m)
  }

  ghost predicate NeverSeen(events: seq<Event>, parse: Ip -> Parsed, h: InfoHash, ip: Ip) {
    forall j :: !Mentions(events, parse, h, ip, j)
  }

  // ------------------------------------------------------------------ the list of one event

  lemma {:induction false} PrivateIsLastEntry(peers: seq<Peer>, parse: Ip -> Parsed, now: real, ip: Ip)
    ensures ip in Private(peers, parse, now) <==>
            IsRfc1918(parse(ip)) && exists k :: LastEntry(peers, k) && peers[k].ip == ip
    ensures forall k :: LastEntry(peers, k) && peers[k].ip == ip && IsRfc1918(parse(ip)) ==>
              Private(peers, parse, now)[ip] == Record(peers[k].port, now)
  {
    if peers == [] {
    } else {
      var n := |peers| - 1;
      var init := peers[..n];
      PrivateIsLastEntry(init, parse, now, ip);
      assert LastEntry(peers, n);
      forall k | 0 <= k < n && peers[n].ip != ip && peers[k].ip == ip
        ensures LastEntry(peers, k) <==> LastEntry(init, k)
      {
        assert init[k] == peers[k];
        assert forall m :: k < m < n ==> init[m] == peers[m];
      }
    }
  }

  lemma ListedIsPrivate(events: seq<Event>, parse: Ip -> Parsed, h: InfoHash, ip: Ip, port: nat, j: int)
    requires Lists(events, parse, h, ip, port, j)
    ensures var seen := Private(events[j].peers, parse, events[j].now);
            ip in seen && seen[ip] == Record(port, events[j].now)
  {
    PrivateIsLastEntry(events[j].peers, parse, events[j].now, ip);
    var k :| LastEntry(events[j].peers, k) && events[j].peers[k] == Peer(ip, port);
    assert events[j].peers[k].ip == ip;
  }

  lemma PrivateIsListed(events: seq<Event>, parse: Ip -> Parsed, h: InfoHash, ip: Ip, j: int)
    requires 0 <= j < |events| && events[j].RecordPeers? && events[j].h == h
    requires ip in Private(events[j].peers, parse, events[j].now)
    ensures var rec := Private(events[j].peers, parse, events[j].now)[ip];
            Lists(events, parse, h, ip, rec.port, j) && rec.lastSeen == events[j].now
  {
    PrivateIsLastEntry(events[j].peers, parse, events[j].now, ip);
    var k :| LastEntry(events[j].peers, k) && events[j].peers[k].ip == ip;
    assert events[j].peers[k] == Peer(ip, events[j].peers[k].port);
  }

  // ------------------------------------------------------------------ what the cache knows of one address

  /** The record that the file and the lists so far leave for an address, expiry aside. */
  function Known(file: Entries, events: seq<Event>, parse: Ip -> Parsed, h: InfoHash, ip: Ip): Option<Record> {
    if events == [] then
      if h in file && ip in file[h] then Some(file[h][ip]) else None
    else
      var before, e := Known(file, events[..|events| - 1], parse, h, ip), events[|events| - 1];
      if e.RecordPeers? && e.h == h && ip in Private(e.peers, parse, e.now)
      then Some(Private(e.peers, parse, e.now)[ip])
      else before
  }

  /** The fresh record of an address in some entries. */
  function Read(entries: Entries, h: InfoHash, ip: Ip, now: real): Option<Record> {
    if h in entries && ip in entries[h] && Fresh(entries[h][ip], now) then Some(entries[h][ip]) else None
  }

  function IfFresh(rec: Option<Record>, now: real): Option<Record> {
    if rec.Some? && Fresh(rec.value, now) then rec else None
  }

  lemma PurgeKeepsRead(entries: Entries, purgeAt: real, h: InfoHash, ip: Ip, now: real)
    requires purgeAt <= now
    ensures Read(Purge(entries, purgeAt), h, ip, now) == Read(entries, h, ip, now)
  {
    if h in entries && ip in entries[h] && Fresh(entries[h][ip], now) {
      assert ip in Alive(entries[h], purgeAt);
    }
  }

  lemma MergeReads(entries: Entries, g: InfoHash, seen: Inner, h: InfoHash, ip: Ip, now: real)
    ensures Read(entries[g := InnerOf(entries, g) + seen], h, ip, now) ==
            if g == h && ip in seen then IfFresh(Some(seen[ip]), now) else Read(entries, h, ip, now)
  {
  }

  lemma StepReads(s: State, e: Event, parse: Ip -> Parsed, h: InfoHash, ip: Ip, now: real)
    requires !e.Reload? && (e.RecordPeers? ==> e.purgeAt <= now) && (e.GetPeers? ==> e.now <= now)
    ensures Read(Step(s, e, parse).entries, h, ip, now) ==
            if e.RecordPeers? && e.h == h && ip in Private(e.peers, parse, e.now)
            then IfFresh(Some(Private(e.peers, parse, e.now)[ip]), now) else Read(s.entries, h, ip, now)
  {
    match e
    case RecordPeers(g, peers, seenAt, purgeAt, _) =>
      var seen := Private(peers, parse, seenAt);
      var merged := s.entries[g := InnerOf(s.entries, g) + seen];
      MergeReads(s.entries, g, seen, h, ip, now);
      PurgeKeepsRead(merged, purgeAt, h, ip, now);
    case GetPeers(_, at) => PurgeKeepsRead(s.entries, at, h, ip, now);
    case Flush =>
  }

  lemma {:induction false} RunReads(
    file: Entries, start: real, events: seq<Event>, parse: Ip -> Parsed, h: InfoHash, ip: Ip, now: real)
    requires ClockOk(start, events) && ClockAfter(start, events) <= now
    requires forall j :: 0 <= j < |events| ==> !events[j].Reload?
    ensures Read(Run(Started(file, start), events, parse).entries, h, ip, now) ==
            IfFresh(Known(file, events, parse, h, ip), now)
  {
    if events == [] {
      PurgeKeepsRead(file, start, h, ip, now);
    } else {
      var n := |events| - 1;
      ClockOkBefore(start, events);
      RunReads(file, start, events[..n], parse, h, ip, now);
      StepReads(Run(Started(file, start), events[..n], parse), events[n], parse, h, ip, now);
    }
  }

  lemma ClockOkBefore(start: real, events: seq<Event>)
    requires ClockOk(start, events) && events != []
    ensures var n := |events| - 1;
            ClockOk(start, events[..n]) && ClockAfter(start, events[..n]) <= ClockAfter(start, events)
  {
    var n := |events| - 1;
    assert forall i :: 0 <= i <= n ==> events[..n][..i] == events[..i];
  }

  lemma MentionedBefore(events: seq<Event>, parse: Ip -> Parsed, h: InfoHash, ip: Ip, j: int)
    requires 0 <= j < |events| - 1
    ensures Mentions(events[..|events| - 1], parse, h, ip, j) <==> Mentions(events, parse, h, ip, j)
  {
    var before := events[..|events| - 1];
    forall port ensures Lists(before, parse, h, ip, port, j) <==> Lists(events, parse, h, ip, port, j) {
      assert before[j] == events[j];
    }
  }

  /** What is known of an address is its last listing, or what the file had if it was never listed. */
  lemma {:induction false} KnownIsSeenLast(
    file: Entries, events: seq<Event>, parse: Ip -> Parsed, h: InfoHash, ip: Ip) returns (port: nat, j: int)
    ensures if j < 0 then NeverSeen(events, parse, h, ip) else SeenLast(events, parse, h, ip, port, j)
    ensures Known(file, events, parse, h, ip) ==
            if j >= 0 then Some(Record(port, events[j].now))
            else if h in file && ip in file[h] then Some(file[h][ip]) else None
  {
    if events == [] {
      port, j := 0, -1;
    } else {
      var n := |events| - 1;
      var before, e := events[..n], events[n];
      port, j := KnownIsSeenLast(file, before, parse, h, ip);
      forall m | 0 <= m < n ensures Mentions(before, parse, h, ip, m) <==> Mentions(events, parse, h, ip, m) {
        MentionedBefore(events, parse, h, ip, m);
      }
      if e.RecordPeers? && e.h == h && ip in Private(e.peers, parse, e.now) {
        PrivateIsListed(events, parse, h, ip, n);
        port, j := Private(e.peers, parse, e.now)[ip].port, n;
      } else {
        assert !Mentions(events, parse, h, ip, n) by {
          forall p ensures !Lists(events, parse, h, ip, p, n) {
            if Lists(events, parse, h, ip, p, n) {
              ListedIsPrivate(events, parse, h, ip, p, n);
            }
          }
        }
        if j >= 0 {
          assert before[j] == events[j];
        }
      }
    }
  }

  /** The last listing is one event with one port. */
  lemma SeenLastOnce(
    events: seq<Event>, parse: Ip -> Parsed, h: InfoHash, ip: Ip, port: nat, j: int, port': nat, j': int)
    requires SeenLast(events, parse, h, ip, port, j) && SeenLast(events, parse, h, ip, port', j')
    ensures port == port' && j == j'
  {
    assert Mentions(events, parse, h, ip, j) && Mentions(events, parse, h, ip, j');
    ListedIsPrivate(events, parse, h, ip, port, j);
    ListedIsPrivate(events, parse, h, ip, port', j');
  }

  // ------------------------------------------------------------------ what a read returns

  /** The address was listed for the torrent within the last 48 hours, the last time with this port; or it
      was never listed, and the file it started from had it, not older than that. */
  ghost predicate WasThere(
    file: Entries, events: seq<Event>, parse: Ip -> Parsed, h: InfoHash, ip: Ip, port: nat, now: real)
  {
    || (exists j :: SeenLast(events, parse, h, ip, port, j) && events[j].now >= now - 48.0 * 3600.0)
    || (NeverSeen(events, parse, h, ip) && h in file && ip in file[h]
        && file[h][ip].port == port && file[h][ip].lastSeen >= now - 48.0 * 3600.0)
  }

  /** In one process, whatever lists, writes and reads come before, a read returns an address with a port
      exactly if it was there. */
  lemma ReadsWhatWasThere(
    file: Entries, start: real, events: seq<Event>, parse: Ip -> Parsed, h: InfoHash, now: real, ip: Ip, port: nat)
    requires ClockOk(start, events) && ClockAfter(start, events) <= now
    requires forall j :: 0 <= j < |events| ==> !events[j].Reload?
    ensures (ip, port) in Pairs(Step(Run(Started(file, start), events, parse), GetPeers(h, now), parse).entries, h) <==>
            WasThere(file, events, parse, h, ip, port, now)
  {
    RunReads(file, start, events, parse, h, ip, now);
    ReadsAreFresh(Run(Started(file, start), events, parse), h, now, parse, ip, port);
    KnownIsThere(file, events, parse, h, now, ip, port);
  }

  lemma KnownIsThere(
    file: Entries, events: seq<Event>, parse: Ip -> Parsed, h: InfoHash, now: real, ip: Ip, port: nat)
    ensures var rec := IfFresh(Known(file, events, parse, h, ip), now);
            rec.Some? && rec.value.port == port <==> WasThere(file, events, parse, h, ip, port, now)
  {
    var port', j' := KnownIsSeenLast(file, events, parse, h, ip);
    forall j | SeenLast(events, parse, h, ip, port, j) ensures j' >= 0 && port == port' && j == j' {
      assert Mentions(events, parse, h, ip, j);
      SeenLastOnce(events, parse, h, ip, port, j, port', j');
    }
    if j' >= 0 {
      assert Mentions(events, parse, h, ip, j');
    }
  }
}
