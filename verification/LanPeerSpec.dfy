/** The local peer cache as values: private addresses, expiry, and the throttled file. */
module LanPeerSpec {
  import opened Wrappers

  type InfoHash = string
  type Ip = string

  const MAX_AGE_SECONDS := 48.0 * 3600.0
  const SAVE_MIN_INTERVAL_SECONDS := 30.0

  // ------------------------------------------------------------------ RFC 1918

  /** What the standard library makes of an address text. */
  datatype Parsed = V4(value: nat) | V6(value: nat) | Unparseable

  datatype Network = Network(base: nat, hosts: nat)

  function Octets(a: nat, b: nat, c: nat, d: nat): nat { ((a * 256 + b) * 256 + c) * 256 + d }

  /** 10.0.0.0/8, 172.16.0.0/12 and 192.168.0.0/16. */
  const RFC1918_NETWORKS: seq<Network> := [
    Network(Octets(10, 0, 0, 0), 0x100_0000),
    Network(Octets(172, 16, 0, 0), 0x10_0000),
    Network(Octets(192, 168, 0, 0), 0x1_0000)
  ]

  /** Masking off the host bits leaves the network address; an IPv6 address is in no IPv4 network. */
  predicate InNetwork(addr: Parsed, net: Network)
    requires net.hosts > 0
  {
    addr.V4? && addr.value - addr.value % net.hosts == net.base
  }

  predicate IsRfc1918(addr: Parsed) {
    exists i :: 0 <= i < |RFC1918_NETWORKS| && InNetwork(addr, RFC1918_NETWORKS[i])
  }

  lemma MaskIsRange(n: nat, k: nat, hosts: nat)
    requires hosts > 0
    ensures n - n % hosts == k * hosts <==> k * hosts <= n < k * hosts + hosts
  {
    var q := n / hosts;
    assert n == q * hosts + n % hosts;
    if k * hosts <= n < k * hosts + hosts {
      assert (k + 1) * hosts == k * hosts + hosts && (q + 1) * hosts == q * hosts + hosts;
      ProductOrder(k, q + 1, hosts);
      ProductOrder(q, k + 1, hosts);
    }
  }

  /** The three ranges of section 3 of RFC 1918, octet by octet. */
  lemma Rfc1918Ranges(a: nat, b: nat, c: nat, d: nat)
    requires a < 256 && b < 256 && c < 256 && d < 256
    ensures IsRfc1918(V4(Octets(a, b, c, d))) <==> a == 10 || (a == 172 && 16 <= b <= 31) || (a == 192 && b == 168)
  {
    var n := Octets(a, b, c, d);
    assert RFC1918_NETWORKS[0].base == 10 * 0x100_0000;
    assert RFC1918_NETWORKS[1].base == 0xAC1 * 0x10_0000;
    assert RFC1918_NETWORKS[2].base == 0xC0A8 * 0x1_0000;
    MaskIsRange(n, 10, 0x100_0000);
    MaskIsRange(n, 0xAC1, 0x10_0000);
    MaskIsRange(n, 0xC0A8, 0x1_0000);
    assert IsRfc1918(V4(n)) <==>
           InNetwork(V4(n), RFC1918_NETWORKS[0]) || InNetwork(V4(n), RFC1918_NETWORKS[1])
           || InNetwork(V4(n), RFC1918_NETWORKS[2]);
  }

  lemma OnlyV4IsPrivate(addr: Parsed)
    requires !addr.V4?
    ensures !IsRfc1918(addr)
  {
  }

  // ------------------------------------------------------------------ entries and expiry

  datatype Peer = Peer(ip: Ip, port: nat)

  datatype Record = Record(port: nat, lastSeen: real)

  type Inner = map<Ip, Record>

  type Entries = map<InfoHash, Inner>

  predicate Fresh(r: Record, now: real) { r.lastSeen >= now - MAX_AGE_SECONDS }

  function Alive(inner: Inner, now: real): Inner {
    map ip | ip in inner && Fresh(inner[ip], now) :: inner[ip]
  }

  /** Expired peers go, and so does a torrent left without any. */
  function Purge(entries: Entries, now: real): Entries {
    map h | h in entries && Alive(entries[h], now) != map[] :: Alive(entries[h], now)
  }

  function InnerOf(entries: Entries, h: InfoHash): Inner {
    if h in entries then entries[h] else map[]
  }

  /** The (address, port) pairs of a torrent. */
  function Pairs(entries: Entries, h: InfoHash): set<(Ip, nat)> {
    set ip | ip in InnerOf(entries, h) :: (ip, InnerOf(entries, h)[ip].port)
  }

  lemma AliveTwice(inner: Inner, t1: real, t2: real)
    requires t1 <= t2
    ensures Alive(Alive(inner, t1), t2) == Alive(inner, t2)
  {
  }

  /** Purging early changes no later purge. */
  lemma PurgeTwice(entries: Entries, t1: real, t2: real)
    requires t1 <= t2
    ensures Purge(Purge(entries, t1), t2) == Purge(entries, t2)
  {
    forall h | h in entries
      ensures Alive(Alive(entries[h], t1), t2) == Alive(entries[h], t2)
      ensures Alive(entries[h], t1) == map[] ==> Alive(entries[h], t2) == map[]
    {
      AliveTwice(entries[h], t1, t2);
    }
  }

  /** A torrent without peers would not survive the purge anyway. */
  lemma EmptyTorrentsAreSkipped(entries: Entries, now: real)
    ensures Purge(map h | h in entries && entries[h] != map[] :: entries[h], now) == Purge(entries, now)
  {
    assert Alive(map[], now) == map[];
  }

  // ------------------------------------------------------------------ the store

  datatype State = State(entries: Entries, file: Entries, dirty: bool, lastSavedAt: real)

  /** The private peers of a list, each seen now; a later entry for the same address wins. */
  function Private(peers: seq<Peer>, parse: Ip -> Parsed, now: real): Inner {
    if peers == [] then map[] else
      var p, before := peers[|peers| - 1], Private(peers[..|peers| - 1], parse, now);
      if IsRfc1918(parse(p.ip)) then before[p.ip := Record(p.port, now)] else before
  }

  datatype Event =
    | RecordPeers(h: InfoHash, peers: seq<Peer>, now: real, purgeAt: real, monotonic: real)
    | GetPeers(h: InfoHash, now: real)
    | Flush
    | Reload(now: real)

  function Save(s: State): State { s.(file := s.entries, dirty := false) }

  function RecordIn(s: State, h: InfoHash, seen: Inner, purgeAt: real, monotonic: real): State {
    var merged := s.(entries := s.entries[h := InnerOf(s.entries, h) + seen]);
    if seen == map[] then merged else
      var purged := merged.(entries := Purge(merged.entries, purgeAt));
      if monotonic - s.lastSavedAt < SAVE_MIN_INTERVAL_SECONDS then purged.(dirty := true)
      else Save(purged).(lastSavedAt := monotonic)
  }

  function Step(s: State, e: Event, parse: Ip -> Parsed): State {
    match e
    case RecordPeers(h, peers, now, purgeAt, monotonic) =>
      RecordIn(s, h, Private(peers, parse, now), purgeAt, monotonic)
    case GetPeers(_, now) => s.(entries := Purge(s.entries, now))
    case Flush => if s.dirty then Save(s) else s
    case Reload(now) => Started(s.file, now)
  }

  function Started(file: Entries, now: real): State { State(Purge(file, now), file, false, 0.0) }

  function Run(s: State, events: seq<Event>, parse: Ip -> Parsed): State {
    if events == [] then s else Step(Run(s, events[..|events| - 1], parse), events[|events| - 1], parse)
  }
}
