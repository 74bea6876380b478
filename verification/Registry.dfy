/** The clients known on each interface (internal/proxy/stages/registry.go). */
module Registry {
  import opened Wrappers
  import opened Net
  import opened Text
  import opened Rewrite
  import Wire

  /** Time is a natural number; 0 is Go's zero time, which marks an immortal entry. */
  datatype ClientInfo = ClientInfo(ip: Bytes, iface: string, lastSeen: nat, mac: Bytes) {
    predicate IsImmortal() { lastSeen == 0 }
  }

  type Clients = map<string, ClientInfo>

  // ---------- keys ----------

  const SEPARATOR: char := '|'

  function KeyForClient(iname: string, ip: string): string {
    iname + [SEPARATOR] + ip
  }

  function HexDigit(d: nat): char
    requires d < 16
  {
    "0123456789abcdef"[d]
  }

  function Hex(b: Bytes): string {
    if b == [] then "" else [HexDigit(b[0] / 16), HexDigit(b[0] % 16)] + Hex(b[1..])
  }

  /** net.IP.String, IPv6 text excepted. */
  function IpString(ip: Bytes): string {
    match To4(ip) case Some(a) => Quad(a) case None => "?" + Hex(ip)
  }

  /**
    net.ParseIP on a text without a colon, which is a dotted quad or no address: digits without leading
    zeros; the result is the sixteen-byte form.
   */
  function ParseIp(s: string): Option<Bytes> {
    match ParseQuad(s)
    case None => None
    case Some(a) => if Quad(a) == s then Some(V4_IN_V6_PREFIX + a) else None
  }

  /** Exactly the dotted quads are addresses, and they parse to the address that they print. */
  lemma ParsedIpIff(s: string)
    ensures ParseIp(s).Some? <==> exists a: Bytes :: |a| == 4 && s == Quad(a)
    ensures forall a: Bytes | |a| == 4 && s == Quad(a) ::
            ParseIp(s) == Some([0, 0, 0, 0, 0, 0, 0, 0, 0, 0, 255, 255] + a)
  {
    forall a: Bytes | |a| == 4 && s == Quad(a) ensures ParseQuad(s) == Some(a) { QuadReads(a); }
    if ParseIp(s).Some? { assert s == Quad(ParseQuad(s).value); }
  }

  lemma ParsedIpPrintsBack(s: string)
    requires ParseIp(s).Some?
    ensures IpString(ParseIp(s).value) == s && To4(ParseIp(s).value) == ParseQuad(s)
  {
    var a := ParseQuad(s).value;
    assert (V4_IN_V6_PREFIX + a)[..12] == V4_IN_V6_PREFIX && (V4_IN_V6_PREFIX + a)[12..] == a;
  }

  lemma {:induction false} HexHasNoSeparator(b: Bytes)
    ensures SEPARATOR !in Hex(b)
  {
    if b != [] { HexHasNoSeparator(b[1..]); }
  }

  lemma IpStringHasNoSeparator(ip: Bytes)
    ensures SEPARATOR !in IpString(ip)
  {
    match To4(ip) {
      case Some(a) => QuadCharacters(a);
      case None => HexHasNoSeparator(ip);
    }
  }

  /** A key names its interface and its address, whatever characters the interface name has. */
  lemma KeyIsInjective(i: string, s: string, j: string, t: string)
    requires SEPARATOR !in s && SEPARATOR !in t && KeyForClient(i, s) == KeyForClient(j, t)
    ensures i == j && s == t
  {
    var k := KeyForClient(i, s);
    assert k[|i|] == SEPARATOR && k[|j|] == SEPARATOR;
    assert forall n | |i| < n < |k| :: k[n] == s[n - |i| - 1];
    assert forall n | |j| < n < |k| :: k[n] == t[n - |j| - 1];
    assert |i| == |j|;
    assert k[..|i|] == i && k[..|j|] == j && k[|i| + 1..] == s && k[|j| + 1..] == t;
  }

  // ---------- what the operations do to the map ----------

  /** The sender of a packet: its address and, on Ethernet, its MAC. */
  function Sender(pkt: Option<Packet>): Option<(Bytes, Bytes)> {
    if pkt.None? || pkt.value.layers.None? || pkt.value.layers.value.ipv4.None? then None
    else
      var layers := pkt.value.layers.value;
      if layers.ipv4.value.src == [] then None
      else Some((layers.ipv4.value.src, if layers.ethernet.Some? then layers.ethernet.value.src else []))
  }

  /**
    What a capture teaches: the source address of the datagram behind the link header, and on Ethernet, link 1,
    the source MAC of the frame.
   */
  lemma SenderOfACapture(pkt: Packet, link: int)
    requires Captured(pkt, link)
    ensures pkt.layers.value.ipv4.Some? ==>
              var h := if link == 1 then 14 else if link == 0 || link == 108 then 4 else 0;
              && |pkt.raw| >= h + 20
              && Sender(Some(pkt)) == Some((pkt.raw[h + 12..h + 16], if link == 1 then pkt.raw[6..12] else []))
    ensures pkt.layers.value.ipv4.None? ==> Sender(Some(pkt)) == None
  {
    if pkt.layers.value.ipv4.Some? {
      var h := if link == 1 then 14 else if link == 0 || link == 108 then 4 else 0;
      assert pkt.raw[h..][12..16] == pkt.raw[h + 12..h + 16];
      assert pkt.raw[0..] == pkt.raw;
    }
  }

  function Learn(m: Clients, iname: string, ip: Bytes, mac: Bytes, now: nat): Clients {
    var key := KeyForClient(iname, IpString(ip));
    if key in m && m[key].IsImmortal() then m else m[key := ClientInfo(ip, iname, now, mac)]
  }

  predicate IsExpired(info: ClientInfo, now: nat, ttl: nat) {
    !info.IsImmortal() && now as int - info.lastSeen > ttl
  }

  function Expire(m: Clients, now: nat, ttl: nat): Clients {
    map key | key in m && !IsExpired(m[key], now, ttl) :: m[key]
  }

  function FixedInfo(iname: string, ip: string): ClientInfo
    requires ParseIp(ip).Some?
  {
    ClientInfo(ParseIp(ip).value, iname, 0, [])
  }

  /** The configured addresses: at least one of them is no address, or all of them are entries and nothing else is. */
  ghost predicate AreFixed(m: Clients, fixed: map<string, seq<string>>) {
    && (forall iname, ip | iname in fixed && ip in fixed[iname] ::
          ParseIp(ip).Some? && KeyForClient(iname, ip) in m && m[KeyForClient(iname, ip)] == FixedInfo(iname, ip))
    && (forall key | key in m :: exists iname, ip ::
        iname in fixed && ip in fixed[iname] && key == KeyForClient(iname, ip))
  }

  /** The entries of one interface, each once, in some order; keys is the order. */
  predicate IsListing(infos: seq<ClientInfo>, keys: seq<string>, m: Clients, iname: string) {
    && |infos| == |keys|
    && (forall i | 0 <= i < |keys| :: keys[i] in m && infos[i] == m[keys[i]] && infos[i].iface == iname)
    && (forall i, j | 0 <= i < j < |keys| :: keys[i] != keys[j])
    && (forall key | key in m && m[key].iface == iname :: key in keys)
  }

  function KeysOf(m: Clients, iname: string): set<string> {
    set key | key in m && m[key].iface == iname
  }

  /** A listing has one entry for each key of the interface. */
  lemma ListingIsComplete(infos: seq<ClientInfo>, keys: seq<string>, m: Clients, iname: string)
    requires IsListing(infos, keys, m, iname)
    ensures |infos| == |KeysOf(m, iname)|
    ensures forall info :: info in infos <==> exists key :: key in KeysOf(m, iname) && m[key] == info
  {
    assert KeysOf(m, iname) == set key | key in keys;
    DistinctKeysAreCounted(keys);
    forall key | key in KeysOf(m, iname) ensures m[key] in infos {
      var i :| 0 <= i < |keys| && keys[i] == key;
      assert infos[i] == m[key];
    }
    forall info | info in infos ensures exists key :: key in KeysOf(m, iname) && m[key] == info {
      var i :| 0 <= i < |infos| && infos[i] == info;
      assert keys[i] in KeysOf(m, iname);
    }
  }

  /** Whatever is known, there is a listing of it. */
  lemma ListingExists(m: Clients, iname: string) returns (infos: seq<ClientInfo>, keys: seq<string>)
    ensures IsListing(infos, keys, m, iname)
  {
    keys := OrderExists(KeysOf(m, iname));
    assert forall i | 0 <= i < |keys| :: keys[i] in KeysOf(m, iname);
    infos := seq(|keys|, i requires 0 <= i < |keys| && keys[i] in m => m[keys[i]]);
  }

  lemma {:induction false} OrderExists(todo: set<string>) returns (keys: seq<string>)
    ensures forall i, j | 0 <= i < j < |keys| :: keys[i] != keys[j]
    ensures forall key :: key in keys <==> key in todo
  {
    if todo == {} {
      keys := [];
    } else {
      var key :| key in todo;
      keys := OrderExists(todo - {key});
      keys := keys + [key];
    }
  }

  lemma {:induction false} DistinctKeysAreCounted(keys: seq<string>)
    requires forall i, j | 0 <= i < j < |keys| :: keys[i] != keys[j]
    ensures |set key | key in keys| == |keys|
  {
    if keys != [] {
      var init, last := keys[..|keys| - 1], keys[|keys| - 1];
      DistinctKeysAreCounted(init);
      assert (set key | key in keys) == (set key | key in init) + {last};
    }
  }

  class RegistryProcessor {
    var clients: Clients
    const ttl: nat

    constructor (ttl: nat, clients: Clients)
      ensures this.ttl == ttl && this.clients == clients
    {
      this.ttl, this.clients := ttl, clients;
    }

    /** NewRegistryProcessorByInterface; ranging over a Go map visits the interfaces in any order. */
    static method ByInterface(ttl: nat, fixed: map<string, seq<string>>) returns (r: Result<RegistryProcessor, string>)
      requires forall iname, ip | iname in fixed && ip in fixed[iname] :: ':' !in ip
      ensures r.Ok? ==> fresh(r.value) && r.value.ttl == ttl && AreFixed(r.value.clients, fixed)
      ensures r.Ok? ==> forall iname, ip | iname in fixed && ip in fixed[iname] ::
                && ParseIp(ip).Some? && KeyForClient(iname, ip) in r.value.clients
                && r.value.clients[KeyForClient(iname, ip)] == ClientInfo(ParseIp(ip).value, iname, 0, [])
      ensures r.Err? ==> ParseIp(r.error).None? && exists iname :: iname in fixed && r.error in fixed[iname]
    {
      hide ParseIp, KeyForClient, AreFixed;
      var clients: Clients := map[];
      var todo := fixed.Keys;
      ghost var done: map<string, seq<string>> := map[];
      NothingIsFixed();
      while todo != {}
        invariant todo !! done.Keys && todo + done.Keys == fixed.Keys
        invariant forall iname | iname in done :: done[iname] == fixed[iname]
        invariant AreFixed(clients, done)
        decreases todo
      {
        var iname :| iname in todo;
        var ips := fixed[iname];
        NothingIsAdded(clients, done, iname);
        for n := 0 to |ips|
          invariant AreFixed(clients, done[iname := ips[..n]])
        {
          var parsed := ParseIp(ips[n]);
          if parsed.None? { return Err(ips[n]); }
          AddFixed(clients, done, iname, ips[..n], ips[n]);
          assert ips[..n] + [ips[n]] == ips[..n + 1];
          clients := clients[KeyForClient(iname, ips[n]) := ClientInfo(parsed.value, iname, 0, [])];
        }
        assert ips[..|ips|] == ips;
        todo, done := todo - {iname}, done[iname := ips];
      }
      assert done == fixed;
      FixedEntriesAre(clients, fixed);
      var registry := new RegistryProcessor(ttl, clients);
      r := Ok(registry);
    }

    method ProcessForInterface(iname: string, pkt: Option<Packet>, now: nat) returns (keep: bool)
      modifies this`clients
      ensures keep
      ensures clients == match Sender(pkt)
                case None => old(clients)
                case Some((ip, mac)) =>
                  var name := if iname == "" then pkt.value.arrivalInterface else iname;
                  Learn(old(clients), name, ip, mac, now)
    {
      if pkt.None? || pkt.value.layers.None? { return true; }
      var layers := pkt.value.layers.value;
      if layers.ipv4.None? { return true; }
      var srcIp := layers.ipv4.value.src;
      if |srcIp| == 0 { return true; }
      var srcMac: Bytes := [];
      if layers.ethernet.Some? {
        srcMac := layers.ethernet.value.src;
      }
      var ipStr := IpString(srcIp);
      if ipStr == "" { return true; }
      var name := iname;
      if name == "" {
        name := pkt.value.arrivalInterface;
      }
      var clientKey := KeyForClient(name, ipStr);
      if clientKey !in clients {
        clients := clients[clientKey := ClientInfo(srcIp, name, now, srcMac)];
      } else if !clients[clientKey].IsImmortal() {
        clients := clients[clientKey := ClientInfo(srcIp, name, now, srcMac)];
      }
      keep := true;
    }

    method Cleanup(now: nat)
      modifies this`clients
      ensures clients == Expire(old(clients), now, ttl)
    {
      var todo := clients.Keys;
      while todo != {}
        invariant todo <= clients.Keys <= old(clients).Keys
        invariant forall key | key in clients :: clients[key] == old(clients)[key]
        invariant forall key | key in old(clients).Keys - todo ::
                    key in clients <==> !IsExpired(old(clients)[key], now, ttl)
        decreases todo
      {
        var key :| key in todo;
        todo := todo - {key};
        var info := clients[key];
        if info.IsImmortal() { continue; }
        if now as int - info.lastSeen > ttl {
          clients := clients - {key};
        }
      }
    }

    method GetClientsForInterface(iname: string) returns (infos: seq<ClientInfo>, ghost keys: seq<string>)
      ensures IsListing(infos, keys, clients, iname)
      ensures |infos| == |KeysOf(clients, iname)|
      ensures forall info :: info in infos <==> exists key :: key in KeysOf(clients, iname) && clients[key] == info
    {
      infos, keys := [], [];
      var todo := clients.Keys;
      while todo != {}
        invariant todo <= clients.Keys
        invariant |infos| == |keys|
        invariant forall i | 0 <= i < |keys| ::
                    keys[i] in clients && keys[i] !in todo && infos[i] == clients[keys[i]] && infos[i].iface == iname
        invariant forall i, j | 0 <= i < j < |keys| :: keys[i] != keys[j]
        invariant forall key | key in clients.Keys - todo && clients[key].iface == iname :: key in keys
        decreases todo
      {
        var key :| key in todo;
        todo := todo - {key};
        if clients[key].iface == iname {
          infos, keys := infos + [clients[key]], keys + [key];
        }
      }
      ListingIsComplete(infos, keys, clients, iname);
    }
  }

  lemma FixedEntriesAre(m: Clients, fixed: map<string, seq<string>>)
    requires AreFixed(m, fixed)
    ensures forall iname, ip | iname in fixed && ip in fixed[iname] ::
              && ParseIp(ip).Some? && KeyForClient(iname, ip) in m
              && m[KeyForClient(iname, ip)] == ClientInfo(ParseIp(ip).value, iname, 0, [])
  {
  }

  lemma NothingIsFixed()
    ensures AreFixed(map[], map[])
  {
  }

  lemma NothingIsAdded(m: Clients, before: map<string, seq<string>>, iname: string)
    requires AreFixed(m, before) && iname !in before
    ensures AreFixed(m, before[iname := []])
  {
    hide ParseIp, KeyForClient;
    forall key | key in m
      ensures exists i, ip :: i in before[iname := []] && ip in before[iname := []][i] && key == KeyForClient(i, ip)
    {
      var i, ip :| i in before && ip in before[i] && key == KeyForClient(i, ip);
      assert i in before[iname := []] && ip in before[iname := []][i];
    }
  }

  lemma AddFixed(m: Clients, before: map<string, seq<string>>, iname: string, ips: seq<string>, ip: string)
    requires AreFixed(m, before[iname := ips]) && ParseIp(ip).Some?
    ensures AreFixed(m[KeyForClient(iname, ip) := FixedInfo(iname, ip)], before[iname := ips + [ip]])
  {
    hide ParseIp, KeyForClient;
    var key, was, now := KeyForClient(iname, ip), before[iname := ips], before[iname := ips + [ip]];
    var m' := m[key := FixedInfo(iname, ip)];
    forall i, s | i in now && s in now[i]
      ensures ParseIp(s).Some? && KeyForClient(i, s) in m' && m'[KeyForClient(i, s)] == FixedInfo(i, s)
    {
      assert ParseIp(s).Some? by {
        if !(i == iname && s == ip) { assert i in was && s in was[i]; }
      }
      if KeyForClient(i, s) == key {
        FixedKeyIsInjective(i, s, iname, ip);
      } else {
        assert i in was && s in was[i];
      }
    }
    forall k | k in m' ensures exists i, s :: i in now && s in now[i] && k == KeyForClient(i, s) {
      if k == key {
        assert iname in now && ip in now[iname];
      } else {
        var i, s :| i in was && s in was[i] && k == KeyForClient(i, s);
        assert i in now && s in now[i];
      }
    }
  }

  lemma FixedKeyIsInjective(i: string, s: string, j: string, t: string)
    requires ParseIp(s).Some? && ParseIp(t).Some? && KeyForClient(i, s) == KeyForClient(j, t)
    ensures i == j && s == t
  {
    QuadCharacters(ParseQuad(s).value);
    QuadCharacters(ParseQuad(t).value);
    KeyIsInjective(i, s, j, t);
  }

  // ---------- the map as a function of its history ----------

  /** What happens to the registry under its lock. */
  datatype Event = Seen(iface: string, ip: Bytes, mac: Bytes, time: nat) | Cleaned(time: nat) {
    predicate Sees(key: string) { Seen? && KeyForClient(iface, IpString(ip)) == key }

    function Info(): ClientInfo
      requires Seen?
    {
      ClientInfo(ip, iface, time, mac)
    }
  }

  function After(m: Clients, event: Event, ttl: nat): Clients {
    match event
    case Seen(iface, ip, mac, time) => Learn(m, iface, ip, mac, time)
    case Cleaned(time) => Expire(m, time, ttl)
  }

  function Replay(start: Clients, events: seq<Event>, ttl: nat): Clients {
    if events == [] then start
    else After(Replay(start, events[..|events| - 1], ttl), events[|events| - 1], ttl)
  }

  /** The registry starts with fixed entries only. */
  predicate AllImmortal(m: Clients) { forall key | key in m :: m[key].IsImmortal() }

  /** The clock never shows the zero time. */
  predicate ClockIsRunning(events: seq<Event>) { forall i | 0 <= i < |events| :: events[i].time > 0 }

  predicate ClockIsMonotone(events: seq<Event>) {
    forall i, j | 0 <= i < j < |events| :: events[i].time <= events[j].time
  }

  /** Event i is the last packet of a client, and no later cleanup found it older than the TTL. */
  predicate KeptAlive(events: seq<Event>, i: int, key: string, ttl: nat) {
    && 0 <= i < |events| && events[i].Sees(key)
    && (forall j | i < j < |events| :: !events[j].Sees(key))
    && (forall j | i < j < |events| && events[j].Cleaned? :: events[j].time as int - events[i].time <= ttl)
  }

  /** The same, computed event by event. */
  function Survivor(events: seq<Event>, key: string, ttl: nat): (r: Option<nat>)
    ensures r.Some? ==> r.value < |events|
  {
    if events == [] then None
    else
      var init, last := events[..|events| - 1], events[|events| - 1];
      var before := Survivor(init, key, ttl);
      if last.Sees(key) then Some(|events| - 1)
      else if before.Some? && last.Cleaned? && last.time as int - events[before.value].time > ttl then None
      else before
  }

  lemma {:induction false} SurvivorIsKeptAlive(events: seq<Event>, key: string, ttl: nat, i: nat)
    ensures Survivor(events, key, ttl) == Some(i) <==> KeptAlive(events, i, key, ttl)
  {
    hide KeyForClient, IpString;
    if events != [] {
      var init, last := events[..|events| - 1], events[|events| - 1];
      SurvivorIsKeptAlive(init, key, ttl, i);
      if last.Sees(key) {
        assert KeptAlive(events, i, key, ttl) ==> i == |init|;
      } else {
        KeptAliveStep(init, last, i, key, ttl);
        assert init + [last] == events;
      }
    }
  }

  lemma KeptAliveStep(init: seq<Event>, last: Event, i: nat, key: string, ttl: nat)
    requires !last.Sees(key)
    ensures KeptAlive(init + [last], i, key, ttl)
       <==> KeptAlive(init, i, key, ttl) && (last.Cleaned? ==> last.time as int - init[i].time <= ttl)
  {
    hide KeyForClient, IpString;
    var events := init + [last];
    assert events[|init|] == last && forall j | 0 <= j < |init| :: events[j] == init[j];
    if KeptAlive(events, i, key, ttl) {
      assert forall j | i < j < |init| :: !init[j].Sees(key) by {
        forall j | i < j < |init| ensures !init[j].Sees(key) { assert !events[j].Sees(key); }
      }
      assert forall j | i < j < |init| && init[j].Cleaned? :: init[j].time as int - init[i].time <= ttl by {
        forall j | i < j < |init| && init[j].Cleaned? ensures init[j].time as int - init[i].time <= ttl {
          assert events[j].Cleaned?;
        }
      }
    }
  }

  lemma {:induction false} SurvivorIsKnown(start: Clients, events: seq<Event>, ttl: nat, key: string)
    requires AllImmortal(start) && ClockIsRunning(events) && key !in start
    ensures key in Replay(start, events, ttl) <==> Survivor(events, key, ttl).Some?
    ensures Survivor(events, key, ttl).Some? ==>
              && events[Survivor(events, key, ttl).value].Seen?
              && Replay(start, events, ttl)[key] == events[Survivor(events, key, ttl).value].Info()
  {
    hide KeyForClient, IpString;
    if events != [] {
      SurvivorIsKnown(start, events[..|events| - 1], ttl, key);
    }
  }

  /**
    A client that is not fixed is known exactly when its last packet came at some time and every later
    cleanup ran at most TTL after it; the entry is that of this packet.
   */
  lemma KnownIffRecentlySeen(start: Clients, events: seq<Event>, ttl: nat, key: string)
    requires AllImmortal(start) && ClockIsRunning(events) && key !in start
    ensures key in Replay(start, events, ttl) <==> exists i :: KeptAlive(events, i, key, ttl)
    ensures forall i | KeptAlive(events, i, key, ttl) ::
              && events[i].Seen? && key in Replay(start, events, ttl)
              && Replay(start, events, ttl)[key]
                == ClientInfo(events[i].ip, events[i].iface, events[i].time, events[i].mac)
  {
    SurvivorIsKnown(start, events, ttl, key);
    if Survivor(events, key, ttl).Some? {
      SurvivorIsKeptAlive(events, key, ttl, Survivor(events, key, ttl).value);
    }
    forall i | KeptAlive(events, i, key, ttl) ensures Survivor(events, key, ttl) == Some(i) {
      SurvivorIsKeptAlive(events, key, ttl, i);
    }
  }

  /** A fixed client stays as it was configured, whatever happens. */
  lemma {:induction false} FixedClientsStay(start: Clients, events: seq<Event>, ttl: nat, key: string)
    requires AllImmortal(start) && key in start
    ensures key in Replay(start, events, ttl) && Replay(start, events, ttl)[key] == start[key]
  {
    if events != [] {
      FixedClientsStay(start, events[..|events| - 1], ttl, key);
    }
  }

  /** In every window of one period up to now there was a cleanup: the ticker of cmd/udp-proxy-2020/main.go. */
  ghost predicate CleanedEvery(events: seq<Event>, period: nat, now: nat) {
    forall t: nat | t + period <= now :: CleanedWithin(events, t, period)
  }

  predicate CleanedWithin(events: seq<Event>, t: nat, period: nat) {
    exists i | 0 <= i < |events| :: events[i].Cleaned? && t < events[i].time <= t + period
  }

  /** No client is known for longer than TTL and one cleanup period after its last packet. */
  lemma KnownClientsAreFresh(start: Clients, events: seq<Event>, ttl: nat, period: nat, now: nat, key: string)
    requires AllImmortal(start) && ClockIsRunning(events) && ClockIsMonotone(events)
    requires CleanedEvery(events, period, now)
    requires key !in start && key in Replay(start, events, ttl)
    ensures now <= Replay(start, events, ttl)[key].lastSeen + ttl + period
  {
    hide KeyForClient, IpString;
    KnownIffRecentlySeen(start, events, ttl, key);
    var i :| KeptAlive(events, i, key, ttl);
    if now > events[i].time + ttl + period {
      StaleClientsAreForgotten(events, i, key, ttl, period, now);
    }
  }

  lemma StaleClientsAreForgotten(events: seq<Event>, i: nat, key: string, ttl: nat, period: nat, now: nat)
    requires ClockIsMonotone(events) && CleanedEvery(events, period, now)
    requires i < |events| && events[i].time + ttl + period <= now
    ensures !KeptAlive(events, i, key, ttl)
  {
    hide KeyForClient, IpString;
    var t := events[i].time + ttl;
    assert CleanedWithin(events, t, period);
    var j :| 0 <= j < |events| && events[j].Cleaned? && t < events[j].time <= t + period;
    assert i < j;
  }

  /** A client that has sent a packet is forgotten only when TTL has passed since the last one. */
  lemma ForgottenOnlyAfterTtl(start: Clients, events: seq<Event>, ttl: nat, key: string, i: nat)
    requires AllImmortal(start) && ClockIsRunning(events) && key !in start
    requires i < |events| && events[i].Sees(key) && forall j | i < j < |events| :: !events[j].Sees(key)
    requires key !in Replay(start, events, ttl)
    ensures exists j :: i < j < |events| && events[j].Cleaned? && events[j].time > events[i].time + ttl
  {
    KnownIffRecentlySeen(start, events, ttl, key);
    assert !KeptAlive(events, i, key, ttl);
  }

  // ---------- keys and entries ----------

  /** Every entry is filed under its own interface and address. */
  predicate KeysMatch(m: Clients) {
    forall key | key in m :: key == KeyForClient(m[key].iface, IpString(m[key].ip))
  }

  lemma FixedKeysMatch(m: Clients, fixed: map<string, seq<string>>)
    requires AreFixed(m, fixed)
    ensures KeysMatch(m) && AllImmortal(m)
  {
    forall key | key in m ensures key == KeyForClient(m[key].iface, IpString(m[key].ip)) && m[key].IsImmortal() {
      var iname, ip :| iname in fixed && ip in fixed[iname] && key == KeyForClient(iname, ip);
      ParsedIpPrintsBack(ip);
    }
  }

  lemma AfterKeepsKeys(m: Clients, event: Event, ttl: nat)
    requires KeysMatch(m)
    ensures KeysMatch(After(m, event, ttl))
  {
    hide KeyForClient, IpString;
  }

  lemma {:induction false} ReplayKeepsKeys(start: Clients, events: seq<Event>, ttl: nat)
    requires KeysMatch(start)
    ensures KeysMatch(Replay(start, events, ttl))
  {
    hide After, KeysMatch;
    if events != [] {
      ReplayKeepsKeys(start, events[..|events| - 1], ttl);
      AfterKeepsKeys(Replay(start, events[..|events| - 1], ttl), events[|events| - 1], ttl);
    }
  }

  /** No address is listed twice for an interface, in whatever of its two lengths it is stored. */
  lemma ListedAddressesAreDistinct(infos: seq<ClientInfo>, keys: seq<string>, m: Clients, iname: string)
    requires KeysMatch(m) && IsListing(infos, keys, m, iname)
    ensures forall i, j | 0 <= i < j < |infos| :: IpString(infos[i].ip) != IpString(infos[j].ip)
    ensures forall i, j | 0 <= i < j < |infos| && To4(infos[i].ip).Some? :: To4(infos[i].ip) != To4(infos[j].ip)
  {
    forall i, j | 0 <= i < j < |infos| ensures IpString(infos[i].ip) != IpString(infos[j].ip) {
      assert keys[i] != keys[j];
    }
  }
}
