/**
  Choosing the targets of a packet on one egress interface and fanning it out
  (internal/proxy/stages/route_sink.go).
 */
module Routing {
  import opened Wrappers
  import opened Net
  import opened Rewrite
  import opened Sequences
  import opened Registry
  import Wire

  datatype Target = Target(ip: Bytes, mac: Bytes, broadcastDestMac: bool, allowBroadcastMac: bool)

  datatype Verdict = Keep | Drop | Failed

  type Processor = Packet -> Verdict

  // ---------- what a route does ----------

  function ClientTarget(info: ClientInfo, broadcast: bool): Target {
    Target(info.ip, info.mac, false, broadcast)
  }

  /** Every processor keeps the packet; one that drops it or fails does not. */
  predicate AllKeep(processors: seq<Processor>, pkt: Packet) {
    forall i | 0 <= i < |processors| :: processors[i](pkt) == Keep
  }

  /** The settings of a route to one egress interface. */
  datatype Route = Route(iname: string, broadcast: bool, broadcastAddress: Bytes, hardwareAddr: Bytes,
                         linkType: int, processors: seq<Processor>, bigEndian: bool)
  {
    function BroadcastTarget(): Target { Target(broadcastAddress, [], true, false) }

    /** The known clients of the interface; without any, its broadcast address if it has one. */
    function TargetsFor(infos: seq<ClientInfo>): seq<Target> {
      if infos != [] then seq(|infos|, i requires 0 <= i < |infos| => ClientTarget(infos[i], broadcast))
      else if broadcast then [BroadcastTarget()]
      else []
    }

    /** A known client of the interface, or the broadcast address when none is known. */
    ghost predicate IsTarget(m: Clients, t: Target) {
      || (exists key :: key in m && m[key].iface == iname && t == Target(m[key].ip, m[key].mac, false, broadcast))
      || (broadcast && t == Target(broadcastAddress, [], true, false) && forall key | key in m :: m[key].iface != iname)
    }

    function OptionsFor(t: Target): Options {
      Options(t.ip, t.mac, hardwareAddr, linkType, t.allowBroadcastMac, t.broadcastDestMac, iname)
    }

    function Rewritten(pkt: Packet, t: Target): Result<Packet, Error> {
      Egress(Some(pkt), OptionsFor(t), bigEndian)
    }

    /** The copy for one target: at most one, and none when the rewrite or a processor gives it up. */
    function Offer(pkt: Packet, t: Target): (copies: seq<Packet>)
      ensures |copies| <= 1
    {
      match Rewritten(pkt, t)
      case Err(_) => []
      case Ok(copy) => if AllKeep(processors, copy) then [copy] else []
    }

    /** The copies that a list of targets amounts to, in target order. */
    function Offers(pkt: Packet, targets: seq<Target>): seq<Packet> {
      if targets == [] then []
      else Offers(pkt, targets[..|targets| - 1]) + Offer(pkt, targets[|targets| - 1])
    }

    /** What a target needs to be served on the link: an address, and on Ethernet a MAC or leave to broadcast. */
    predicate CanServe(t: Target) {
      && To4(t.ip).Some?
      && (Wire.IsRawLink(linkType) || Wire.IsLoopbackLink(linkType)
          || (linkType == Wire.LINK_ETHERNET && |hardwareAddr| == 6
              && (t.broadcastDestMac || |t.mac| == 6 || (t.mac == [] && t.allowBroadcastMac))))
    }

    /** A target survives when the link can serve it and every processor of the route keeps its copy. */
    predicate Survives(pkt: Packet, t: Target) {
      && CanServe(t)
      && Rewritten(pkt, t).Ok?
      && forall k | 0 <= k < |processors| :: processors[k](Rewritten(pkt, t).value) == Keep
    }

    function Survivors(pkt: Packet, targets: seq<Target>): seq<Target> {
      if targets == [] then []
      else
        var t := targets[|targets| - 1];
        Survivors(pkt, targets[..|targets| - 1]) + if Survives(pkt, t) then [t] else []
    }

    /** A receiver on the link decodes the packet as it was captured, addressed to the target. */
    predicate IsCopyFor(pkt: Packet, t: Target, copy: Packet) {
      && Captured(copy, linkType)
      && copy.metadata == pkt.metadata
      && copy.arrivalInterface == (if iname == "" then pkt.arrivalInterface else iname)
      && copy.layers.value.ipv4.Some? && copy.layers.value.udp.Some?
      && pkt.layers.Some? && pkt.layers.value.ipv4.Some?
      && copy.layers.value.udp == pkt.layers.value.udp && copy.layers.value.app == pkt.layers.value.app
      && (linkType != Wire.LINK_ETHERNET ==> copy.layers.value.ethernet.None?)
      && (linkType == Wire.LINK_ETHERNET ==>
            && copy.layers.value.ethernet.Some? && copy.layers.value.ethernet.value.src == hardwareAddr
            && copy.layers.value.ethernet.value.dst
               == if t.broadcastDestMac || t.mac == [] then BROADCAST_MAC else t.mac)
      && Some(copy.layers.value.ipv4.value.dst) == To4(t.ip)
      && copy.layers.value.ipv4.value.src == pkt.layers.value.ipv4.value.src
      && copy.layers.value.ipv4.value.ttl == pkt.layers.value.ipv4.value.ttl
      && copy.layers.value.ipv4.value.id == pkt.layers.value.ipv4.value.id
      && copy.layers.value.ipv4.value.flags == pkt.layers.value.ipv4.value.flags
      && copy.layers.value.ipv4.value.fragOffset == pkt.layers.value.ipv4.value.fragOffset
    }
  }

  lemma OffersNext(r: Route, pkt: Packet, targets: seq<Target>, i: nat)
    requires i < |targets|
    ensures r.Offers(pkt, targets[..i + 1]) == r.Offers(pkt, targets[..i]) + r.Offer(pkt, targets[i])
  {
    assert targets[..i + 1][..i] == targets[..i];
  }

  /** The copies can also be taken from the front. */
  lemma {:induction false} OffersFirst(r: Route, pkt: Packet, targets: seq<Target>)
    requires targets != []
    ensures r.Offers(pkt, targets) == r.Offer(pkt, targets[0]) + r.Offers(pkt, targets[1..])
  {
    hide Route.Offer;
    var init, last := targets[..|targets| - 1], targets[|targets| - 1];
    if init == [] {
      assert targets[1..] == [] && r.Offers(pkt, init) == [];
    } else {
      var middle := init[1..];
      OffersFirst(r, pkt, init);
      assert targets[1..][..|targets[1..]| - 1] == middle;
      Regroup(r.Offer(pkt, targets[0]), r.Offers(pkt, middle), r.Offer(pkt, last));
    }
  }

  /** A sink at the end of a route, with what it was given; whether it fails is its own business. */
  class EndSink {
    var received: seq<Packet>
    var closed: nat
    const closeError: Option<string>

    constructor (closeError: Option<string>)
      ensures received == [] && closed == 0 && this.closeError == closeError
    {
      received, closed, this.closeError := [], 0, closeError;
    }

    method Write(pkt: Packet) returns (ok: bool)
      modifies this`received
      ensures received == old(received) + [pkt]
    {
      received := received + [pkt];
      ok := *;
    }

    method Close() returns (error: Option<string>)
      modifies this`closed
      ensures closed == old(closed) + 1 && error == closeError
    {
      closed := closed + 1;
      error := closeError;
    }
  }

  class RouteSink {
    const iname: string
    const broadcast: bool
    const broadcastAddress: Bytes
    const hardwareAddr: Bytes
    const registry: RegistryProcessor?
    const linkType: int
    const processors: seq<Processor>
    const sinks: seq<EndSink>
    const bigEndian: bool

    constructor (iname: string, broadcast: bool, broadcastAddress: Bytes, hardwareAddr: Bytes,
                 registry: RegistryProcessor?, linkType: int, processors: seq<Processor>,
                 sinks: seq<EndSink>, bigEndian: bool)
      requires forall i, j | 0 <= i < j < |sinks| :: sinks[i] != sinks[j]
      ensures SinksAreDistinct() && this.sinks == sinks && this.processors == processors && this.registry == registry
      ensures this.iname == iname && this.broadcast == broadcast && this.broadcastAddress == broadcastAddress
      ensures this.hardwareAddr == hardwareAddr && this.linkType == linkType && this.bigEndian == bigEndian
    {
      this.iname, this.broadcast, this.broadcastAddress, this.hardwareAddr :=
        iname, broadcast, broadcastAddress, hardwareAddr;
      this.registry, this.linkType, this.processors, this.sinks, this.bigEndian :=
        registry, linkType, processors, sinks, bigEndian;
    }

    predicate SinksAreDistinct() { forall i, j | 0 <= i < j < |sinks| :: sinks[i] != sinks[j] }

    function Settings(): (r: Route)
      ensures r.iname == iname && r.linkType == linkType && r.hardwareAddr == hardwareAddr
      ensures r.broadcast == broadcast && r.broadcastAddress == broadcastAddress && r.processors == processors
    {
      Route(iname, broadcast, broadcastAddress, hardwareAddr, linkType, processors, bigEndian)
    }

    /** The snapshot that targets were taken from: the entries of this interface, or nothing without a registry. */
    predicate IsSnapshot(infos: seq<ClientInfo>, keys: seq<string>)
      reads registry
    {
      IsListing(infos, keys, Clients(), iname)
    }

    /** The clients that the route can know. */
    function Clients(): Clients
      reads registry
    {
      if registry == null then map[] else registry.clients
    }

    method TargetsForPacket() returns (targets: seq<Target>, ghost infos: seq<ClientInfo>, ghost keys: seq<string>)
      ensures IsSnapshot(infos, keys)
      ensures targets == Settings().TargetsFor(infos)
      ensures forall t :: t in targets <==> Settings().IsTarget(Clients(), t)
      ensures infos != [] ==> |targets| == |infos|
      ensures infos != [] ==> forall i | 0 <= i < |infos| ::
                && targets[i].ip == infos[i].ip && targets[i].mac == infos[i].mac
                && !targets[i].broadcastDestMac && targets[i].allowBroadcastMac == broadcast
      ensures KeysOf(Clients(), iname) != {} ==> |targets| == |KeysOf(Clients(), iname)|
    {
      targets, infos, keys := [], [], [];
      if registry != null {
        var clients: seq<ClientInfo>;
        clients, keys := registry.GetClientsForInterface(iname);
        infos := clients;
        for i := 0 to |clients|
          invariant |targets| == i
          invariant forall k | 0 <= k < i :: targets[k] == ClientTarget(clients[k], broadcast)
        {
          targets := targets + [Target(clients[i].ip, clients[i].mac, false, broadcast)];
        }
        ListingIsComplete(infos, keys, registry.clients, iname);
        if |targets| > 0 {
          assert targets == Settings().TargetsFor(infos);
          return;
        }
      }
      if broadcast {
        targets := targets + [Target(broadcastAddress, [], true, false)];
      }
    }

    method WriteToTarget(pkt: Packet, target: Target)
      requires SinksAreDistinct()
      modifies sinks`received
      ensures forall s | s in sinks :: s.received == old(s.received) + Settings().Offer(pkt, target)
      ensures var copy := Settings().Rewritten(pkt, target);
              Settings().Offer(pkt, target)
              == if copy.Ok? && forall k | 0 <= k < |processors| :: processors[k](copy.value) == Keep
                 then [copy.value] else []
    {
      hide Egress;
      var options := Options(target.ip, target.mac, hardwareAddr, linkType, target.allowBroadcastMac,
                             target.broadcastDestMac, iname);
      var result := PacketForEgress(Some(pkt), options, bigEndian);
      if result.Err? { return; }
      var rewritten := result.value;
      var continueProcessing := true;
      for i := 0 to |processors|
        invariant continueProcessing
        invariant forall k | 0 <= k < i :: processors[k](rewritten) == Keep
      {
        var verdict := processors[i](rewritten);
        if verdict != Keep {
          continueProcessing := false;
          break;
        }
      }
      if !continueProcessing { return; }
      for i := 0 to |sinks|
        invariant forall k | 0 <= k < i :: sinks[k].received == old(sinks[k].received) + [rewritten]
        invariant forall k | i <= k < |sinks| :: sinks[k].received == old(sinks[k].received)
      {
        var ok := sinks[i].Write(rewritten);
      }
    }

    /** One packet: every nested sink gets the same copies, one for each target that survives, in target order. */
    method Write(pkt: Option<Packet>) returns (ghost infos: seq<ClientInfo>, ghost keys: seq<string>)
      requires SinksAreDistinct()
      modifies sinks`received
      ensures pkt.Some? ==> IsSnapshot(infos, keys)
      ensures forall s | s in sinks ::
                s.received == old(s.received)
                              + if pkt.None? then [] else Settings().Offers(pkt.value, Settings().TargetsFor(infos))
    {
      hide Route.Offer, Route.TargetsFor, IsListing;
      infos, keys := [], [];
      if pkt.None? { return; }
      var targets: seq<Target>;
      targets, infos, keys := TargetsForPacket();
      if |targets| == 0 { return; }
      for i := 0 to |targets|
        invariant forall s | s in sinks :: s.received == old(s.received) + Settings().Offers(pkt.value, targets[..i])
      {
        WriteToTarget(pkt.value, targets[i]);
        OffersNext(Settings(), pkt.value, targets, i);
        forall s | s in sinks ensures s.received == old(s.received) + Settings().Offers(pkt.value, targets[..i + 1]) {
          Regroup(old(s.received), Settings().Offers(pkt.value, targets[..i]), Settings().Offer(pkt.value, targets[i]));
        }
      }
      assert targets[..|targets|] == targets;
    }

    method Close() returns (firstErr: Option<string>)
      requires SinksAreDistinct()
      modifies sinks`closed
      ensures forall s | s in sinks :: s.closed == old(s.closed) + 1
      ensures firstErr.None? ==> forall i | 0 <= i < |sinks| :: sinks[i].closeError.None?
      ensures firstErr.Some? ==>
                exists i :: 0 <= i < |sinks| && sinks[i].closeError == firstErr
                  && forall k | 0 <= k < i :: sinks[k].closeError.None?
    {
      firstErr := None;
      for i := 0 to |sinks|
        invariant firstErr.None? ==> forall k | 0 <= k < i :: sinks[k].closeError.None?
        invariant firstErr.Some? ==>
                    exists k :: 0 <= k < i && sinks[k].closeError == firstErr
                      && forall l | 0 <= l < k :: sinks[l].closeError.None?
        invariant forall k | 0 <= k < i :: sinks[k].closed == old(sinks[k].closed) + 1
        invariant forall k | i <= k < |sinks| :: sinks[k].closed == old(sinks[k].closed)
      {
        var err := sinks[i].Close();
        if err.Some? && firstErr.None? {
          firstErr := err;
        }
      }
    }
  }

  // ---------- theorems ----------

  /** No address is targeted twice for one packet. */
  lemma TargetsAreDistinct(r: Route, infos: seq<ClientInfo>, keys: seq<string>, m: Clients)
    requires KeysMatch(m) && IsListing(infos, keys, m, r.iname)
    ensures var ts := r.TargetsFor(infos);
            forall i, j | 0 <= i < j < |ts| :: IpString(ts[i].ip) != IpString(ts[j].ip)
  {
    hide IpString;
    ListedAddressesAreDistinct(infos, keys, m, r.iname);
  }

  /** A target is a known client of the interface, or its broadcast address when no client is known there. */
  lemma TargetsAreKnown(r: Route, infos: seq<ClientInfo>, keys: seq<string>, m: Clients, t: Target)
    requires IsListing(infos, keys, m, r.iname)
    ensures t in r.TargetsFor(infos) <==> r.IsTarget(m, t)
  {
    hide IsListing;
    ListingIsComplete(infos, keys, m, r.iname);
    var ts := r.TargetsFor(infos);
    if infos == [] {
      assert forall key | key in m :: key !in KeysOf(m, r.iname);
    } else {
      assert infos[0] in infos;
      if key :| key in m && m[key].iface == r.iname && t == Target(m[key].ip, m[key].mac, false, r.broadcast) {
        assert key in KeysOf(m, r.iname) && m[key] in infos;
        var i :| 0 <= i < |infos| && infos[i] == m[key];
        assert ts[i] == t;
      }
      if t in ts {
        var i :| 0 <= i < |ts| && ts[i] == t;
        assert infos[i] in infos;
      }
    }
  }

  /**
    Learning a sender and routing its packet to another interface commute: the registry lists the same
    clients there before and after.
   */
  lemma LearningDoesNotDisturbRouting(m: Clients, arrival: string, ip: Bytes, mac: Bytes, now: nat,
                                      egress: string, infos: seq<ClientInfo>, keys: seq<string>)
    requires KeysMatch(m) && egress != arrival
    ensures IsListing(infos, keys, m, egress) <==> IsListing(infos, keys, Learn(m, arrival, ip, mac, now), egress)
  {
    hide IpString;
    var m' := Learn(m, arrival, ip, mac, now);
    var learned := KeyForClient(arrival, IpString(ip));
    assert learned in m ==> m[learned].iface == arrival by {
      if learned in m {
        IpStringHasNoSeparator(ip);
        IpStringHasNoSeparator(m[learned].ip);
        KeyIsInjective(arrival, IpString(ip), m[learned].iface, IpString(m[learned].ip));
      }
    }
    assert forall key | key != learned :: (key in m <==> key in m') && (key in m ==> m[key] == m'[key]);
    assert learned in m' && m'[learned].iface == arrival;
  }

  /** The link serves a target exactly when the rewrite for it succeeds. */
  lemma CanServeIff(r: Route, pkt: Packet, link: int, t: Target)
    requires Captured(pkt, link) && pkt.layers.value.udp.Some?
    ensures r.CanServe(t) <==> r.Rewritten(pkt, t).Ok?
  {
    hide Egress, Captured;
    SucceedsIff(pkt, link, r.OptionsFor(t), r.bigEndian);
  }

  lemma OfferIsCopy(r: Route, pkt: Packet, link: int, t: Target)
    requires Captured(pkt, link) && pkt.layers.value.udp.Some?
    ensures var copies := r.Offer(pkt, t);
            && |copies| == (if r.Survives(pkt, t) then 1 else 0)
            && (copies != [] ==> r.IsCopyFor(pkt, t, copies[0]))
  {
    hide Wire.Decode, Frame;
    CanServeIff(r, pkt, link, t);
    if r.Rewritten(pkt, t).Ok? {
      CapturedIsDelivered(pkt, link, r.OptionsFor(t), r.bigEndian);
    }
  }

  /**
    A captured UDP packet is offered exactly once to every target that survives, in target order, and to no
    other; each copy decodes to the unchanged original but for its destination.
   */
  lemma {:induction false} EveryTargetIsOfferedOneCopy(r: Route, pkt: Packet, link: int, targets: seq<Target>)
    requires Captured(pkt, link) && pkt.layers.value.udp.Some?
    ensures var offers, survivors := r.Offers(pkt, targets), r.Survivors(pkt, targets);
            && |offers| == |survivors|
            && forall i | 0 <= i < |offers| :: r.IsCopyFor(pkt, survivors[i], offers[i])
  {
    hide Route.IsCopyFor, Route.Survives, Route.Offer, Captured;
    if targets != [] {
      var init, t := targets[..|targets| - 1], targets[|targets| - 1];
      EveryTargetIsOfferedOneCopy(r, pkt, link, init);
      OfferIsCopy(r, pkt, link, t);
      var last := r.Offer(pkt, t);
      assert r.Offers(pkt, targets) == r.Offers(pkt, init) + last;
    }
  }

  /** When the link can serve every target and nothing is filtered, none is lost. */
  lemma {:induction false} AllServedTargetsSurvive(r: Route, pkt: Packet, link: int, targets: seq<Target>)
    requires Captured(pkt, link) && pkt.layers.value.udp.Some? && r.processors == []
    requires forall i | 0 <= i < |targets| :: r.CanServe(targets[i])
    ensures r.Survivors(pkt, targets) == targets
  {
    hide Route.CanServe, Captured, Egress;
    if targets != [] {
      var init, t := targets[..|targets| - 1], targets[|targets| - 1];
      assert forall i | 0 <= i < |init| :: init[i] == targets[i];
      AllServedTargetsSurvive(r, pkt, link, init);
      CanServeIff(r, pkt, link, t);
      assert init + [t] == targets;
    }
  }
}
