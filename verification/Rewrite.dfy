/** Rewriting a captured packet for another link (internal/proxy/rewrite/rewrite.go). */
module Rewrite {
  import opened Wrappers
  import opened Net
  import opened Wire
  import Checksum

  const BROADCAST_MAC: Bytes := [255, 255, 255, 255, 255, 255]

  datatype Metadata = Metadata(timestamp: nat, captureLength: nat, length: nat)

  datatype Packet = Packet(raw: Bytes, metadata: Metadata, layers: Option<Layers>, arrivalInterface: string)

  datatype Options = Options(targetIp: Bytes, targetMac: Bytes, sourceMac: Bytes, egressLink: int,
                             allowBroadcastMac: bool, forceBroadcastMac: bool, outputArrivalInterface: string)

  datatype Error = PacketIsNil | MissingIpv4 | MissingUdp | MissingDestinationMac | MissingSourceMac
                 | UnsupportedLink | CannotSerialize

  // ---------- the code: a list of layers, serialized from the last to the first ----------

  datatype Header = EthernetHeader(dst: Bytes, src: Bytes) | LoopbackHeader | Ipv4Header(ip: Ipv4Layer)
                  | UdpHeader(srcPort: Word, dstPort: Word, network: Ipv4Layer) | Payload(bytes: Bytes)

  /** Prepends one layer to what has been serialized so far. An address or MAC of a wrong length is an error. */
  function Prepend(h: Header, body: Bytes, bigEndian: bool): Option<Bytes> {
    match h
    case EthernetHeader(dst, src) =>
      if |dst| != 6 || |src| != 6 then None else Some(PrintEthernet(dst, src, body))
    case LoopbackHeader => Some(PrintLoopback(bigEndian, body))
    case Ipv4Header(ip) =>
      if |ip.src| != 4 || |ip.dst| != 4 then None else Some(Wire.Ipv4Header(ip, |body|) + body)
    case UdpHeader(srcPort, dstPort, network) =>
      if |network.src| != 4 || |network.dst| != 4 then None
      else Some(PrintUdp(network.src, network.dst, UdpLayer(srcPort, dstPort, body)))
    case Payload(bytes) => Some(bytes + body)
  }

  function Serialize(headers: seq<Header>, bigEndian: bool): Option<Bytes> {
    if headers == [] then Some([])
    else
      match Serialize(headers[1..], bigEndian)
      case None => None
      case Some(body) => Prepend(headers[0], body, bigEndian)
  }

  function OrNil(ip: Option<Bytes>): Bytes {
    match ip case Some(a) => a case None => []
  }

  method PacketForEgress(pkt: Option<Packet>, o: Options, bigEndian: bool) returns (r: Result<Packet, Error>)
    ensures r == Egress(pkt, o, bigEndian)
  {
    if pkt.None? || pkt.value.layers.None? { return Err(PacketIsNil); }
    var layers := pkt.value.layers.value;
    if layers.ipv4.None? { return Err(MissingIpv4); }
    var ipv4 := layers.ipv4.value;
    if layers.udp.None? { return Err(MissingUdp); }
    var udp := layers.udp.value;

    var payload := udp.payload;
    if |payload| == 0 && layers.app.Some? {
      payload := layers.app.value;
    }

    var newIp := Ipv4Layer(0, ipv4.id, ipv4.flags, ipv4.fragOffset, ipv4.ttl, UDP_PROTOCOL,
                           OrNil(To4(ipv4.src)), OrNil(To4(o.targetIp)), []);

    var headers: seq<Header> := [];
    if o.egressLink == LINK_ETHERNET {
      var dstMac := o.targetMac;
      if o.forceBroadcastMac {
        dstMac := BROADCAST_MAC;
      } else if |dstMac| == 0 {
        if !o.allowBroadcastMac { return Err(MissingDestinationMac); }
        dstMac := BROADCAST_MAC;
      }
      if |o.sourceMac| == 0 { return Err(MissingSourceMac); }
      headers := headers + [EthernetHeader(dstMac, o.sourceMac)];
    } else if IsLoopbackLink(o.egressLink) {
      headers := headers + [LoopbackHeader];
    } else if !IsRawLink(o.egressLink) {
      return Err(UnsupportedLink);
    }
    headers := headers + [Ipv4Header(newIp), UdpHeader(udp.srcPort, udp.dstPort, newIp), Payload(payload)];

    SerializeIsFrame(layers, o, bigEndian, headers);
    var serialized := Serialize(headers, bigEndian);
    if serialized.None? { return Err(CannotSerialize); }
    var raw := serialized.value;
    var arrival := pkt.value.arrivalInterface;
    if o.outputArrivalInterface != "" {
      arrival := o.outputArrivalInterface;
    }
    r := Ok(Packet(raw, pkt.value.metadata, Some(Decode(raw, o.egressLink)), arrival));
  }

  lemma SerializeDatagram(ip: Ipv4Layer, srcPort: Word, dstPort: Word, payload: Bytes, bigEndian: bool)
    ensures Serialize([Ipv4Header(ip), UdpHeader(srcPort, dstPort, ip), Payload(payload)], bigEndian)
         == if |ip.src| != 4 || |ip.dst| != 4 then None
            else var segment := PrintUdp(ip.src, ip.dst, UdpLayer(srcPort, dstPort, payload));
                 Some(Wire.Ipv4Header(ip, |segment|) + segment)
  {
    var u, p := UdpHeader(srcPort, dstPort, ip), Payload(payload);
    var all := [Ipv4Header(ip), u, p];
    assert all[1..] == [u, p] && [u, p][1..] == [p] && [p][1..] == [];
    assert payload + [] == payload;
    assert Serialize([p], bigEndian) == Some(payload);
  }

  // ---------- what the code means ----------

  function PayloadOf(l: Layers): Bytes
    requires l.udp.Some?
  {
    if l.udp.value.payload == [] && l.app.Some? then l.app.value else l.udp.value.payload
  }

  /** The datagram that carries a decoded packet to a target; None without IPv4, UDP or two IPv4 addresses. */
  function Carried(l: Layers, target: Bytes): Option<Datagram> {
    if l.ipv4.None? || l.udp.None? || To4(l.ipv4.value.src).None? || To4(target).None? then None
    else
      var ip, udp := l.ipv4.value, l.udp.value;
      Some(Datagram(To4(ip.src).value, To4(target).value, ip.id, ip.flags, ip.fragOffset, ip.ttl,
                    udp.srcPort, udp.dstPort, PayloadOf(l)))
  }

  function DestinationMac(o: Options): Bytes {
    if o.forceBroadcastMac || o.targetMac == [] then BROADCAST_MAC else o.targetMac
  }

  /** Why a link cannot be served, before anything is serialized. */
  function LinkError(o: Options): Option<Error> {
    if o.egressLink == LINK_ETHERNET then
      if !o.forceBroadcastMac && o.targetMac == [] && !o.allowBroadcastMac then Some(MissingDestinationMac)
      else if o.sourceMac == [] then Some(MissingSourceMac)
      else None
    else if IsLoopbackLink(o.egressLink) || IsRawLink(o.egressLink) then None
    else Some(UnsupportedLink)
  }

  predicate MacsFit(o: Options) {
    o.egressLink == LINK_ETHERNET ==> |DestinationMac(o)| == 6 && |o.sourceMac| == 6
  }

  function Frame(d: Datagram, o: Options, bigEndian: bool): Bytes
    requires MacsFit(o)
  {
    if o.egressLink == LINK_ETHERNET then PrintEthernet(DestinationMac(o), o.sourceMac, PrintDatagram(d))
    else if IsLoopbackLink(o.egressLink) then PrintLoopback(bigEndian, PrintDatagram(d))
    else PrintDatagram(d)
  }

  function Egress(pkt: Option<Packet>, o: Options, bigEndian: bool): Result<Packet, Error> {
    if pkt.None? || pkt.value.layers.None? then Err(PacketIsNil)
    else
      var l := pkt.value.layers.value;
      if l.ipv4.None? then Err(MissingIpv4)
      else if l.udp.None? then Err(MissingUdp)
      else if LinkError(o).Some? then Err(LinkError(o).value)
      else if Carried(l, o.targetIp).None? || !MacsFit(o) then Err(CannotSerialize)
      else
        var raw := Frame(Carried(l, o.targetIp).value, o, bigEndian);
        Ok(Packet(raw, pkt.value.metadata, Some(Decode(raw, o.egressLink)),
                  if o.outputArrivalInterface == "" then pkt.value.arrivalInterface else o.outputArrivalInterface))
  }

  /** A packet as the capture delivers it: the layers are what the decoder reads in the bytes. */
  predicate Captured(pkt: Packet, link: int) {
    pkt.layers == Some(Decode(pkt.raw, link))
  }

  /** The layers a receiver on the egress link must see. */
  function Delivered(d: Datagram, o: Options): Layers {
    DatagramLayers(d).(
      ethernet := if o.egressLink == LINK_ETHERNET then Some(EthernetLayer(DestinationMac(o), o.sourceMac)) else None,
      loopback := IsLoopbackLink(o.egressLink))
  }

  // ---------- theorems ----------

  /** The headers that the code collects serialize to the frame, or fail together with it. */
  lemma SerializeIsFrame(l: Layers, o: Options, bigEndian: bool, headers: seq<Header>)
    requires l.ipv4.Some? && l.udp.Some? && LinkError(o).None?
    requires var ip := Ipv4Layer(0, l.ipv4.value.id, l.ipv4.value.flags, l.ipv4.value.fragOffset, l.ipv4.value.ttl,
                                 UDP_PROTOCOL, OrNil(To4(l.ipv4.value.src)), OrNil(To4(o.targetIp)), []);
             headers == (if o.egressLink == LINK_ETHERNET then [EthernetHeader(DestinationMac(o), o.sourceMac)]
                         else if IsLoopbackLink(o.egressLink) then [LoopbackHeader] else [])
                        + [Ipv4Header(ip), UdpHeader(l.udp.value.srcPort, l.udp.value.dstPort, ip),
                          Payload(PayloadOf(l))]
    ensures Serialize(headers, bigEndian)
         == if Carried(l, o.targetIp).None? || !MacsFit(o) then None
            else Some(Frame(Carried(l, o.targetIp).value, o, bigEndian))
  {
    var ip := Ipv4Layer(0, l.ipv4.value.id, l.ipv4.value.flags, l.ipv4.value.fragOffset, l.ipv4.value.ttl,
                        UDP_PROTOCOL, OrNil(To4(l.ipv4.value.src)), OrNil(To4(o.targetIp)), []);
    var datagram := [Ipv4Header(ip), UdpHeader(l.udp.value.srcPort, l.udp.value.dstPort, ip), Payload(PayloadOf(l))];
    SerializeDatagram(ip, l.udp.value.srcPort, l.udp.value.dstPort, PayloadOf(l), bigEndian);
    if IsRawLink(o.egressLink) {
      assert headers == datagram;
    } else {
      assert headers[1..] == datagram;
    }
  }

  /** Decoding a frame is decoding its datagram, with the Ethernet padding that follows it. */
  lemma DecodeFrame(d: Datagram, o: Options, bigEndian: bool) returns (pad: Bytes)
    requires MacsFit(o) && LinkError(o).None?
    ensures Decode(Frame(d, o, bigEndian), o.egressLink)
         == DecodeDatagram(PrintDatagram(d) + pad).(
              ethernet := Delivered(d, o).ethernet, loopback := Delivered(d, o).loopback)
    ensures o.egressLink != LINK_ETHERNET ==> pad == []
  {
    hide PrintDatagram, DecodeDatagram;
    var raw, body := Frame(d, o, bigEndian), PrintDatagram(d);
    pad := [];
    assert body + [] == body;
    if o.egressLink == LINK_ETHERNET {
      var mac := DestinationMac(o);
      pad := raw[14 + |body|..];
      assert raw[..6] == mac && raw[6..12] == o.sourceMac && raw[12..14] == [8, 0];
      assert raw[14..] == body + pad;
    } else if IsLoopbackLink(o.egressLink) {
      assert raw[4..] == body;
      assert raw[..4] == if bigEndian then [0, 0, 0, 2] else [2, 0, 0, 0];
    }
  }

  /**
    A receiver decodes the datagram that was carried exactly when it is no fragment and fits into
    one datagram; for what a capture delivers that is always so (CapturedIsDelivered).
   */
  lemma DeliveredIffWhole(pkt: Packet, o: Options, bigEndian: bool)
    ensures Egress(Some(pkt), o, bigEndian).Ok? ==>
              var d := Carried(pkt.layers.value, o.targetIp).value;
              (Egress(Some(pkt), o, bigEndian).value.layers == Some(Delivered(d, o))
               <==> d.Fits() && !pkt.layers.value.ipv4.value.IsFragment())
  {
    if Egress(Some(pkt), o, bigEndian).Err? { return; }
    var d := Carried(pkt.layers.value, o.targetIp).value;
    var pad := DecodeFrame(d, o, bigEndian);
    if d.Fits() && !d.Ipv4().IsFragment() {
      DecodePrintedDatagram(d, pad);
    } else {
      DecodeLosesDatagram(d, pad);
    }
  }

  /** Round trip over every captured packet, every link family, and despite Ethernet padding. */
  lemma CapturedIsDelivered(pkt: Packet, ingressLink: int, o: Options, bigEndian: bool)
    requires Captured(pkt, ingressLink)
    ensures Egress(Some(pkt), o, bigEndian).Ok? ==>
            var l, out := pkt.layers.value, Egress(Some(pkt), o, bigEndian).value;
            && Captured(out, o.egressLink)
            && out.layers.value.ethernet
               == (if o.egressLink != LINK_ETHERNET then None
                   else var mac := if o.forceBroadcastMac || o.targetMac == [] then BROADCAST_MAC else o.targetMac;
                        Some(EthernetLayer(mac, o.sourceMac)))
            && out.metadata == pkt.metadata
            && (o.outputArrivalInterface != "" ==> out.arrivalInterface == o.outputArrivalInterface)
            && (o.outputArrivalInterface == "" ==> out.arrivalInterface == pkt.arrivalInterface)
            && out.layers.value.ipv4.Some? && out.layers.value.udp == l.udp && out.layers.value.app == l.app
            && (var ip, was := out.layers.value.ipv4.value, l.ipv4.value;
                && ip.src == was.src && Some(ip.dst) == To4(o.targetIp)
                && ip.ttl == was.ttl && ip.id == was.id && ip.flags == was.flags && ip.fragOffset == was.fragOffset)
  {
    if Egress(Some(pkt), o, bigEndian).Err? { return; }
    DecodedUdpFits(pkt.raw, ingressLink);
    DeliveredIffWhole(pkt, o, bigEndian);
  }

  /** No header field overflows, the lengths are exact, and both checksums verify. */
  lemma LengthsAndChecksumsAreExact(pkt: Packet, ingressLink: int, o: Options, bigEndian: bool)
    requires Captured(pkt, ingressLink)
    ensures Egress(Some(pkt), o, bigEndian).Ok? ==>
            var d := Carried(pkt.layers.value, o.targetIp).value;
            var segment := PrintUdp(d.src, d.dst, d.Udp());
            && PrintDatagram(d) == Wire.Ipv4Header(d.Ipv4(), |segment|) + segment
            && |PrintDatagram(d)| <= |pkt.raw|
            && WordAt(PrintDatagram(d), 2) == |PrintDatagram(d)|
            && WordAt(segment, 4) == |segment|
            && Checksum.Verifies(Wire.Ipv4Header(d.Ipv4(), |segment|))
            && Checksum.Verifies(PseudoHeader(d.src, d.dst, d.payload) + segment)
            && WordAt(segment, 6) != 0
  {
    if Egress(Some(pkt), o, bigEndian).Err? { return; }
    DecodedUdpFits(pkt.raw, ingressLink);
    var d := Carried(pkt.layers.value, o.targetIp).value;
    PrintedLengthsAreExact(d);
    Ipv4ChecksumVerifies(d.Ipv4(), |PrintUdp(d.src, d.dst, d.Udp())|);
    UdpChecksumVerifies(d.src, d.dst, d.Udp());
  }

  /** When the rewrite of a captured packet succeeds, in terms of what the caller can check beforehand. */
  lemma SucceedsIff(pkt: Packet, ingressLink: int, o: Options, bigEndian: bool)
    requires Captured(pkt, ingressLink)
    ensures Egress(Some(pkt), o, bigEndian).Ok?
       <==> && pkt.layers.value.udp.Some? && To4(o.targetIp).Some?
            && (IsRawLink(o.egressLink) || IsLoopbackLink(o.egressLink)
                || (&& o.egressLink == LINK_ETHERNET && |o.sourceMac| == 6
                    && (o.forceBroadcastMac || |o.targetMac| == 6 || (o.targetMac == [] && o.allowBroadcastMac))))
  {
    if pkt.layers.value.udp.Some? { DecodedUdpFits(pkt.raw, ingressLink); }
  }

  /**
    Every byte of a rewritten frame: the link header, of h bytes; the datagram d, whose bytes PrintedDatagramBytes
    tells; and on Ethernet zeros up to 60.
   */
  lemma EgressBytes(pkt: Packet, o: Options, bigEndian: bool) returns (h: nat, d: Datagram)
    requires pkt.layers.Some? && pkt.layers.value.ipv4.Some? && pkt.layers.value.udp.Some?
    ensures h == if o.egressLink == 1 then 14 else if o.egressLink == 0 || o.egressLink == 108 then 4 else 0
    ensures Egress(Some(pkt), o, bigEndian).Ok? ==>
            var ip, udp, app := pkt.layers.value.ipv4.value, pkt.layers.value.udp.value, pkt.layers.value.app;
            && To4(ip.src) == Some(d.src) && To4(o.targetIp) == Some(d.dst)
            && d.id == ip.id && d.flags == ip.flags && d.fragOffset == ip.fragOffset && d.ttl == ip.ttl
            && d.srcPort == udp.srcPort && d.dstPort == udp.dstPort
            && d.payload == if udp.payload == [] && app.Some? then app.value else udp.payload
    ensures Egress(Some(pkt), o, bigEndian).Ok? ==>
            var raw, end := Egress(Some(pkt), o, bigEndian).value.raw, h + 28 + |d.payload|;
            && o.egressLink in {0, 1, 12, 14, 101, 108}
            && |raw| == (if o.egressLink == 1 && end < 60 then 60 else end)
            && (o.egressLink == 1 ==>
                  && raw[..6] == (if o.forceBroadcastMac || o.targetMac == [] then seq(6, _ => 255) else o.targetMac)
                  && raw[6..12] == o.sourceMac && raw[12] == 8 && raw[13] == 0)
            && (o.egressLink == 0 || o.egressLink == 108 ==>
                raw[..4] == if bigEndian then [0, 0, 0, 2] else [2, 0, 0, 0])
            && raw[h..end] == PrintDatagram(d)
            && forall i | end <= i < |raw| :: raw[i] == 0
  {
    hide PrintDatagram, Decode;
    h := if o.egressLink == 1 then 14 else if o.egressLink == 0 || o.egressLink == 108 then 4 else 0;
    d := *;
    if Egress(Some(pkt), o, bigEndian).Err? { return; }
    d := Carried(pkt.layers.value, o.targetIp).value;
    assert BROADCAST_MAC == seq(6, _ => 255);
    FrameParts(d, o, bigEndian);
  }

  lemma FrameParts(d: Datagram, o: Options, bigEndian: bool)
    requires MacsFit(o) && LinkError(o).None?
    ensures var raw, body := Frame(d, o, bigEndian), PrintDatagram(d);
            && (o.egressLink == LINK_ETHERNET ==>
                  && |raw| == (if 14 + |body| < 60 then 60 else 14 + |body|)
                  && raw[..6] == DestinationMac(o) && raw[6..12] == o.sourceMac && raw[12] == 8 && raw[13] == 0
                  && raw[14..14 + |body|] == body && forall i | 14 + |body| <= i < |raw| :: raw[i] == 0)
            && (IsLoopbackLink(o.egressLink) ==>
                  raw[..4] == (if bigEndian then [0, 0, 0, 2] else [2, 0, 0, 0]) && raw[4..] == body)
            && (IsRawLink(o.egressLink) ==> raw == body)
  {
    hide PrintDatagram;
  }

  /** Which error the caller gets. */
  lemma ErrorsAre(pkt: Packet, o: Options, bigEndian: bool)
    ensures Egress(None, o, bigEndian) == Err(PacketIsNil)
    ensures var r, l := Egress(Some(pkt), o, bigEndian), pkt.layers;
            && (r == Err(PacketIsNil) <==> l.None?)
            && (r == Err(MissingIpv4) <==> l.Some? && l.value.ipv4.None?)
            && (r == Err(MissingUdp) <==> l.Some? && l.value.ipv4.Some? && l.value.udp.None?)
    ensures pkt.layers.Some? && pkt.layers.value.ipv4.Some? && pkt.layers.value.udp.Some? ==>
              var r := Egress(Some(pkt), o, bigEndian);
              var noMac := !o.forceBroadcastMac && o.targetMac == [] && !o.allowBroadcastMac;
              && (r == Err(UnsupportedLink) <==> o.egressLink !in {0, 1, 12, 14, 101, 108})
              && (r == Err(MissingDestinationMac) <==> o.egressLink == 1 && noMac)
              && (r == Err(MissingSourceMac) <==> o.egressLink == 1 && !noMac && o.sourceMac == [])
  {
  }

  /** A rewrite looks at no more of a decoded packet than the datagram it carries. */
  lemma EgressDependsOnCarried(a: Packet, b: Packet, o: Options, bigEndian: bool)
    requires a.layers.Some? && a.layers.value.ipv4.Some? && a.layers.value.udp.Some?
    requires b.layers.Some? && b.layers.value.ipv4.Some? && b.layers.value.udp.Some?
    requires Carried(a.layers.value, o.targetIp) == Carried(b.layers.value, o.targetIp)
    requires a.metadata == b.metadata
    ensures var x, y := Egress(Some(a), o, bigEndian), Egress(Some(b), o, bigEndian);
            && x.Ok? == y.Ok?
            && (x.Err? ==> x == y)
            && (x.Ok? ==> x.value.(arrivalInterface := "") == y.value.(arrivalInterface := ""))
            && (o.outputArrivalInterface != "" ==> x == y)
  {
  }

  /**
    Rewriting twice is rewriting once: a captured packet that was rewritten for one target and
    link and is then rewritten for a second gives what the original gives, errors included.
   */
  lemma RewritingTwiceIsRewritingOnce(pkt: Packet, ingressLink: int, first: Options, second: Options, bigEndian: bool)
    requires Captured(pkt, ingressLink)
    ensures Egress(Some(pkt), first, bigEndian).Ok? ==>
            var twice := Egress(Some(Egress(Some(pkt), first, bigEndian).value), second, bigEndian);
            var once := Egress(Some(pkt), second, bigEndian);
            && twice.Ok? == once.Ok?
            && (once.Err? ==> twice == once)
            && (once.Ok? ==> twice.value.(arrivalInterface := "") == once.value.(arrivalInterface := ""))
            && (second.outputArrivalInterface != "" ==> twice == once)
  {
    if Egress(Some(pkt), first, bigEndian).Err? { return; }
    CapturedIsDelivered(pkt, ingressLink, first, bigEndian);
    EgressDependsOnCarried(Egress(Some(pkt), first, bigEndian).value, pkt, second, bigEndian);
  }
}
