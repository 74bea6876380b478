/**
  What travels on a link: the link header, the IPv4 header of section 3.1 of RFC 791 and the
  UDP header of RFC 768. Printing builds the bytes; decoding reads them back as layers.
 */
module Wire {
  import opened Wrappers
  import opened Net
  import Checksum

  type Flags = f: int | 0 <= f < 8
  type FragmentOffset = o: int | 0 <= o < 8192

  const UDP_PROTOCOL: Byte := 17
  const MIN_ETHERNET_FRAME := 60
  const MAX_UDP_PAYLOAD := 65507

  // Link type numbers of libpcap and gopacket.
  const LINK_NULL := 0
  const LINK_ETHERNET := 1
  const LINK_RAW_OTHERS := 12
  const LINK_RAW_OPENBSD := 14
  const LINK_RAW := 101
  const LINK_LOOP := 108

  predicate IsLoopbackLink(link: int) { link == LINK_NULL || link == LINK_LOOP }

  predicate IsRawLink(link: int) { link == LINK_RAW || link == LINK_RAW_OPENBSD || link == LINK_RAW_OTHERS }

  datatype EthernetLayer = EthernetLayer(dst: Bytes, src: Bytes)

  datatype Ipv4Layer = Ipv4Layer(tos: Byte, id: Word, flags: Flags, fragOffset: FragmentOffset,
                                 ttl: Byte, protocol: Byte, src: Bytes, dst: Bytes, options: Bytes)
  {
    /** gopacket looks for a UDP header only in a datagram that is not a fragment. */
    predicate IsFragment() { flags % 2 == 1 || fragOffset != 0 }
  }

  datatype UdpLayer = UdpLayer(srcPort: Word, dstPort: Word, payload: Bytes)

  /** The layers a decoder found; a layer it did not find is None. */
  datatype Layers = Layers(ethernet: Option<EthernetLayer>, loopback: bool, ipv4: Option<Ipv4Layer>,
                           udp: Option<UdpLayer>, app: Option<Bytes>)

  const NO_LAYERS := Layers(None, false, None, None, None)

  // ---------- printing ----------

  /** The fields that the rewriter carries into a new datagram. */
  datatype Datagram = Datagram(src: Address, dst: Address, id: Word, flags: Flags, fragOffset: FragmentOffset,
                               ttl: Byte, srcPort: Word, dstPort: Word, payload: Bytes)
  {
    predicate Fits() { |payload| <= MAX_UDP_PAYLOAD }

    function Ipv4(): Ipv4Layer { Ipv4Layer(0, id, flags, fragOffset, ttl, UDP_PROTOCOL, src, dst, []) }

    function Udp(): UdpLayer { UdpLayer(srcPort, dstPort, payload) }
  }

  /** The IPv4 header up to its checksum: version 4 and five words; the length is computed in sixteen bits. */
  function Ipv4Head(h: Ipv4Layer, bodyLength: nat): (b: Bytes)
    ensures |b| == 10
  {
    var total, fragment: Word := (20 + bodyLength) % 65536, h.flags * 8192 + h.fragOffset;
    [0x45, h.tos, total / 256, total % 256, h.id / 256, h.id % 256, fragment / 256, fragment % 256, h.ttl, h.protocol]
  }

  function Ipv4Header(h: Ipv4Layer, bodyLength: nat): (b: Bytes)
    requires |h.src| == 4 && |h.dst| == 4
    ensures |b| == 20
  {
    var head, tail := Ipv4Head(h, bodyLength), h.src + h.dst;
    head + PutWord(Checksum.Checksum(head + PutWord(0) + tail)) + tail
  }

  function UdpLength(payload: Bytes): Word { (|payload| % 65536 + 8) % 65536 }

  function PseudoHeader(src: Address, dst: Address, payload: Bytes): (b: Bytes)
    ensures |b| == 12
  {
    src + dst + [0, UDP_PROTOCOL] + PutWord(UdpLength(payload))
  }

  function UdpHead(u: UdpLayer): (b: Bytes)
    ensures |b| == 6
  {
    PutWord(u.srcPort) + PutWord(u.dstPort) + PutWord(UdpLength(u.payload))
  }

  /** A checksum of zero is sent as all ones, zero meaning that there is none. */
  function UdpChecksum(src: Address, dst: Address, u: UdpLayer): (c: Word)
    ensures c != 0
  {
    var c := Checksum.Checksum(PseudoHeader(src, dst, u.payload) + UdpHead(u) + PutWord(0) + u.payload);
    if c == 0 then 65535 else c
  }

  function PrintUdp(src: Address, dst: Address, u: UdpLayer): (b: Bytes)
    ensures |b| == 8 + |u.payload|
  {
    UdpHead(u) + PutWord(UdpChecksum(src, dst, u)) + u.payload
  }

  function PrintDatagram(d: Datagram): (b: Bytes)
    ensures |b| == 28 + |d.payload|
  {
    var segment := PrintUdp(d.src, d.dst, d.Udp());
    Ipv4Header(d.Ipv4(), |segment|) + segment
  }

  function Zeros(n: nat): (b: Bytes)
    ensures |b| == n
  {
    seq(n, _ => 0)
  }

  function PrintEthernet(dst: Bytes, src: Bytes, body: Bytes): (b: Bytes)
    requires |dst| == 6 && |src| == 6
    ensures |b| >= MIN_ETHERNET_FRAME
  {
    var frame := dst + src + [8, 0] + body;
    frame + Zeros(if |frame| < MIN_ETHERNET_FRAME then MIN_ETHERNET_FRAME - |frame| else 0)
  }

  /** The address family, AF_INET, in the byte order of the capturing host. */
  function PrintLoopback(bigEndian: bool, body: Bytes): Bytes {
    (if bigEndian then [0, 0, 0, 2] else [2, 0, 0, 0]) + body
  }

  // ---------- decoding ----------

  /** The header and the bytes it covers; what follows the total length is link padding. */
  function ParseIpv4(b: Bytes): (r: Option<(Ipv4Layer, Bytes)>)
  {
    if |b| < 20 || b[0] / 16 != 4 then None
    else
      var headerLength, total := (b[0] % 16) * 4, WordAt(b, 2);
      if headerLength < 20 || total < headerLength || |b| < total then None
      else
        Some((Ipv4Layer(b[1], WordAt(b, 4), b[6] / 32, (b[6] as int % 32) * 256 + b[7], b[8], b[9],
                        b[12..16], b[16..20], b[20..headerLength]),
              b[headerLength..total]))
  }

  function ParseUdp(b: Bytes): Option<UdpLayer> {
    if |b| < 8 || WordAt(b, 4) < 8 || |b| < WordAt(b, 4) then None
    else Some(UdpLayer(WordAt(b, 0), WordAt(b, 2), b[8..WordAt(b, 4)]))
  }

  function DecodeDatagram(b: Bytes): (l: Layers)
    ensures l.ethernet.None? && !l.loopback
  {
    match ParseIpv4(b)
    case None => NO_LAYERS
    case Some((ip, body)) =>
      if ip.protocol != UDP_PROTOCOL || ip.IsFragment() then NO_LAYERS.(ipv4 := Some(ip))
      else
        match ParseUdp(body)
        case None => NO_LAYERS.(ipv4 := Some(ip))
        case Some(udp) =>
          NO_LAYERS.(ipv4 := Some(ip), udp := Some(udp), app := if udp.payload == [] then None else Some(udp.payload))
  }

  /** The decoder that the link type selects. */
  function Decode(raw: Bytes, link: int): Layers {
    if IsLoopbackLink(link) then
      if |raw| >= 4 && (raw[..4] == [0, 0, 0, 2] || raw[..4] == [2, 0, 0, 0])
      then DecodeDatagram(raw[4..]).(loopback := true)
      else NO_LAYERS
    else if link == LINK_ETHERNET then
      if |raw| < 14 then NO_LAYERS
      else
        var ethernet := Some(EthernetLayer(raw[..6], raw[6..12]));
        if raw[12..14] == [8, 0] then DecodeDatagram(raw[14..]).(ethernet := ethernet)
        else NO_LAYERS.(ethernet := ethernet)
    else if IsRawLink(link) then DecodeDatagram(raw)
    else NO_LAYERS
  }

  // ---------- printing and decoding agree ----------

  /** A decoded UDP payload came out of one unfragmented datagram, so it fits into another. */
  lemma DecodedUdpFits(raw: Bytes, link: int)
    requires Decode(raw, link).udp.Some?
    ensures Decode(raw, link).ipv4.Some? && !Decode(raw, link).ipv4.value.IsFragment()
    ensures |Decode(raw, link).udp.value.payload| <= MAX_UDP_PAYLOAD
    ensures |Decode(raw, link).udp.value.payload| + 28 <= |raw|
    ensures |Decode(raw, link).ipv4.value.src| == 4
    ensures Decode(raw, link).app == if Decode(raw, link).udp.value.payload == [] then None
                                     else Some(Decode(raw, link).udp.value.payload)
  {
  }

  lemma Ipv4HeaderReads(h: Ipv4Layer, rest: Bytes, bodyLength: nat)
    requires |h.src| == 4 && |h.dst| == 4
    ensures var b := Ipv4Header(h, bodyLength) + rest;
            && b[0] == 0x45 && b[1] == h.tos && WordAt(b, 2) == (20 + bodyLength) % 65536 && WordAt(b, 4) == h.id
            && b[6] / 32 == h.flags && (b[6] as int % 32) * 256 + b[7] == h.fragOffset
            && b[8] == h.ttl && b[9] == h.protocol && b[12..16] == h.src && b[16..20] == h.dst
            && b[20..] == rest
  {
    var b, head := Ipv4Header(h, bodyLength) + rest, Ipv4Head(h, bodyLength);
    assert forall i | 0 <= i < 10 :: b[i] == head[i];
    assert Ipv4Header(h, bodyLength)[12..] == h.src + h.dst;
    assert b[12..16] == h.src && b[16..20] == h.dst;
    FragmentFieldReads(h.flags, h.fragOffset);
  }

  lemma FragmentFieldReads(flags: Flags, offset: FragmentOffset)
    ensures (flags * 8192 + offset) / 256 / 32 == flags
    ensures ((flags * 8192 + offset) / 256 % 32) * 256 + (flags * 8192 + offset) % 256 == offset
  {
    var hi, lo := offset / 256, offset % 256;
    assert flags * 8192 + offset == 256 * (32 * flags + hi) + lo;
  }

  lemma ParsePrintedIpv4(d: Datagram, pad: Bytes)
    requires d.Fits()
    ensures ParseIpv4(PrintDatagram(d) + pad) == Some((d.Ipv4(), PrintUdp(d.src, d.dst, d.Udp())))
  {
    hide UdpChecksum, Ipv4Header;
    var segment, b := PrintUdp(d.src, d.dst, d.Udp()), PrintDatagram(d) + pad;
    assert b == Ipv4Header(d.Ipv4(), |segment|) + (segment + pad);
    Ipv4HeaderReads(d.Ipv4(), segment + pad, |segment|);
    assert b[20..20 + |segment|] == segment;
    assert b[20..20] == [];
  }

  lemma UdpHeadReads(u: UdpLayer)
    ensures WordAt(UdpHead(u), 0) == u.srcPort && WordAt(UdpHead(u), 2) == u.dstPort
    ensures WordAt(UdpHead(u), 4) == UdpLength(u.payload)
  {
    var head := UdpHead(u);
    assert head[0] == u.srcPort / 256 && head[1] == u.srcPort % 256;
    assert head[2] == u.dstPort / 256 && head[3] == u.dstPort % 256;
    assert head[4] == UdpLength(u.payload) / 256 && head[5] == UdpLength(u.payload) % 256;
  }

  lemma UdpHeaderReads(src: Address, dst: Address, u: UdpLayer)
    ensures var b := PrintUdp(src, dst, u);
            && WordAt(b, 0) == u.srcPort && WordAt(b, 2) == u.dstPort && WordAt(b, 4) == UdpLength(u.payload)
            && WordAt(b, 6) == UdpChecksum(src, dst, u) && b[8..] == u.payload
  {
    var b, head := PrintUdp(src, dst, u), UdpHead(u);
    UdpHeadReads(u);
    assert forall i | 0 <= i < 6 :: b[i] == head[i];
    PutWordReads(UdpChecksum(src, dst, u), head, u.payload);
  }

  lemma ParsePrintedUdp(src: Address, dst: Address, u: UdpLayer)
    requires |u.payload| <= MAX_UDP_PAYLOAD
    ensures ParseUdp(PrintUdp(src, dst, u)) == Some(u)
  {
    var b := PrintUdp(src, dst, u);
    UdpHeaderReads(src, dst, u);
    assert UdpLength(u.payload) == |b|;
    assert b[8..|b|] == b[8..];
  }

  function DatagramLayers(d: Datagram): Layers {
    NO_LAYERS.(ipv4 := Some(d.Ipv4()), udp := Some(d.Udp()), app := if d.payload == [] then None else Some(d.payload))
  }

  /** Round trip: link padding of any length and content behind a printed datagram is ignored. */
  lemma DecodePrintedDatagram(d: Datagram, pad: Bytes)
    requires d.Fits() && !d.Ipv4().IsFragment()
    ensures DecodeDatagram(PrintDatagram(d) + pad) == DatagramLayers(d)
  {
    ParsePrintedIpv4(d, pad);
    ParsePrintedUdp(d.src, d.dst, d.Udp());
  }

  /** A datagram that is a fragment, or too long for its length field, does not come back. */
  lemma DecodeLosesDatagram(d: Datagram, pad: Bytes)
    requires !d.Fits() || d.Ipv4().IsFragment()
    ensures DecodeDatagram(PrintDatagram(d) + pad).udp != Some(d.Udp())
  {
    hide UdpChecksum, Ipv4Header;
    var segment, b := PrintUdp(d.src, d.dst, d.Udp()), PrintDatagram(d) + pad;
    assert b == Ipv4Header(d.Ipv4(), |segment|) + (segment + pad);
    Ipv4HeaderReads(d.Ipv4(), segment + pad, |segment|);
  }

  /** RFC 791: the one's complement sum of the header, checksum included, is all ones. */
  lemma Ipv4ChecksumVerifies(h: Ipv4Layer, bodyLength: nat)
    requires |h.src| == 4 && |h.dst| == 4
    ensures Checksum.Verifies(Ipv4Header(h, bodyLength))
  {
    var head := Ipv4Head(h, bodyLength);
    assert head[0] == 0x45;
    Checksum.ChecksumVerifies(head, h.src + h.dst);
  }

  /** RFC 768: pseudo header, UDP header and payload, of odd or even length, sum to all ones. */
  lemma UdpChecksumVerifies(src: Address, dst: Address, u: UdpLayer)
    ensures Checksum.Verifies(PseudoHeader(src, dst, u.payload) + PrintUdp(src, dst, u))
  {
    var pseudo := PseudoHeader(src, dst, u.payload);
    var pre := pseudo + UdpHead(u);
    assert Checksum.WordSum(pre) > 0 by {
      assert pre == (src + dst) + ([0, UDP_PROTOCOL] + pre[10..]);
      Checksum.WordSumAppend(src + dst, [0, UDP_PROTOCOL] + pre[10..]);
    }
    Checksum.ChecksumVerifies(pre, u.payload);
    assert pre + PutWord(UdpChecksum(src, dst, u)) + u.payload == pseudo + PrintUdp(src, dst, u);
  }

  /**
    The same written out for a payload that fits: source, destination, zero, protocol 17 and length, then the
    segment, padded with a zero to whole words.
   */
  lemma PaddedUdpVerifies(src: Address, dst: Address, u: UdpLayer)
    requires |u.payload| <= MAX_UDP_PAYLOAD
    ensures var n := 8 + |u.payload|;
            var block := src + dst + [0, 17, n / 256, n % 256] + PrintUdp(src, dst, u);
            && Checksum.ByteSum(block) > 0 && Checksum.ByteSum(block) % 65535 == 0
            && Checksum.Verifies(block + if |block| % 2 == 1 then [0] else [])
  {
    hide PrintUdp, Checksum.Verifies, Checksum.ByteSum, Checksum.WordSum;
    var n := 8 + |u.payload|;
    var block := src + dst + [0, 17, n / 256, n % 256] + PrintUdp(src, dst, u);
    assert [0, 17, n / 256, n % 256] == [0, UDP_PROTOCOL] + PutWord(n);
    assert block == PseudoHeader(src, dst, u.payload) + PrintUdp(src, dst, u);
    UdpChecksumVerifies(src, dst, u);
    Checksum.VerifiesIff(block);
    PaddedVerifies(block);
  }

  lemma PaddedVerifies(block: Bytes)
    requires Checksum.Verifies(block)
    ensures Checksum.Verifies(block + if |block| % 2 == 1 then [0] else [])
  {
    Checksum.PaddingIsNeutral(block);
    assert block + [] == block;
  }

  // ---------- byte by byte ----------

  /** Where each field of a printed datagram stands. */
  lemma PrintedDatagramBytes(d: Datagram)
    ensures var b := PrintDatagram(d);
            && b[0] == 0x45 && b[1] == 0 && WordAt(b, 2) == (28 + |d.payload|) % 65536
            && WordAt(b, 4) == d.id && b[6] / 32 == d.flags && (b[6] as int % 32) * 256 + b[7] == d.fragOffset
            && b[8] == d.ttl && b[9] == 17 && b[12..16] == d.src && b[16..20] == d.dst
    ensures var b := PrintDatagram(d);
            && WordAt(b, 20) == d.srcPort && WordAt(b, 22) == d.dstPort && WordAt(b, 24) == (8 + |d.payload|) % 65536
            && b[28..] == d.payload
  {
    hide Ipv4Header, PrintUdp, WordAt;
    var segment := PrintUdp(d.src, d.dst, d.Udp());
    Ipv4HeaderReads(d.Ipv4(), segment, |segment|);
    PrintedSegmentBytes(d);
  }

  lemma PrintedSegmentBytes(d: Datagram)
    ensures var b := PrintDatagram(d);
            && WordAt(b, 20) == d.srcPort && WordAt(b, 22) == d.dstPort && WordAt(b, 24) == (8 + |d.payload|) % 65536
            && b[28..] == d.payload
  {
    hide UdpChecksum, Ipv4Header, PrintUdp, WordAt;
    var segment := PrintUdp(d.src, d.dst, d.Udp());
    UdpHeaderReads(d.src, d.dst, d.Udp());
    SegmentStands(Ipv4Header(d.Ipv4(), |segment|), segment);
  }

  lemma SegmentStands(header: Bytes, segment: Bytes)
    requires |header| == 20 && |segment| >= 8
    ensures var b := header + segment;
            && WordAt(b, 20) == WordAt(segment, 0) && WordAt(b, 22) == WordAt(segment, 2)
            && WordAt(b, 24) == WordAt(segment, 4) && b[28..] == segment[8..]
  {
  }

  /** Which bytes are a UDP datagram, and where its fields are read. */
  lemma DecodedDatagramBytes(b: Bytes)
    ensures DecodeDatagram(b).ipv4.Some?
       <==> |b| >= 20 && b[0] / 16 == 4 && 20 <= b[0] as int % 16 * 4 <= WordAt(b, 2) <= |b|
    ensures DecodeDatagram(b).ipv4.Some? ==>
              var ip, h, n := DecodeDatagram(b).ipv4.value, b[0] as int % 16 * 4, WordAt(b, 2);
              && ip.tos == b[1] && ip.id == WordAt(b, 4) && ip.flags == b[6] / 32
              && ip.fragOffset == b[6] as int % 32 * 256 + b[7] && ip.ttl == b[8] && ip.protocol == b[9]
              && ip.src == b[12..16] && ip.dst == b[16..20] && ip.options == b[20..h]
              && (DecodeDatagram(b).udp.Some?
                  <==> && b[9] == 17 && b[6] / 32 % 2 == 0 && b[6] % 32 == 0 && b[7] == 0
                       && h + 8 <= n && 8 <= WordAt(b, h + 4) <= n - h)
    ensures DecodeDatagram(b).udp.Some? ==>
              var h := b[0] as int % 16 * 4;
              && DecodeDatagram(b).ipv4.Some?
              && DecodeDatagram(b).udp.value
                 == UdpLayer(WordAt(b, h), WordAt(b, h + 2), b[h + 8..h + WordAt(b, h + 4)])
  {
    if ParseIpv4(b).Some? {
      var h, body := b[0] as int % 16 * 4, ParseIpv4(b).value.1;
      if |body| >= 8 {
        assert body[0] == b[h] && body[1] == b[h + 1] && body[2] == b[h + 2] && body[3] == b[h + 3];
        assert body[4] == b[h + 4] && body[5] == b[h + 5];
        if 8 <= WordAt(b, h + 4) <= |body| {
          assert body[8..WordAt(b, h + 4)] == b[h + 8..h + WordAt(b, h + 4)];
        }
      }
    }
  }

  /** Where the datagram stands on each link: 1 is Ethernet, 0 and 108 are loopback, 12, 14 and 101 are raw. */
  lemma DecodedFrameBytes(raw: Bytes, link: int)
    ensures Decode(raw, link).udp.Some? || Decode(raw, link).ipv4.Some? ==> link in {0, 1, 12, 14, 101, 108}
    ensures link == 1 ==>
              && Decode(raw, link).ethernet == (if |raw| < 14 then None else Some(EthernetLayer(raw[..6], raw[6..12])))
              && (Decode(raw, link).ipv4.Some? ==> |raw| >= 14 && raw[12] == 8 && raw[13] == 0)
              && (|raw| >= 14 && raw[12] == 8 && raw[13] == 0 ==>
                    Decode(raw, link).ipv4 == DecodeDatagram(raw[14..]).ipv4
                    && Decode(raw, link).udp == DecodeDatagram(raw[14..]).udp)
    ensures link == 0 || link == 108 ==>
              && Decode(raw, link).ethernet.None?
              && (Decode(raw, link).ipv4.Some? ==> |raw| >= 4 && raw[..4] in {[0, 0, 0, 2], [2, 0, 0, 0]})
              && (|raw| >= 4 && raw[..4] in {[0, 0, 0, 2], [2, 0, 0, 0]} ==>
                    Decode(raw, link).ipv4 == DecodeDatagram(raw[4..]).ipv4
                    && Decode(raw, link).udp == DecodeDatagram(raw[4..]).udp)
    ensures link in {12, 14, 101} ==>
              Decode(raw, link) == DecodeDatagram(raw) && Decode(raw, link).ethernet.None?
  {
    hide DecodeDatagram;
    if |raw| >= 14 { assert raw[12..14] == [8, 0] <==> raw[12] == 8 && raw[13] == 0; }
  }

  /** Nothing overflows in a datagram that fits: both length fields count the bytes they head. */
  lemma PrintedLengthsAreExact(d: Datagram)
    requires d.Fits()
    ensures var segment := PrintUdp(d.src, d.dst, d.Udp());
            && PrintDatagram(d) == Ipv4Header(d.Ipv4(), |segment|) + segment
            && WordAt(PrintDatagram(d), 2) == |PrintDatagram(d)|
            && WordAt(segment, 4) == |segment|
            && WordAt(segment, 6) != 0
  {
    hide WordAt, Ipv4Header, PrintUdp;
    var segment := PrintUdp(d.src, d.dst, d.Udp());
    TotalLengthReads(d.Ipv4(), segment);
    SegmentLengthReads(d.src, d.dst, d.Udp());
  }

  lemma TotalLengthReads(h: Ipv4Layer, segment: Bytes)
    requires |h.src| == 4 && |h.dst| == 4 && |segment| < 65516
    ensures var b := Ipv4Header(h, |segment|) + segment; WordAt(b, 2) == |b|
  {
    hide Ipv4Header;
    Ipv4HeaderReads(h, segment, |segment|);
  }

  lemma SegmentLengthReads(src: Address, dst: Address, u: UdpLayer)
    requires |u.payload| <= MAX_UDP_PAYLOAD
    ensures var b := PrintUdp(src, dst, u); WordAt(b, 4) == |b| && WordAt(b, 6) != 0
  {
    hide UdpChecksum, PrintUdp;
    UdpHeaderReads(src, dst, u);
  }
}
