/** TCP segments as bytes: how tcp.c builds the packets it sends and reads the frames it gets. */
module Segments {
  import opened Bytes
  import opened Options
  import opened Checksum

  const ETH_HEADER: nat := 14
  const IP_HEADER: nat := 20
  const TCP_HEADER: nat := 20
  const MAX_PAYLOAD: nat := 1400
  const NET_MY_IP: word32 := 0x0A00020F
  const IP_PROTO_TCP: byte := 6
  const WINDOW: word16 := 8192

  const FIN: byte := 1
  const SYN: byte := 2
  const PSH: byte := 8
  const ACK: byte := 16

  predicate Has(flags: byte, bit: byte)
    requires bit > 0
  {
    flags / bit % 2 == 1
  }

  // ------------------------------------------------------------------
  // Byte order
  // ------------------------------------------------------------------

  // net_bswap16 and net_bswap32
  function Bswap16(v: word16): word16 {
    v % 256 * 256 + v / 256
  }

  function Bswap32(v: word32): word32 {
    v % 256 * 16777216 + v / 256 % 256 * 65536 + v / 65536 % 256 * 256 + v / 16777216
  }

  // Most significant byte first
  function Be16(v: word16): (b: seq<byte>)
    ensures |b| == 2
  {
    [v / 256, v % 256]
  }

  function Be32(v: word32): (b: seq<byte>)
    ensures |b| == 4
  {
    [v / 16777216, v / 65536 % 256, v / 256 % 256, v % 256]
  }

  /** Storing a swapped value little-endian, as the x86 does, puts it on the wire big-endian,
      and loading and swapping gets it back. */
  lemma SwapIsNetworkOrder16(v: word16)
    ensures Le16(Bswap16(v)) == Be16(v) && Bswap16(FromLe16(Be16(v))) == v
  {
  }

  lemma SwapIsNetworkOrder32(v: word32)
    ensures Le32(Bswap32(v)) == Be32(v) && Bswap32(FromLe32(Be32(v))) == v
  {
    SwapStores(v);
    SwapLoads(v);
  }

  lemma SwapStores(v: word32)
    ensures Le32(Bswap32(v)) == Be32(v)
  {
    Digits(v / 16777216, v / 65536 % 256, v / 256 % 256, v % 256, Bswap32(v));
  }

  lemma SwapLoads(v: word32)
    ensures Bswap32(FromLe32(Be32(v))) == v
  {
    var a, b, c, d := v % 256, v / 256 % 256, v / 65536 % 256, v / 16777216;
    var w := FromLe32(Be32(v));
    Digits(d, c, b, a, w);
    BytesOf(v);
  }

  lemma BytesOf(v: word32)
    ensures v == v % 256 + 256 * (v / 256 % 256) + 65536 * (v / 65536 % 256) + 16777216 * (v / 16777216)
  {
    assert v / 65536 == v / 256 / 256 && v / 16777216 == v / 65536 / 256;
  }

  lemma Digits(d0: byte, d1: byte, d2: byte, d3: byte, w: word32)
    requires w == d0 + 256 * d1 + 65536 * d2 + 16777216 * d3
    ensures w % 256 == d0 && w / 256 % 256 == d1 && w / 65536 % 256 == d2 && w / 16777216 == d3
  {
    assert w / 256 == d1 + 256 * d2 + 65536 * d3;
    assert w / 65536 == d2 + 256 * d3;
  }

  // ------------------------------------------------------------------
  // Building
  // ------------------------------------------------------------------

  // What send_tcp_segment takes from the connection
  datatype Ends = Ends(peerIp: word32, localPort: word16, peerPort: word16, seqNo: word32, ackNo: word32)

  // The TCP header as stored in memory
  function TcpHeader(e: Ends, flags: byte, checksum: word16): (b: seq<byte>)
    ensures |b| == TCP_HEADER
  {
    (Le16(Bswap16(e.localPort)) + Le16(Bswap16(e.peerPort)))
    + (Le32(Bswap32(e.seqNo)) + Le32(Bswap32(e.ackNo)))
    + ([0x50, flags] + Le16(Bswap16(WINDOW)) + Le16(Bswap16(checksum)) + Le16(0))
  }

  function TcpBytes(e: Ends, flags: byte, checksum: word16, data: seq<byte>): (b: seq<byte>)
    ensures |b| == TCP_HEADER + |data|
  {
    TcpHeader(e, flags, checksum) + data
  }

  function PseudoBytes(e: Ends, len: nat): (b: seq<byte>)
    requires len <= MAX_PAYLOAD
    ensures |b| == 12
  {
    Le32(Bswap32(NET_MY_IP)) + Le32(Bswap32(e.peerIp)) + [0, IP_PROTO_TCP] + Le16(Bswap16(TCP_HEADER + len))
  }

  // Version, service and length; identification to checksum; the two addresses
  function IpLead(len: nat): (b: seq<byte>)
    requires len <= MAX_PAYLOAD
    ensures |b| == 4
  {
    [0x45, 0] + Le16(Bswap16(IP_HEADER + TCP_HEADER + len))
  }

  function IpMiddle(checksum: word16): (b: seq<byte>)
    ensures |b| == 8
  {
    Le16(0) + Le16(0) + [64, IP_PROTO_TCP] + Le16(Bswap16(checksum))
  }

  function IpAddresses(e: Ends): (b: seq<byte>)
    ensures |b| == 8
  {
    Le32(Bswap32(NET_MY_IP)) + Le32(Bswap32(e.peerIp))
  }

  function IpBytes(e: Ends, len: nat, checksum: word16): (b: seq<byte>)
    requires len <= MAX_PAYLOAD
    ensures |b| == IP_HEADER
  {
    IpLead(len) + IpMiddle(checksum) + IpAddresses(e)
  }

  function TcpChecksum(e: Ends, flags: byte, data: seq<byte>): word16
    requires |data| <= MAX_PAYLOAD
  {
    Sum16(TcpBytes(e, flags, 0, data), WordSum(PseudoBytes(e, |data|)))
  }

  function IpChecksum(e: Ends, len: nat): word16
    requires len <= MAX_PAYLOAD
  {
    Sum16(IpBytes(e, len, 0), 0)
  }

  /** The IP packet send_tcp_segment hands to the network card. */
  function Packet(e: Ends, flags: byte, data: seq<byte>): (p: seq<byte>)
    requires |data| <= MAX_PAYLOAD
    ensures |p| == IP_HEADER + TCP_HEADER + |data|
  {
    IpBytes(e, |data|, IpChecksum(e, |data|)) + TcpBytes(e, flags, TcpChecksum(e, flags, data), data)
  }

  // The payload is cut to what fits.
  function Clipped(data: seq<byte>): (d: seq<byte>)
    ensures |d| <= MAX_PAYLOAD
  {
    if |data| > MAX_PAYLOAD then data[..MAX_PAYLOAD] else data
  }

  // The packet-building half of send_tcp_segment
  method Build(e: Ends, flags: byte, data: seq<byte>) returns (packet: seq<byte>)
    ensures packet == Packet(e, flags, Clipped(data))
  {
    var payload := Clipped(data);
    var tcp := BuildTcp(e, flags, payload);
    var ip := BuildIp(e, |payload|);
    packet := ip + tcp;
  }

  method BuildTcp(e: Ends, flags: byte, payload: seq<byte>) returns (tcp: seq<byte>)
    requires |payload| <= MAX_PAYLOAD
    ensures tcp == TcpBytes(e, flags, TcpChecksum(e, flags, payload), payload)
  {
    var pseudo := PseudoBytes(e, |payload|);
    tcp := TcpBytes(e, flags, 0, payload);
    var check := SegmentChecksum(pseudo, tcp);
    tcp := TcpBytes(e, flags, check, payload);
  }

  method SegmentChecksum(pseudo: seq<byte>, tcp: seq<byte>) returns (check: word16)
    requires |pseudo| == 12 && |tcp| <= TCP_HEADER + MAX_PAYLOAD
    ensures check == Sum16(tcp, WordSum(pseudo))
  {
    SegmentSumFits(pseudo, tcp);
    var sum := Partial(pseudo, 0);
    assert sum == WordSum(pseudo);
    sum := Partial(tcp, sum);
    assert sum == WordSum(pseudo) + WordSum(tcp);
    check := Finish(sum);
  }

  lemma SegmentSumFits(pseudo: seq<byte>, tcp: seq<byte>)
    requires |pseudo| == 12 && |tcp| <= TCP_HEADER + MAX_PAYLOAD
    ensures WordSum(pseudo) < U32 && WordSum(pseudo) + WordSum(tcp) < U32
  {
    WordSumBound(pseudo);
    WordSumBound(tcp);
    assert (|tcp| + 1) / 2 <= 710;
  }

  method BuildIp(e: Ends, len: nat) returns (ip: seq<byte>)
    requires len <= MAX_PAYLOAD
    ensures ip == IpBytes(e, len, IpChecksum(e, len))
  {
    ip := IpBytes(e, len, 0);
    var check := Inet(ip);
    ip := IpBytes(e, len, check);
  }

  /** Every packet sent verifies at the receiver: the checksum over the IP header as sent is
      zero, and so is the one over pseudo-header and TCP segment. */
  lemma SentVerifies(e: Ends, flags: byte, data: seq<byte>)
    requires |data| <= MAX_PAYLOAD
    ensures Sum16(Packet(e, flags, data)[..IP_HEADER], 0) == 0
    ensures Sum16(Packet(e, flags, data)[IP_HEADER..], WordSum(PseudoBytes(e, |data|))) == 0
  {
    IpVerifies(e, |data|);
    TcpVerifies(e, flags, data);
    var p := Packet(e, flags, data);
    assert p[..IP_HEADER] == IpBytes(e, |data|, IpChecksum(e, |data|));
    assert p[IP_HEADER..] == TcpBytes(e, flags, TcpChecksum(e, flags, data), data);
  }

  lemma IpVerifies(e: Ends, len: nat)
    requires len <= MAX_PAYLOAD
    ensures Sum16(IpBytes(e, len, IpChecksum(e, len)), 0) == 0
  {
    var c := IpChecksum(e, len);
    SwapIsNetworkOrder16(c);
    assert IpBytes(e, len, c) == Store16(IpBytes(e, len, 0), 10, c);
    StoredVerifies(IpBytes(e, len, 0), 0, 10);
  }

  lemma TcpVerifies(e: Ends, flags: byte, data: seq<byte>)
    requires |data| <= MAX_PAYLOAD
    ensures Sum16(TcpBytes(e, flags, TcpChecksum(e, flags, data), data), WordSum(PseudoBytes(e, |data|))) == 0
  {
    var c := TcpChecksum(e, flags, data);
    SwapIsNetworkOrder16(c);
    assert TcpBytes(e, flags, c, data) == Store16(TcpBytes(e, flags, 0, data), 16, c);
    StoredVerifies(TcpBytes(e, flags, 0, data), WordSum(PseudoBytes(e, |data|)), 16);
  }

  // ------------------------------------------------------------------
  // Reading
  // ------------------------------------------------------------------

  // What the state machine looks at in a received segment
  datatype Segment = Segment(srcIp: word32, srcMac: seq<byte>, srcPort: word16, dstPort: word16, seqNo: word32,
                             flags: byte, data: seq<byte>)

  function Net16(b: seq<byte>, at: nat): word16
    requires at + 2 <= |b|
  {
    Bswap16(FromLe16(b[at..at + 2]))
  }

  function Net32(b: seq<byte>, at: nat): word32
    requires at + 4 <= |b|
  {
    Bswap32(FromLe32(b[at..at + 4]))
  }

  // ip_hlen, tcp_hlen and data_len as tcp_handle_segment computes them
  function IpLength(frame: seq<byte>): nat
    requires |frame| > ETH_HEADER
  {
    frame[ETH_HEADER] as int % 16 * 4
  }

  function TcpLength(frame: seq<byte>): nat
    requires |frame| > ETH_HEADER && |frame| >= ETH_HEADER + IpLength(frame) + TCP_HEADER
  {
    frame[ETH_HEADER + IpLength(frame) + 12] as int / 16 * 4
  }

  function DataLength(frame: seq<byte>): nat
    requires |frame| >= ETH_HEADER + IP_HEADER && |frame| >= ETH_HEADER + IpLength(frame) + TCP_HEADER
  {
    var total: int := Net16(frame, ETH_HEADER + 2);
    var segment := if total > IpLength(frame) then total - IpLength(frame) else 0;
    if segment > TcpLength(frame) then segment - TcpLength(frame) else 0
  }

  // The frame holds all the data its headers speak of.
  predicate Complete(frame: seq<byte>) {
    |frame| >= ETH_HEADER + IP_HEADER && |frame| >= ETH_HEADER + IpLength(frame) + TCP_HEADER ==>
      ETH_HEADER + IpLength(frame) + TcpLength(frame) + DataLength(frame) <= |frame|
  }

  /** From frame to segment: net_poll, handle_ip and the head of tcp_handle_segment. */
  function Parse(frame: seq<byte>): Option<Segment>
    requires Complete(frame)
  {
    if |frame| < ETH_HEADER + IP_HEADER || Net16(frame, 12) != 0x0800 || Net32(frame, ETH_HEADER + 16) != NET_MY_IP
       || frame[ETH_HEADER + 9] != IP_PROTO_TCP || |frame| < ETH_HEADER + IpLength(frame) + TCP_HEADER
    then None
    else
      var tcp := ETH_HEADER + IpLength(frame);
      var data := tcp + TcpLength(frame);
      Some(Segment(Net32(frame, ETH_HEADER + 12), frame[6..12], Net16(frame, tcp), Net16(frame, tcp + 2),
                   Net32(frame, tcp + 4), frame[tcp + 13], frame[data..data + DataLength(frame)]))
  }

  // A packet in its Ethernet frame, possibly padded behind
  function Framed(destMac: seq<byte>, srcMac: seq<byte>, packet: seq<byte>, padding: seq<byte>): seq<byte>
    requires |destMac| == |srcMac| == 6
  {
    destMac + srcMac + Be16(0x0800) + packet + padding
  }

  lemma Loads16(b: seq<byte>, at: nat, v: word16)
    requires Holds(b, at, Le16(Bswap16(v)))
    ensures Net16(b, at) == v
  {
    SwapIsNetworkOrder16(v);
  }

  lemma Loads32(b: seq<byte>, at: nat, v: word32)
    requires Holds(b, at, Le32(Bswap32(v)))
    ensures Net32(b, at) == v
  {
    SwapIsNetworkOrder32(v);
  }

  lemma IpFields(frame: seq<byte>, e: Ends, len: nat, checksum: word16)
    requires len <= MAX_PAYLOAD && Holds(frame, 14, IpBytes(e, len, checksum))
    ensures IpLength(frame) == 20 && frame[23] == IP_PROTO_TCP
    ensures Net16(frame, 16) == 40 + len && Net32(frame, 26) == NET_MY_IP && Net32(frame, 30) == e.peerIp
  {
    HoldsParts(frame, 14, IpLead(len) + IpMiddle(checksum), IpAddresses(e));
    HoldsParts(frame, 14, IpLead(len), IpMiddle(checksum));
    LeadFields(frame, len);
    MiddleFields(frame, checksum);
    AddressFields(frame, e);
  }

  lemma LeadFields(frame: seq<byte>, len: nat)
    requires len <= MAX_PAYLOAD && Holds(frame, 14, IpLead(len))
    ensures IpLength(frame) == 20 && Net16(frame, 16) == 40 + len
  {
    HoldsParts(frame, 14, [0x45, 0], Le16(Bswap16(IP_HEADER + TCP_HEADER + len)));
    assert frame[14..16][0] == 0x45;
    Loads16(frame, 16, 40 + len);
  }

  lemma MiddleFields(frame: seq<byte>, checksum: word16)
    requires Holds(frame, 18, IpMiddle(checksum))
    ensures frame[23] == IP_PROTO_TCP
  {
    assert frame[23] == frame[18..26][5];
  }

  lemma AddressFields(frame: seq<byte>, e: Ends)
    requires Holds(frame, 26, IpAddresses(e))
    ensures Net32(frame, 26) == NET_MY_IP && Net32(frame, 30) == e.peerIp
  {
    HoldsParts(frame, 26, Le32(Bswap32(NET_MY_IP)), Le32(Bswap32(e.peerIp)));
    Loads32(frame, 26, NET_MY_IP);
    Loads32(frame, 30, e.peerIp);
  }

  lemma TcpFields(frame: seq<byte>, e: Ends, flags: byte, checksum: word16)
    requires Holds(frame, 34, TcpHeader(e, flags, checksum))
    ensures Net16(frame, 34) == e.localPort && Net16(frame, 36) == e.peerPort && Net32(frame, 38) == e.seqNo
    ensures frame[46] == 0x50 && frame[47] == flags
  {
    var from, to := Le16(Bswap16(e.localPort)), Le16(Bswap16(e.peerPort));
    var seqNo, ackNo := Le32(Bswap32(e.seqNo)), Le32(Bswap32(e.ackNo));
    var rest := [0x50, flags] + Le16(Bswap16(WINDOW)) + Le16(Bswap16(checksum)) + Le16(0);
    HoldsParts(frame, 34, (from + to) + (seqNo + ackNo), rest);
    HoldsParts(frame, 34, from + to, seqNo + ackNo);
    HoldsParts(frame, 34, from, to);
    HoldsParts(frame, 38, seqNo, ackNo);
    assert frame[46] == frame[46..54][0] && frame[47] == frame[46..54][1];
    Loads16(frame, 34, e.localPort);
    Loads16(frame, 36, e.peerPort);
    Loads32(frame, 38, e.seqNo);
  }

  // Byte positions of a framed packet
  lemma FrameLayout(mac: seq<byte>, src: seq<byte>, ip: seq<byte>, tcp: seq<byte>, data: seq<byte>, pad: seq<byte>)
    requires |mac| == |src| == 6 && |ip| == IP_HEADER && |tcp| == TCP_HEADER
    ensures var frame := Framed(mac, src, ip + (tcp + data), pad);
            && |frame| == 54 + |data| + |pad| && frame[6..12] == src && Holds(frame, 12, Be16(0x0800))
            && Holds(frame, 14, ip) && Holds(frame, 34, tcp) && Holds(frame, 54, data)
  {
    var frame := Framed(mac, src, ip + (tcp + data), pad);
    var eth := mac + src + Be16(0x0800);
    assert frame == eth + (ip + (tcp + data) + pad);
    assert Holds(frame, 0, eth + (ip + (tcp + data) + pad));
    HoldsParts(frame, 0, eth, ip + (tcp + data) + pad);
    HoldsParts(frame, 0, mac + src, Be16(0x0800));
    HoldsParts(frame, 0, mac, src);
    HoldsParts(frame, 14, ip + (tcp + data), pad);
    HoldsParts(frame, 14, ip, tcp + data);
    HoldsParts(frame, 34, tcp, data);
  }

  /** Sending and receiving agree: a packet built for this host's address, framed and possibly
      padded, is read back as the segment it was built from. */
  lemma SentParses(mac: seq<byte>, src: seq<byte>, e: Ends, flags: byte, data: seq<byte>, pad: seq<byte>)
    requires |data| <= MAX_PAYLOAD && |mac| == |src| == 6 && e.peerIp == NET_MY_IP
    ensures var frame := Framed(mac, src, Packet(e, flags, data), pad);
            Complete(frame)
            && Parse(frame) == Some(Segment(NET_MY_IP, src, e.localPort, e.peerPort, e.seqNo, flags, data))
  {
    var frame := Framed(mac, src, Packet(e, flags, data), pad);
    var ip, tcp := IpBytes(e, |data|, IpChecksum(e, |data|)), TcpHeader(e, flags, TcpChecksum(e, flags, data));
    FrameLayout(mac, src, ip, tcp, data, pad);
    IpFields(frame, e, |data|, IpChecksum(e, |data|));
    TcpFields(frame, e, flags, TcpChecksum(e, flags, data));
    SwapIsNetworkOrder16(0x0800);
    assert TcpLength(frame) == 20 && DataLength(frame) == |data|;
  }
}
