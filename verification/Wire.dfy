/** TCP segments on the wire, written down independently of the code that builds and reads them:
    every number with its most significant byte first, at its place in the headers of RFC 791,
    section 3.1, and RFC 9293, section 3.1, options included. */
module Wire {
  import opened Bytes
  import opened Options
  import opened Segments

  // v in k bytes, most significant first
  function Big(v: nat, k: nat): (b: seq<byte>)
    ensures |b| == k
  {
    if k == 0 then [] else Big(v / 256, k - 1) + [v % 256]
  }

  // A segment as its sender sees it. What this host does not look at is free: `ident` is
  // identification and fragment fields, `rest` the window and urgent pointer.
  datatype Letter = Letter(
    destMac: seq<byte>, srcMac: seq<byte>,
    tos: byte, ident: seq<byte>, ttl: byte, ipCheck: word16, src: word32, dst: word32, ipOptions: seq<byte>,
    from: word16, to: word16, seqNo: word32, ackNo: word32, flags: byte, window: word16, tcpCheck: word16,
    urgent: word16, tcpOptions: seq<byte>,
    data: seq<byte>)

  predicate Proper(l: Letter) {
    && |l.destMac| == |l.srcMac| == 6 && |l.ident| == 4
    && |l.ipOptions| % 4 == 0 && |l.ipOptions| <= 40 && |l.tcpOptions| % 4 == 0 && |l.tcpOptions| <= 40
    && 40 + |l.ipOptions| + |l.tcpOptions| + |l.data| < 0x1_0000
  }

  function IpStart(l: Letter): (b: seq<byte>)
    requires Proper(l)
    ensures |b| == 12
  {
    [0x45 + |l.ipOptions| / 4, l.tos] + Big(40 + |l.ipOptions| + |l.tcpOptions| + |l.data|, 2)
    + (l.ident + [l.ttl, 6] + Big(l.ipCheck, 2))
  }

  function IpWritten(l: Letter): (b: seq<byte>)
    requires Proper(l)
    ensures |b| == 20 + |l.ipOptions|
  {
    IpStart(l) + (Big(l.src, 4) + Big(l.dst, 4)) + l.ipOptions
  }

  function TcpStart(l: Letter): (b: seq<byte>)
    ensures |b| == 12
  {
    (Big(l.from, 2) + Big(l.to, 2)) + (Big(l.seqNo, 4) + Big(l.ackNo, 4))
  }

  function TcpEnd(l: Letter): (b: seq<byte>)
    requires Proper(l)
    ensures |b| == 8
  {
    [(5 + |l.tcpOptions| / 4) * 16, l.flags] + Big(l.window, 2) + Big(l.tcpCheck, 2) + Big(l.urgent, 2)
  }

  function TcpWritten(l: Letter): (b: seq<byte>)
    requires Proper(l)
    ensures |b| == 20 + |l.tcpOptions|
  {
    TcpStart(l) + TcpEnd(l) + l.tcpOptions
  }

  function EthWritten(l: Letter): (b: seq<byte>)
    requires Proper(l)
    ensures |b| == 14
  {
    l.destMac + l.srcMac + [8, 0]
  }

  // The frame, padding behind included
  function Frame(l: Letter, pad: seq<byte>): seq<byte>
    requires Proper(l)
  {
    EthWritten(l) + IpWritten(l) + TcpWritten(l) + l.data + pad
  }

  // ------------------------------------------------------------------
  // Numbers
  // ------------------------------------------------------------------

  lemma Big2(v: word16)
    ensures Big(v, 2) == Be16(v)
  {
    assert Big(v / 256, 1) == Big(v / 256 / 256, 0) + [v / 256];
  }

  lemma Big4(v: word32)
    ensures Big(v, 4) == Be32(v)
  {
    var a, b, c := v / 256, v / 65536, v / 16777216;
    assert a / 256 == b && b / 256 == c && c % 256 == c;
    assert Big(c, 1) == Big(c / 256, 0) + [c];
    assert Big(b, 2) == Big(c, 1) + [b % 256];
    assert Big(a, 3) == Big(b, 2) + [a % 256];
  }

  lemma Stored2(v: word16)
    ensures Le16(Bswap16(v)) == Big(v, 2)
  {
    Big2(v);
    SwapIsNetworkOrder16(v);
  }

  lemma Stored4(v: word32)
    ensures Le32(Bswap32(v)) == Big(v, 4)
  {
    Big4(v);
    SwapIsNetworkOrder32(v);
  }

  lemma Read2(b: seq<byte>, at: nat, v: word16)
    requires Holds(b, at, Big(v, 2))
    ensures Net16(b, at) == v
  {
    Stored2(v);
    Loads16(b, at, v);
  }

  lemma Read4(b: seq<byte>, at: nat, v: word32)
    requires Holds(b, at, Big(v, 4))
    ensures Net32(b, at) == v
  {
    Stored4(v);
    Loads32(b, at, v);
  }

  // ------------------------------------------------------------------
  // What is sent
  // ------------------------------------------------------------------

  // The segment send_tcp_segment means to send
  function Reply(macs: seq<byte>, e: Ends, flags: byte, data: seq<byte>): Letter
    requires |data| <= 1400
  {
    Letter(macs, macs, 0, [0, 0, 0, 0], 64, IpChecksum(e, |data|), 0x0A00020F, e.peerIp, [],
           e.localPort, e.peerPort, e.seqNo, e.ackNo, flags, 8192, TcpChecksum(e, flags, data), 0, [], data)
  }

  lemma IpAsWritten(e: Ends, len: nat, checksum: word16, l: Letter)
    requires len <= 1400 && Proper(l) && l.ipOptions == [] && l.tcpOptions == [] && |l.data| == len
    requires l.tos == 0 && l.ident == [0, 0, 0, 0] && l.ttl == 64 && l.ipCheck == checksum
    requires l.src == 0x0A00020F && l.dst == e.peerIp
    ensures IpBytes(e, len, checksum) == IpWritten(l)
  {
    Stored2(40 + len);
    Stored2(checksum);
    Stored4(NET_MY_IP);
    Stored4(e.peerIp);
    assert Le16(0) == [0, 0];
    assert IpLead(len) + IpMiddle(checksum) == IpStart(l);
  }

  lemma TcpAsWritten(e: Ends, flags: byte, checksum: word16, l: Letter)
    requires Proper(l) && l.tcpOptions == [] && l.from == e.localPort && l.to == e.peerPort
    requires l.seqNo == e.seqNo && l.ackNo == e.ackNo && l.flags == flags
    requires l.window == 8192 && l.tcpCheck == checksum && l.urgent == 0
    ensures TcpHeader(e, flags, checksum) == TcpWritten(l)
  {
    Stored2(e.localPort);
    Stored2(e.peerPort);
    Stored4(e.seqNo);
    Stored4(e.ackNo);
    Stored2(WINDOW);
    Stored2(checksum);
    Stored2(0);
    assert Bswap16(0) == 0;
  }

  /** A packet sent is the two headers and the data, byte for byte: from this host's address and the
      connection's port to the peer's, with its sequence and acknowledgement numbers. */
  lemma PacketIsWritten(e: Ends, flags: byte, data: seq<byte>, l: Letter, macs: seq<byte>)
    requires |data| <= 1400 && |macs| == 6 && l == Reply(macs, e, flags, data)
    ensures Packet(e, flags, data) == IpWritten(l) + TcpWritten(l) + data
    ensures Holds(Packet(e, flags, data), 28, Big(e.ackNo, 4))
  {
    IpAsWritten(e, |data|, l.ipCheck, l);
    TcpAsWritten(e, flags, l.tcpCheck, l);
    AckPlace(IpWritten(l), l, data);
  }

  lemma AckPlace(ip: seq<byte>, l: Letter, data: seq<byte>)
    requires Proper(l) && |ip| == 20 && l.tcpOptions == []
    ensures ip + (TcpWritten(l) + data) == ip + TcpWritten(l) + data
    ensures Holds(ip + TcpWritten(l) + data, 28, Big(l.ackNo, 4))
  {
    var p := ip + TcpWritten(l) + data;
    assert Holds(p, 0, p);
    HoldsParts(p, 0, ip + TcpWritten(l), data);
    HoldsParts(p, 0, ip, TcpWritten(l));
    HoldsParts(p, 20, TcpStart(l) + TcpEnd(l), []);
    HoldsParts(p, 20, TcpStart(l), TcpEnd(l));
    HoldsParts(p, 20, Big(l.from, 2) + Big(l.to, 2), Big(l.seqNo, 4) + Big(l.ackNo, 4));
    HoldsParts(p, 24, Big(l.seqNo, 4), Big(l.ackNo, 4));
  }

  // ------------------------------------------------------------------
  // What is read
  // ------------------------------------------------------------------

  lemma EthRead(frame: seq<byte>, l: Letter)
    requires Proper(l) && Holds(frame, 0, EthWritten(l))
    ensures Net16(frame, 12) == 0x0800 && frame[6..12] == l.srcMac
  {
    HoldsParts(frame, 0, l.destMac + l.srcMac, [8, 0]);
    HoldsParts(frame, 0, l.destMac, l.srcMac);
    assert Big(0x0800, 2) == [8, 0] by {
      Big2(0x0800);
    }
    Read2(frame, 12, 0x0800);
  }

  lemma IpRead(frame: seq<byte>, l: Letter)
    requires Proper(l) && Holds(frame, 14, IpWritten(l))
    ensures IpLength(frame) == 20 + |l.ipOptions| && frame[23] == 6
    ensures Net16(frame, 16) == 40 + |l.ipOptions| + |l.tcpOptions| + |l.data|
    ensures Net32(frame, 26) == l.src && Net32(frame, 30) == l.dst
  {
    HoldsParts(frame, 14, IpStart(l) + (Big(l.src, 4) + Big(l.dst, 4)), l.ipOptions);
    HoldsParts(frame, 14, IpStart(l), Big(l.src, 4) + Big(l.dst, 4));
    HoldsParts(frame, 26, Big(l.src, 4), Big(l.dst, 4));
    Read4(frame, 26, l.src);
    Read4(frame, 30, l.dst);
    IpStartRead(frame, l);
  }

  lemma IpStartRead(frame: seq<byte>, l: Letter)
    requires Proper(l) && Holds(frame, 14, IpStart(l))
    ensures IpLength(frame) == 20 + |l.ipOptions| && frame[23] == 6
    ensures Net16(frame, 16) == 40 + |l.ipOptions| + |l.tcpOptions| + |l.data|
  {
    var total := 40 + |l.ipOptions| + |l.tcpOptions| + |l.data|;
    var service: seq<byte> := [0x45 + |l.ipOptions| / 4, l.tos];
    var behind: seq<byte> := l.ident + [l.ttl, 6] + Big(l.ipCheck, 2);
    HoldsParts(frame, 14, service + Big(total, 2), behind);
    HoldsParts(frame, 14, service, Big(total, 2));
    Read2(frame, 16, total);
    assert frame[14] == frame[14..16][0];
    assert frame[23] == frame[18..26][5];
  }

  lemma TcpRead(frame: seq<byte>, at: nat, l: Letter)
    requires Proper(l) && Holds(frame, at, TcpWritten(l))
    ensures Net16(frame, at) == l.from && Net16(frame, at + 2) == l.to && Net32(frame, at + 4) == l.seqNo
    ensures frame[at + 12] as int / 16 * 4 == 20 + |l.tcpOptions| && frame[at + 13] == l.flags
  {
    HoldsParts(frame, at, TcpStart(l) + TcpEnd(l), l.tcpOptions);
    HoldsParts(frame, at, TcpStart(l), TcpEnd(l));
    TcpStartRead(frame, at, l);
    TcpEndRead(frame, at + 12, l);
  }

  lemma TcpEndRead(frame: seq<byte>, at: nat, l: Letter)
    requires Proper(l) && Holds(frame, at, TcpEnd(l))
    ensures frame[at] as int / 16 * 4 == 20 + |l.tcpOptions| && frame[at + 1] == l.flags
  {
    assert frame[at] == frame[at..at + 8][0] && frame[at + 1] == frame[at..at + 8][1];
  }

  lemma TcpStartRead(frame: seq<byte>, at: nat, l: Letter)
    requires Proper(l) && Holds(frame, at, TcpStart(l))
    ensures Net16(frame, at) == l.from && Net16(frame, at + 2) == l.to && Net32(frame, at + 4) == l.seqNo
  {
    HoldsParts(frame, at, Big(l.from, 2) + Big(l.to, 2), Big(l.seqNo, 4) + Big(l.ackNo, 4));
    HoldsParts(frame, at, Big(l.from, 2), Big(l.to, 2));
    HoldsParts(frame, at + 4, Big(l.seqNo, 4), Big(l.ackNo, 4));
    Read2(frame, at, l.from);
    Read2(frame, at + 2, l.to);
    Read4(frame, at + 4, l.seqNo);
  }

  // Where the parts of a frame stand
  lemma FramePlaces(l: Letter, pad: seq<byte>, frame: seq<byte>, tcp: nat, data: nat)
    requires Proper(l) && frame == Frame(l, pad)
    requires tcp == 34 + |l.ipOptions| && data == tcp + 20 + |l.tcpOptions|
    ensures Holds(frame, 0, EthWritten(l)) && Holds(frame, 14, IpWritten(l)) && Holds(frame, tcp, TcpWritten(l))
    ensures |frame| == data + |l.data| + |pad| && frame[data..data + |l.data|] == l.data
  {
    var head := EthWritten(l) + IpWritten(l);
    assert Holds(frame, 0, frame);
    HoldsParts(frame, 0, head + TcpWritten(l) + l.data, pad);
    HoldsParts(frame, 0, head + TcpWritten(l), l.data);
    HoldsParts(frame, 0, head, TcpWritten(l));
    HoldsParts(frame, 0, EthWritten(l), IpWritten(l));
  }

  /** Any segment for this host, from any sender, with any options in either header and any
      padding, is read as what its sender wrote. */
  lemma WrittenParses(l: Letter, pad: seq<byte>)
    requires Proper(l) && l.dst == 0x0A00020F
    ensures var frame := Frame(l, pad);
            && Complete(frame)
            && Parse(frame) == Some(Segment(l.src, l.srcMac, l.from, l.to, l.seqNo, l.flags, l.data))
  {
    var frame, tcp := Frame(l, pad), 34 + |l.ipOptions|;
    FramePlaces(l, pad, frame, tcp, tcp + 20 + |l.tcpOptions|);
    EthRead(frame, l);
    IpRead(frame, l);
    TcpRead(frame, tcp, l);
    assert TcpLength(frame) == 20 + |l.tcpOptions|;
    assert DataLength(frame) == |l.data|;
  }

  /** Anything else is ignored: too short, not IP, for another host, or not TCP. */
  lemma ForeignIgnored(frame: seq<byte>)
    requires Complete(frame)
    ensures |frame| < 34 ==> Parse(frame) == None
    ensures |frame| >= 34 && (frame[12..14] != [8, 0] || frame[30..34] != [10, 0, 2, 15] || frame[23] != 6)
            ==> Parse(frame) == None
  {
    if |frame| >= 34 {
      if Net16(frame, 12) == 0x0800 {
        assert frame[12..14] == [8, 0];
      }
      if Net32(frame, 30) == NET_MY_IP {
        Back4(frame[30..34]);
        assert frame[30..34] == [10, 0, 2, 15];
      }
    }
  }

  lemma Back4(b: seq<byte>)
    requires |b| == 4 && Bswap32(FromLe32(b)) == 0x0A00020F
    ensures b == [10, 0, 2, 15]
  {
    Digits(b[0], b[1], b[2], b[3], FromLe32(b));
  }
}
