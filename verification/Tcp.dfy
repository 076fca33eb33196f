/** The one-connection TCP of tcp.c: what it does with each segment, and that the bytes it
    delivers are the peer's stream in order (section 3.10.7.4 of RFC 9293). */
module Tcp {
  import opened Bytes
  import opened Options
  import opened Segments

  const RECV_BUF_SIZE: nat := 4096
  const FIRST_SEQ: word32 := 0x1000

  datatype Phase = Closed | Listen | SynRcvd | Established | Closing

  // tcp_conn_t
  datatype Conn = Conn(peerIp: word32, peerMac: seq<byte>, peerPort: word16, localPort: word16,
                       mySeq: word32, peerSeq: word32, connected: bool)

  // A segment handed to the network
  datatype Sent = Sent(mac: seq<byte>, ends: Ends, flags: byte, data: seq<byte>)

  // The module's state; active says whether active_conn is set
  datatype Tcp = Tcp(phase: Phase, listenPort: word16, active: bool, conn: Conn, buf: seq<byte>, gotFin: bool,
                     sent: seq<Sent>)

  const BLANK_CONN: Conn := Conn(0, Zeros(6), 0, 0, 0, 0, false)

  function EndsOf(c: Conn): Ends {
    Ends(c.peerIp, c.localPort, c.peerPort, c.mySeq, c.peerSeq)
  }

  // A segment of the connection, to its peer
  function Addressed(c: Conn, flags: byte, data: seq<byte>): Sent {
    Sent(c.peerMac, EndsOf(c), flags, data)
  }

  // Sequence numbers a segment uses up, as send_tcp_segment counts them
  function Uses(flags: byte, data: seq<byte>): nat {
    if Has(flags, SYN) || Has(flags, FIN) then 1 else |data|
  }

  /** send_tcp_segment */
  function Emit(t: Tcp, flags: byte, data: seq<byte>): (t': Tcp)
    ensures t'.phase == t.phase && t'.buf == t.buf && t'.gotFin == t.gotFin
  {
    var d := Clipped(data);
    t.(sent := t.sent + [Addressed(t.conn, flags, d)],
       conn := t.conn.(mySeq := (t.conn.mySeq + Uses(flags, d)) % U32))
  }

  // What fits of the data in the receive buffer
  function Stored(buf: seq<byte>, data: seq<byte>): (b: seq<byte>)
    requires |buf| <= RECV_BUF_SIZE
    ensures |b| <= RECV_BUF_SIZE
  {
    buf + if |buf| + |data| > RECV_BUF_SIZE then data[..RECV_BUF_SIZE - |buf|] else data
  }

  // LISTEN got a SYN
  function OpenConn(t: Tcp, s: Segment): Tcp {
    var c := Conn(s.srcIp, s.srcMac, s.srcPort, s.dstPort, FIRST_SEQ, (s.seqNo + 1) % U32, t.conn.connected);
    Emit(t.(conn := c, phase := SynRcvd), SYN + ACK, [])
  }

  // ESTABLISHED
  function Receive(t: Tcp, s: Segment): Tcp
    requires |t.buf| <= RECV_BUF_SIZE
  {
    if Has(s.flags, FIN) then
      Emit(t.(conn := t.conn.(peerSeq := (s.seqNo + 1) % U32), gotFin := true), ACK, [])
    else if |s.data| > 0 && s.seqNo == t.conn.peerSeq then
      Emit(t.(buf := Stored(t.buf, s.data), conn := t.conn.(peerSeq := (t.conn.peerSeq + |s.data|) % U32)), ACK, [])
    else t
  }

  // CLOSING
  function FinishClose(t: Tcp, s: Segment): Tcp {
    var t1 := if Has(s.flags, FIN)
              then Emit(t.(conn := t.conn.(peerSeq := (s.seqNo + 1) % U32)), ACK, []) else t;
    if Has(s.flags, ACK) then t1.(phase := Closed) else t1
  }

  /** tcp_handle_segment */
  function Handle(t: Tcp, s: Segment): (t': Tcp)
    requires |t.buf| <= RECV_BUF_SIZE
    ensures |t'.buf| <= RECV_BUF_SIZE
  {
    if t.phase == Listen && Has(s.flags, SYN) && s.dstPort == t.listenPort then OpenConn(t, s)
    else if !t.active || s.dstPort != t.conn.localPort || s.srcPort != t.conn.peerPort then t
    else match t.phase
      case SynRcvd =>
        if Has(s.flags, ACK) then t.(phase := Established, conn := t.conn.(connected := true)) else t
      case Established => Receive(t, s)
      case Closing => FinishClose(t, s)
      case _ => t
  }

  // The state tcp_accept starts listening in
  function Accept(t: Tcp, port: word16): Tcp {
    t.(phase := Listen, listenPort := port, active := true, conn := BLANK_CONN, buf := [], gotFin := false)
  }

  // tcp_recv with something to deliver: the bytes and what is left
  function Delivered(t: Tcp, maxlen: nat): seq<byte> {
    if |t.buf| > maxlen then t.buf[..maxlen] else t.buf
  }

  function AfterTake(t: Tcp, maxlen: nat): Tcp {
    t.(buf := t.buf[|Delivered(t, maxlen)|..])
  }

  // tcp_close up to its wait, and after it
  function StartClose(t: Tcp): Tcp {
    Emit(t, FIN + ACK, []).(phase := Closing)
  }

  function EndClose(t: Tcp): Tcp {
    t.(phase := Closed, conn := t.conn.(connected := false))
  }

  // Length of the next chunk tcp_send sends
  function Chunk(data: seq<byte>): (n: nat)
    ensures n <= |data| && n <= MAX_PAYLOAD && (data != [] ==> n > 0)
  {
    if |data| > MAX_PAYLOAD then MAX_PAYLOAD else |data|
  }

  // tcp_send: chunks of at most MAX_PAYLOAD bytes
  function Send(t: Tcp, data: seq<byte>): Tcp
    decreases |data|
  {
    if data == [] then t
    else
      var n := Chunk(data);
      Send(Emit(t, ACK + PSH, data[..n]), data[n..])
  }

  // ------------------------------------------------------------------
  // The peer and the network
  // ------------------------------------------------------------------

  // The peer's side of the connection: its port, initial sequence number and byte stream,
  // and the local port it talks to
  datatype Peer = Peer(port: word16, local: word16, isn: word32, stream: seq<byte>)

  // Sequence number of the byte at offset k of the stream
  function SeqOf(p: Peer, k: nat): word32 {
    (p.isn + 1 + k) % U32
  }

  // A piece of the stream, at its place
  ghost predicate IsPiece(p: Peer, s: Segment, off: nat) {
    off + |s.data| <= |p.stream| && s.seqNo == SeqOf(p, off) && s.data == p.stream[off..off + |s.data|]
  }

  /** What the network may hand over, any number of times and in any order: the peer's SYN,
      pieces of its stream, its FIN without data, segments with neither data nor SYN or FIN,
      whatever their number, and traffic of other connections. */
  ghost predicate Genuine(p: Peer, s: Segment) {
    if s.dstPort != p.local || s.srcPort != p.port then
      s.dstPort != p.local || !Has(s.flags, SYN)
    else if Has(s.flags, SYN) then !Has(s.flags, FIN) && s.data == [] && s.seqNo == p.isn
    else if Has(s.flags, FIN) then s.data == [] && s.seqNo == SeqOf(p, |p.stream|)
    else s.data == [] || exists off: nat :: IsPiece(p, s, off)
  }

  // Sequence numbers of the stream, SYN and FIN included, are all different.
  predicate Short(p: Peer) {
    |p.stream| + 1 < U32
  }

  // ------------------------------------------------------------------
  // In-order delivery
  // ------------------------------------------------------------------

  /** `got` is everything delivered so far; with what is buffered it is the stream up to the
      byte the connection expects next. */
  ghost predicate InOrder(p: Peer, t: Tcp, got: seq<byte>) {
    && |t.buf| <= RECV_BUF_SIZE && t.active
    && got + t.buf <= p.stream
    && AtPhase(p, t, |got| + |t.buf|)
  }

  // The connection after k bytes of the stream
  predicate AtPhase(p: Peer, t: Tcp, k: nat) {
    match t.phase
    case Listen => k == 0 && t.listenPort == p.local && !t.gotFin
    case Closed => true
    case SynRcvd => Connected(p, t) && !t.gotFin && t.conn.peerSeq == SeqOf(p, k)
    case Established => Connected(p, t) && t.conn.peerSeq == SeqOf(p, if t.gotFin then |p.stream| + 1 else k)
    case Closing => Connected(p, t)
  }

  predicate Connected(p: Peer, t: Tcp) {
    t.conn.localPort == p.local && t.conn.peerPort == p.port
  }

  // The segment would be accepted as the next data.
  predicate Accepts(t: Tcp, s: Segment) {
    && t.phase == Established && t.active && s.dstPort == t.conn.localPort && s.srcPort == t.conn.peerPort
    && !Has(s.flags, FIN) && |s.data| > 0 && s.seqNo == t.conn.peerSeq
  }

  predicate Room(t: Tcp, s: Segment) {
    |t.buf| + |s.data| <= RECV_BUF_SIZE
  }

  // Sequence numbers do not come round within the stream.
  lemma SeqDistinct(p: Peer, j: nat, k: nat)
    requires Short(p) && j <= |p.stream| + 1 && k <= |p.stream| + 1 && SeqOf(p, j) == SeqOf(p, k)
    ensures j == k
  {
  }

  lemma SeqAdds(p: Peer, k: nat, n: nat)
    ensures (SeqOf(p, k) + n) % U32 == SeqOf(p, k + n)
  {
  }

  // What is accepted is the piece of the stream that comes next.
  lemma AcceptedIsNext(p: Peer, t: Tcp, got: seq<byte>, s: Segment)
    requires Short(p) && InOrder(p, t, got) && Genuine(p, s) && Accepts(t, s)
    ensures !t.gotFin && got + t.buf + s.data <= p.stream
  {
    var k := if t.gotFin then |p.stream| + 1 else |got| + |t.buf|;
    var off: nat :| IsPiece(p, s, off);
    SeqDistinct(p, off, k);
    PieceExtends(p.stream, got + t.buf, s.data);
  }

  lemma PieceExtends(stream: seq<byte>, head: seq<byte>, piece: seq<byte>)
    requires head <= stream && |head| + |piece| <= |stream| && piece == stream[|head|..|head| + |piece|]
    ensures head + piece <= stream
  {
    assert head + piece == stream[..|head| + |piece|];
  }

  /** One segment: delivery stays in order exactly if an accepted segment fits the free part
      of the receive buffer - what does not fit is acknowledged and lost. */
  lemma HandleInOrderIff(p: Peer, t: Tcp, got: seq<byte>, s: Segment)
    requires Short(p) && InOrder(p, t, got) && Genuine(p, s)
    ensures InOrder(p, Handle(t, s), got) <==> (Accepts(t, s) ==> Room(t, s))
  {
    if Accepts(t, s) {
      AcceptedIsNext(p, t, got, s);
      AcceptInOrderIff(p, t, got, s);
    } else {
      OtherwiseInOrder(p, t, got, s);
    }
  }

  // Accepting stores what fits and expects what follows the segment.
  lemma AcceptStores(t: Tcp, s: Segment)
    requires |t.buf| <= RECV_BUF_SIZE && Accepts(t, s)
    ensures var t' := Handle(t, s);
            && t'.buf == Stored(t.buf, s.data) && t'.conn.peerSeq == (t.conn.peerSeq + |s.data|) % U32
            && t' == t.(buf := t'.buf, conn := t'.conn, sent := t'.sent)
            && t'.conn.localPort == t.conn.localPort && t'.conn.peerPort == t.conn.peerPort
  {
  }

  lemma AcceptInOrderIff(p: Peer, t: Tcp, got: seq<byte>, s: Segment)
    requires Short(p) && InOrder(p, t, got) && Accepts(t, s) && !t.gotFin && got + t.buf + s.data <= p.stream
    ensures InOrder(p, Handle(t, s), got) <==> Room(t, s)
  {
    var t', k := Handle(t, s), |got| + |t.buf|;
    AcceptStores(t, s);
    SeqAdds(p, k, |s.data|);
    if Room(t, s) {
      assert got + t'.buf == got + t.buf + s.data;
    } else if InOrder(p, t', got) {
      SeqDistinct(p, k + |s.data|, |got| + |t'.buf|);
      assert false;
    }
  }

  // A segment not accepted as data never touches what is buffered.
  lemma OtherwiseKeepsBuf(t: Tcp, s: Segment)
    requires |t.buf| <= RECV_BUF_SIZE && t.active && !Accepts(t, s)
    ensures Handle(t, s).buf == t.buf && Handle(t, s).active
  {
  }

  lemma OtherwiseInOrder(p: Peer, t: Tcp, got: seq<byte>, s: Segment)
    requires Short(p) && InOrder(p, t, got) && Genuine(p, s) && !Accepts(t, s)
    ensures InOrder(p, Handle(t, s), got)
  {
    OtherwiseKeepsBuf(t, s);
    var k := |got| + |t.buf|;
    match t.phase {
      case Listen => OpenAtPhase(p, t, s);
      case Established => FinAtPhase(p, t, k, s);
      case Closing => ClosingAtPhase(p, t, k, s);
      case _ =>
    }
  }

  lemma OpenAtPhase(p: Peer, t: Tcp, s: Segment)
    requires t.phase == Listen && t.active && |t.buf| <= RECV_BUF_SIZE && AtPhase(p, t, 0) && Genuine(p, s)
    ensures AtPhase(p, Handle(t, s), 0)
  {
  }

  lemma FinAtPhase(p: Peer, t: Tcp, k: nat, s: Segment)
    requires t.phase == Established && t.active && |t.buf| <= RECV_BUF_SIZE && AtPhase(p, t, k)
    requires Genuine(p, s) && !Accepts(t, s)
    ensures AtPhase(p, Handle(t, s), k)
  {
    SeqAdds(p, |p.stream|, 1);
  }

  lemma ClosingAtPhase(p: Peer, t: Tcp, k: nat, s: Segment)
    requires t.phase == Closing && t.active && |t.buf| <= RECV_BUF_SIZE && AtPhase(p, t, k)
    ensures AtPhase(p, Handle(t, s), k)
  {
  }

  lemma TakeInOrder(p: Peer, t: Tcp, got: seq<byte>, maxlen: nat)
    requires InOrder(p, t, got)
    ensures InOrder(p, AfterTake(t, maxlen), got + Delivered(t, maxlen))
  {
    var t', d := AfterTake(t, maxlen), Delivered(t, maxlen);
    assert d + t'.buf == t.buf;
    assert got + d + t'.buf == got + t.buf;
  }

  // Sending concerns neither what is received nor where the connection stands.
  lemma {:induction false} SendKeeps(t: Tcp, data: seq<byte>)
    ensures var t' := Send(t, data);
            t' == t.(sent := t'.sent, conn := t.conn.(mySeq := t'.conn.mySeq))
    decreases |data|
  {
    if data == [] {
    } else {
      var n := Chunk(data);
      SendKeeps(Emit(t, ACK + PSH, data[..n]), data[n..]);
    }
  }

  // ------------------------------------------------------------------
  // Runs
  // ------------------------------------------------------------------

  datatype Event =
    | Arrives(segment: Segment) | Takes(maxlen: nat) | Sends(bytes: seq<byte>)
    | Closes | EndsClose | TimesOut

  // State and bytes delivered after a run
  datatype Progress = Progress(t: Tcp, got: seq<byte>)

  function Do(g: Progress, e: Event): (g': Progress)
    requires |g.t.buf| <= RECV_BUF_SIZE
    ensures |g'.t.buf| <= RECV_BUF_SIZE
  {
    match e
    case Arrives(s) => Progress(Handle(g.t, s), g.got)
    case Takes(maxlen) => Progress(AfterTake(g.t, maxlen), g.got + Delivered(g.t, maxlen))
    case Sends(data) => SendKeeps(g.t, data); Progress(Send(g.t, data), g.got)
    case Closes => Progress(StartClose(g.t), g.got)
    case EndsClose => Progress(EndClose(g.t), g.got)
    case TimesOut => Progress(g.t.(phase := Closed), g.got)
  }

  function Run(g: Progress, es: seq<Event>): (g': Progress)
    requires |g.t.buf| <= RECV_BUF_SIZE
    ensures |g'.t.buf| <= RECV_BUF_SIZE
    decreases |es|
  {
    if es == [] then g else Run(Do(g, es[0]), es[1..])
  }

  // What the theorem asks of caller and network: every segment is genuine and, if
  // accepted, fits when it comes; the connection is closed only once established.
  ghost predicate Allowed(p: Peer, t: Tcp, e: Event) {
    match e
    case Arrives(s) => Genuine(p, s) && (Accepts(t, s) ==> Room(t, s))
    case Closes => t.phase == Established
    case _ => true
  }

  ghost predicate WellUsed(p: Peer, g: Progress, es: seq<Event>)
    requires |g.t.buf| <= RECV_BUF_SIZE
    decreases |es|
  {
    es == [] || (Allowed(p, g.t, es[0]) && WellUsed(p, Do(g, es[0]), es[1..]))
  }

  lemma DoInOrder(p: Peer, g: Progress, e: Event)
    requires Short(p) && InOrder(p, g.t, g.got) && Allowed(p, g.t, e)
    ensures InOrder(p, Do(g, e).t, Do(g, e).got)
  {
    match e {
      case Arrives(s) => HandleInOrderIff(p, g.t, g.got, s);
      case Takes(maxlen) => TakeInOrder(p, g.t, g.got, maxlen);
      case Sends(data) => SendKeeps(g.t, data);
      case _ =>
    }
  }

  lemma {:induction false} RunInOrder(p: Peer, g: Progress, es: seq<Event>)
    requires Short(p) && InOrder(p, g.t, g.got) && WellUsed(p, g, es)
    ensures InOrder(p, Run(g, es).t, Run(g, es).got)
    decreases |es|
  {
    if es == [] {
    } else {
      DoInOrder(p, g, es[0]);
      RunInOrder(p, Do(g, es[0]), es[1..]);
    }
  }

  /** In-order delivery over every run from tcp_accept: whatever the network reorders,
      repeats or loses, the bytes returned by the successive tcp_recv calls are a prefix of
      the peer's stream. */
  lemma DeliveryIsInOrder(p: Peer, t: Tcp, es: seq<Event>)
    requires Short(p) && WellUsed(p, Progress(Accept(t, p.local), []), es)
    ensures Run(Progress(Accept(t, p.local), []), es).got <= p.stream
  {
    var g := Progress(Accept(t, p.local), []);
    RunInOrder(p, g, es);
    var r := Run(g, es);
    assert r.got <= r.got + r.t.buf;
  }

  // One byte too many is acknowledged and forgotten.
  lemma FullForgets(t: Tcp, s: Segment)
    requires |t.buf| == RECV_BUF_SIZE && Accepts(t, s)
    ensures var t' := Handle(t, s);
            t'.buf == t.buf && t'.conn.peerSeq == (t.conn.peerSeq + |s.data|) % U32
  {
    AcceptStores(t, s);
    assert t.buf + s.data[..0] == t.buf;
  }

  /** Without room the order does break: with the buffer full, one byte x comes in and is
      lost, the buffer is taken, and the next byte y is delivered in x's place. */
  lemma OverflowBreaksOrder(p: Peer, t: Tcp, got: seq<byte>, s: Segment, s': Segment)
    requires Short(p) && InOrder(p, t, got) && |t.buf| == RECV_BUF_SIZE
    requires Genuine(p, s) && Accepts(t, s) && |s.data| == 1
    requires Genuine(p, s') && |s'.data| == 1 && s'.data != s.data && !Has(s'.flags, FIN)
    requires s'.seqNo == (s.seqNo + 1) % U32 && s'.dstPort == s.dstPort && s'.srcPort == s.srcPort
    ensures var t1 := AfterTake(Handle(t, s), RECV_BUF_SIZE);
            var read := got + Delivered(Handle(t, s), RECV_BUF_SIZE) + Delivered(Handle(t1, s'), 1);
            !(read <= p.stream)
  {
    AcceptedIsNext(p, t, got, s);
    FullForgets(t, s);
    AcceptStores(t, s);
    var t1 := AfterTake(Handle(t, s), RECV_BUF_SIZE);
    AcceptStores(t1, s');
    assert Handle(t1, s').buf == s'.data;
    OneByteOff(p.stream, got + t.buf, s.data, s'.data);
  }

  // A peer sending 4097 zeros and a one, and its segments
  const SENDER: Peer := Peer(1000, 70, 0, Zeros(4097) + [1])

  function FromSender(seqNo: word32, flags: byte, data: seq<byte>): Segment {
    Segment(0, Zeros(6), 1000, 70, seqNo, flags, data)
  }

  function Piece(off: nat, n: nat): Event
    requires off + n <= 4098
  {
    Arrives(FromSender(off + 1, ACK, SENDER.stream[off..off + n]))
  }

  const HANDSHAKE: seq<Event> := [Arrives(FromSender(0, SYN, [])), Arrives(FromSender(1, ACK, []))]

  // As many bytes as the buffer holds
  function Filling(): seq<Event> {
    [Piece(0, 1400), Piece(1400, 1400), Piece(2800, 1296)]
  }

  // Handshake, a full buffer, one byte more and everything taken, the last byte and it taken too
  function Overflowing(): seq<Event> {
    HANDSHAKE + Filling()
    + ([Piece(4096, 1), Takes(RECV_BUF_SIZE)] + [Piece(4097, 1), Takes(1)])
  }

  ghost predicate AllGenuine(p: Peer, es: seq<Event>) {
    forall k :: 0 <= k < |es| && es[k].Arrives? ==> Genuine(p, es[k].segment)
  }

  lemma PieceIsGenuine(off: nat, n: nat)
    requires off + n <= 4098
    ensures Genuine(SENDER, Piece(off, n).segment)
  {
    assert IsPiece(SENDER, Piece(off, n).segment, off);
  }

  // The connection with n bytes of the sender's stream received and none taken
  ghost predicate Holding(g: Progress, n: nat) {
    && g.t.phase == Established && g.got == [] && InOrder(SENDER, g.t, []) && |g.t.buf| == n && !g.t.gotFin
  }

  lemma RunCons(g: Progress, e: Event, es: seq<Event>)
    requires |g.t.buf| <= RECV_BUF_SIZE
    ensures Run(g, [e] + es) == Run(Do(g, e), es)
  {
    assert ([e] + es)[1..] == es;
  }

  lemma TwoEvents(g: Progress, a: Event, b: Event)
    requires |g.t.buf| <= RECV_BUF_SIZE
    ensures Run(g, [a, b]) == Do(Do(g, a), b)
  {
    var g1 := Do(g, a);
    assert [a, b][1..] == [b] && [b][1..] == [];
    assert Run(g, [a, b]) == Run(g1, [b]) == Run(Do(g1, b), []);
  }

  lemma HandshakeDone(t: Tcp)
    ensures Holding(Run(Progress(Accept(t, 70), []), HANDSHAKE), 0)
  {
    var g, syn, ack := Progress(Accept(t, 70), []), FromSender(0, SYN, []), FromSender(1, ACK, []);
    TwoEvents(g, Arrives(syn), Arrives(ack));
    assert HANDSHAKE == [Arrives(syn), Arrives(ack)];
    var t1 := Handle(g.t, syn);
    assert t1.phase == SynRcvd && t1.buf == [] && !t1.gotFin && Connected(SENDER, t1) && t1.conn.peerSeq == 1;
    var t2 := Handle(t1, ack);
    assert t2.phase == Established && t2.buf == [] && !t2.gotFin && t2.conn.peerSeq == 1;
    var e: seq<byte> := [];
    assert e + t2.buf == e;
  }

  lemma OnePiece(g: Progress, off: nat, n: nat)
    requires Holding(g, off) && 0 < n && off + n <= RECV_BUF_SIZE
    ensures Holding(Do(g, Piece(off, n)), off + n)
  {
    var s := Piece(off, n).segment;
    PieceIsGenuine(off, n);
    AcceptStores(g.t, s);
    HandleInOrderIff(SENDER, g.t, [], s);
  }

  lemma FillingFills(g: Progress)
    requires Holding(g, 0)
    ensures Holding(Run(g, Filling()), RECV_BUF_SIZE)
  {
    var a, b, c := Piece(0, 1400), Piece(1400, 1400), Piece(2800, 1296);
    OnePiece(g, 0, 1400);
    OnePiece(Do(g, a), 1400, 1400);
    OnePiece(Do(Do(g, a), b), 2800, 1296);
    assert [a] + [b, c] == Filling();
    RunCons(g, a, [b, c]);
    TwoEvents(Do(g, a), b, c);
  }

  lemma OverflowLosesOne(g: Progress)
    requires Holding(g, RECV_BUF_SIZE)
    ensures !(Run(g, [Piece(4096, 1), Takes(RECV_BUF_SIZE)] + [Piece(4097, 1), Takes(1)]).got <= SENDER.stream)
  {
    var x, y := Piece(4096, 1), Piece(4097, 1);
    PieceIsGenuine(4096, 1);
    PieceIsGenuine(4097, 1);
    assert x.segment.data == [0] && y.segment.data == [1];
    OverflowBreaksOrder(SENDER, g.t, [], x.segment, y.segment);
    RunAppends(g, [x, Takes(RECV_BUF_SIZE)], [y, Takes(1)]);
    TwoEvents(g, x, Takes(RECV_BUF_SIZE));
    TwoEvents(Run(g, [x, Takes(RECV_BUF_SIZE)]), y, Takes(1));
  }

  /** It does happen: from tcp_accept, on a genuine peer's segments in their order, the bytes
      tcp_recv returns are not the bytes sent. */
  lemma OverflowHappens(t: Tcp)
    ensures Short(SENDER) && AllGenuine(SENDER, Overflowing())
    ensures !(Run(Progress(Accept(t, 70), []), Overflowing()).got <= SENDER.stream)
  {
    var g0 := Progress(Accept(t, 70), []);
    var last := [Piece(4096, 1), Takes(RECV_BUF_SIZE)] + [Piece(4097, 1), Takes(1)];
    HandshakeDone(t);
    FillingFills(Run(g0, HANDSHAKE));
    RunAppends(g0, HANDSHAKE, Filling());
    RunAppends(g0, HANDSHAKE + Filling(), last);
    OverflowLosesOne(Run(g0, HANDSHAKE + Filling()));
    OverflowingIsGenuine();
  }

  lemma OverflowingIsGenuine()
    ensures AllGenuine(SENDER, Overflowing())
  {
    PieceIsGenuine(0, 1400);
    PieceIsGenuine(1400, 1400);
    PieceIsGenuine(2800, 1296);
    PieceIsGenuine(4096, 1);
    PieceIsGenuine(4097, 1);
  }

  lemma OneByteOff(stream: seq<byte>, head: seq<byte>, x: seq<byte>, y: seq<byte>)
    requires |x| == |y| == 1 && x != y && head + x <= stream
    ensures !(head + y <= stream)
  {
    assert stream[|head|] == (head + x)[|head|] == x[0];
    assert (head + y)[|head|] == y[0];
  }

  // ------------------------------------------------------------------
  // The end of the stream
  // ------------------------------------------------------------------

  // Everything received so far, delivered or still buffered
  function Received(g: Progress): seq<byte> {
    g.got + g.t.buf
  }

  // The segment would be taken as the end of the stream.
  predicate TakesFin(t: Tcp, s: Segment) {
    && t.phase == Established && t.active && s.dstPort == t.conn.localPort && s.srcPort == t.conn.peerPort
    && Has(s.flags, FIN)
  }

  /** A FIN is taken whatever its sequence number. Everything was received then exactly if it
      carries the number expected next. */
  lemma FinTakenIff(p: Peer, t: Tcp, got: seq<byte>, s: Segment)
    requires Short(p) && InOrder(p, t, got) && Genuine(p, s) && TakesFin(t, s) && !t.gotFin
    ensures Handle(t, s).gotFin && Handle(t, s).buf == t.buf
    ensures got + t.buf == p.stream <==> s.seqNo == t.conn.peerSeq
  {
    var k := |got| + |t.buf|;
    if s.seqNo == t.conn.peerSeq {
      SeqDistinct(p, k, |p.stream|);
      assert got + t.buf == p.stream[..k];
    }
  }

  // Once the end was taken nothing more is received.
  lemma AfterFin(p: Peer, g: Progress, e: Event)
    requires Short(p) && InOrder(p, g.t, g.got) && Allowed(p, g.t, e) && g.t.gotFin
    ensures Do(g, e).t.gotFin && Received(Do(g, e)) == Received(g)
  {
    match e {
      case Arrives(s) =>
        if Accepts(g.t, s) {
          AcceptedIsNext(p, g.t, g.got, s);
        } else {
          OtherwiseKeepsBuf(g.t, s);
        }
      case Takes(maxlen) =>
        var d := Delivered(g.t, maxlen);
        assert d + AfterTake(g.t, maxlen).buf == g.t.buf;
      case Sends(data) => SendKeeps(g.t, data);
      case _ =>
    }
  }

  lemma {:induction false} RunAfterFin(p: Peer, g: Progress, es: seq<Event>)
    requires Short(p) && InOrder(p, g.t, g.got) && WellUsed(p, g, es) && g.t.gotFin
    ensures Run(g, es).t.gotFin && Received(Run(g, es)) == Received(g)
    decreases |es|
  {
    if es == [] {
    } else {
      DoInOrder(p, g, es[0]);
      AfterFin(p, g, es[0]);
      RunAfterFin(p, Do(g, es[0]), es[1..]);
    }
  }

  /** What the end of the stream means, over every run: whatever else arrives, once a FIN was
      taken and the buffer is empty - when tcp_recv returns 0 - all of the peer's stream was
      delivered exactly if that FIN carried the sequence number expected then. */
  lemma EndOfStreamIff(p: Peer, t: Tcp, before: seq<Event>, fin: Segment, after: seq<Event>)
    requires Short(p) && WellUsed(p, Progress(Accept(t, p.local), []), before)
    requires var g := Run(Progress(Accept(t, p.local), []), before);
             && TakesFin(g.t, fin) && !g.t.gotFin && Genuine(p, fin)
             && WellUsed(p, Do(g, Arrives(fin)), after)
    ensures var g := Run(Progress(Accept(t, p.local), []), before);
            var r := Run(Do(g, Arrives(fin)), after);
            && r.t.gotFin
            && (r.t.buf == [] ==> (r.got == p.stream <==> fin.seqNo == g.t.conn.peerSeq))
  {
    var g0 := Progress(Accept(t, p.local), []);
    var g := Run(g0, before);
    RunInOrder(p, g0, before);
    FinTakenIff(p, g.t, g.got, fin);
    DoInOrder(p, g, Arrives(fin));
    RunAfterFin(p, Do(g, Arrives(fin)), after);
    var r := Run(Do(g, Arrives(fin)), after);
    assert r.t.buf == [] ==> r.got + r.t.buf == r.got;
  }

  // A peer sending one byte, and its end overtaking that byte
  const BRIEF: Peer := Peer(1000, 70, 0, [7])

  function Overtaking(): seq<Event> {
    HANDSHAKE + [Arrives(FromSender(2, FIN + ACK, [])), Arrives(FromSender(1, ACK, [7]))]
  }

  /** It is reported too early: from tcp_accept, every segment of the peer arrives, the FIN
      before the data, and tcp_recv has nothing to return and never will. */
  lemma FinCanOvertake(t: Tcp)
    ensures Short(BRIEF) && AllGenuine(BRIEF, Overtaking())
    ensures var r := Run(Progress(Accept(t, 70), []), Overtaking());
            r.t.gotFin && r.t.buf == [] && r.got == [] != BRIEF.stream
  {
    var g0, fin, data := Progress(Accept(t, 70), []), FromSender(2, FIN + ACK, []), FromSender(1, ACK, [7]);
    OvertakingIsGenuine();
    HandshakeDone(t);
    RunAppends(g0, HANDSHAKE, [Arrives(fin), Arrives(data)]);
    DataRefused(Run(g0, HANDSHAKE));
  }

  lemma OvertakingIsGenuine()
    ensures AllGenuine(BRIEF, Overtaking())
  {
    assert IsPiece(BRIEF, FromSender(1, ACK, [7]), 0);
  }

  lemma DataRefused(g: Progress)
    requires Holding(g, 0)
    ensures var r := Run(g, [Arrives(FromSender(2, FIN + ACK, [])), Arrives(FromSender(1, ACK, [7]))]);
            r.t.gotFin && r.t.buf == [] && r.got == []
  {
    var fin, data := FromSender(2, FIN + ACK, []), FromSender(1, ACK, [7]);
    TwoEvents(g, Arrives(fin), Arrives(data));
    var t1 := Handle(g.t, fin);
    assert t1.gotFin && t1.buf == [] && t1.conn.peerSeq == 3 && t1.phase == Established;
    assert Handle(t1, data) == t1;
  }

  // ------------------------------------------------------------------
  // Blocking calls: one network poll a turn, bringing a segment or nothing
  // ------------------------------------------------------------------

  function Polled(t: Tcp, poll: Option<Segment>): (t': Tcp)
    requires |t.buf| <= RECV_BUF_SIZE
    ensures |t'.buf| <= RECV_BUF_SIZE
  {
    if poll.Some? then Handle(t, poll.value) else t
  }

  // The wait of tcp_accept
  function AwaitConnection(t: Tcp, polls: seq<Option<Segment>>): Tcp
    requires |t.buf| <= RECV_BUF_SIZE
    decreases |polls|
  {
    if polls == [] then t.(phase := Closed)
    else
      var t1 := Polled(t, polls[0]);
      if t1.phase == Established then t1 else AwaitConnection(t1, polls[1..])
  }

  /** tcp_recv: state afterwards and bytes returned */
  function Recv(t: Tcp, maxlen: nat, polls: seq<Option<Segment>>): (r: Progress)
    requires |t.buf| <= RECV_BUF_SIZE
    ensures |r.t.buf| <= RECV_BUF_SIZE && |r.got| <= maxlen
    decreases |polls|
  {
    if polls == [] then Progress(t, [])
    else
      var t1 := Polled(t, polls[0]);
      if t1.buf != [] then Progress(AfterTake(t1, maxlen), Delivered(t1, maxlen))
      else if t1.gotFin then Progress(t1, [])
      else Recv(t1, maxlen, polls[1..])
  }

  // The wait of tcp_close
  function AwaitClose(t: Tcp, polls: seq<Option<Segment>>): Tcp
    requires |t.buf| <= RECV_BUF_SIZE
    decreases |polls|
  {
    if polls == [] then EndClose(t)
    else
      var t1 := Polled(t, polls[0]);
      if t1.phase == Closed then EndClose(t1) else AwaitClose(t1, polls[1..])
  }

  // What happens during a tcp_recv, as events
  function RecvEvents(t: Tcp, maxlen: nat, polls: seq<Option<Segment>>): seq<Event>
    requires |t.buf| <= RECV_BUF_SIZE
    decreases |polls|
  {
    if polls == [] then []
    else
      var t1 := Polled(t, polls[0]);
      var first := if polls[0].Some? then [Arrives(polls[0].value)] else [];
      first + if t1.buf != [] then [Takes(maxlen)] else if t1.gotFin then [] else RecvEvents(t1, maxlen, polls[1..])
  }

  lemma {:induction false} RunAppends(g: Progress, a: seq<Event>, b: seq<Event>)
    requires |g.t.buf| <= RECV_BUF_SIZE
    ensures Run(g, a + b) == Run(Run(g, a), b)
    decreases |a|
  {
    if a == [] {
      assert a + b == b;
    } else {
      RunAppends(Do(g, a[0]), a[1..], b);
      assert (a + b)[1..] == a[1..] + b;
    }
  }

  /** A tcp_recv is a run of arrivals, closed by one taking if it returns anything. */
  lemma {:induction false} RecvIsRun(t: Tcp, got: seq<byte>, maxlen: nat, polls: seq<Option<Segment>>)
    requires |t.buf| <= RECV_BUF_SIZE
    ensures var r := Recv(t, maxlen, polls);
            Run(Progress(t, got), RecvEvents(t, maxlen, polls)) == Progress(r.t, got + r.got)
    decreases |polls|
  {
    assert got + [] == got;
    if polls == [] {
    } else {
      var t1, g := Polled(t, polls[0]), Progress(t, got);
      var first := if polls[0].Some? then [Arrives(polls[0].value)] else [];
      assert Run(g, first) == Progress(t1, got);
      if t1.buf != [] {
        RunAppends(g, first, [Takes(maxlen)]);
      } else if t1.gotFin {
        RunAppends(g, first, []);
      } else {
        RecvIsRun(t1, got, maxlen, polls[1..]);
        RunAppends(g, first, RecvEvents(t1, maxlen, polls[1..]));
      }
    }
  }

  // ------------------------------------------------------------------
  // Sending
  // ------------------------------------------------------------------

  // The payloads of some segments, one after another
  function Payload(sent: seq<Sent>): seq<byte> {
    if sent == [] then [] else sent[0].data + Payload(sent[1..])
  }

  // The connection with its send sequence number n bytes on
  function Ahead(c: Conn, n: nat): Conn {
    c.(mySeq := (c.mySeq + n) % U32)
  }

  // Segment i is non-empty, fits a packet, and is numbered by the bytes before it.
  predicate WellNumbered(c: Conn, out: seq<Sent>, i: nat)
    requires i < |out|
  {
    && 0 < |out[i].data| <= MAX_PAYLOAD
    && out[i] == Addressed(Ahead(c, |Payload(out[..i])|), ACK + PSH, out[i].data)
  }

  // The segments' payloads make up the data; each is well numbered.
  ghost predicate Carries(c: Conn, out: seq<Sent>, data: seq<byte>) {
    Payload(out) == data && forall i :: 0 <= i < |out| ==> WellNumbered(c, out, i)
  }

  // The segments a tcp_send adds
  function Out(t: Tcp, data: seq<byte>): seq<Sent> {
    SendMoves(t, data);
    Send(t, data).sent[|t.sent|..]
  }

  lemma AheadAdds(c: Conn, n: nat, m: nat)
    ensures Ahead(Ahead(c, n), m) == Ahead(c, n + m)
  {
    assert ((c.mySeq + n) % U32 + m) % U32 == (c.mySeq + n + m) % U32;
  }

  lemma {:induction false} SendMoves(t: Tcp, data: seq<byte>)
    ensures t.sent <= Send(t, data).sent
    ensures Send(t, data).conn == if data == [] then t.conn else Ahead(t.conn, |data|)
    decreases |data|
  {
    if data == [] {
    } else {
      var n := Chunk(data);
      var t1 := Emit(t, ACK + PSH, data[..n]);
      assert t1.conn == Ahead(t.conn, n) && t.sent <= t1.sent;
      SendMoves(t1, data[n..]);
      AheadAdds(t.conn, n, |data| - n);
    }
  }

  lemma OutSplits(t: Tcp, data: seq<byte>)
    requires data != []
    ensures var n := Chunk(data);
            Out(t, data) == [Addressed(t.conn, ACK + PSH, data[..n])] + Out(Emit(t, ACK + PSH, data[..n]), data[n..])
  {
    var n := Chunk(data);
    SendMoves(Emit(t, ACK + PSH, data[..n]), data[n..]);
  }

  lemma PayloadCons(first: Sent, rest: seq<Sent>)
    ensures Payload([first] + rest) == first.data + Payload(rest)
  {
    assert ([first] + rest)[1..] == rest;
  }

  lemma PrefixOfCons(first: Sent, rest: seq<Sent>, i: nat)
    requires 0 < i <= |rest| + 1
    ensures ([first] + rest)[..i] == [first] + rest[..i - 1]
  {
  }

  lemma NumbersShift(c: Conn, first: Sent, out1: seq<Sent>, i: nat)
    requires 0 < i <= |out1| && WellNumbered(Ahead(c, |first.data|), out1, i - 1)
    ensures WellNumbered(c, [first] + out1, i)
  {
    PrefixOfCons(first, out1, i);
    PayloadCons(first, out1[..i - 1]);
    AheadAdds(c, |first.data|, |Payload(out1[..i - 1])|);
  }

  // One more segment in front
  lemma CarriesMore(c: Conn, first: Sent, out1: seq<Sent>, rest: seq<byte>)
    requires 0 < |first.data| <= MAX_PAYLOAD && first == Addressed(c, ACK + PSH, first.data)
    requires Carries(Ahead(c, |first.data|), out1, rest)
    ensures Carries(c, [first] + out1, first.data + rest)
  {
    forall i | 0 <= i <= |out1|
      ensures WellNumbered(c, [first] + out1, i)
    {
      if i > 0 {
        NumbersShift(c, first, out1, i);
      }
    }
    PayloadCons(first, out1);
  }

  /** tcp_send puts on the wire segments whose payloads make up the data, each within the
      maximum and numbered consecutively. */
  lemma {:induction false} SendCarries(t: Tcp, data: seq<byte>)
    ensures Carries(t.conn, Out(t, data), data)
    decreases |data|
  {
    if data == [] {
    } else {
      var n := Chunk(data);
      var t1 := Emit(t, ACK + PSH, data[..n]);
      SendCarries(t1, data[n..]);
      OutSplits(t, data);
      assert data == data[..n] + data[n..];
      CarriesMore(t.conn, Addressed(t.conn, ACK + PSH, data[..n]), Out(t1, data[n..]), data[n..]);
    }
  }

  // A segment as it comes out of Parse at the other end
  function Arriving(s: Sent, mac: seq<byte>): Segment {
    Segment(NET_MY_IP, mac, s.ends.localPort, s.ends.peerPort, s.ends.seqNo, s.flags, s.data)
  }

  function HandleAll(r: Tcp, out: seq<Sent>, mac: seq<byte>): (r': Tcp)
    requires |r.buf| <= RECV_BUF_SIZE
    ensures |r'.buf| <= RECV_BUF_SIZE
    decreases |out|
  {
    if out == [] then r else HandleAll(Handle(r, Arriving(out[0], mac)), out[1..], mac)
  }

  // r is the other end of t's connection and expects what t sends next.
  predicate Mirrors(r: Tcp, t: Tcp) {
    && r.phase == Established && r.active && r.conn.peerSeq == t.conn.mySeq
    && r.conn.localPort == t.conn.peerPort && r.conn.peerPort == t.conn.localPort
  }

  // One segment sent and received
  lemma ChunkArrives(t: Tcp, r: Tcp, d: seq<byte>, mac: seq<byte>)
    requires Mirrors(r, t) && 0 < |d| <= MAX_PAYLOAD && |r.buf| + |d| <= RECV_BUF_SIZE
    ensures var r' := Handle(r, Arriving(Addressed(t.conn, ACK + PSH, d), mac));
            Mirrors(r', Emit(t, ACK + PSH, d)) && r'.buf == r.buf + d
  {
    AcceptStores(r, Arriving(Addressed(t.conn, ACK + PSH, d), mac));
  }

  /** The two halves fit: what tcp_send emits, handled in order by the other end with room for
      it, adds exactly the data to its buffer, and both ends agree on what comes next. */
  lemma {:induction false} SentIsReceived(t: Tcp, r: Tcp, data: seq<byte>, mac: seq<byte>)
    requires Mirrors(r, t) && |r.buf| + |data| <= RECV_BUF_SIZE
    ensures var r' := HandleAll(r, Out(t, data), mac);
            r'.buf == r.buf + data && Mirrors(r', Send(t, data))
    decreases |data|
  {
    if data != [] {
      var n := Chunk(data);
      var t1, first := Emit(t, ACK + PSH, data[..n]), Addressed(t.conn, ACK + PSH, data[..n]);
      ChunkArrives(t, r, data[..n], mac);
      SentIsReceived(t1, Handle(r, Arriving(first, mac)), data[n..], mac);
      OutSplits(t, data);
      assert Out(t, data)[1..] == Out(t1, data[n..]);
      assert r.buf + data[..n] + data[n..] == r.buf + data;
    } else {
      assert r.buf + data == r.buf;
    }
  }
}
