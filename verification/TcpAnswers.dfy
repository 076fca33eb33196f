/** What TCP answers: exactly which segment every segment received is answered with, and what the
    acknowledgements mean over a run (sections 3.5 and 3.10.7 of RFC 9293). */
module TcpAnswers {
  import opened Bytes
  import opened Options
  import opened Segments
  import opened Tcp
  import opened Wire

  // ------------------------------------------------------------------
  // One segment
  // ------------------------------------------------------------------

  predicate OfConnection(t: Tcp, s: Segment) {
    t.active && s.dstPort == t.conn.localPort && s.srcPort == t.conn.peerPort
  }

  predicate IsSyn(port: word16, s: Segment) {
    s.flags / 2 % 2 == 1 && s.dstPort == port
  }

  predicate Acks(s: Segment) {
    s.flags / 16 % 2 == 1
  }

  predicate TakesSyn(t: Tcp, s: Segment) {
    t.phase == Listen && IsSyn(t.listenPort, s)
  }

  predicate TakesData(t: Tcp, s: Segment) {
    t.phase == Established && OfConnection(t, s) && s.flags % 2 == 0 && s.data != [] && s.seqNo == t.conn.peerSeq
  }

  predicate TakesEnd(t: Tcp, s: Segment) {
    (t.phase == Established || t.phase == Closing) && OfConnection(t, s) && s.flags % 2 == 1
  }

  // A bare ACK to the peer
  function AckFor(t: Tcp, next: word32): Sent {
    Sent(t.conn.peerMac, Ends(t.conn.peerIp, t.conn.localPort, t.conn.peerPort, t.conn.mySeq, next), 16, [])
  }

  /** What is sent in answer to a segment, in every state: to a SYN taken, one SYN+ACK numbered
      0x1000 to its sender; to data or a FIN taken, one ACK to the peer; to anything else nothing.
      Each acknowledges exactly what is expected from then on. */
  lemma Answers(t: Tcp, s: Segment, t': Tcp)
    requires |t.buf| <= RECV_BUF_SIZE && t' == Handle(t, s)
    ensures TakesSyn(t, s) ==>
              && t'.conn.peerSeq == (s.seqNo + 1) % U32
              && var ends := Ends(s.srcIp, s.dstPort, s.srcPort, 0x1000, t'.conn.peerSeq);
                 t'.sent == t.sent + [Sent(s.srcMac, ends, 18, [])]
    ensures TakesData(t, s) ==>
              t'.conn.peerSeq == (s.seqNo + |s.data|) % U32 && t'.sent == t.sent + [AckFor(t, t'.conn.peerSeq)]
    ensures TakesEnd(t, s) ==>
              t'.conn.peerSeq == (s.seqNo + 1) % U32 && t'.sent == t.sent + [AckFor(t, t'.conn.peerSeq)]
    ensures !TakesSyn(t, s) && !TakesData(t, s) && !TakesEnd(t, s) ==>
              t'.conn.peerSeq == t.conn.peerSeq && t'.sent == t.sent
  {
  }

  /** And where every segment leads: the SYN opens, the first ACK establishes, an ACK after tcp_close
      closes; a FIN ends the stream of an established connection; data taken is kept as far as the
      buffer reaches. The own sequence number moves past the SYN only. */
  lemma Moves(t: Tcp, s: Segment, t': Tcp)
    requires |t.buf| <= RECV_BUF_SIZE && t' == Handle(t, s)
    ensures t'.phase == if TakesSyn(t, s) then SynRcvd
                        else if t.phase == SynRcvd && OfConnection(t, s) && Acks(s) then Established
                        else if t.phase == Closing && OfConnection(t, s) && Acks(s) then Closed
                        else t.phase
    ensures t'.gotFin <==> t.gotFin || (t.phase == Established && TakesEnd(t, s))
    ensures t.buf <= t'.buf && |t'.buf| <= 4096
    ensures !TakesData(t, s) ==> t'.buf == t.buf
    ensures TakesData(t, s) ==> t'.buf == t.buf + s.data || (|t'.buf| == 4096 && t'.buf <= t.buf + s.data)
    ensures t'.conn.mySeq == if TakesSyn(t, s) then 0x1001 else t.conn.mySeq
    ensures TakesSyn(t, s) ==>
              && t'.conn.peerIp == s.srcIp && t'.conn.peerMac == s.srcMac
              && t'.conn.peerPort == s.srcPort && t'.conn.localPort == s.dstPort
    ensures !TakesSyn(t, s) ==>
              t'.conn == t.conn.(peerSeq := t'.conn.peerSeq,
                                 connected := t.conn.connected || (t.phase == SynRcvd && t'.phase == Established))
  {
    if TakesData(t, s) {
      StoredIsPrefix(t.buf, s.data);
    }
  }

  lemma StoredIsPrefix(buf: seq<byte>, data: seq<byte>)
    requires |buf| <= RECV_BUF_SIZE
    ensures var b := Stored(buf, data);
            buf <= b && (b == buf + data || (|b| == 4096 && b <= buf + data))
  {
  }

  /** On the wire: the packet of an acknowledgement carries the number in bytes 28 to 31, most
      significant first. */
  lemma AckOnWire(sent: Sent)
    requires |sent.data| <= 1400
    ensures Holds(Packet(sent.ends, sent.flags, sent.data), 28, Big(sent.ends.ackNo, 4))
  {
    var macs := Zeros(6);
    PacketIsWritten(sent.ends, sent.flags, sent.data, Reply(macs, sent.ends, sent.flags, sent.data), macs);
  }

  /** tcp_close sends one FIN+ACK with both current numbers, which uses up one of its own. */
  lemma CloseSends(t: Tcp)
    ensures var t' := StartClose(t);
            && t'.phase == Closing && t'.buf == t.buf && t'.gotFin == t.gotFin
            && t'.sent == t.sent + [AckFor(t, t.conn.peerSeq).(flags := 17)]
            && t'.conn == t.conn.(mySeq := (t.conn.mySeq + 1) % U32)
  {
  }

  // ------------------------------------------------------------------
  // Runs
  // ------------------------------------------------------------------

  // The connection is open, and the last segment sent acknowledges what is expected next.
  predicate LastAcks(t: Tcp) {
    t.phase in {SynRcvd, Established, Closing} ==>
      t.sent != [] && t.sent[|t.sent| - 1].ends.ackNo == t.conn.peerSeq
  }

  lemma HandleAcks(t: Tcp, s: Segment)
    requires |t.buf| <= RECV_BUF_SIZE && LastAcks(t)
    ensures LastAcks(Handle(t, s))
  {
    Answers(t, s, Handle(t, s));
    Moves(t, s, Handle(t, s));
  }

  lemma {:induction false} SendAcks(t: Tcp, data: seq<byte>)
    requires LastAcks(t)
    ensures LastAcks(Send(t, data))
    decreases |data|
  {
    if data == [] {
    } else {
      var n := Chunk(data);
      SendAcks(Emit(t, ACK + PSH, data[..n]), data[n..]);
    }
  }

  lemma {:induction false} RunAcks(g: Progress, es: seq<Event>)
    requires |g.t.buf| <= RECV_BUF_SIZE && LastAcks(g.t)
    ensures LastAcks(Run(g, es).t)
    decreases |es|
  {
    if es == [] {
    } else {
      match es[0] {
        case Arrives(s) => HandleAcks(g.t, s);
        case Sends(data) => SendAcks(g.t, data);
        case _ =>
      }
      RunAcks(Do(g, es[0]), es[1..]);
    }
  }

  /** The acknowledgements tell the truth: over every run from tcp_accept in which what is accepted
      fits, the last segment sent on an open connection acknowledges exactly the bytes of the
      peer's stream received so far, and after its FIN the whole stream and the FIN. */
  lemma AcksAreTrue(p: Peer, t: Tcp, es: seq<Event>)
    requires Short(p) && WellUsed(p, Progress(Accept(t, p.local), []), es)
    ensures var r := Run(Progress(Accept(t, p.local), []), es);
            r.t.phase == SynRcvd || r.t.phase == Established ==>
              && r.t.sent != []
              && r.t.sent[|r.t.sent| - 1].ends.ackNo ==
                   SeqOf(p, if r.t.gotFin then |p.stream| + 1 else |Received(r)|)
  {
    var g := Progress(Accept(t, p.local), []);
    RunAcks(g, es);
    RunInOrder(p, g, es);
  }

  /** Without room they do not: a segment that overflows the buffer is acknowledged whole, bytes lost
      included. */
  lemma OverflowIsAcked(p: Peer, t: Tcp, got: seq<byte>, s: Segment)
    requires Short(p) && InOrder(p, t, got) && Genuine(p, s) && Accepts(t, s) && !Room(t, s)
    ensures var t' := Handle(t, s);
            && |got + t'.buf| < |got + t.buf + s.data|
            && t'.sent == t.sent + [AckFor(t, SeqOf(p, |got + t.buf + s.data|))]
  {
    AcceptedIsNext(p, t, got, s);
    SeqAdds(p, |got| + |t.buf|, |s.data|);
    Answers(t, s, Handle(t, s));
    Moves(t, s, Handle(t, s));
  }

  // ------------------------------------------------------------------
  // tcp_accept
  // ------------------------------------------------------------------

  predicate SynPoll(port: word16, poll: Option<Segment>) {
    poll.Some? && IsSyn(port, poll.value)
  }

  // The poll brings an ACK of the connection the SYN s opened.
  predicate AckPoll(s: Segment, poll: Option<Segment>) {
    poll.Some? && Acks(poll.value) && poll.value.srcPort == s.srcPort && poll.value.dstPort == s.dstPort
  }

  // The first SYN for the port comes in poll i.
  ghost predicate FirstSyn(port: word16, polls: seq<Option<Segment>>, i: nat) {
    i < |polls| && SynPoll(port, polls[i]) && forall h :: 0 <= h < i ==> !SynPoll(port, polls[h])
  }

  lemma {:induction false} AwaitAck(t: Tcp, s: Segment, polls: seq<Option<Segment>>)
    requires |t.buf| <= RECV_BUF_SIZE && t.phase == SynRcvd && t.active
    requires t.conn.localPort == s.dstPort && t.conn.peerPort == s.srcPort
    ensures AwaitConnection(t, polls).phase == Established <==>
              exists j :: 0 <= j < |polls| && AckPoll(s, polls[j])
    ensures var t' := AwaitConnection(t, polls);
            t'.phase == Established ==> t' == t.(phase := Established, conn := t.conn.(connected := true))
    decreases |polls|
  {
    if polls == [] {
    } else if !AckPoll(s, polls[0]) {
      assert Polled(t, polls[0]) == t;
      AwaitAck(t, s, polls[1..]);
      assert forall j :: 0 < j < |polls| ==> polls[j] == polls[1..][j - 1];
    }
  }

  lemma {:induction false} AwaitSyn(t: Tcp, polls: seq<Option<Segment>>, i: nat)
    requires |t.buf| <= RECV_BUF_SIZE && t.phase == Listen && FirstSyn(t.listenPort, polls, i)
    ensures AwaitConnection(t, polls) == AwaitConnection(Handle(t, polls[i].value), polls[i + 1..])
    decreases |polls|
  {
    if i > 0 {
      assert !SynPoll(t.listenPort, polls[0]) && Polled(t, polls[0]) == t;
      assert forall h :: 0 <= h < |polls| - 1 ==> polls[1..][h] == polls[h + 1];
      AwaitSyn(t, polls[1..], i - 1);
      assert polls[1..][i - 1 + 1..] == polls[i + 1..];
    } else {
      Moves(t, polls[0].value, Handle(t, polls[0].value));
    }
  }

  lemma {:induction false} NobodyCalls(t: Tcp, polls: seq<Option<Segment>>)
    requires |t.buf| <= RECV_BUF_SIZE && t.phase == Listen
    requires forall h :: 0 <= h < |polls| ==> !SynPoll(t.listenPort, polls[h])
    ensures AwaitConnection(t, polls).phase == Closed
    decreases |polls|
  {
    if polls == [] {
    } else {
      assert Polled(t, polls[0]) == t;
      NobodyCalls(t, polls[1..]);
    }
  }

  /** tcp_accept succeeds exactly if, behind the first SYN for the port, an ACK comes from the same
      port, and then the connection is to the SYN's sender with nothing received yet. */
  lemma AcceptsIff(t: Tcp, port: word16, polls: seq<Option<Segment>>, i: nat)
    requires FirstSyn(port, polls, i)
    ensures var s, r := polls[i].value, AwaitConnection(Accept(t, port), polls);
            && (r.phase == Established <==> exists j :: i < j < |polls| && AckPoll(s, polls[j]))
            && (r.phase == Established ==>
                  && r.conn == Conn(s.srcIp, s.srcMac, s.srcPort, port, 0x1001, (s.seqNo + 1) % U32, true)
                  && r.buf == [] && !r.gotFin)
  {
    var t0, s, rest := Accept(t, port), polls[i].value, polls[i + 1..];
    var t1 := Handle(t0, s);
    AwaitSyn(t0, polls, i);
    Answers(t0, s, t1);
    Moves(t0, s, t1);
    AwaitAck(t1, s, rest);
    assert forall j :: i < j < |polls| ==> polls[j] == rest[j - i - 1];
    assert forall j :: 0 <= j < |rest| ==> rest[j] == polls[j + i + 1];
  }

  // ------------------------------------------------------------------
  // tcp_recv
  // ------------------------------------------------------------------

  // The state after some polls
  function After(t: Tcp, polls: seq<Option<Segment>>): (t': Tcp)
    requires |t.buf| <= RECV_BUF_SIZE
    ensures |t'.buf| <= RECV_BUF_SIZE
    decreases |polls|
  {
    if polls == [] then t else After(Polled(t, polls[0]), polls[1..])
  }

  // There is something to return: data or the end of the stream.
  predicate Ready(t: Tcp) {
    t.buf != [] || t.gotFin
  }

  // Poll i is the first with something to return behind it.
  ghost predicate FirstReady(t: Tcp, polls: seq<Option<Segment>>, i: nat)
    requires |t.buf| <= RECV_BUF_SIZE
  {
    i < |polls| && Ready(After(t, polls[..i + 1])) && forall j :: 0 < j <= i ==> !Ready(After(t, polls[..j]))
  }

  function Least(a: nat, b: nat): nat {
    if a < b then a else b
  }

  /** tcp_recv returns after the first poll that leaves data or the end of the stream: as much of the
      data as was asked for, from its front, the rest staying. */
  lemma {:induction false} RecvReturns(t: Tcp, maxlen: nat, polls: seq<Option<Segment>>, i: nat)
    requires |t.buf| <= RECV_BUF_SIZE && FirstReady(t, polls, i)
    ensures var t1, r := After(t, polls[..i + 1]), Recv(t, maxlen, polls);
            var n := Least(maxlen, |t1.buf|);
            r.got == t1.buf[..n] && r.t == t1.(buf := t1.buf[n..])
    decreases i
  {
    AfterCons(t, polls, i + 1);
    if i == 0 {
      assert polls[1..][..0] == [];
    } else {
      AfterCons(t, polls, 1);
      assert polls[1..][..0] == [];
      forall j | 0 < j <= i - 1
        ensures !Ready(After(Polled(t, polls[0]), polls[1..][..j]))
      {
        AfterCons(t, polls, j + 1);
      }
      assert !Ready(After(t, polls[..1]));
      RecvReturns(Polled(t, polls[0]), maxlen, polls[1..], i - 1);
    }
  }

  lemma AfterCons(t: Tcp, polls: seq<Option<Segment>>, n: nat)
    requires |t.buf| <= RECV_BUF_SIZE && 0 < n <= |polls|
    ensures After(t, polls[..n]) == After(Polled(t, polls[0]), polls[1..][..n - 1])
  {
    assert polls[..n][1..] == polls[1..][..n - 1];
  }

  /** And it returns nothing, with all polls done, if no poll leaves any. */
  lemma {:induction false} RecvTimesOut(t: Tcp, maxlen: nat, polls: seq<Option<Segment>>)
    requires |t.buf| <= RECV_BUF_SIZE
    requires forall j :: 0 < j <= |polls| ==> !Ready(After(t, polls[..j]))
    ensures Recv(t, maxlen, polls) == Progress(After(t, polls), [])
    decreases |polls|
  {
    if polls == [] {
    } else {
      AfterCons(t, polls, 1);
      assert polls[1..][..0] == [] && !Ready(After(t, polls[..1]));
      forall j | 0 < j <= |polls| - 1
        ensures !Ready(After(Polled(t, polls[0]), polls[1..][..j]))
      {
        AfterCons(t, polls, j + 1);
        assert !Ready(After(t, polls[..j + 1]));
      }
      RecvTimesOut(Polled(t, polls[0]), maxlen, polls[1..]);
    }
  }
}
