/** tcp.c as it runs: one connection record and one receive buffer, updated in place. */
module TcpStack {
  import opened Bytes
  import opened Options
  import opened Segments
  import opened Strings
  import opened Tcp

  // tcp_conn_t
  class Connection {
    var peerIp: word32
    var peerMac: seq<byte>
    var peerPort: word16
    var localPort: word16
    var mySeq: word32
    var peerSeq: word32
    var connected: bool

    ghost function View(): Conn
      reads this
    {
      Conn(peerIp, peerMac, peerPort, localPort, mySeq, peerSeq, connected)
    }

    function Ends(): Ends
      reads this
      ensures Ends() == EndsOf(View())
    {
      Segments.Ends(peerIp, localPort, peerPort, mySeq, peerSeq)
    }

    constructor ()
      ensures View() == BLANK_CONN
    {
      peerIp, peerMac, peerPort, localPort := 0, Zeros(6), 0, 0;
      mySeq, peerSeq, connected := 0, 0, false;
    }

    // The record filled in from a SYN
    method Meet(s: Segment)
      modifies this
      ensures View() == Conn(s.srcIp, s.srcMac, s.srcPort, s.dstPort, FIRST_SEQ, (s.seqNo + 1) % U32, old(connected))
    {
      peerIp := s.srcIp;
      peerMac := s.srcMac;
      peerPort := s.srcPort;
      localPort := s.dstPort;
      peerSeq := (s.seqNo + 1) % U32;
      mySeq := FIRST_SEQ;
    }

    // The memset of tcp_accept
    method Clear()
      modifies this
      ensures View() == BLANK_CONN
    {
      peerIp, peerMac, peerPort, localPort := 0, Zeros(6), 0, 0;
      mySeq, peerSeq, connected := 0, 0, false;
    }
  }

  class Stack {
    var state: Phase
    var listenPort: word16
    var activeConn: Connection?
    const recvBuf: array<byte>
    var recvBufLen: nat
    var gotFin: bool
    // What was handed to the network card, destination and packet, and the segments it carries
    var wire: seq<(seq<byte>, seq<byte>)>
    ghost var sent: seq<Sent>

    ghost predicate Valid()
      reads this
    {
      && recvBuf.Length == RECV_BUF_SIZE && recvBufLen <= RECV_BUF_SIZE
      && (state != Phase.Closed ==> activeConn != null)
    }

    ghost function View(): (t: Tcp)
      requires Valid()
      reads this, activeConn, recvBuf
      ensures |t.buf| <= RECV_BUF_SIZE
    {
      Tcp(state, listenPort, activeConn != null, if activeConn == null then BLANK_CONN else activeConn.View(),
          recvBuf[..recvBufLen], gotFin, sent)
    }

    constructor ()
      ensures Valid() && fresh(recvBuf)
      ensures View() == Tcp(Phase.Closed, 0, false, BLANK_CONN, [], false, [])
    {
      state, listenPort, activeConn := Phase.Closed, 0, null;
      recvBuf := new byte[RECV_BUF_SIZE];
      recvBufLen, gotFin := 0, false;
      wire, sent := [], [];
    }

    // send_tcp_segment
    method SendSegment(conn: Connection, flags: byte, data: seq<byte>)
      requires Valid() && conn == activeConn
      modifies this`wire, this`sent, conn`mySeq
      ensures Valid() && View() == Emit(old(View()), flags, data)
    {
      ghost var t, d := View(), Clipped(data);
      TransmitFor(conn, flags, data);
      Renumber(conn, flags, |Clipped(data)|);
      assert conn.View() == t.conn.(mySeq := (t.conn.mySeq + Uses(flags, d)) % U32);
    }

    method TransmitFor(conn: Connection, flags: byte, data: seq<byte>)
      requires Valid() && conn == activeConn
      modifies this`wire, this`sent
      ensures Valid() && View() == old(View()).(sent := old(sent) + [Addressed(conn.View(), flags, Clipped(data))])
    {
      Transmit(conn.peerMac, conn.Ends(), flags, data);
    }

    // Moving the send sequence number on
    method Renumber(conn: Connection, flags: byte, len: nat)
      modifies conn`mySeq
      ensures conn.mySeq == (old(conn.mySeq) + if Has(flags, SYN) || Has(flags, FIN) then 1 else len) % U32
    {
      if Has(flags, SYN) || Has(flags, FIN) {
        conn.mySeq := (conn.mySeq + 1) % U32;
      } else {
        conn.mySeq := (conn.mySeq + len) % U32;
      }
    }

    // net_send_eth on the packet built
    method Transmit(mac: seq<byte>, ends: Ends, flags: byte, data: seq<byte>)
      modifies this`wire, this`sent
      ensures wire == old(wire) + [(mac, Packet(ends, flags, Clipped(data)))]
      ensures sent == old(sent) + [Sent(mac, ends, flags, Clipped(data))]
    {
      var packet := Build(ends, flags, data);
      wire := wire + [(mac, packet)];
      sent := sent + [Sent(mac, ends, flags, Clipped(data))];
    }

    // The copying into recv_buf
    method Store(data: seq<byte>)
      requires Valid()
      modifies this`recvBufLen, recvBuf
      ensures Valid() && recvBuf[..recvBufLen] == Stored(old(recvBuf[..recvBufLen]), data)
    {
      var at, copy := recvBufLen, |data|;
      if at + copy > RECV_BUF_SIZE {
        copy := RECV_BUF_SIZE - at;
      }
      ghost var before := recvBuf[..at];
      for i := 0 to copy
        invariant recvBufLen == at && recvBuf[..at + i] == before + data[..i]
      {
        recvBuf[at + i] := data[i];
      }
      assert data[..copy] == if at + |data| > RECV_BUF_SIZE then data[..RECV_BUF_SIZE - at] else data;
      recvBufLen := at + copy;
    }

    // tcp_handle_segment
    method HandleSegment(s: Segment)
      requires Valid()
      modifies this, activeConn, recvBuf
      ensures Valid() && View() == Handle(old(View()), s) && activeConn == old(activeConn)
    {
      if state == Listen && Has(s.flags, SYN) && s.dstPort == listenPort {
        Open(s);
        return;
      }
      if activeConn == null || s.dstPort != activeConn.localPort || s.srcPort != activeConn.peerPort {
        return;
      }
      match state {
        case SynRcvd =>
          if Has(s.flags, ACK) {
            state := Established;
            activeConn.connected := true;
          }
        case Established => ReceiveData(s);
        case Closing => Finish(s);
        case _ =>
      }
    }

    method Open(s: Segment)
      requires Valid() && state == Listen
      modifies this, activeConn
      ensures Valid() && View() == OpenConn(old(View()), s) && activeConn == old(activeConn)
    {
      activeConn.Meet(s);
      state := SynRcvd;
      SendSegment(activeConn, SYN + ACK, []);
    }

    method ReceiveData(s: Segment)
      requires Valid() && state == Established
      modifies this, activeConn, recvBuf
      ensures Valid() && View() == Receive(old(View()), s) && activeConn == old(activeConn)
    {
      if Has(s.flags, FIN) {
        activeConn.peerSeq := (s.seqNo + 1) % U32;
        gotFin := true;
        SendSegment(activeConn, ACK, []);
        return;
      }
      if |s.data| > 0 && s.seqNo == activeConn.peerSeq {
        Store(s.data);
        activeConn.peerSeq := (activeConn.peerSeq + |s.data|) % U32;
        SendSegment(activeConn, ACK, []);
      }
    }

    method Finish(s: Segment)
      requires Valid() && state == Closing
      modifies this, activeConn
      ensures Valid() && View() == FinishClose(old(View()), s) && activeConn == old(activeConn)
    {
      if Has(s.flags, FIN) {
        activeConn.peerSeq := (s.seqNo + 1) % U32;
        SendSegment(activeConn, ACK, []);
      }
      if Has(s.flags, ACK) {
        state := Phase.Closed;
      }
    }

    // net_poll, with the frame waiting at the card, if any
    method Poll(frame: seq<byte>)
      requires Valid() && Complete(frame)
      modifies this, activeConn, recvBuf
      ensures Valid() && View() == Polled(old(View()), Parse(frame)) && activeConn == old(activeConn)
    {
      var p := Parse(frame);
      if p.Some? {
        HandleSegment(p.value);
      }
    }

    // The state tcp_accept starts listening in
    method StartListening(port: word16, conn: Connection)
      requires Valid()
      modifies this, conn
      ensures Valid() && activeConn == conn && View() == Accept(old(View()), port)
    {
      conn.Clear();
      activeConn := conn;
      listenPort := port;
      state := Listen;
      recvBufLen := 0;
      gotFin := false;
    }

    // tcp_accept
    method AcceptOn(port: word16, conn: Connection, frames: seq<seq<byte>>) returns (ok: bool)
      requires Valid() && AllComplete(frames)
      modifies this, conn, recvBuf
      ensures Valid() && activeConn == conn
      ensures View() == AwaitConnection(Accept(old(View()), port), Parsed(frames))
      ensures ok <==> View().phase == Established
    {
      StartListening(port, conn);
      ok := AwaitPeer(frames);
    }

    // The wait of tcp_accept
    method AwaitPeer(frames: seq<seq<byte>>) returns (ok: bool)
      requires Valid() && AllComplete(frames)
      modifies this, activeConn, recvBuf
      ensures Valid() && activeConn == old(activeConn)
      ensures View() == AwaitConnection(old(View()), Parsed(frames))
      ensures ok <==> View().phase == Established
    {
      ghost var polls := Parsed(frames);
      ghost var goal := AwaitConnection(View(), polls);
      var i := 0;
      assert polls[0..] == polls;
      while i < |frames|
        invariant 0 <= i <= |frames| && Valid() && activeConn == old(activeConn)
        invariant goal == AwaitConnection(View(), polls[i..])
      {
        Tails(polls, i);
        Poll(frames[i]);
        if state == Established {
          return true;
        }
        i := i + 1;
      }
      state := Phase.Closed;
      return false;
    }

    // tcp_recv past its polls: hand out up to maxlen bytes, move the others down
    method Take(maxlen: nat) returns (bytes: seq<byte>)
      requires Valid()
      modifies this`recvBufLen, recvBuf
      ensures Valid() && View() == AfterTake(old(View()), maxlen) && bytes == Delivered(old(View()), maxlen)
    {
      var n := if recvBufLen > maxlen then maxlen else recvBufLen;
      bytes := recvBuf[..n];
      if recvBufLen > n {
        MoveToFront(n);
      }
      recvBufLen := recvBufLen - n;
    }

    // The memmove of tcp_recv
    method MoveToFront(n: nat)
      requires Valid() && n <= recvBufLen
      modifies recvBuf
      ensures recvBuf[..recvBufLen - n] == old(recvBuf[..recvBufLen][n..])
    {
      ghost var was := recvBuf[..];
      MemMove(recvBuf, 0, n, recvBufLen - n);
      MovedToFront(was, n, recvBufLen - n);
      assert was[n..n + (recvBufLen - n)] == was[..recvBufLen][n..];
    }

    // tcp_recv
    method ReceiveUpTo(maxlen: nat, frames: seq<seq<byte>>) returns (bytes: seq<byte>)
      requires Valid() && AllComplete(frames)
      modifies this, activeConn, recvBuf
      ensures Valid() && Progress(View(), bytes) == Recv(old(View()), maxlen, Parsed(frames))
      ensures activeConn == old(activeConn)
    {
      ghost var polls := Parsed(frames);
      ghost var goal := Recv(View(), maxlen, polls);
      var i := 0;
      assert polls[0..] == polls;
      while i < |frames|
        invariant 0 <= i <= |frames| && Valid() && activeConn == old(activeConn)
        invariant goal == Recv(View(), maxlen, polls[i..])
      {
        Tails(polls, i);
        Poll(frames[i]);
        if recvBufLen > 0 {
          bytes := Take(maxlen);
          return;
        }
        if gotFin {
          return [];
        }
        i := i + 1;
      }
      return [];
    }

    // tcp_send
    method SendAll(data: seq<byte>)
      requires Valid() && activeConn != null
      modifies this`wire, this`sent, activeConn`mySeq
      ensures Valid() && View() == Send(old(View()), data)
    {
      ghost var t := View();
      var done := 0;
      assert data[done..] == data;
      while done < |data|
        invariant 0 <= done <= |data| && Valid() && Send(t, data) == Send(View(), data[done..])
      {
        var chunk := if |data| - done > 1400 then 1400 else |data| - done;
        assert data[done..][..chunk] == data[done..done + chunk] && data[done..][chunk..] == data[done + chunk..];
        SendSegment(activeConn, ACK + PSH, data[done..done + chunk]);
        done := done + chunk;
      }
    }

    // tcp_close
    method Close(frames: seq<seq<byte>>)
      requires Valid() && activeConn != null && AllComplete(frames)
      modifies this, activeConn, recvBuf
      ensures Valid() && View() == AwaitClose(StartClose(old(View())), Parsed(frames)) && state == Phase.Closed
    {
      SendSegment(activeConn, FIN + ACK, []);
      state := Closing;
      AwaitClosed(frames);
    }

    // The wait of tcp_close, and its end
    method AwaitClosed(frames: seq<seq<byte>>)
      requires Valid() && activeConn != null && AllComplete(frames)
      modifies this, activeConn, recvBuf
      ensures Valid() && View() == AwaitClose(old(View()), Parsed(frames)) && state == Phase.Closed
    {
      ghost var polls := Parsed(frames);
      ghost var goal := AwaitClose(View(), polls);
      var i := 0;
      assert polls[0..] == polls;
      while i < |frames|
        invariant 0 <= i <= |frames| && Valid() && activeConn == old(activeConn)
        invariant goal == AwaitClose(View(), polls[i..])
      {
        Tails(polls, i);
        Poll(frames[i]);
        if state == Phase.Closed {
          break;
        }
        i := i + 1;
      }
      state := Phase.Closed;
      activeConn.connected := false;
    }
  }

  ghost predicate AllComplete(frames: seq<seq<byte>>) {
    forall i :: 0 <= i < |frames| ==> Complete(frames[i])
  }

  lemma Tails<T>(s: seq<T>, i: nat)
    requires i < |s|
    ensures s[i..] != [] && s[i..][0] == s[i] && s[i..][1..] == s[i + 1..]
  {
  }

  ghost function Parsed(frames: seq<seq<byte>>): seq<Option<Segment>>
    requires AllComplete(frames)
  {
    seq(|frames|, i requires 0 <= i < |frames| => Parse(frames[i]))
  }
}
