/** What an arriving segment does to an endpoint, exactly (kernel/net/tcp.c:645-793): which segments are taken at
    all, what acknowledgements do to the sending half, and which bytes are held afterwards. */
module TcpArrival {
  import opened TcpSpec
  import opened TcpInvariant
  import opened TcpEndpoint
  import opened TcpSegments

  function Space(r: Rcv): nat { if |r.buf| <= 131072 then 131072 - |r.buf| else 0 }

  predicate InWindow(r: Rcv, q: nat) { r.nxt <= q < r.nxt + Space(r) }

  /** The acceptance test of RFC 793 (section 3.3): some byte of the segment is in the window, or a segment without
      data is at its left edge or inside it. */
  lemma AcceptableIff(r: Rcv, g: Segment)
    ensures g.data == [] ==> (SeqAcceptable(r, g) <==> g.sq == r.nxt || InWindow(r, g.sq))
    ensures g.data != [] ==>
              (SeqAcceptable(r, g) <==> exists q: nat :: InWindow(r, q) && g.sq <= q < g.sq + |g.data|)
  {
    if g.data != [] && SeqAcceptable(r, g) { assert InWindow(r, Max(g.sq, r.nxt)); }
  }

  /** A segment that gets past the checks, up to its acknowledgement number. */
  predicate Passes(p: Pcb, g: Segment) {
    !p.state.Closed? && SeqAcceptable(p.rcv, g) && !g.rst && !g.syn && g.isAck && g.ack <= p.snd.nxt
  }

  // ---- what output leaves alone --------------------------------------------------------------------

  /** All but what sending changes. */
  predicate SameSnd(s: Snd, s': Snd) {
    s' == s.(nxt := s'.nxt, rtoArmed := s'.rtoArmed, retryArmed := s'.retryArmed, finSent := s'.finSent,
             recover := s'.recover)
  }

  predicate SameRcv(r: Rcv, r': Rcv) {
    && r'.nxt == r.nxt && r'.buf == r.buf && r'.ooo == r.ooo
    && r'.hasFin == r.hasFin && r'.finSeq == r.finSeq && r'.finRcvd == r.finRcvd
  }

  lemma OutputSame(p: Pcb, room: nat)
    requires p.snd.mss >= 1 && p.snd.una <= p.snd.nxt
    ensures var q := Output(p, room).p;
            && SameSnd(p.snd, q.snd) && SameRcv(p.rcv, q.rcv) && q.state == p.state && q.err == p.err
            && q.snd.nxt >= p.snd.nxt && (q.snd.finSent && !p.snd.finSent ==> q.snd.nxt > p.snd.nxt)
  {
    if MaySend(p.state) {
      hide OutputLoop, SendWindow, MakeSeg;
      LoopSame(p, SendWindow(p.snd), room);
      OutputLoopShape(p, SendWindow(p.snd), room);
    }
  }

  lemma {:induction false} LoopSame(p: Pcb, wnd: nat, room: nat)
    requires p.snd.mss >= 1 && p.snd.una <= p.snd.nxt
    ensures SameSnd(p.snd, OutputLoop(p, wnd, room).p.snd)
    decreases p.snd.una + |p.snd.buf| - p.snd.nxt
  {
    NextMoveAdvances(p, wnd, room);
    var m := NextMove(p, wnd, room);
    if !m.Stop? { LoopSame(m.p, wnd, if m.Sent? then room - 1 else room); }
  }

  // ---- the acknowledgement ---------------------------------------------------------------------------

  /** A duplicate: nothing new, no data, the same window, while something is in flight. */
  predicate Duplicate(s: Snd, g: Segment) { g.ack == s.una < s.nxt && g.data == [] && g.wnd == s.wnd }

  /** What an acknowledgement changes before the window is looked at. */
  predicate AckedFrom(s: Snd, g: Segment, s': Snd) {
    var further := g.ack > s.una;
    && s'.una == Max(s.una, g.ack) && s'.buf == s.buf[if further then Min(g.ack - s.una, |s.buf|) else 0..]
    && s'.wnd == s.wnd && s'.wl1 == s.wl1 && s'.wl2 == s.wl2 && s'.mss == s.mss && s'.finQueued == s.finQueued
    && s'.retries == (if further then 0 else s.retries)
    && s'.dupAcks == (if further then 0 else if Duplicate(s, g) then s.dupAcks + 1 else s.dupAcks)
    && s'.sacked == (if further then NoteSacked(TrimSacked(s.sacked, 0, g.ack), g.sacks, g.ack, s.nxt)
                     else if Duplicate(s, g) then NoteSacked(s.sacked, g.sacks, s.una, s.nxt)
                     else s.sacked)
  }

  lemma AckStageIs(p: Pcb, g: Segment, room: nat)
    requires p.snd.mss >= 1 && p.snd.una <= p.snd.nxt && g.ack <= p.snd.nxt
    ensures var q := AckStage(p, g, room).p;
            && AckedFrom(p.snd, g, q.snd) && SameRcv(p.rcv, q.rcv) && q.state == p.state && q.err == p.err
            && q.snd.una <= q.snd.nxt
            && (!FinAcked(p.snd) ==>
                  (FinAcked(q.snd) <==> p.snd.finSent && p.snd.una < g.ack == p.snd.nxt))
  {
    hide Output, NoteSacked, TrimSacked;
    if g.ack <= p.snd.una && IsDupAck(p.snd, g) {
      var s := p.snd.(sacked := NoteSacked(p.snd.sacked, g.sacks, p.snd.una, p.snd.nxt),
                      dupAcks := p.snd.dupAcks + 1);
      OutputSame(p.(snd := s.(recover := s.nxt, nxt := s.una, finSent := false)), room);
      OutputSame(p.(snd := s), room);
    }
  }

  /** The same with the window: a segment that is not older than the last one that set it sets it. */
  predicate Acked(s: Snd, g: Segment, s': Snd) {
    var newer := g.sq > s.wl1 || (g.sq == s.wl1 && g.ack >= s.wl2);
    && AckedFrom(s, g, s'.(wnd := s.wnd, wl1 := s.wl1, wl2 := s.wl2))
    && s'.wnd == (if newer then g.wnd else s.wnd)
    && s'.wl1 == (if newer then g.sq else s.wl1) && s'.wl2 == (if newer then g.ack else s.wl2)
  }

  lemma AbsorbedSame(p: Pcb, g: Segment, wnd: nat, mem: bool, room: nat)
    requires Sorted(p.rcv.ooo, 0) && p.snd.mss >= 1 && p.snd.una <= p.snd.nxt
    requires g.data != [] ==> p.rcv.nxt < g.sq + |g.data|
    ensures var q := Absorbed(p, g, wnd, mem, room).p;
            SameSnd(p.snd, q.snd) && q.err == p.err && (q.state.Closed? <==> p.state.Closed?)
  {
    DataSame(p, g, wnd, mem);
    var d := DataStage(p, g, wnd, mem);
    hide DataStage, Output;
    var p1 := FinStage(d.p, g);
    assert p1.snd == p.snd && p1.err == p.err && (p1.state.Closed? <==> p.state.Closed?);
    hide FinStage;
    ReplySame(p1, p1.rcv.finRcvd != d.p.rcv.finRcvd, d.when, d.taken);
    hide Reply;
    OutputSame(Reply(p1, p1.rcv.finRcvd != d.p.rcv.finRcvd, d.when, d.taken).p, room);
  }

  lemma DataSame(p: Pcb, g: Segment, wnd: nat, mem: bool)
    requires Sorted(p.rcv.ooo, 0) && (g.data != [] ==> p.rcv.nxt < g.sq + |g.data|)
    ensures var d := DataStage(p, g, wnd, mem).p;
            d.snd == p.snd && d.err == p.err && (d.state.Closed? <==> p.state.Closed?)
  {
    hide TakeData, Drain;
  }

  lemma ReplySame(p: Pcb, finNow: bool, when: AckWhen, taken: nat)
    ensures var q := Reply(p, finNow, when, taken).p;
            q.snd == p.snd && SameRcv(p.rcv, q.rcv) && q.state == p.state && q.err == p.err
  {
    hide MakeSeg;
  }

  lemma AckedStateSame(p: Pcb)
    ensures var q := AckedState(p);
            && q.snd == p.snd.(rtoArmed := q.snd.rtoArmed) && q.rcv.nxt == p.rcv.nxt && q.rcv.buf == p.rcv.buf
            && (q.state.Closed? <==> p.state.Closed? || (p.state.LastAck? && FinAcked(p.snd)))
            && (!q.state.Closed? ==> q.rcv == p.rcv && q.snd == p.snd && (TakesData(q.state) <==> TakesData(p.state)))
            && q.err == p.err
  {
  }

  /** The endpoint once the acknowledgement field has been dealt with. */
  function AfterAck(p: Pcb, g: Segment, room: nat): Pcb
    requires p.snd.mss >= 1 && p.snd.una <= p.snd.nxt
  {
    var p1 := AckStage(p, g, room).p;
    AckedState(p1.(snd := WndUpdate(p1.snd, g)))
  }

  lemma AfterAckIs(p: Pcb, g: Segment, room: nat)
    requires p.snd.mss >= 1 && p.snd.una <= p.snd.nxt && g.ack <= p.snd.nxt && !p.state.Closed?
    ensures var q := AfterAck(p, g, room);
            && Acked(p.snd, g, q.snd) && q.err == p.err && q.snd.una <= q.snd.nxt
            && (!q.state.Closed? ==> SameRcv(p.rcv, q.rcv) && (TakesData(q.state) <==> TakesData(p.state)))
            && (!FinAcked(p.snd) ==>
                  (q.state.Closed? <==> p.state.LastAck? && p.snd.finSent && p.snd.una < g.ack == p.snd.nxt))
            && (q.state.Closed? ==> p.state.LastAck?)
  {
    AckStageIs(p, g, room);
    var p1 := AckStage(p, g, room).p;
    var p1' := p1.(snd := WndUpdate(p1.snd, g));
    hide AckStage, AckedState;
    AckedStateSame(p1');
    NewWindow(p.snd, g, p1.snd, AckedState(p1').snd);
    WndOnly(p1.snd, g);
    assert FinAcked(p1'.snd) == FinAcked(p1.snd);
    hide AckedFrom, WndUpdate, Acked;
  }

  lemma NewWindow(s: Snd, g: Segment, s1: Snd, s2: Snd)
    requires AckedFrom(s, g, s1) && s2 == WndUpdate(s1, g).(rtoArmed := s2.rtoArmed)
    ensures Acked(s, g, s2)
  {
    hide NoteSacked, TrimSacked;
  }

  /** The two parts of a segment that passes the checks. */
  lemma RxPasses(p: Pcb, g: Segment, env: Env)
    requires WellFormed(p) && Passes(p, g)
    ensures var p2 := AfterAck(p, g, env.room1);
            && p2.snd.mss >= 1 && p2.snd.una <= p2.snd.nxt
            && (p.state.LastAck? && p2.state.Closed? ==>
                  Rx(p, g, env) == Step(p2, AckStage(p, g, env.room1).out))
            && (!(p.state.LastAck? && p2.state.Closed?) ==>
                  && Sorted(p2.rcv.ooo, 0) && (g.data != [] ==> p2.rcv.nxt < g.sq + |g.data|)
                  && var s3 := Absorbed(p2, g, RcvSpace(p.rcv), env.mem, env.room2);
                     Rx(p, g, env) == Step(s3.p, AckStage(p, g, env.room1).out + s3.out))
  {
    AckStageShape(p, g, env.room1);
    hide AckStage, Absorbed, WndUpdate, AckedState, Sorted;
    AckedStateSame(AckStage(p, g, env.room1).p.(snd := WndUpdate(AckStage(p, g, env.room1).p.snd, g)));
    WndOnly(AckStage(p, g, env.room1).p.snd, g);
  }

  lemma WndOnly(s: Snd, g: Segment)
    ensures WndUpdate(s, g) == s.(wnd := WndUpdate(s, g).wnd, wl1 := WndUpdate(s, g).wl1, wl2 := WndUpdate(s, g).wl2)
  {
  }

  /** What every segment that passes the checks does to the sending half: its acknowledgement takes what it covers
      off the buffer and off the table, its blocks are noted, its window is taken over if it is not older. */
  lemma RxAcks(p: Pcb, g: Segment, env: Env)
    requires WellFormed(p) && Passes(p, g)
    ensures Acked(p.snd, g, Rx(p, g, env).p.snd)
  {
    hide AfterAck, Rx, Absorbed, AckStage, Acked, SameSnd, Sorted, SeqAcceptable;
    RxPasses(p, g, env);
    AfterAckIs(p, g, env.room1);
    var p2 := AfterAck(p, g, env.room1);
    if !(p.state.LastAck? && p2.state.Closed?) {
      AbsorbedSame(p2, g, RcvSpace(p.rcv), env.mem, env.room2);
      AckedSame(p.snd, g, p2.snd, Rx(p, g, env).p.snd);
    }
  }

  lemma AckedSame(s: Snd, g: Segment, s1: Snd, s2: Snd)
    requires Acked(s, g, s1) && SameSnd(s1, s2)
    ensures Acked(s, g, s2)
  {
    hide NoteSacked, TrimSacked;
  }

  /** The acknowledgement of the FIN that ends a connection. */
  predicate EndsLastAck(p: Pcb, g: Segment) {
    Passes(p, g) && p.state.LastAck? && p.snd.finSent && p.snd.una < g.ack == p.snd.nxt
  }

  /** An arriving segment closes the connection exactly if it is acceptable and a reset or a SYN, or acknowledges
      the FIN in LAST_ACK; only the first two leave an error behind. */
  lemma ClosesIff(p: Pcb, g: Segment, env: Env)
    requires WellFormed(p) && !p.state.Closed? && StateOk(p, true)
    ensures var s := Rx(p, g, env);
            var reset := SeqAcceptable(p.rcv, g) && (g.rst || g.syn);
            && (s.p.state.Closed? <==> reset || EndsLastAck(p, g))
            && s.p.err == (if reset && p.err.NoError? then ECONNRESET else p.err)
  {
    if Passes(p, g) {
      ClosesPassing(p, g, env);
    } else {
      hide SackBlocks, Absorbed, SeqAcceptable;
    }
  }

  lemma ClosesPassing(p: Pcb, g: Segment, env: Env)
    requires WellFormed(p) && Passes(p, g) && StateOk(p, true)
    ensures Rx(p, g, env).p.state.Closed? <==> EndsLastAck(p, g)
    ensures Rx(p, g, env).p.err == p.err
  {
    hide AfterAck, Rx, Absorbed, AckStage, Acked, SameSnd, Sorted, SeqAcceptable;
    RxPasses(p, g, env);
    AfterAckIs(p, g, env.room1);
    var p2 := AfterAck(p, g, env.room1);
    if !(p.state.LastAck? && p2.state.Closed?) { AbsorbedSame(p2, g, RcvSpace(p.rcv), env.mem, env.room2); }
  }

  /** Any other segment changes nothing that matters. One from outside the window, or that acknowledges what was
      never sent, is answered with an acknowledgement, unless it is a reset. */
  lemma RejectedIs(p: Pcb, g: Segment, env: Env)
    requires WellFormed(p) && !p.state.Closed? && !Passes(p, g)
    requires !(SeqAcceptable(p.rcv, g) && (g.rst || g.syn))
    ensures var s := Rx(p, g, env);
            && s.p.snd == p.snd && SameRcv(p.rcv, s.p.rcv) && s.p.state == p.state && s.p.err == p.err
            && (if g.rst || (SeqAcceptable(p.rcv, g) && !g.isAck) then s.out == []
                else |s.out| == 1 && Acknowledges(s.out[0], p.rcv) && s.out[0].data == [] && s.out[0].sq == p.snd.nxt)
  {
    AckAcks(p);
    hide SackBlocks, SeqAcceptable;
  }

  /** A SYN inside the window is answered with a reset, and a reset with nothing; a closed endpoint answers
      everything but resets with a reset that the sender will accept (RFC 793, section 3.4). */
  lemma ResetsAnswered(p: Pcb, g: Segment, env: Env)
    requires WellFormed(p)
    ensures var out := Rx(p, g, env).out;
            && (!p.state.Closed? && SeqAcceptable(p.rcv, g) && g.rst ==> out == [])
            && (!p.state.Closed? && SeqAcceptable(p.rcv, g) && g.syn && !g.rst ==>
                  |out| == 1 && out[0].rst && out[0].sq == p.snd.nxt)
            && (p.state.Closed? ==> Rx(p, g, env).p == p && |out| == if g.rst then 0 else 1)
            && (p.state.Closed? && !g.rst && g.isAck ==> out[0].rst && !out[0].isAck && out[0].sq == g.ack)
            && (p.state.Closed? && !g.rst && !g.isAck ==>
                  && out[0].rst && out[0].isAck && out[0].sq == 0
                  && out[0].ack == g.sq + |g.data| + (if g.syn then 1 else 0) + (if g.fin then 1 else 0))
  {
    hide SackBlocks, SeqAcceptable;
  }
}
