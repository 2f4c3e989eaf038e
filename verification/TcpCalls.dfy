/** What an endpoint owes the other side and its own user (kernel/net/tcp.c:180-253, 765-832, 841-990): when it
    acknowledges, what its timers do, and what writing, reading and closing return. */
module TcpCalls {
  import opened TcpSpec
  import opened TcpInvariant
  import opened TcpEndpoint
  import opened TcpSegments
  import opened TcpArrival
  import opened TcpHolds
  import opened TcpFlow

  // ---- acknowledging -------------------------------------------------------------------------------

  /** A segment went out that acknowledges all of `r`. */
  ghost predicate AckOut(out: seq<Segment>, r: Rcv) { exists k :: 0 <= k < |out| && Acknowledges(out[k], r) }

  /** An acknowledgement is owed for less than two full segments, and the timer for it is running. */
  predicate AckOwed(r: Rcv) { r.ackPending && r.delackArmed && r.ackSegs <= 1 }

  lemma AckSame(g: Segment, r: Rcv, r': Rcv)
    requires SameRcv(r, r')
    ensures Acknowledges(g, r) <==> Acknowledges(g, r')
  {
  }

  /** Replying, then sending what the window allows. A reply that is put off stays owed, unless the device refuses
      the data segment that should have carried it: then another try of that segment is scheduled. */
  lemma ReplyAcks(p: Pcb, finNow: bool, when: AckWhen, taken: nat, room: nat)
    requires p.snd.mss >= 1 && p.snd.una <= p.snd.nxt
    ensures var s1 := Reply(p, finNow, when, taken);
            && s1.p.snd == p.snd
            && var s2 := Output(s1.p, room);
               && (finNow || when.Now? ==> AckOut(s1.out + s2.out, s2.p.rcv))
               && (when.Later? ==>
                     AckOut(s1.out + s2.out, s2.p.rcv) || AckOwed(s2.p.rcv) || (room == 0 && s2.p.snd.retryArmed))
               && (when.Later? && p.rcv.ackSegs >= 1 && taken >= p.snd.mss ==> AckOut(s1.out + s2.out, s2.p.rcv))
  {
    var s1 := Reply(p, finNow, when, taken);
    ReplySame(p, finNow, when, taken);
    ReplyIs(p, finNow, when, taken);
    hide Reply, Acknowledges, SackBlocks;
    OutputSame(s1.p, room);
    var s2 := Output(s1.p, room);
    OutputAcks(s1.p, room);
    OutputOwes(s1.p, room);
    if s1.out != [] {
      AckSame(s1.out[0], p.rcv, s2.p.rcv);
      assert (s1.out + s2.out)[0] == s1.out[0];
    } else if s2.out != [] {
      AckSame(s2.out[0], s1.p.rcv, s2.p.rcv);
      assert (s1.out + s2.out)[0] == s2.out[0];
    }
  }

  lemma ReplyIs(p: Pcb, finNow: bool, when: AckWhen, taken: nat)
    ensures var s1 := Reply(p, finNow, when, taken);
            && (s1.out != [] ==> Acknowledges(s1.out[0], p.rcv)) && (finNow || when.Now? ==> s1.out != [])
            && (when.Later? ==> s1.out != [] || AckOwed(s1.p.rcv))
            && (when.Later? && p.rcv.ackSegs >= 1 && taken >= p.snd.mss ==> s1.out != [])
  {
    hide SackBlocks;
  }

  /** Output that sends nothing leaves what is owed alone, unless the device refused the first segment. */
  lemma OutputOwes(p: Pcb, room: nat)
    requires p.snd.mss >= 1 && p.snd.una <= p.snd.nxt
    ensures var s := Output(p, room);
            s.out == [] ==> s.p.rcv == p.rcv || (room == 0 && s.p.snd.retryArmed && s.p.rcv == AckCovered(p.rcv))
  {
    if MaySend(p.state) { LoopOwes(p, SendWindow(p.snd), room); }
  }

  lemma {:induction false} LoopOwes(p: Pcb, wnd: nat, room: nat)
    requires p.snd.mss >= 1 && p.snd.una <= p.snd.nxt
    ensures var s := OutputLoop(p, wnd, room);
            s.out == [] ==> s.p.rcv == p.rcv || (room == 0 && s.p.snd.retryArmed && s.p.rcv == AckCovered(p.rcv))
    decreases p.snd.una + |p.snd.buf| - p.snd.nxt
  {
    NextMoveAdvances(p, wnd, room);
    var m := NextMove(p, wnd, room);
    if !m.Stop? { LoopOwes(m.p, wnd, if m.Sent? then room - 1 else room); }
  }

  /** Exactly when an owed acknowledgement is neither sent nor owed any more, with nothing selectively acknowledged
      and no recovery: the device takes nothing and there is data the window allows. */
  lemma AckDroppedIff(p: Pcb, room: nat)
    requires p.snd.mss >= 1 && p.snd.una <= p.snd.nxt && Sending(p.state) && AckOwed(p.rcv)
    requires p.snd.sacked == [] && p.snd.recover == 0
    ensures var s := Output(p, room);
            s.out == [] && !AckOwed(s.p.rcv) <==> room == 0 && p.snd.nxt < Edge(p.snd)
  {
    var data, to := FillsWindow(p, room);
    OutputOwes(p, room);
    hide Output;
    if room == 0 && p.snd.nxt < Edge(p.snd) { Refused(p); }
  }

  lemma Refused(p: Pcb)
    requires p.snd.mss >= 1 && p.snd.una <= p.snd.nxt < Edge(p.snd) && Sending(p.state)
    requires p.snd.sacked == [] && p.snd.recover == 0
    ensures Output(p, 0).out == [] && !Output(p, 0).p.rcv.ackPending
  {
    FullSegment(p, SendWindow(p.snd), 0);
    SegLenBounds(p.snd, SendWindow(p.snd));
  }

  /** A segment that simply continues what is there: all of it fits, nothing is left parked, and it does not bring
      the FIN. A FIN that came earlier and is reached by pulling parked data in asks for no reply of its own. */
  predicate Continues(p: Pcb, g: Segment, r': Rcv) {
    && TakesData(p.state) && g.sq == p.rcv.nxt && |g.data| <= Space(p.rcv) && r'.ooo == []
    && (FinNow(p.rcv, r') ==> p.rcv.hasFin)
  }

  /** Every segment whose data gets past the checks is acknowledged: at once if it does not simply continue what is
      there; else at once or when the timer for it expires, or with the data the device refused. */
  lemma DataAcknowledged(p: Pcb, g: Segment, env: Env)
    requires WellFormed(p) && Passes(p, g) && StateOk(p, true) && !EndsLastAck(p, g) && g.data != []
    ensures var s := Rx(p, g, env);
            && (AckOut(s.out, s.p.rcv) || AckOwed(s.p.rcv) || (env.room2 == 0 && s.p.snd.retryArmed))
            && (!Continues(p, g, s.p.rcv) ==> AckOut(s.out, s.p.rcv))
  {
    hide Absorbed, AfterAck, Rx, Acked, StateOk, AckStage, AckOut, AckOwed;
    RxPasses(p, g, env);
    AfterAckIs(p, g, env.room1);
    var p2 := AfterAck(p, g, env.room1);
    StateOpen(p);
    assert !p2.state.Closed? && p2.rcv.nxt < g.sq + |g.data|;
    hide SeqAcceptable;
    AbsorbedAcks(p2, g, env.mem, env.room2);
    var s3 := Absorbed(p2, g, RcvSpace(p.rcv), env.mem, env.room2);
    if AckOut(s3.out, s3.p.rcv) { AckOutMore(AckStage(p, g, env.room1).out, s3.out, s3.p.rcv); }
  }

  lemma StateOpen(p: Pcb)
    requires StateOk(p, true)
    ensures p.state.LastAck? ==> !FinAcked(p.snd)
    ensures !FinAcked(p.snd) || p.state.FinWait2? || p.state.TimeWait? || p.state.Closed?
            || p.state.Established? || p.state.CloseWait?
  {
  }

  lemma AckOutMore(a: seq<Segment>, b: seq<Segment>, r: Rcv)
    requires AckOut(b, r)
    ensures AckOut(a + b, r)
  {
    var k :| 0 <= k < |b| && Acknowledges(b[k], r);
    assert (a + b)[|a| + k] == b[k];
  }

  lemma AbsorbedAcks(p: Pcb, g: Segment, mem: bool, room: nat)
    requires Sorted(p.rcv.ooo, 0) && p.snd.mss >= 1 && p.snd.una <= p.snd.nxt
    requires g.data != [] && p.rcv.nxt < g.sq + |g.data|
    ensures var s := Absorbed(p, g, Space(p.rcv), mem, room);
            && (AckOut(s.out, s.p.rcv) || AckOwed(s.p.rcv) || (room == 0 && s.p.snd.retryArmed))
            && (!Continues(p, g, s.p.rcv) ==> AckOut(s.out, s.p.rcv))
  {
    var d := DataStage(p, g, Space(p.rcv), mem);
    WhenIs(p, g, mem);
    AbsorbedIs(p, g, Space(p.rcv), mem, room);
    hide DataStage, Output, AckOut, AckOwed, Reply, Sorted;
    var p1 := FinStage(d.p, g);
    assert p1.snd == p.snd && p1.rcv.ooo == d.p.rcv.ooo;
    assert d.p.rcv.finRcvd ==> p1.rcv.finRcvd;
    hide FinStage;
    ReplyAcks(p1, p1.rcv.finRcvd != d.p.rcv.finRcvd, d.when, d.taken, room);
  }

  /** When the data stage asks for an acknowledgement at once. */
  lemma WhenIs(p: Pcb, g: Segment, mem: bool)
    requires Sorted(p.rcv.ooo, 0) && g.data != [] && p.rcv.nxt < g.sq + |g.data|
    ensures var d, r := DataStage(p, g, Space(p.rcv), mem), p.rcv;
            && !d.when.Never?
            && (d.when.Later? <==> TakesData(p.state) && g.sq == r.nxt && |g.data| <= Space(r) && d.p.rcv.ooo == [])
            && (FinNow(r, d.p.rcv) ==> r.hasFin)
  {
    hide TakeData, DrainFin, Sorted, Fresh;
    FreshSize(p.rcv, g);
    if TakesData(p.state) {
      var r := TakeData(p.rcv, g, Space(p.rcv), mem);
      TakeKeeps(p.rcv, g, mem);
      TakeSorted(p.rcv, g, mem);
      DrainFinNow(p.(rcv := r));
    }
  }

  lemma TakeSorted(r: Rcv, g: Segment, mem: bool)
    requires Sorted(r.ooo, 0) && r.nxt < g.sq + |g.data|
    ensures Sorted(TakeData(r, g, Space(r), mem).ooo, 0)
  {
    hide TakeData, Sorted;
    var from, to := TakeHolds(r, g, mem);
  }

  lemma FreshSize(r: Rcv, g: Segment)
    requires r.nxt <= g.sq + |g.data|
    ensures |Fresh(r, g)| == g.sq + |g.data| - Max(g.sq, r.nxt)
  {
  }

  lemma DrainFinNow(p: Pcb)
    requires Sorted(p.rcv.ooo, 0)
    ensures FinNow(p.rcv, DrainFin(p).rcv) ==> p.rcv.hasFin
  {
    DrainKeeps(p.rcv);
    hide Drain, Sorted;
  }

  // ---- sending on ----------------------------------------------------------------------------------

  /** All that may be sent has been: up to the end of the data or of the window, in a recovery up to its end, or the
      device has refused a segment. */
  predicate SentAll(s: Snd, recover: nat, s': Snd) {
    || s'.nxt >= s.una + |s.buf| || s'.nxt >= s.una + Min(s.wnd, 16 * s.mss)
    || (recover != 0 && s'.nxt >= recover) || s'.retryArmed
  }

  /** The end of the recovery under way, if any: the third duplicate starts one. */
  function RecoverEnd(s: Snd, g: Segment): nat { if Duplicate(s, g) && s.dupAcks == 2 then s.nxt else s.recover }

  /** Every segment that passes the checks and does not end the connection lets the sender send all that its
      acknowledgement and its window now allow. */
  lemma RxSendsOn(p: Pcb, g: Segment, env: Env)
    requires WellFormed(p) && Passes(p, g) && StateOk(p, true) && !EndsLastAck(p, g)
    requires Sending(Rx(p, g, env).p.state)
    ensures SentAll(Rx(p, g, env).p.snd, RecoverEnd(p.snd, g), Rx(p, g, env).p.snd)
  {
    hide Rx, AfterAck, Acked, SeqAcceptable, Absorbed, StateOk, SameSnd;
    RxPasses(p, g, env);
    AfterAckIs(p, g, env.room1);
    StateOpen(p);
    AfterAckRecover(p, g, env.room1);
    AbsorbedSendsOn(AfterAck(p, g, env.room1), g, RcvSpace(p.rcv), env.mem, env.room2);
  }

  lemma AfterAckRecover(p: Pcb, g: Segment, room: nat)
    requires p.snd.mss >= 1 && p.snd.una <= p.snd.nxt
    ensures var r := AfterAck(p, g, room).snd.recover; r == 0 || r == RecoverEnd(p.snd, g)
  {
    hide NoteSacked, TrimSacked, Output;
    if g.ack <= p.snd.una && IsDupAck(p.snd, g) {
      var s := p.snd.(sacked := NoteSacked(p.snd.sacked, g.sacks, p.snd.una, p.snd.nxt), dupAcks := p.snd.dupAcks + 1);
      OutputRecover(p.(snd := s.(recover := s.nxt, nxt := s.una, finSent := false)), room);
      OutputRecover(p.(snd := s), room);
    }
    var p1 := AckStage(p, g, room).p;
    AckedStateSame(p1.(snd := WndUpdate(p1.snd, g)));
  }

  lemma OutputRecover(p: Pcb, room: nat)
    requires p.snd.mss >= 1 && p.snd.una <= p.snd.nxt
    ensures Output(p, room).p.snd.recover in {0, p.snd.recover}
  {
    if MaySend(p.state) { OutputLoopShape(p, SendWindow(p.snd), room); }
  }

  lemma AbsorbedSendsOn(p: Pcb, g: Segment, wnd: nat, mem: bool, room: nat)
    requires Sorted(p.rcv.ooo, 0) && p.snd.mss >= 1 && p.snd.una <= p.snd.nxt
    requires g.data != [] ==> p.rcv.nxt < g.sq + |g.data|
    requires Sending(Absorbed(p, g, wnd, mem, room).p.state)
    ensures SentAll(Absorbed(p, g, wnd, mem, room).p.snd, p.snd.recover, Absorbed(p, g, wnd, mem, room).p.snd)
  {
    var d := DataStage(p, g, wnd, mem);
    hide DataStage, Output;
    var p1 := FinStage(d.p, g);
    assert p1.snd == p.snd;
    hide FinStage;
    var s1 := Reply(p1, p1.rcv.finRcvd != d.p.rcv.finRcvd, d.when, d.taken);
    ReplySame(p1, p1.rcv.finRcvd != d.p.rcv.finRcvd, d.when, d.taken);
    hide Reply;
    OutputSame(s1.p, room);
    OutputStops(s1.p, room);
  }

  /** The third duplicate rolls back and resends, and each later one that brings new blocks sends on. */
  lemma DupAckSends(p: Pcb, g: Segment, room: nat)
    requires WellFormed(p) && Duplicate(p.snd, g) && Sending(p.state)
    ensures var s, t := AckStage(p, g, room).p.snd, NoteSacked(p.snd.sacked, g.sacks, p.snd.una, p.snd.nxt);
            && (p.snd.dupAcks == 2 ==> SentAll(p.snd, p.snd.nxt, s))
            && (p.snd.dupAcks > 2 && |t| != |p.snd.sacked| ==> SentAll(p.snd, p.snd.recover, s))
            && (p.snd.dupAcks < 2 || (p.snd.dupAcks > 2 && |t| == |p.snd.sacked|) ==>
                  s.nxt == p.snd.nxt && AckStage(p, g, room).out == [])
  {
    hide Output, NoteSacked;
    var s := p.snd.(sacked := NoteSacked(p.snd.sacked, g.sacks, p.snd.una, p.snd.nxt), dupAcks := p.snd.dupAcks + 1);
    OutputStops(p.(snd := s.(recover := s.nxt, nxt := s.una, finSent := false)), room);
    OutputStops(p.(snd := s), room);
  }

  // ---- timers --------------------------------------------------------------------------------------

  predicate TimeWaitOver(p: Pcb, due: Due) { p.state.TimeWait? && due.timeWait }

  /** The ninth timeout in a row. */
  predicate GivesUp(p: Pcb, due: bool) { p.snd.rtoArmed && due && p.snd.retries >= 8 && !p.state.Closed? }

  /** An expired delayed acknowledgement is sent; TIME_WAIT ends; nothing else closes a connection but running out
      of retransmissions, which resets it. Only a timer that was running can have expired. */
  lemma TimerActs(p: Pcb, due: Due, env: Env)
    requires WellFormed(p) && (due.rto ==> p.snd.rtoArmed)
    ensures var s := Timer(p, due, env);
            && (TimeWaitOver(p, due) ==> s.p.state.Closed? && s.p.err == p.err && s.out == [])
            && (!TimeWaitOver(p, due) ==>
                  && (p.rcv.ackPending && p.rcv.delackArmed && due.delack ==>
                        s.out != [] && Acknowledges(s.out[0], p.rcv))
                  && (GivesUp(p, due.rto) ==> s.p.state.Closed? && s.out != [] && s.out[|s.out| - 1].rst)
                  && s.p.snd.retries == p.snd.retries + (if due.rto then 1 else 0)
                  && s.p.err == (if GivesUp(p, due.rto) && p.err.NoError? then ETIMEDOUT else p.err)
                  && (!GivesUp(p, due.rto) ==> s.p.state == p.state))
  {
    hide TimerDelack, TimerRetry, TimerRto, Acknowledges, Output;
    DelackIs(p, due.delack);
    var s1 := TimerDelack(p, due.delack);
    OutputShape(s1.p.(snd := s1.p.snd.(retryArmed := false)), env.room1);
    RetryIs(s1.p, due.retry, env.room1);
    RtoIs(TimerRetry(s1.p, due.retry, env.room1).p, due.rto, env.room2);
  }

  lemma DelackIs(p: Pcb, due: bool)
    ensures var s := TimerDelack(p, due);
            && s.p.snd == p.snd && s.p.state == p.state && s.p.err == p.err
            && (p.rcv.ackPending && p.rcv.delackArmed && due ==> s.out != [] && Acknowledges(s.out[0], p.rcv))
  {
    hide SackBlocks;
  }

  /** When the time for another try has come, everything that may be sent is sent, as far as the device lets it. */
  lemma RetrySends(p: Pcb, due: Due, env: Env)
    requires WellFormed(p) && Sending(p.state) && p.snd.retryArmed && due.retry && !due.rto
    ensures var s := Timer(p, due, env);
            SentAll(p.snd, p.snd.recover, s.p.snd) && (s.p.snd.retryArmed ==> |s.out| >= env.room1)
  {
    hide TimerDelack, Output;
    DelackIs(p, due.delack);
    var p1 := TimerDelack(p, due.delack).p;
    var q := p1.(snd := p1.snd.(retryArmed := false));
    OutputShape(q, env.room1);
    OutputStops(q, env.room1);
    OutputRetry(q, env.room1);
  }

  /** Another try is scheduled only when the device refuses. */
  lemma OutputRetry(p: Pcb, room: nat)
    requires p.snd.mss >= 1 && p.snd.una <= p.snd.nxt && !p.snd.retryArmed
    ensures Output(p, room).p.snd.retryArmed ==> |Output(p, room).out| >= room
  {
    if MaySend(p.state) { LoopRetry(p, SendWindow(p.snd), room); }
  }

  lemma {:induction false} LoopRetry(p: Pcb, wnd: nat, room: nat)
    requires p.snd.mss >= 1 && p.snd.una <= p.snd.nxt && !p.snd.retryArmed
    ensures OutputLoop(p, wnd, room).p.snd.retryArmed ==> |OutputLoop(p, wnd, room).out| == room
    decreases p.snd.una + |p.snd.buf| - p.snd.nxt
  {
    NextMoveAdvances(p, wnd, room);
    var m := NextMove(p, wnd, room);
    if !m.Stop? { LoopRetry(m.p, wnd, if m.Sent? then room - 1 else room); }
  }

  lemma RetryIs(p: Pcb, due: bool, room: nat)
    requires p.snd.mss >= 1 && p.snd.una <= p.snd.nxt
    ensures var q := TimerRetry(p, due, room).p;
            && q.snd.retries == p.snd.retries && q.state == p.state && q.err == p.err && q.snd.mss >= 1
            && (p.snd.rtoArmed ==> q.snd.rtoArmed)
  {
    hide Output;
    OutputSame(p.(snd := p.snd.(retryArmed := false)), room);
    OutputKeepsRto(p.(snd := p.snd.(retryArmed := false)), room);
  }

  lemma OutputKeepsRto(p: Pcb, room: nat)
    requires p.snd.mss >= 1 && p.snd.una <= p.snd.nxt
    ensures p.snd.rtoArmed ==> Output(p, room).p.snd.rtoArmed
  {
    if MaySend(p.state) { LoopKeepsRto(p, SendWindow(p.snd), room); }
  }

  lemma {:induction false} LoopKeepsRto(p: Pcb, wnd: nat, room: nat)
    requires p.snd.mss >= 1 && p.snd.una <= p.snd.nxt
    ensures p.snd.rtoArmed ==> OutputLoop(p, wnd, room).p.snd.rtoArmed
    decreases p.snd.una + |p.snd.buf| - p.snd.nxt
  {
    NextMoveAdvances(p, wnd, room);
    var m := NextMove(p, wnd, room);
    if !m.Stop? { LoopKeepsRto(m.p, wnd, if m.Sent? then room - 1 else room); }
  }

  lemma RtoIs(p: Pcb, due: bool, room: nat)
    requires p.snd.mss >= 1
    ensures var s := TimerRto(p, due, room);
            && (GivesUp(p, due) ==> s.p.state.Closed? && |s.out| == 1 && s.out[0].rst)
            && s.p.snd.retries == p.snd.retries + (if p.snd.rtoArmed && due then 1 else 0)
            && s.p.err == (if GivesUp(p, due) && p.err.NoError? then ETIMEDOUT else p.err)
            && (!GivesUp(p, due) ==> s.p.state == p.state)
  {
    hide Output, SackBlocks;
    OutputSame(p.(snd := p.snd.(retries := p.snd.retries + 1, rtoArmed := false, nxt := p.snd.una, finSent := false,
                                recover := 0)), room);
  }

  /** A retransmission timeout of a connection that sends resends the first unacknowledged byte, unless the peer
      reported holding it or the device takes nothing, and starts the timer again. */
  lemma TimeoutResendsFirst(p: Pcb, room: nat)
    requires p.snd.mss >= 1 && Sending(p.state) && p.snd.retries < 8 && p.snd.buf != []
    ensures var s := RtoFire(p, room);
            && s.p.snd.rtoArmed && s.p.snd.retries == p.snd.retries + 1
            && (room > 0 && !InTable(p.snd.sacked, p.snd.una) ==> InSegment(s.out, p.snd.una))
  {
    var q := p.(snd := p.snd.(retries := p.snd.retries + 1, rtoArmed := false, nxt := p.snd.una, finSent := false,
                              recover := 0));
    OutputSame(q, room);
    if room > 0 && !InTable(p.snd.sacked, p.snd.una) { FirstGoes(q, room); }
    hide Output;
  }

  lemma FirstGoes(p: Pcb, room: nat)
    requires p.snd.mss >= 1 && p.snd.nxt == p.snd.una && Sending(p.state) && p.snd.buf != [] && room > 0
    requires p.snd.recover == 0 && !InTable(p.snd.sacked, p.snd.una)
    ensures InSegment(Output(p, room).out, p.snd.una)
  {
    var wnd := SendWindow(p.snd);
    assert wnd > 0;
    if SackedThrough(p.snd.sacked, p.snd.nxt) != 0 {
      SackedThroughBeyond(p.snd.sacked, p.snd.nxt);
      SackedThroughCovers(p.snd.sacked, p.snd.nxt);
    }
    NextMoveAdvances(p, wnd, room);
    var m := NextMove(p, wnd, room);
    assert m.Sent?;
    hide NextMove, OutputFin;
    assert Output(p, room).out[0] == m.seg;
  }

  // ---- the calls -----------------------------------------------------------------------------------

  /** A write takes as much as there is room for, and fails exactly for a closed stream, a connection that no longer
      sends, or a full buffer. */
  lemma SendIs(p: Pcb, data: seq<Byte>, room: nat)
    requires WellFormed(p)
    ensures var s := Send(p, data, room);
            var open := !p.snd.finQueued && p.state in {Established, CloseWait};
            && (s.IoDone? <==> open && |p.snd.buf| < 131072)
            && (s.IoDone? ==> s.data == data[..Min(|data|, 131072 - |p.snd.buf|)] && s.p.snd.buf == p.snd.buf + s.data)
            && (s.IoFail? ==> s.p == p && s.out == [])
            && (s.IoFail? ==> s.err == if open then EAGAIN
                                       else if p.snd.finQueued || p.err.NoError? then EPIPE
                                       else p.err)
  {
    hide Output;
    if !p.snd.finQueued && p.state in {Established, CloseWait} && |p.snd.buf| < 131072 {
      OutputSame(p.(snd := p.snd.(buf := p.snd.buf + data[..Min(|data|, 131072 - |p.snd.buf|)])), room);
    }
  }

  /** Closing the writing half queues the FIN once, in the two states that have it open. */
  lemma ShutdownIs(p: Pcb, room: nat)
    requires WellFormed(p)
    ensures var s := ShutdownWr(p, room);
            var acts := !p.snd.finQueued && p.state in {Established, CloseWait};
            && s.p.snd.finQueued == (p.snd.finQueued || acts)
            && s.p.state == (if !acts then p.state else if p.state.Established? then FinWait1 else LastAck)
            && (!acts ==> s == Step(p, [])) && SameRcv(p.rcv, s.p.rcv) && s.p.err == p.err
  {
    hide Output;
    OutputSame(p.(state := FinWait1, snd := p.snd.(finQueued := true)), room);
    OutputSame(p.(state := LastAck, snd := p.snd.(finQueued := true)), room);
  }

  /** Closing the file of a connection with unread data resets it; else it only closes the writing half. */
  lemma CloseIs(p: Pcb, room: nat)
    requires WellFormed(p)
    ensures var s := Close(p, room);
            var open := p.state in {Established, CloseWait};
            && (open && p.rcv.buf != [] ==> s.p.state.Closed? && s.p.err == p.err && |s.out| == 1 && s.out[0].rst)
            && (open && p.rcv.buf == [] ==> s == ShutdownWr(p, room))
            && (!open ==> s == Step(p, []))
  {
    hide Output, SackBlocks;
  }

  /** A reader that makes room after the other side was told there is none tells it so. */
  lemma ReadReopens(p: Pcb, len: nat)
    requires p.rcv.buf != [] && len > 0 && !p.state.Closed? && p.rcv.wndAdv == 0
    ensures var s := Recv(p, len, false);
            Space(s.p.rcv) > 0 ==> |s.out| == 1 && Acknowledges(s.out[0], s.p.rcv) && s.out[0].wnd > 0
  {
    var n := Min(len, |p.rcv.buf|);
    var p1 := DrainFin(p.(rcv := p.rcv.(buf := p.rcv.buf[n..])));
    DrainAdv(p.rcv.(buf := p.rcv.buf[n..]));
    hide Drain;
    CheckFinOpen(p.(rcv := Drain(p.rcv.(buf := p.rcv.buf[n..]))));
    CheckFinOpen(p1);
    var p2 := CheckFin(p1);
    hide CheckFin;
    AckAcks(p2);
    hide SackBlocks;
  }

  lemma CheckFinOpen(p: Pcb)
    ensures var q := CheckFin(p);
            (q.state.Closed? <==> p.state.Closed?) && q.rcv.wndAdv == p.rcv.wndAdv && q.rcv.buf == p.rcv.buf
  {
  }

  lemma {:induction false} DrainAdv(r: Rcv)
    ensures Drain(r).wndAdv == r.wndAdv
    decreases |r.ooo|
  {
    if DrainReady(r) {
      var d := DrainStep(r);
      assert d.wndAdv == r.wndAdv;
      if |d.ooo| < |r.ooo| { DrainAdv(d); }
    }
  }
}
