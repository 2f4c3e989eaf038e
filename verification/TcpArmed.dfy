/** The sender never waits for nothing (kernel/net/tcp.c:285-350, 683-716, 796-832): whenever something is still to
    be sent or acknowledged, a timer is running that will send it again. */
module TcpArmed {
  import opened TcpSpec
  import opened TcpInvariant
  import opened TcpEndpoint
  import opened TcpSegments
  import opened TcpArrival
  import opened TcpStream

  /** While a connection sends: what is in flight has the retransmission timer running, unless the peer has
      reported that it holds the first byte of it; with nothing in flight there is nothing to send, or another
      try is scheduled. A recovery ends after what is acknowledged. */
  ghost predicate Armed(p: Pcb) {
    MaySend(p.state) ==>
      && (p.snd.recover == 0 || p.snd.una < p.snd.recover)
      && (p.snd.una < p.snd.nxt ==> p.snd.rtoArmed || InTable(p.snd.sacked, p.snd.una))
      && (p.snd.una == p.snd.nxt ==> p.snd.retryArmed || (p.snd.buf == [] && (p.snd.finQueued ==> p.snd.finSent)))
  }

  /** What output starts from. */
  ghost predicate Ready(s: Snd) {
    && s.mss >= 1 && s.una <= s.nxt && (s.recover == 0 || s.una < s.recover)
    && (s.una < s.nxt ==> s.rtoArmed || InTable(s.sacked, s.una))
  }

  lemma OutputArms(p: Pcb, room: nat)
    requires Ready(p.snd)
    ensures Armed(Output(p, room).p) && Output(p, room).p.state == p.state
  {
    hide InTable;
    OutputShape(p, room);
    if MaySend(p.state) {
      var wnd := SendWindow(p.snd);
      assert p.snd.nxt == p.snd.una && p.snd.buf != [] ==> wnd > 0;
      LoopArms(p, wnd, room);
      OutputLoopShape(p, wnd, room);
      hide OutputLoop;
    }
  }

  lemma {:induction false} LoopArms(p: Pcb, wnd: nat, room: nat)
    requires Ready(p.snd) && (p.snd.nxt == p.snd.una && p.snd.buf != [] ==> wnd > 0)
    ensures var s := OutputLoop(p, wnd, room).p.snd;
            && Ready(s) && s.una == p.snd.una
            && (s.una == s.nxt ==> s.retryArmed || s.buf == [])
    decreases p.snd.una + |p.snd.buf| - p.snd.nxt
  {
    NextMoveAdvances(p, wnd, room);
    var m := NextMove(p, wnd, room);
    if m.Jump? {
      SackedThroughCovers(p.snd.sacked, p.snd.nxt);
      SackedThroughBeyond(p.snd.sacked, p.snd.nxt);
    }
    hide InTable;
    if !m.Stop? { LoopArms(m.p, wnd, if m.Sent? then room - 1 else room); }
  }

  // ---- every operation keeps it --------------------------------------------------------------------

  /** Output from a state that may not send, or from one that is ready. */
  lemma OutputKeeps(p: Pcb, room: nat)
    requires p.snd.mss >= 1 && p.snd.una <= p.snd.nxt && (MaySend(p.state) ==> Ready(p.snd))
    ensures Armed(Output(p, room).p) && Output(p, room).p.state == p.state
  {
    hide Ready;
    OutputShape(p, room);
    if MaySend(p.state) {
      hide Output, Armed;
      OutputArms(p, room);
    }
  }

  lemma SendArms(p: Pcb, data: seq<Byte>, room: nat)
    requires WellFormed(p) && Armed(p)
    ensures Armed(Send(p, data, room).p)
  {
    hide Output, InTable;
    if !Send(p, data, room).IoFail? {
      var n := Min(|data|, BUF_SIZE - |p.snd.buf|);
      OutputKeeps(p.(snd := p.snd.(buf := p.snd.buf + data[..n])), room);
    }
  }

  /** Reading changes nothing of the sending half, and no state to one that may send. */
  lemma RecvArms(p: Pcb, len: nat, peek: bool)
    requires Armed(p)
    ensures Armed(Recv(p, len, peek).p)
  {
    hide InTable, Drain;
    DrainedSnd(p);
    var d := RecvDrained(p);
    hide RecvDrained;
    if d.rcv.buf != [] && !peek { ReadSnd(d, Min(len, |d.rcv.buf|)); }
    hide ReadOff;
  }

  lemma DrainedSnd(p: Pcb)
    ensures RecvDrained(p).snd == p.snd && (MaySend(RecvDrained(p).state) ==> MaySend(p.state))
  {
    hide Drain;
  }

  lemma ReadSnd(p: Pcb, n: nat)
    requires n <= |p.rcv.buf|
    ensures ReadOff(p, n).p.snd == p.snd && (MaySend(ReadOff(p, n).p.state) ==> MaySend(p.state))
  {
    hide Drain, MakeSeg, WantsWndUpdate;
  }

  lemma ShutdownArms(p: Pcb, room: nat)
    requires WellFormed(p) && Armed(p)
    ensures Armed(ShutdownWr(p, room).p)
  {
    hide Output, InTable;
    if p.state.Established? || p.state.CloseWait? {
      OutputKeeps(p.(state := FinWait1, snd := p.snd.(finQueued := true)), room);
      OutputKeeps(p.(state := LastAck, snd := p.snd.(finQueued := true)), room);
    }
  }

  lemma CloseArms(p: Pcb, room: nat)
    requires WellFormed(p) && Armed(p)
    ensures Armed(Close(p, room).p)
  {
    hide InTable, ShutdownWr, MakeSeg;
    ShutdownArms(p, room);
  }

  lemma RetryArms(p: Pcb, due: bool, room: nat)
    requires p.snd.mss >= 1 && p.snd.una <= p.snd.nxt && Armed(p)
    ensures var q := TimerRetry(p, due, room).p; Armed(q) && q.snd.mss >= 1
  {
    hide Output, InTable;
    OutputShape(p.(snd := p.snd.(retryArmed := false)), room);
    if p.snd.retryArmed && due { OutputKeeps(p.(snd := p.snd.(retryArmed := false)), room); }
  }

  lemma RtoArms(p: Pcb, due: bool, room: nat)
    requires p.snd.mss >= 1 && Armed(p)
    ensures Armed(TimerRto(p, due, room).p)
  {
    hide Output, InTable, MakeSeg;
    OutputKeeps(p.(snd := p.snd.(retries := p.snd.retries + 1, rtoArmed := false, nxt := p.snd.una, finSent := false,
                                 recover := 0)), room);
  }

  lemma TimerArms(p: Pcb, due: Due, env: Env)
    requires WellFormed(p) && Armed(p)
    ensures Armed(Timer(p, due, env).p)
  {
    var s1 := TimerDelack(p, due.delack);
    assert s1.p.snd == p.snd && s1.p.state == p.state by { hide MakeSeg; }
    OutputShape(s1.p.(snd := s1.p.snd.(retryArmed := false)), env.room1);
    assert Armed(s1.p);
    hide Armed, TimerDelack, TimerRetry, TimerRto;
    RetryArms(s1.p, due.retry, env.room1);
    RtoArms(TimerRetry(s1.p, due.retry, env.room1).p, due.rto, env.room2);
  }

  lemma NotedStays(t: seq<Range>, blocks: seq<Range>, una: nat, nxt: nat, q: nat)
    requires |t| <= MAX_SACK
    ensures InTable(t, q) ==> InTable(NoteSacked(t, blocks, una, nxt), q)
  {
    NoteCovers(t, blocks, una, nxt, q);
  }

  lemma DupAckReady(p: Pcb, g: Segment, room: nat)
    requires WellFormed(p) && Ready(p.snd) && MaySend(p.state) && IsDupAck(p.snd, g)
    ensures Ready(DupAck(p, g, room).p.snd)
  {
    NotedStays(p.snd.sacked, g.sacks, p.snd.una, p.snd.nxt, p.snd.una);
    hide InTable, NoteSacked, Output;
    var s := p.snd.(sacked := NoteSacked(p.snd.sacked, g.sacks, p.snd.una, p.snd.nxt), dupAcks := p.snd.dupAcks + 1);
    var back := p.(snd := s.(recover := s.nxt, nxt := s.una, finSent := false));
    OutputReady(back, room);
    OutputReady(p.(snd := s), room);
    hide Ready;
  }

  lemma OutputReady(p: Pcb, room: nat)
    requires Ready(p.snd) && MaySend(p.state)
    ensures Ready(Output(p, room).p.snd)
  {
    hide Output, InTable;
    OutputArms(p, room);
    OutputShape(p, room);
  }

  lemma AckReady(p: Pcb, g: Segment, room: nat)
    requires WellFormed(p) && Ready(p.snd) && MaySend(p.state) && g.ack <= p.snd.nxt
    ensures Ready(AckStage(p, g, room).p.snd)
  {
    if g.ack > p.snd.una {
      hide InTable, NoteSacked, TrimSacked;
    } else if IsDupAck(p.snd, g) {
      hide DupAck;
      DupAckReady(p, g, room);
    }
  }

  lemma AbsorbedArms(p: Pcb, g: Segment, wnd: nat, mem: bool, room: nat)
    requires Sorted(p.rcv.ooo, 0) && p.snd.mss >= 1 && p.snd.una <= p.snd.nxt && (MaySend(p.state) ==> Ready(p.snd))
    requires g.data != [] ==> p.rcv.nxt < g.sq + |g.data|
    ensures Armed(Absorbed(p, g, wnd, mem, room).p)
  {
    DataNoSend(p, g, wnd, mem);
    var d := DataStage(p, g, wnd, mem);
    hide DataStage, Output, Ready, Armed;
    var p1 := FinStage(d.p, g);
    assert p1.snd == p.snd && (MaySend(p1.state) ==> MaySend(p.state));
    hide FinStage;
    ReplySame(p1, p1.rcv.finRcvd != d.p.rcv.finRcvd, d.when, d.taken);
    hide Reply;
    OutputKeeps(Reply(p1, p1.rcv.finRcvd != d.p.rcv.finRcvd, d.when, d.taken).p, room);
  }

  lemma DataNoSend(p: Pcb, g: Segment, wnd: nat, mem: bool)
    requires Sorted(p.rcv.ooo, 0) && (g.data != [] ==> p.rcv.nxt < g.sq + |g.data|)
    ensures var d := DataStage(p, g, wnd, mem).p; d.snd == p.snd && (MaySend(d.state) ==> MaySend(p.state))
  {
    hide TakeData, Drain;
  }

  lemma RxArms(p: Pcb, g: Segment, env: Env)
    requires WellFormed(p) && Armed(p)
    ensures Armed(Rx(p, g, env).p)
  {
    if Passes(p, g) {
      RxPasses(p, g, env);
      AfterAckReady(p, g, env.room1);
      hide Rx, AfterAck, Absorbed, Armed, Ready, SeqAcceptable;
      var p2 := AfterAck(p, g, env.room1);
      if p.state.LastAck? && p2.state.Closed? { ClosedArmed(p2); }
      else { AbsorbedArms(p2, g, RcvSpace(p.rcv), env.mem, env.room2); }
    } else {
      hide SackBlocks, Absorbed, SeqAcceptable, InTable;
    }
  }

  lemma ClosedArmed(p: Pcb)
    requires p.state.Closed?
    ensures Armed(p)
  {
  }

  lemma AfterAckReady(p: Pcb, g: Segment, room: nat)
    requires WellFormed(p) && Armed(p) && g.ack <= p.snd.nxt
    ensures var q := AfterAck(p, g, room); MaySend(q.state) ==> Ready(q.snd)
  {
    AckStageShape(p, g, room);
    if MaySend(p.state) { AckReady(p, g, room); }
    hide AckStage, InTable, Armed;
    var p1 := AckStage(p, g, room).p;
    WndOnly(p1.snd, g);
    hide WndUpdate;
  }

  lemma EndStepArms(x: End, ev: Event)
    requires WellFormed(x.p) && Armed(x.p)
    ensures Armed(EndStep(x, ev).0.p)
  {
    hide Armed, Send, Recv, ShutdownWr, Close, Timer, Rx;
    match ev
    case Write(data, room) => SendArms(x.p, data, room);
    case Read(len, peek) => RecvArms(x.p, len, peek);
    case Shutdown(room) => ShutdownArms(x.p, room);
    case CloseFile(room) => CloseArms(x.p, room);
    case Tick(due, env) => TimerArms(x.p, due, env);
    case Arrive(g, env) => RxArms(x.p, g, env);
  }

  lemma StepArms(w: World, left: bool, ev: Event)
    requires Armed(w.a.p) && Armed(w.b.p)
    ensures Armed(WorldStep(w, left, ev).a.p) && Armed(WorldStep(w, left, ev).b.p)
  {
    hide Armed, EndStep;
    var x := if left then w.a else w.b;
    if WellFormed(x.p) { EndStepArms(x, ev); }
  }

  lemma {:induction false} RunArms(w: World, trace: seq<(bool, Event)>)
    requires Init(w)
    ensures Armed(Run(w, trace).a.p) && Armed(Run(w, trace).b.p)
  {
    if trace != [] {
      hide WorldStep, Init, Armed;
      var last := trace[|trace| - 1];
      RunArms(w, trace[..|trace| - 1]);
      StepArms(Run(w, trace[..|trace| - 1]), last.0, last.1);
    }
  }

  /** Nothing is forgotten: in every reachable state of a connection that may still send, every byte or FIN that is
      not acknowledged is in flight with the timer running, or is reported held by the peer from the first byte on, or
      has another try scheduled. */
  lemma NoStall(v: World)
    requires Reachable(v) && v.a.p.state in {Established, CloseWait, FinWait1, Closing, LastAck}
    ensures var s := v.a.p.snd;
            s.buf != [] || (s.finQueued && !FinAcked(s)) ==>
              s.rtoArmed || s.retryArmed || (s.una < s.nxt && InTable(s.sacked, s.una))
  {
    hide InTable, Run, Init;
    var w, trace: seq<(bool, Event)> :| Init(w) && Run(w, trace) == v;
    RunArms(w, trace);
    hide Reachable;
    ReachableInv(v);
  }
}
