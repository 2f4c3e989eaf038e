/** Two established endpoints joined by a network that drops, duplicates and reorders
    segments: what holds in every state of every run. */
module TcpStream {
  import opened TcpSpec
  import opened TcpInvariant
  import opened TcpEndpoint

  /** `ab` holds every segment `a` ever sent (and `ba` those of `b`). Any of them may be
      delivered at any time, any number of times, or never. */
  datatype World = World(a: End, b: End, ab: set<Segment>, ba: set<Segment>)

  datatype Event =
    | Write(data: seq<Byte>, room: nat)
    | Read(len: nat, peek: bool)
    | Shutdown(room: nat)
    | CloseFile(room: nat)
    | Tick(due: Due, env: Env)
    | Arrive(g: Segment, env: Env)

  /** One operation at an endpoint: its new state with the history extended, and the output. */
  function EndStep(x: End, ev: Event): (End, seq<Segment>)
    requires WellFormed(x.p)
  {
    match ev
    case Write(data, room) =>
      var s := Send(x.p, data, room);
      (x.(p := s.p, stream := if s.IoDone? then x.stream + s.data else x.stream), s.out)
    case Read(len, peek) =>
      var s := Recv(x.p, len, peek);
      (x.(p := s.p, got := if s.IoDone? && !peek then x.got + s.data else x.got), s.out)
    case Shutdown(room) => var s := ShutdownWr(x.p, room); (x.(p := s.p), s.out)
    case CloseFile(room) => var s := Close(x.p, room); (x.(p := s.p), s.out)
    case Tick(due, env) => var s := Timer(x.p, due, env); (x.(p := s.p), s.out)
    case Arrive(g, env) => var s := Rx(x.p, g, env); (x.(p := s.p), s.out)
  }

  function ToSet(s: seq<Segment>): set<Segment> { set g | g in s }

  /** Endpoint `a` (or, with `left` false, `b`) takes a step; only sent segments arrive. */
  function WorldStep(w: World, left: bool, ev: Event): World {
    if !left then Swap(StepLeft(Swap(w), ev)) else StepLeft(w, ev)
  }

  function Swap(w: World): World { World(w.b, w.a, w.ba, w.ab) }

  function StepLeft(w: World, ev: Event): World {
    if !WellFormed(w.a.p) || (ev.Arrive? && ev.g !in w.ba) then w
    else
      var (a', out) := EndStep(w.a, ev);
      w.(a := a', ab := w.ab + ToSet(out))
  }

  /** The state after a sequence of steps, newest last. */
  function Run(w: World, trace: seq<(bool, Event)>): World {
    if trace == [] then w
    else
      var last := trace[|trace| - 1];
      WorldStep(Run(w, trace[..|trace| - 1]), last.0, last.1)
  }

  /** A freshly established endpoint facing one whose first byte is numbered `peerBase`. */
  predicate Fresh(x: End, peerBase: nat) {
    && x.base >= 1 && x.stream == [] && x.got == []
    && x.p.state.Established? && x.p.err.NoError?
    && x.p.snd.una == x.p.snd.nxt == x.base && x.p.snd.buf == [] && x.p.snd.mss >= 1
    && !x.p.snd.finQueued && !x.p.snd.finSent && x.p.snd.sacked == [] && x.p.snd.recover == 0
    && x.p.rcv.nxt == peerBase && x.p.rcv.buf == [] && x.p.rcv.ooo == []
    && !x.p.rcv.hasFin && !x.p.rcv.finRcvd
  }

  /** What the handshake may have left in the network. */
  predicate Handshake(g: Segment, peerBase: nat) {
    g.data == [] && !g.fin && !g.rst && g.sacks == [] && (g.isAck ==> g.ack <= peerBase)
  }

  predicate Init(w: World) {
    && Fresh(w.a, w.b.base) && Fresh(w.b, w.a.base)
    && (forall g :: g in w.ab ==> Handshake(g, w.b.base))
    && (forall g :: g in w.ba ==> Handshake(g, w.a.base))
  }

  ghost predicate WireOk(net: set<Segment>, x: End) {
    forall g :: g in net ==> SegOk(g, x.p, x.base, x.stream)
  }

  ghost predicate Inv(w: World) {
    EndOk(w.a, w.b) && EndOk(w.b, w.a) && WireOk(w.ab, w.a) && WireOk(w.ba, w.b)
  }

  lemma InitInv(w: World)
    requires Init(w)
    ensures Inv(w)
  {
    assert w.a.stream[..0] == [] && w.b.stream[..0] == [];
  }

  lemma EndStepGood(x: End, ev: Event, y: End)
    requires EndOk(x, y) && WellFormed(x.p)
    requires ev.Arrive? ==> SegOk(ev.g, y.p, y.base, y.stream)
    ensures var (x', out) := EndStep(x, ev); Good(x, x', out, y) && EndOk(x', y)
  {
    match ev
    case Write(data, room) => SendGood(x, data, room, y);
    case Read(len, peek) => RecvGood(x, len, peek, y);
    case Shutdown(room) => ShutdownWrGood(x, room, y);
    case CloseFile(room) => CloseGood(x, room, y);
    case Tick(due, env) => TimerGood(x, due, env, y);
    case Arrive(g, env) => RxGood(x, g, env, y);
  }

  lemma StepLeftInv(w: World, ev: Event)
    requires Inv(w)
    ensures Inv(StepLeft(w, ev)) && Grows(w.a, StepLeft(w, ev).a)
  {
    if !WellFormed(w.a.p) || (ev.Arrive? && ev.g !in w.ba) {
    } else {
      EndStepGood(w.a, ev, w.b);
      var (a', out) := EndStep(w.a, ev);
      RcvOkGrows(w.b.p.rcv, w.b.got, w.a, a');
      SackHeldGrows(w.b.p.snd.sacked, w.a, a');
      forall g | g in w.ab + ToSet(out) ensures SegOk(g, a'.p, a'.base, a'.stream) {
        if g in w.ab { SegOkGrows(g, w.a, a'); }
      }
    }
  }

  lemma WorldStepInv(w: World, left: bool, ev: Event)
    requires Inv(w)
    ensures Inv(WorldStep(w, left, ev))
  {
    if left { StepLeftInv(w, ev); } else { StepLeftInv(Swap(w), ev); }
  }

  lemma {:induction false} RunInv(w: World, trace: seq<(bool, Event)>)
    requires Init(w)
    ensures Inv(Run(w, trace))
  {
    if trace == [] {
      InitInv(w);
    } else {
      var last := trace[|trace| - 1];
      RunInv(w, trace[..|trace| - 1]);
      WorldStepInv(Run(w, trace[..|trace| - 1]), last.0, last.1);
    }
  }

  /** Some run from an established connection leads to `v`. */
  ghost predicate Reachable(v: World) {
    exists w, trace: seq<(bool, Event)> :: Init(w) && Run(w, trace) == v
  }

  lemma ReachableInv(v: World)
    requires Reachable(v)
    ensures Inv(v)
  {
    var w, trace: seq<(bool, Event)> :| Init(w) && Run(w, trace) == v;
    RunInv(w, trace);
  }

  /** No reachable state is one a step would pass over. */
  lemma ReachableWellFormed(v: World)
    requires Reachable(v)
    ensures WellFormed(v.a.p) && WellFormed(v.b.p)
  {
    hide Core;
    ReachableInv(v);
    CoreWellFormed(v.a, v.b);
    CoreWellFormed(v.b, v.a);
  }

  /** The reachable states are closed under every step of either side. */
  lemma ReachableStep(v: World, left: bool, ev: Event)
    requires Reachable(v)
    ensures Reachable(WorldStep(v, left, ev))
  {
    var w, trace: seq<(bool, Event)> :| Init(w) && Run(w, trace) == v;
    var longer := trace + [(left, ev)];
    assert longer[..|trace|] == trace;
    assert Run(w, longer) == WorldStep(v, left, ev);
  }

  lemma {:induction false} SwapRun(w: World, trace: seq<(bool, Event)>) returns (other: seq<(bool, Event)>)
    ensures Run(Swap(w), other) == Swap(Run(w, trace))
  {
    hide StepLeft;
    if trace == [] { return []; }
    var last := trace[|trace| - 1];
    other := SwapRun(w, trace[..|trace| - 1]);
    ghost var longer := other + [(!last.0, last.1)];
    assert longer[..|other|] == other;
    return longer;
  }

  /** Neither side is special: each theorem about `a` holds of `b` too. */
  lemma ReachableSwap(v: World)
    requires Reachable(v)
    ensures Reachable(Swap(v))
  {
    hide WorldStep, Fresh, Handshake;
    var w, trace: seq<(bool, Event)> :| Init(w) && Run(w, trace) == v;
    var other := SwapRun(w, trace);
    assert Init(Swap(w));
  }

  // ---- the theorems ------------------------------------------------------------------------

  /** Stream safety: in every reachable state, what either reader was given is a prefix of
      what the other side's writes were accepted for. */
  lemma StreamSafety(v: World)
    requires Reachable(v)
    ensures v.b.got <= v.a.stream && v.a.got <= v.b.stream
  {
    ReachableInv(v);
    assert v.b.got <= v.b.got + v.b.p.rcv.buf;
    assert v.a.got <= v.a.got + v.a.p.rcv.buf;
  }

  /** A positive read of `p` finds end of file because the peer's FIN arrived. */
  predicate AtEof(p: Pcb, len: nat, peek: bool) {
    var s := Recv(p, len, peek);
    len > 0 && s.IoDone? && s.data == [] && s.p.rcv.finRcvd
  }

  /** End of file is reported only when the writer has closed and every one of its bytes was
      delivered; and once all that has happened, it is. */
  lemma EofComplete(v: World, len: nat, peek: bool)
    requires Reachable(v) && len > 0
    ensures AtEof(v.b.p, len, peek) ==> v.b.got == v.a.stream && v.a.p.snd.finQueued
    ensures v.b.p.rcv.finRcvd && v.b.got == v.a.stream ==> AtEof(v.b.p, len, peek)
  {
    ReachableInv(v);
    EofExact(v.b, len, peek, v.a);
  }

  lemma EofExact(x: End, len: nat, peek: bool, y: End)
    requires EndOk(x, y) && len > 0
    ensures AtEof(x.p, len, peek) ==> x.got == y.stream && y.p.snd.finQueued
    ensures x.p.rcv.finRcvd && x.got == y.stream ==> AtEof(x.p, len, peek)
  {
    if AtEof(x.p, len, peek) {
      RecvGood(x, len, peek, y);
      EmptyReadEmptyBuffer(x.p, len, peek);
      assert x.got + [] == x.got;
    }
    if x.p.rcv.finRcvd && x.got == y.stream {
      FinishedQueueEmpty(x.p.rcv, x.got, y.base, y.stream, y.p.snd.finQueued);
      assert |x.got + x.p.rcv.buf| == |y.stream|;
    }
  }

  /** A positive read returns nothing and no error. */
  predicate ReadsZero(p: Pcb, len: nat, peek: bool) {
    len > 0 && Recv(p, len, peek).IoDone? && Recv(p, len, peek).data == []
  }

  /** Exactly when: with nothing buffered once what is parked was pulled in, the peer's FIN is in, or the
      connection is closed and no error is left to report. The second is not an end of file. */
  lemma ZeroExact(p: Pcb, len: nat, peek: bool)
    requires len > 0
    ensures var d := RecvDrained(p);
            && (ReadsZero(p, len, peek) <==> d.rcv.buf == [] && (d.rcv.finRcvd || (d.state.Closed? && d.err.NoError?)))
            && (ReadsZero(p, len, peek) && !AtEof(p, len, peek) <==>
                  d.rcv.buf == [] && !d.rcv.finRcvd && d.state.Closed? && d.err.NoError?)
  {
    hide RecvDrained, ReadOff;
  }

  /** A connection that broke off: the first read reports the error, every later one returns nothing, whatever
      of the peer's stream is missing. */
  lemma ZeroAfterError(p: Pcb, len: nat, peek: bool)
    requires len > 0 && p.state.Closed? && !p.err.NoError? && p.rcv.buf == [] && p.rcv.ooo == [] && !p.rcv.finRcvd
    ensures var s := Recv(p, len, false);
            && s.IoFail? && s.err == p.err && s.p.err.NoError?
            && ReadsZero(s.p, len, peek) && !AtEof(s.p, len, peek) && Recv(s.p, len, peek).p == s.p
  {
  }

  /** A positive read returns nothing only from an empty buffer. */
  lemma EmptyReadEmptyBuffer(p: Pcb, len: nat, peek: bool)
    requires AtEof(p, len, peek)
    ensures Recv(p, len, peek).p.rcv.buf == []
  {
  }

  /** SACK soundness: in every reachable state the ranges in the sender's table are disjoint
      and each of their bytes is in the open receiver's hands, so skipping it loses nothing. */
  lemma SackSound(v: World, g: Range, q: nat)
    requires Reachable(v) && g in v.a.p.snd.sacked && g.start <= q < g.end
    ensures Disjoint(v.a.p.snd.sacked) && (v.b.p.state.Closed? || Held(v.b.p.rcv, q))
  {
    ReachableInv(v);
    if !v.b.p.state.Closed? { assert RangeHeld(v.b.p.rcv, g); }
  }

  /** Every SACK block on the wire, however old, names bytes the open receiver still has. */
  lemma AdvertisedStaysHeld(v: World, seg: Segment, g: Range, q: nat)
    requires Reachable(v) && seg in v.ba && !seg.rst && g in seg.sacks && g.start <= q < g.end
    ensures v.b.p.state.Closed? || Held(v.b.p.rcv, q)
  {
    ReachableInv(v);
    assert SegOk(seg, v.b.p, v.b.base, v.b.stream);
    if !v.b.p.state.Closed? { assert RangeHeld(v.b.p.rcv, g); }
  }

  lemma ResendCovers(p: Pcb, room: nat, q: nat, y: End)
    requires p.snd.mss >= 1 && p.snd.nxt == p.snd.una && SackHeld(p.snd.sacked, y.p)
    requires p.snd.una <= q < p.snd.una + |p.snd.buf| && q < Output(p, room).p.snd.nxt
    ensures InSegment(Output(p, room).out, q) || y.p.state.Closed? || Held(y.p.rcv, q)
  {
    OutputCovers(p, room, q);
    if InTable(p.snd.sacked, q) && !y.p.state.Closed? {
      var g :| g in p.snd.sacked && g.start <= q < g.end;
      assert RangeHeld(y.p.rcv, g);
    }
  }

  /** A timeout resends everything missing: in every reachable state, each unacknowledged byte
      the sender has moved past when the timeout is over is in a segment it just sent or in
      the open receiver's hands. */
  lemma TimeoutResendsAll(v: World, room: nat, q: nat)
    requires Reachable(v)
    requires var p := v.a.p;
             p.snd.mss >= 1 && p.snd.retries < MAX_RETRIES &&
             p.snd.una <= q < p.snd.una + |p.snd.buf| && q < RtoFire(p, room).p.snd.nxt
    ensures InSegment(RtoFire(v.a.p, room).out, q) || v.b.p.state.Closed? || Held(v.b.p.rcv, q)
  {
    hide Output;
    ReachableInv(v);
    ResendCovers(v.a.p.(snd := v.a.p.snd.(retries := v.a.p.snd.retries + 1, rtoArmed := false,
                                          nxt := v.a.p.snd.una, finSent := false, recover := 0)), room, q, v.b);
  }

  /** So does the fast retransmit on a third duplicate ACK, whatever SACK blocks it carries. */
  lemma FastRetransmitResendsAll(v: World, g: Segment, room: nat, q: nat)
    requires Reachable(v) && g in v.ba && !g.rst
    requires var p := v.a.p;
             p.snd.mss >= 1 && p.snd.una <= p.snd.nxt && p.snd.dupAcks == 2 &&
             p.snd.una <= q < p.snd.una + |p.snd.buf| && q < DupAck(p, g, room).p.snd.nxt
    ensures InSegment(DupAck(v.a.p, g, room).out, q) || v.b.p.state.Closed? || Held(v.b.p.rcv, q)
  {
    hide Output;
    ReachableInv(v);
    var s := v.a.p.snd;
    assert SegOk(g, v.b.p, v.b.base, v.b.stream);
    NoteSackedKeeps(s.sacked, g.sacks, s.una, s.nxt, v.b.p);
    ResendCovers(v.a.p.(snd := s.(sacked := NoteSacked(s.sacked, g.sacks, s.una, s.nxt), dupAcks := 3,
                                  recover := s.nxt, nxt := s.una, finSent := false)), room, q, v.b);
  }

  /** The sender's buffer is the written stream from `una` on, `nxt` stays inside it, one past
      its end only for the FIN, and nothing is acknowledged that the peer has not received. */
  lemma SenderInvariant(v: World)
    requires Reachable(v)
    ensures var x, s := v.a, v.a.p.snd;
            var fin := x.base + |x.stream|;
            && x.base <= s.una <= s.nxt <= fin + (if s.finSent then 1 else 0)
            && (s.una <= fin ==> s.buf == x.stream[s.una - x.base..] &&
                                 s.nxt <= s.una + |s.buf| + (if s.finSent then 1 else 0))
            && (s.una > fin ==> s.buf == [] && s.finSent)
            && s.una <= v.b.p.rcv.nxt
  {
    ReachableInv(v);
  }

  /** Every data segment ever sent carries the stream bytes of its sequence number. */
  lemma WireTruthful(v: World, g: Segment)
    requires Reachable(v) && g in v.ab && !g.rst
    ensures g.data != [] ==> SliceAt(g.data, v.a.stream, v.a.base, g.sq)
    ensures g.fin ==> g.sq + |g.data| == v.a.base + |v.a.stream| && v.a.p.snd.finQueued
    ensures g.isAck ==> g.ack <= v.a.p.rcv.nxt
  {
    ReachableInv(v);
    assert SegOk(g, v.a.p, v.a.base, v.a.stream);
  }

  /** Everything `x` wrote was received, and so were both FINs. */
  ghost predicate CleanlyDone(x: End, y: End) {
    && x.p.snd.una == x.base + |x.stream| + 1 && x.p.rcv.finRcvd
    && y.p.rcv.finRcvd && y.got + y.p.rcv.buf == x.stream
    && x.got + x.p.rcv.buf == y.stream
  }

  lemma FinAckedDone(x: End, y: End)
    requires EndOk(x, y) && EndOk(y, x) && FinAcked(x.p.snd) && x.p.rcv.finRcvd
    ensures CleanlyDone(x, y)
  {
  }

  /** Reaching TIME_WAIT means both streams arrived in full and both FINs were received. */
  lemma TimeWaitDone(v: World)
    requires Reachable(v) && v.a.p.state.TimeWait?
    ensures CleanlyDone(v.a, v.b)
  {
    ReachableInv(v);
    FinAckedDone(v.a, v.b);
  }

  lemma RxKeepsErr(p: Pcb, g: Segment, env: Env)
    requires WellFormed(p) && p.state.LastAck?
    ensures var s := Rx(p, g, env);
            s.p.state.Closed? && s.p.err.NoError? ==>
              FinAcked(s.p.snd) && s.p.rcv.finRcvd == p.rcv.finRcvd
  {
    if SeqAcceptable(p.rcv, g) && !g.rst && !g.syn && g.isAck && g.ack <= p.snd.nxt {
      AckStageShape(p, g, env.room1);
      var s1 := AckStage(p, g, env.room1);
      var p2 := AckedState(s1.p.(snd := WndUpdate(s1.p.snd, g)));
      if !p2.state.Closed? {
        AbsorbedState(p2, g, RcvSpace(p.rcv), env.mem, env.room2);
      }
    }
  }

  /** Absorbing data and FINs never closes a connection that is in LAST_ACK. */
  lemma AbsorbedState(p: Pcb, g: Segment, wnd: nat, mem: bool, room: nat)
    requires p.state.LastAck?
    requires Sorted(p.rcv.ooo, 0) && p.snd.mss >= 1 && p.snd.una <= p.snd.nxt
    requires g.data != [] ==> p.rcv.nxt < g.sq + |g.data|
    ensures Absorbed(p, g, wnd, mem, room).p.state.LastAck?
  {
    DataState(p, g, wnd, mem);
    var d := DataStage(p, g, wnd, mem);
    hide DataStage, Output, SendAck, AckLater;
    var p1 := FinStage(d.p, g);
    var finNow := p1.rcv.finRcvd != d.p.rcv.finRcvd;
    ReplyState(p1, finNow, d.when, d.taken);
    hide Reply;
    OutputShape(Reply(p1, finNow, d.when, d.taken).p, room);
  }

  lemma DataState(p: Pcb, g: Segment, wnd: nat, mem: bool)
    requires p.state.LastAck? && Sorted(p.rcv.ooo, 0)
    requires g.data != [] ==> p.rcv.nxt < g.sq + |g.data|
    ensures DataStage(p, g, wnd, mem).p == p
  {
    hide TakeData, DrainFin;
  }

  lemma ReplyState(p: Pcb, finNow: bool, when: AckWhen, taken: nat)
    ensures Reply(p, finNow, when, taken).p.state == p.state && Reply(p, finNow, when, taken).p.snd == p.snd
  {
    hide MakeSeg;
  }

  /** `ev` takes the left endpoint of `v` from LAST_ACK to CLOSED without an error. */
  predicate ClosesCleanly(v: World, ev: Event) {
    var a' := StepLeft(v, ev).a;
    v.a.p.state.LastAck? && a'.p.state.Closed? && a'.p.err.NoError?
  }

  /** A connection that goes from LAST_ACK to CLOSED without an error was closed by the
      acknowledgement of its FIN: everything it wrote was received, and so was the peer's FIN. */
  lemma LastAckClean(v: World, ev: Event)
    requires Reachable(v) && ClosesCleanly(v, ev)
    ensures CleanlyDone(StepLeft(v, ev).a, v.b)
  {
    ReachableInv(v);
    StepLeftInv(v, ev);
    match ev
    case Write(data, room) =>
    case Read(len, peek) => ReadKeepsOpen(v.a, len, peek, v.b);
    case Shutdown(room) =>
    case CloseFile(room) =>
    case Tick(due, env) => TimerErr(v.a.p, due, env);
    case Arrive(g, env) =>
      RxKeepsErr(v.a.p, g, env);
      FinAckedDone(StepLeft(v, ev).a, v.b);
  }

  lemma ReadKeepsOpen(x: End, len: nat, peek: bool, y: End)
    requires EndOk(x, y) && x.p.state.LastAck?
    ensures Recv(x.p, len, peek).p.state.LastAck?
  {
    FinishedQueueEmpty(x.p.rcv, x.got, y.base, y.stream, y.p.snd.finQueued);
  }

  lemma TimerErr(p: Pcb, due: Due, env: Env)
    requires WellFormed(p) && p.state.LastAck?
    ensures var s := Timer(p, due, env); s.p.state.Closed? ==> !s.p.err.NoError?
  {
    var s1 := TimerDelack(p, due.delack);
    OutputShape(s1.p.(snd := s1.p.snd.(retryArmed := false)), env.room1);
    var s2 := TimerRetry(s1.p, due.retry, env.room1);
    RtoErr(s2.p, due.rto, env.room2);
  }

  lemma RtoErr(p: Pcb, due: bool, room: nat)
    requires p.snd.mss >= 1 && p.state.LastAck?
    ensures var s := TimerRto(p, due, room); s.p.state.Closed? ==> !s.p.err.NoError?
  {
    OutputShape(p.(snd := p.snd.(retries := p.snd.retries + 1, rtoArmed := false,
                                 nxt := p.snd.una, finSent := false, recover := 0)), room);
  }

  // ---- wrapping sequence numbers ------------------------------------------------------

  const WRAP: int := 0x1_0000_0000

  /** `(int32_t)(a - b)` on 32-bit unsigned operands. */
  function SeqDiff(a: int, b: int): int
    requires 0 <= a < WRAP && 0 <= b < WRAP
  {
    var d := (a - b) % WRAP;
    if d < WRAP / 2 then d else d - WRAP
  }

  /** The 32-bit difference of two sequence numbers is the unbounded one, so the comparisons
      agree, exactly when they are less than 2^31 apart (or 2^31 below). */
  lemma SeqCompareAgrees(x: nat, y: nat)
    ensures SeqDiff(x % WRAP, y % WRAP) == x - y <==> -(WRAP / 2) <= x - y < WRAP / 2
  {
    var i, j := x / WRAP, y / WRAP;
    assert x == i * WRAP + x % WRAP && y == j * WRAP + y % WRAP;
    var d := x % WRAP - y % WRAP;
    assert x - y == (i - j) * WRAP + d;
  }
}
