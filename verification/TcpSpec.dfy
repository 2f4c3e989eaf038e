/** One TCP endpoint as a value: the protocol control block of kernel/net/tcp.c with its
    buffers read as sequences, and one function per operation giving the new block and the
    segments it emits. `TcpPcb.dfy` holds the in-place code proved to compute these
    functions; `TcpStream.dfy` proves what two such endpoints guarantee over every run.

    Sequence numbers are unbounded here; `SeqCompareAgrees` in `TcpStream.dfy` relates the
    wrapping 32-bit comparisons to the ordinary order. Timer deadlines are reduced to
    "armed or not"; when one expires is an input of `Timer`. */
module TcpSpec {

  newtype Byte = x: int | 0 <= x < 256

  const BUF_SIZE: nat := 131072
  const OOO_MAX: nat := BUF_SIZE
  const MAX_SACK: nat := 8
  const SACK_BLOCKS: nat := 4
  const CWND_SEGS: nat := 16
  const MAX_RETRIES: nat := 8
  const WND_MAX: nat := 65535

  datatype State =
    Established | FinWait1 | FinWait2 | CloseWait | Closing | LastAck | TimeWait | Closed

  datatype Errno = NoError | EAGAIN | EPIPE | ECONNRESET | ETIMEDOUT

  /** A half-open range of sequence numbers. */
  datatype Range = Range(start: nat, end: nat)

  /** A parked out-of-order piece of the stream. */
  datatype Chunk = Chunk(at: nat, data: seq<Byte>) {
    function End(): nat { at + |data| }
  }

  datatype Segment = Segment(sq: nat, ack: nat, isAck: bool, fin: bool, syn: bool, rst: bool,
                             wnd: nat, data: seq<Byte>, sacks: seq<Range>)

  /** The sending half; `buf` holds the bytes from `una` on. `recover` is 0 when off. */
  datatype Snd = Snd(una: nat, nxt: nat, buf: seq<Byte>, wnd: nat, wl1: nat, wl2: nat, mss: nat,
                     finQueued: bool, finSent: bool, sacked: seq<Range>, recover: nat,
                     dupAcks: nat, retries: nat, rtoArmed: bool, retryArmed: bool)

  /** The receiving half; `buf` holds what is received and not yet read, `ooo` what is
      parked behind a hole. */
  datatype Rcv = Rcv(nxt: nat, buf: seq<Byte>, ooo: seq<Chunk>, oooNewest: nat,
                     hasFin: bool, finSeq: nat, finRcvd: bool, sackOk: bool, wndAdv: nat,
                     ackPending: bool, ackSegs: nat, delackArmed: bool)

  datatype Pcb = Pcb(state: State, snd: Snd, rcv: Rcv, err: Errno)

  /** The block after an operation, and what it put on the wire. */
  datatype Step = Step(p: Pcb, out: seq<Segment>)

  function Min(a: nat, b: nat): nat { if a < b then a else b }

  function Max(a: nat, b: nat): nat { if a < b then b else a }

  // ---- emitting segments -------------------------------------------------------------

  function RcvSpace(r: Rcv): nat { if |r.buf| <= BUF_SIZE then BUF_SIZE - |r.buf| else 0 }

  function AdvWnd(r: Rcv): nat { Min(RcvSpace(r), WND_MAX) }

  predicate Holds(c: Chunk, q: nat) { c.at <= q < c.End() }

  /** The ranges of the parked chunks that do (or do not) hold `newest`, in list order. */
  function BlocksOf(ooo: seq<Chunk>, newest: nat, want: bool): seq<Range> {
    if ooo == [] then []
    else (if Holds(ooo[0], newest) == want then [Range(ooo[0].at, ooo[0].End())] else [])
         + BlocksOf(ooo[1..], newest, want)
  }

  function TakeAtMost<T>(s: seq<T>, n: nat): seq<T> { if |s| <= n then s else s[..n] }

  function SackBlocks(r: Rcv): seq<Range> {
    if !r.sackOk || r.ooo == [] then []
    else
      var newest := if r.oooNewest != 0 then r.oooNewest else r.ooo[0].at;
      TakeAtMost(BlocksOf(r.ooo, newest, true) + BlocksOf(r.ooo, newest, false), SACK_BLOCKS)
  }

  function SackOption(r: Rcv, withSack: bool): seq<Range> { if withSack then SackBlocks(r) else [] }

  /** The segment `tcp_send_seg` builds; every segment sent after the handshake carries ACK. */
  function MakeSeg(p: Pcb, sq: nat, fin: bool, rst: bool, data: seq<Byte>, withSack: bool): Segment {
    Segment(sq, p.rcv.nxt, true, fin, false, rst, AdvWnd(p.rcv), data, SackOption(p.rcv, withSack))
  }

  /** What sending any ACK-bearing segment does to the receiving half. */
  function AckCovered(r: Rcv): Rcv {
    r.(wndAdv := AdvWnd(r), ackPending := false, ackSegs := 0, delackArmed := false, oooNewest := 0)
  }

  function SendAck(p: Pcb): Step {
    Step(p.(rcv := AckCovered(p.rcv)), [MakeSeg(p, p.snd.nxt, false, false, [], true)])
  }

  function CountSeg(n: nat, full: bool): nat { if full then n + 1 else n }

  function AckLater(p: Pcb, datalen: nat): Step {
    var segs := CountSeg(p.rcv.ackSegs, datalen >= p.snd.mss);
    var p1 := p.(rcv := p.rcv.(ackPending := true, ackSegs := segs));
    if segs >= 2 then SendAck(p1)
    else Step(p1.(rcv := p1.rcv.(delackArmed := true)), [])
  }

  /** A pending error is not overwritten. */
  function FirstErr(pending: Errno, err: Errno): Errno { if pending.NoError? then err else pending }

  function SetClosed(p: Pcb, err: Errno): Pcb {
    if p.state.Closed? then p
    else Pcb(Closed, p.snd.(rtoArmed := false), p.rcv.(ooo := []), FirstErr(p.err, err))
  }

  function Abort(p: Pcb, err: Errno): Step {
    if p.state.Closed? then Step(p, [])
    else Step(SetClosed(p.(rcv := AckCovered(p.rcv)), err),
              [MakeSeg(p, p.snd.nxt, false, true, [], false)])
  }

  // ---- the SACK scoreboard -----------------------------------------------------------

  predicate Touches(r: Range, a: nat, e: nat) { r.start <= e && a <= r.end }

  function SwapRemove<T>(s: seq<T>, k: nat): seq<T>
    requires k < |s|
  {
    s[k := s[|s| - 1]][..|s| - 1]
  }

  /** The first entry at or after `k` touching [a, e), or the table's length. */
  function FirstTouch(t: seq<Range>, k: nat, a: nat, e: nat): (r: nat)
    requires k <= |t|
    ensures k <= r <= |t|
    decreases |t| - k
  {
    if k == |t| || Touches(t[k], a, e) then k else FirstTouch(t, k + 1, a, e)
  }

  function LowStart(r: Range, a: nat): nat { if r.start < a then r.start else a }

  function HighEnd(r: Range, e: nat): nat { if r.end > e then r.end else e }

  /** Merge [a, e) with every entry it touches, then store it if there is room. */
  function Absorb(t: seq<Range>, a: nat, e: nat): seq<Range>
    decreases |t|
  {
    var k := FirstTouch(t, 0, a, e);
    if k < |t| then
      Absorb(SwapRemove(t, k), LowStart(t[k], a), HighEnd(t[k], e))
    else if |t| < MAX_SACK then t + [Range(a, e)]
    else t
  }

  function NoteSacked(t: seq<Range>, blocks: seq<Range>, una: nat, nxt: nat): seq<Range>
    decreases |blocks|
  {
    if blocks == [] then t
    else
      var b := blocks[0];
      NoteSacked(if b.start >= b.end || b.start < una || b.end > nxt then t
                 else Absorb(t, b.start, b.end),
                 blocks[1..], una, nxt)
  }

  /** Drop what the cumulative ACK covers, from entry `k` on. */
  function TrimSacked(t: seq<Range>, k: nat, una: nat): seq<Range>
    requires k <= |t|
    decreases |t| - k
  {
    if k == |t| then t
    else if t[k].end <= una then TrimSacked(SwapRemove(t, k), k, una)
    else TrimSacked(if t[k].start < una then t[k := Range(una, t[k].end)] else t, k + 1, una)
  }

  /** The end of the first entry holding `q`, or 0. */
  function SackedThrough(t: seq<Range>, q: nat): nat {
    if t == [] then 0
    else if t[0].start <= q < t[0].end then t[0].end
    else SackedThrough(t[1..], q)
  }

  /** The least start strictly inside (q, q + n), or 0. */
  function NextSackStart(t: seq<Range>, q: nat, n: nat): nat {
    if t == [] then 0
    else
      var rest := NextSackStart(t[..|t| - 1], q, n);
      var s := t[|t| - 1].start;
      if q < s < q + n && (rest == 0 || s < rest) then s else rest
  }

  // ---- output --------------------------------------------------------------------------

  predicate MaySend(s: State) {
    s.Established? || s.CloseWait? || s.FinWait1? || s.Closing? || s.LastAck?
  }

  function SendWindow(s: Snd): nat {
    var w := Min(s.wnd, CWND_SEGS * s.mss);
    if w == 0 && s.nxt == s.una && |s.buf| > 0 then 1 else w
  }

  predicate Recovered(s: Snd) { s.recover != 0 && s.nxt >= s.recover }

  /** How many bytes the next data segment carries. */
  function SegLen(s: Snd, wnd: nat): nat
    requires s.una <= s.nxt < s.una + Min(|s.buf|, wnd)
  {
    var inflight := s.nxt - s.una;
    var n := Min(Min(|s.buf| - inflight, s.mss), wnd - inflight);
    var hole := NextSackStart(s.sacked, s.nxt, n);
    if hole > s.nxt then hole - s.nxt else n
  }

  lemma SegLenBounds(s: Snd, wnd: nat)
    requires s.una <= s.nxt < s.una + Min(|s.buf|, wnd)
    requires s.mss >= 1
    ensures 1 <= SegLen(s, wnd) <= s.mss
    ensures s.nxt + SegLen(s, wnd) <= s.una + |s.buf|
  {
    var n := Min(Min(|s.buf| - (s.nxt - s.una), s.mss), wnd - (s.nxt - s.una));
    NextSackStartInside(s.sacked, s.nxt, n);
  }

  lemma NextSackStartInside(t: seq<Range>, q: nat, n: nat)
    ensures var h := NextSackStart(t, q, n); h == 0 || q < h < q + n
  {
    if t != [] { NextSackStartInside(t[..|t| - 1], q, n); }
  }

  lemma SackedThroughBeyond(t: seq<Range>, q: nat)
    ensures SackedThrough(t, q) == 0 || q < SackedThrough(t, q)
  {
    if t != [] { SackedThroughBeyond(t[1..], q); }
  }

  /** One turn of the data loop of `tcp_output`. */
  datatype Move = Stop(p: Pcb) | Jump(p: Pcb) | Sent(p: Pcb, seg: Segment)

  function NextMove(p: Pcb, wnd: nat, room: nat): Move
    requires p.snd.mss >= 1 && p.snd.una <= p.snd.nxt
  {
    var s := p.snd;
    if s.nxt - s.una >= |s.buf| || s.nxt - s.una >= wnd then Stop(p)
    else
      var through := SackedThrough(s.sacked, s.nxt);
      if through != 0 then Jump(p.(snd := s.(nxt := Min(through, s.una + |s.buf|))))
      else if Recovered(s) then Stop(p)
      else
        SegLenBounds(s, wnd);
        var n := SegLen(s, wnd);
        if room == 0 then Stop(Pcb(p.state, s.(retryArmed := true), AckCovered(p.rcv), p.err))
        else Sent(Pcb(p.state, s.(nxt := s.nxt + n, rtoArmed := true), AckCovered(p.rcv), p.err),
                  MakeSeg(p, s.nxt, false, false, s.buf[s.nxt - s.una..][..n], false))
  }

  /** Every turn that does not stop moves `nxt` forward, so the loop ends. */
  lemma NextMoveAdvances(p: Pcb, wnd: nat, room: nat)
    requires p.snd.mss >= 1 && p.snd.una <= p.snd.nxt
    ensures var m := NextMove(p, wnd, room);
            && m.p.state == p.state && m.p.err == p.err
            && (m.p.rcv == p.rcv || m.p.rcv == AckCovered(p.rcv))
            && m.p.snd == p.snd.(nxt := m.p.snd.nxt, rtoArmed := m.p.snd.rtoArmed, retryArmed := m.p.snd.retryArmed)
            && (m.Stop? ==> m.p.snd.nxt == p.snd.nxt)
            && (!m.Stop? ==> p.snd.nxt < m.p.snd.nxt <= p.snd.una + |p.snd.buf|)
            && (m.Sent? ==> room != 0 && m.seg.sq == p.snd.nxt && m.p.snd.nxt == m.seg.sq + |m.seg.data|)
  {
    var s := p.snd;
    SackedThroughBeyond(s.sacked, s.nxt);
    if s.una <= s.nxt < s.una + Min(|s.buf|, wnd) { SegLenBounds(s, wnd); }
  }

  /** The data loop of `tcp_output`: `room` segments go out before the device refuses one. */
  function OutputLoop(p: Pcb, wnd: nat, room: nat): Step
    requires p.snd.mss >= 1 && p.snd.una <= p.snd.nxt
    decreases p.snd.una + |p.snd.buf| - p.snd.nxt
  {
    NextMoveAdvances(p, wnd, room);
    match NextMove(p, wnd, room)
    case Stop(q) => Step(q, [])
    case Jump(q) => OutputLoop(q, wnd, room)
    case Sent(q, seg) =>
      var rest := OutputLoop(q, wnd, room - 1);
      Step(rest.p, [seg] + rest.out)
  }

  predicate FinDue(s: Snd) {
    s.finQueued && !s.finSent && s.nxt == s.una + |s.buf| && !Recovered(s)
  }

  function OutputFin(p: Pcb): Step {
    var s := p.snd;
    if FinDue(s) then
      Step(Pcb(p.state, s.(nxt := s.nxt + 1, finSent := true, rtoArmed := true), AckCovered(p.rcv), p.err),
           [MakeSeg(p, s.nxt, true, false, [], false)])
    else Step(p, [])
  }

  function OutputDone(p: Pcb): Pcb {
    if Recovered(p.snd) then p.(snd := p.snd.(recover := 0)) else p
  }

  function Output(p: Pcb, room: nat): Step
    requires p.snd.mss >= 1 && p.snd.una <= p.snd.nxt
  {
    if !MaySend(p.state) then Step(p, [])
    else
      var s1 := OutputLoop(p, SendWindow(p.snd), room);
      var s2 := OutputFin(s1.p);
      Step(OutputDone(s2.p), s1.out + s2.out)
  }

  // ---- receiving data ----------------------------------------------------------------

  function OooBytes(ooo: seq<Chunk>): nat {
    if ooo == [] then 0 else |ooo[0].data| + OooBytes(ooo[1..])
  }

  /** Put `data` before `rest`, cut where `rest` begins, unless nothing is left or the
      queue would exceed its limit (`held` bytes are already parked). */
  function OooPlace(rest: seq<Chunk>, at: nat, data: seq<Byte>, held: nat, mem: bool): seq<Chunk>
    requires rest != [] ==> at <= rest[0].at
  {
    var d := if rest != [] && rest[0].at < at + |data| then data[..rest[0].at - at] else data;
    if d == [] || held + |d| > OOO_MAX || !mem then rest else [Chunk(at, d)] + rest
  }

  /** Chunks in order, non-empty, from `lo` on, never overlapping. */
  predicate Sorted(ooo: seq<Chunk>, lo: nat) {
    ooo == [] || (lo <= ooo[0].at && ooo[0].data != [] && Sorted(ooo[1..], ooo[0].End()))
  }

  /** Place `data` at index `i` of the queue. */
  function PlaceAt(ooo: seq<Chunk>, i: nat, at: nat, data: seq<Byte>, held: nat, mem: bool): seq<Chunk>
    requires i <= |ooo| && (i < |ooo| ==> at <= ooo[i].at)
  {
    ooo[..i] + OooPlace(ooo[i..], at, data, held, mem)
  }

  /** The index of the first chunk that ends after `at`. */
  function FirstAfter(ooo: seq<Chunk>, at: nat): (i: nat)
    ensures i <= |ooo| && (i > 0 ==> ooo[i - 1].End() <= at)
    ensures i < |ooo| ==> at < ooo[i].End()
  {
    if ooo == [] || at < ooo[0].End() then 0 else 1 + FirstAfter(ooo[1..], at)
  }

  /** Adjacent chunks of a sorted queue do not overlap. */
  lemma SortedPair(ooo: seq<Chunk>, lo: nat, i: nat)
    requires Sorted(ooo, lo) && i < |ooo| - 1
    ensures ooo[i].End() <= ooo[i + 1].at
  {
    if i > 0 { SortedPair(ooo[1..], ooo[0].End(), i - 1); }
  }

  /** Park `data`, cut against the chunks before and after it. */
  function OooInsert(ooo: seq<Chunk>, at: nat, data: seq<Byte>, held: nat, mem: bool): seq<Chunk>
    requires Sorted(ooo, 0)
  {
    var i := FirstAfter(ooo, at);
    if i < |ooo| && ooo[i].at <= at then
      var covered := ooo[i].End() - at;
      if covered >= |data| then ooo
      else
        assert i + 1 < |ooo| ==> ooo[i].End() <= ooo[i + 1].at by { if i + 1 < |ooo| { SortedPair(ooo, 0, i); } }
        PlaceAt(ooo, i + 1, at + covered, data[covered..], held, mem)
    else PlaceAt(ooo, i, at, data, held, mem)
  }

  lemma SortedWeaken(ooo: seq<Chunk>, lo: nat, lo': nat)
    requires Sorted(ooo, lo) && lo' <= lo
    ensures Sorted(ooo, lo')
  {
  }

  function RcvAppend(r: Rcv, data: seq<Byte>): Rcv {
    var n := Min(|data|, RcvSpace(r));
    r.(buf := r.buf + data[..n], nxt := r.nxt + n)
  }

  predicate DrainReady(r: Rcv) { r.ooo != [] && r.ooo[0].at <= r.nxt }

  /** The first parked chunk's unseen bytes, as many as fit, appended. */
  function HeadTaken(r: Rcv): Rcv
    requires DrainReady(r)
  {
    var o := r.ooo[0];
    if r.nxt < o.End() then RcvAppend(r, o.data[r.nxt - o.at..]) else r
  }

  /** The queue without the first chunk, or without the part of it `nxt` has passed. */
  function HeadDropped(r: Rcv): seq<Chunk>
    requires DrainReady(r)
  {
    var o := r.ooo[0];
    if r.nxt < o.End() then [Chunk(r.nxt, o.data[r.nxt - o.at..])] + r.ooo[1..] else r.ooo[1..]
  }

  /** Take the first parked chunk, or as much of it as fits. */
  function DrainStep(r: Rcv): (d: Rcv)
    requires DrainReady(r)
    ensures d.ooo == r.ooo[1..] || (|d.ooo| == |r.ooo| && d.ooo[1..] == r.ooo[1..])
  {
    var r1 := HeadTaken(r);
    r1.(ooo := HeadDropped(r1))
  }

  /** Pull parked chunks that have become contiguous into the buffer, as many as fit. */
  function Drain(r: Rcv): Rcv
    decreases |r.ooo|
  {
    if !DrainReady(r) then r
    else
      var d := DrainStep(r);
      if |d.ooo| < |r.ooo| then Drain(d) else d
  }

  predicate FinReady(r: Rcv) { r.hasFin && r.nxt == r.finSeq && !r.finRcvd }

  predicate FinAcked(s: Snd) { s.finSent && s.una == s.nxt }

  function CheckFin(p: Pcb): (q: Pcb)
    ensures q.snd == p.snd && q.err == p.err
  {
    if !FinReady(p.rcv) then p
    else
      Pcb(FinState(p), p.snd, p.rcv.(finRcvd := true, nxt := p.rcv.nxt + 1), p.err)
  }

  /** The state after the peer's FIN. */
  function FinState(p: Pcb): State {
    match p.state
    case Established => CloseWait
    case FinWait1 => if FinAcked(p.snd) then TimeWait else Closing
    case FinWait2 => TimeWait
    case other => other
  }

  function DrainFin(p: Pcb): (q: Pcb)
    ensures q.snd == p.snd && q.err == p.err
  {
    CheckFin(p.(rcv := Drain(p.rcv)))
  }

  // ---- tcp_rx, the synchronized states -------------------------------------------------

  /** The segment overlaps the receive window (or is a bare ACK at its left edge). */
  predicate SeqAcceptable(r: Rcv, g: Segment) {
    var wnd := RcvSpace(r);
    if g.data == [] then
      if wnd == 0 then g.sq == r.nxt else r.nxt <= g.sq < r.nxt + wnd || g.sq == r.nxt
    else wnd > 0 && g.sq < r.nxt + wnd && g.sq + |g.data| - 1 >= r.nxt
  }

  function RecoverAfter(recover: nat, ack: nat): nat { if recover != 0 && ack >= recover then 0 else recover }

  /** The cumulative-ACK branch. */
  function AckAdvance(s: Snd, g: Segment): Snd
    requires s.una < g.ack
  {
    var acked := Min(g.ack - s.una, |s.buf|);
    var nxt := Max(s.nxt, g.ack);
    s.(buf := s.buf[acked..], una := g.ack, nxt := nxt, recover := RecoverAfter(s.recover, g.ack),
       sacked := NoteSacked(TrimSacked(s.sacked, 0, g.ack), g.sacks, g.ack, nxt),
       retries := 0, rtoArmed := g.ack != nxt, dupAcks := 0)
  }

  predicate IsDupAck(s: Snd, g: Segment) {
    g.ack == s.una && g.data == [] && s.nxt != s.una && g.wnd == s.wnd
  }

  /** The duplicate-ACK branch: the third one rolls `nxt` back to the first hole. */
  function DupAck(p: Pcb, g: Segment, room: nat): Step
    requires p.snd.mss >= 1 && p.snd.una <= p.snd.nxt
  {
    var s := p.snd.(sacked := NoteSacked(p.snd.sacked, g.sacks, p.snd.una, p.snd.nxt),
                    dupAcks := p.snd.dupAcks + 1);
    if s.dupAcks == 3 then
      Output(p.(snd := s.(recover := s.nxt, nxt := s.una, finSent := false)), room)
    else if s.dupAcks > 3 && |s.sacked| != |p.snd.sacked| then Output(p.(snd := s), room)
    else Step(p.(snd := s), [])
  }

  function AckStage(p: Pcb, g: Segment, room: nat): Step
    requires p.snd.mss >= 1 && p.snd.una <= p.snd.nxt
  {
    if g.ack > p.snd.una then Step(p.(snd := AckAdvance(p.snd, g)), [])
    else if IsDupAck(p.snd, g) then DupAck(p, g, room)
    else Step(p, [])
  }

  function WndUpdate(s: Snd, g: Segment): Snd {
    if s.wl1 < g.sq || (s.wl1 == g.sq && s.wl2 <= g.ack) then
      s.(wnd := g.wnd, wl1 := g.sq, wl2 := g.ack)
    else s
  }

  /** What acknowledging our FIN does to the connection state. */
  function AckedState(p: Pcb): Pcb {
    if !FinAcked(p.snd) then p
    else match p.state
         case FinWait1 => p.(state := FinWait2)
         case Closing => p.(state := TimeWait)
         case LastAck => SetClosed(p, NoError)
         case _ => p
  }

  datatype AckWhen = Never | Later | Now

  datatype DataStep = DataStep(p: Pcb, when: AckWhen, taken: nat)

  predicate TakesData(s: State) { s.Established? || s.FinWait1? || s.FinWait2? }

  /** The in-order bytes that fit are appended, the rest parked right behind them. */
  function InOrder(r: Rcv, data: seq<Byte>, mem: bool): Rcv
    requires Sorted(r.ooo, 0)
  {
    var r1 := RcvAppend(r, data);
    var n := r1.nxt - r.nxt;
    if n < |data| then r1.(ooo := OooInsert(r1.ooo, r.nxt + n, data[n..], OooBytes(r1.ooo), mem)) else r1
  }

  /** Data behind a hole, cut at the window's edge, is parked. */
  function Park(r: Rcv, sq: nat, data: seq<Byte>, edge: nat, mem: bool): Rcv
    requires Sorted(r.ooo, 0)
  {
    if sq >= edge then r
    else r.(ooo := OooInsert(r.ooo, sq, data[..Min(|data|, edge - sq)], OooBytes(r.ooo), mem), oooNewest := sq)
  }

  /** Where the unseen part of a segment's data begins, and that part. */
  function FreshAt(r: Rcv, g: Segment): nat { if g.sq < r.nxt then r.nxt else g.sq }

  function Fresh(r: Rcv, g: Segment): seq<Byte>
    requires r.nxt <= g.sq + |g.data|
  {
    g.data[FreshAt(r, g) - g.sq..]
  }

  /** In-order bytes go to the buffer, others are parked; `wnd` is the window the segment
      was checked against. */
  function TakeData(r: Rcv, g: Segment, wnd: nat, mem: bool): Rcv
    requires Sorted(r.ooo, 0) && r.nxt < g.sq + |g.data|
  {
    if FreshAt(r, g) == r.nxt then InOrder(r, Fresh(r, g), mem)
    else Park(r, g.sq, g.data, r.nxt + wnd, mem)
  }

  /** Only data that fits, in order and with nothing parked, may be acknowledged later. */
  function WhenAck(parked: bool, partlyOld: bool, overflow: bool): AckWhen {
    if parked || partlyOld || overflow then Now else Later
  }

  function DataStage(p: Pcb, g: Segment, wnd: nat, mem: bool): (d: DataStep)
    requires Sorted(p.rcv.ooo, 0)
    requires g.data != [] ==> p.rcv.nxt < g.sq + |g.data|
    ensures d.p.snd == p.snd && d.p.err == p.err
  {
    if g.data == [] then DataStep(p, Never, 0)
    else if !TakesData(p.state) then DataStep(p, Now, |g.data|)
    else
      var r := p.rcv;
      var p1 := p.(rcv := TakeData(r, g, wnd, mem));
      if FreshAt(r, g) == r.nxt then
        var p2 := DrainFin(p1);
        DataStep(p2, WhenAck(p2.rcv.ooo != [], g.sq < r.nxt, RcvSpace(r) < |Fresh(r, g)|), |Fresh(r, g)|)
      else DataStep(p1, Now, |g.data|)
  }

  function FinStage(p: Pcb, g: Segment): Pcb {
    CheckFin(if g.fin then p.(rcv := p.rcv.(hasFin := true, finSeq := g.sq + |g.data|)) else p)
  }

  /** Acknowledge now, later or not at all. */
  function Reply(p: Pcb, finNow: bool, when: AckWhen, taken: nat): Step {
    if finNow || when.Now? then SendAck(p)
    else if when.Later? then AckLater(p, taken)
    else Step(p, [])
  }

  /** The FIN flag, the reply, and whatever the window now allows. */
  function AfterData(d: DataStep, g: Segment, room: nat): Step
    requires d.p.snd.mss >= 1 && d.p.snd.una <= d.p.snd.nxt
  {
    var p1 := FinStage(d.p, g);
    var s1 := Reply(p1, p1.rcv.finRcvd != d.p.rcv.finRcvd, d.when, d.taken);
    var s2 := Output(s1.p, room);
    Step(s2.p, s1.out + s2.out)
  }

  /** Everything after the ACK field has been digested. */
  function Absorbed(p: Pcb, g: Segment, wnd: nat, mem: bool, room: nat): Step
    requires Sorted(p.rcv.ooo, 0) && p.snd.mss >= 1 && p.snd.una <= p.snd.nxt
    requires g.data != [] ==> p.rcv.nxt < g.sq + |g.data|
  {
    AfterData(DataStage(p, g, wnd, mem), g, room)
  }

  lemma OutputShape(p: Pcb, room: nat)
    requires p.snd.mss >= 1 && p.snd.una <= p.snd.nxt
    ensures var q := Output(p, room).p;
            q.state == p.state && q.err == p.err && q.snd.una == p.snd.una && q.snd.buf == p.snd.buf &&
            q.snd.nxt >= p.snd.nxt && q.snd.mss == p.snd.mss && q.snd.sacked == p.snd.sacked &&
            q.snd.finQueued == p.snd.finQueued && (q.rcv == p.rcv || q.rcv == AckCovered(p.rcv))
  {
    if MaySend(p.state) { OutputLoopShape(p, SendWindow(p.snd), room); }
  }

  lemma OutputLoopShape(p: Pcb, wnd: nat, room: nat)
    requires p.snd.mss >= 1 && p.snd.una <= p.snd.nxt
    ensures var q := OutputLoop(p, wnd, room).p;
            q.state == p.state && q.err == p.err && q.snd.una == p.snd.una && q.snd.buf == p.snd.buf &&
            q.snd.nxt >= p.snd.nxt && q.snd.mss == p.snd.mss && q.snd.sacked == p.snd.sacked &&
            q.snd.finQueued == p.snd.finQueued && q.snd.finSent == p.snd.finSent &&
            q.snd.recover == p.snd.recover && (q.rcv == p.rcv || q.rcv == AckCovered(p.rcv))
    decreases p.snd.una + |p.snd.buf| - p.snd.nxt
  {
    NextMoveAdvances(p, wnd, room);
    var m := NextMove(p, wnd, room);
    if !m.Stop? {
      OutputLoopShape(m.p, wnd, if m.Sent? then room - 1 else room);
      assert AckCovered(AckCovered(p.rcv)) == AckCovered(p.rcv);
    }
  }

  lemma AckStageShape(p: Pcb, g: Segment, room: nat)
    requires p.snd.mss >= 1 && p.snd.una <= p.snd.nxt
    ensures var q := AckStage(p, g, room).p;
            q.state == p.state && q.err == p.err && q.snd.mss == p.snd.mss && q.snd.una <= q.snd.nxt &&
            q.snd.finQueued == p.snd.finQueued && (q.rcv == p.rcv || q.rcv == AckCovered(p.rcv))
  {
    if !(g.ack > p.snd.una) && IsDupAck(p.snd, g) {
      var s := p.snd.(sacked := NoteSacked(p.snd.sacked, g.sacks, p.snd.una, p.snd.nxt),
                      dupAcks := p.snd.dupAcks + 1);
      if s.dupAcks == 3 {
        OutputShape(p.(snd := s.(recover := s.nxt, nxt := s.una, finSent := false)), room);
      } else if s.dupAcks > 3 && |s.sacked| != |p.snd.sacked| {
        OutputShape(p.(snd := s), room);
      }
    }
  }

  predicate WellFormed(p: Pcb) {
    && p.snd.mss >= 1 && p.snd.una <= p.snd.nxt
    && |p.snd.buf| <= BUF_SIZE && |p.rcv.buf| <= BUF_SIZE
    && |p.snd.sacked| <= MAX_SACK
    && Sorted(p.rcv.ooo, 0)
  }

  /** What the device will take during one received segment: room for the fast retransmit
      and for the final output, and whether the heap has memory for a parked chunk. */
  datatype Env = Env(room1: nat, room2: nat, mem: bool)

  /** A reset answering a segment for a connection that is gone. */
  function RstReply(g: Segment): seq<Segment> {
    if g.rst then []
    else if g.isAck then [Segment(g.ack, 0, false, false, false, true, 0, [], [])]
    else [Segment(0, g.sq + |g.data| + (if g.syn then 1 else 0) + (if g.fin then 1 else 0),
                  true, false, false, true, 0, [], [])]
  }

  function Rx(p: Pcb, g: Segment, env: Env): Step
    requires WellFormed(p)
  {
    if p.state.Closed? then Step(p, RstReply(g))
    else if !SeqAcceptable(p.rcv, g) then
      if g.rst then Step(p, []) else SendAck(p)
    else if g.rst then Step(SetClosed(p, ECONNRESET), [])
    else if g.syn then Abort(p, ECONNRESET)
    else if !g.isAck then Step(p, [])
    else if g.ack > p.snd.nxt then SendAck(p)
    else
      AckStageShape(p, g, env.room1);
      var s1 := AckStage(p, g, env.room1);
      var p2 := AckedState(s1.p.(snd := WndUpdate(s1.p.snd, g)));
      if p.state.LastAck? && p2.state.Closed? then Step(p2, s1.out)
      else
        var s3 := Absorbed(p2, g, RcvSpace(p.rcv), env.mem, env.room2);
        Step(s3.p, s1.out + s3.out)
  }

  // ---- timers and the socket interface -----------------------------------------------

  /** Which deadlines have passed. */
  datatype Due = Due(timeWait: bool, delack: bool, retry: bool, rto: bool)

  function RtoFire(p: Pcb, room: nat): Step
    requires p.snd.mss >= 1
  {
    var retries := p.snd.retries + 1;
    if retries > MAX_RETRIES then
      Abort(p.(snd := p.snd.(retries := retries)), ETIMEDOUT)
    else
      var s1 := Output(p.(snd := p.snd.(retries := retries, rtoArmed := false,
                                        nxt := p.snd.una, finSent := false, recover := 0)), room);
      Step(s1.p.(snd := s1.p.snd.(rtoArmed := true)), s1.out)
  }

  function TimerDelack(p: Pcb, due: bool): Step {
    if p.rcv.ackPending && p.rcv.delackArmed && due then SendAck(p) else Step(p, [])
  }

  function TimerRetry(p: Pcb, due: bool, room: nat): Step
    requires p.snd.mss >= 1 && p.snd.una <= p.snd.nxt
  {
    if p.snd.retryArmed && due then Output(p.(snd := p.snd.(retryArmed := false)), room) else Step(p, [])
  }

  function TimerRto(p: Pcb, due: bool, room: nat): Step
    requires p.snd.mss >= 1
  {
    if p.snd.rtoArmed && due then RtoFire(p, room) else Step(p, [])
  }

  function Timer(p: Pcb, due: Due, env: Env): Step
    requires WellFormed(p)
  {
    if p.state.TimeWait? && due.timeWait then Step(SetClosed(p, NoError), [])
    else
      var s1 := TimerDelack(p, due.delack);
      var s2 := TimerRetry(s1.p, due.retry, env.room1);
      OutputShape(s1.p.(snd := s1.p.snd.(retryArmed := false)), env.room1);
      var s3 := TimerRto(s2.p, due.rto, env.room2);
      Step(s3.p, s1.out + s2.out + s3.out)
  }

  datatype IoStep = IoDone(p: Pcb, out: seq<Segment>, data: seq<Byte>)
                  | IoFail(p: Pcb, out: seq<Segment>, err: Errno)

  /** `data` of the result is what was accepted. */
  function Send(p: Pcb, data: seq<Byte>, room: nat): IoStep
    requires WellFormed(p)
  {
    if p.snd.finQueued then IoFail(p, [], EPIPE)
    else if !p.state.Established? && !p.state.CloseWait? then
      IoFail(p, [], if p.err.NoError? then EPIPE else p.err)
    else
      var space := BUF_SIZE - |p.snd.buf|;
      if space == 0 then IoFail(p, [], EAGAIN)
      else
        var n := Min(|data|, space);
        var s1 := Output(p.(snd := p.snd.(buf := p.snd.buf + data[..n])), room);
        IoDone(s1.p, s1.out, data[..n])
  }

  /** The receiver-side window update after a read. */
  predicate WantsWndUpdate(p: Pcb) {
    var cur := AdvWnd(p.rcv);
    cur > p.rcv.wndAdv && (cur - p.rcv.wndAdv >= p.snd.mss || cur - p.rcv.wndAdv >= cur / 2)
  }

  /** What is left after reading `n` bytes off the buffer. */
  function ReadOff(p: Pcb, n: nat): Step
    requires n <= |p.rcv.buf|
  {
    var p1 := DrainFin(p.(rcv := p.rcv.(buf := p.rcv.buf[n..])));
    var p2 := CheckFin(p1);
    var finNow := p2.rcv.finRcvd != p1.rcv.finRcvd;
    if !p2.state.Closed? && (finNow || WantsWndUpdate(p2)) then SendAck(p2) else Step(p2, [])
  }

  /** A reader that finds nothing first pulls in what is parked. */
  function RecvDrained(p: Pcb): Pcb {
    if p.rcv.buf == [] && DrainReady(p.rcv) then CheckFin(DrainFin(p)) else p
  }

  /** `data` of the result is what the reader gets; an empty result with `len` positive is
      end of file. */
  function Recv(p: Pcb, len: nat, peek: bool): IoStep { RecvFrom(RecvDrained(p), len, peek) }

  function RecvFrom(p: Pcb, len: nat, peek: bool): IoStep {
    if p.rcv.buf == [] then
      if p.rcv.finRcvd then IoDone(p, [], [])
      else if p.state.Closed? && !p.err.NoError? then
        if peek then IoFail(p, [], p.err) else IoFail(p.(err := NoError), [], p.err)
      else if p.state.Closed? then IoDone(p, [], [])
      else IoFail(p, [], EAGAIN)
    else
      var n := Min(len, |p.rcv.buf|);
      if peek then IoDone(p, [], p.rcv.buf[..n])
      else
        var s := ReadOff(p, n);
        IoDone(s.p, s.out, p.rcv.buf[..n])
  }

  function ShutdownWr(p: Pcb, room: nat): Step
    requires WellFormed(p)
  {
    if p.snd.finQueued then Step(p, [])
    else
      match p.state
      case Established => Output(p.(state := FinWait1, snd := p.snd.(finQueued := true)), room)
      case CloseWait => Output(p.(state := LastAck, snd := p.snd.(finQueued := true)), room)
      case _ => Step(p, [])
  }

  function Close(p: Pcb, room: nat): Step
    requires WellFormed(p)
  {
    if p.state.Established? || p.state.CloseWait? then
      if p.rcv.buf != [] then Abort(p, NoError) else ShutdownWr(p, room)
    else Step(p, [])
  }
}
