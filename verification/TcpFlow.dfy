/** How far `tcp_output` goes (kernel/net/tcp.c:285-350): never past the peer's window, never over data the
    peer has selectively acknowledged, and no less far than it may. */
module TcpFlow {
  import opened TcpSpec
  import opened TcpInvariant

  /** A data segment that the peer's window and sixteen full segments in flight allow, or the one byte that
      probes a closed window. */
  predicate Allowed(g: Segment, s: Snd) {
    || g.sq + |g.data| <= s.una + Min(s.wnd, 16 * s.mss)
    || (s.wnd == 0 && s.nxt == s.una && g.sq == s.una && |g.data| == 1)
  }

  /** The states in which data or a FIN may still have to be sent. */
  predicate Sending(s: State) { s in {Established, CloseWait, FinWait1, Closing, LastAck} }

  /** Flow control: every segment sent carries at most `mss` bytes, from `nxt` on, and stays in the window. */
  lemma FlowControl(p: Pcb, room: nat, g: Segment)
    requires p.snd.mss >= 1 && p.snd.una <= p.snd.nxt && g in Output(p, room).out
    ensures |g.data| <= p.snd.mss && p.snd.nxt <= g.sq
    ensures g.data != [] ==> Allowed(g, p.snd)
  {
    if MaySend(p.state) {
      var wnd := SendWindow(p.snd);
      LoopWithin(p, wnd, room);
      OutputLoopShape(p, wnd, room);
    }
  }

  lemma {:induction false} LoopWithin(p: Pcb, wnd: nat, room: nat)
    requires p.snd.mss >= 1 && p.snd.una <= p.snd.nxt
    ensures forall g :: g in OutputLoop(p, wnd, room).out ==>
              && p.snd.nxt <= g.sq && 1 <= |g.data| <= p.snd.mss
              && g.sq + |g.data| <= p.snd.una + Min(|p.snd.buf|, wnd)
    decreases p.snd.una + |p.snd.buf| - p.snd.nxt
  {
    NextMoveAdvances(p, wnd, room);
    var m := NextMove(p, wnd, room);
    if !m.Stop? {
      if m.Sent? { SegLenFits(p.snd, wnd); }
      LoopWithin(m.p, wnd, if m.Sent? then room - 1 else room);
    }
  }

  lemma SegLenFits(s: Snd, wnd: nat)
    requires s.una <= s.nxt < s.una + Min(|s.buf|, wnd) && s.mss >= 1
    ensures 1 <= SegLen(s, wnd) <= s.mss && s.nxt + SegLen(s, wnd) <= s.una + Min(|s.buf|, wnd)
  {
    NextSackStartInside(s.sacked, s.nxt, Min(Min(|s.buf| - (s.nxt - s.una), s.mss), wnd - (s.nxt - s.una)));
  }

  // ---- selective acknowledgement -----------------------------------------------------------------

  /** Exactly the bytes between the old and the new `nxt` that the table does not hold are sent. */
  lemma OutputExact(p: Pcb, room: nat, q: nat)
    requires p.snd.mss >= 1 && p.snd.una <= p.snd.nxt && q < p.snd.una + |p.snd.buf|
    ensures InSegment(Output(p, room).out, q) <==>
              p.snd.nxt <= q < Output(p, room).p.snd.nxt && !InTable(p.snd.sacked, q)
  {
    if MaySend(p.state) {
      var wnd := SendWindow(p.snd);
      OutputLoopShape(p, wnd, room);
      LoopExact(p, wnd, room, q);
      var s1, s2 := OutputLoop(p, wnd, room), OutputFin(OutputLoop(p, wnd, room).p);
      assert forall g :: g in s1.out + s2.out <==> g in s1.out || g in s2.out;
      assert InSegment(s1.out + s2.out, q) <==> InSegment(s1.out, q);
    }
  }

  lemma {:induction false} LoopExact(p: Pcb, wnd: nat, room: nat, q: nat)
    requires p.snd.mss >= 1 && p.snd.una <= p.snd.nxt
    ensures InSegment(OutputLoop(p, wnd, room).out, q) <==>
              p.snd.nxt <= q < OutputLoop(p, wnd, room).p.snd.nxt && !InTable(p.snd.sacked, q)
    decreases p.snd.una + |p.snd.buf| - p.snd.nxt
  {
    NextMoveAdvances(p, wnd, room);
    var m := NextMove(p, wnd, room);
    if m.Jump? {
      OutputLoopShape(m.p, wnd, room);
      LoopExact(m.p, wnd, room, q);
      SackedThroughCovers(p.snd.sacked, p.snd.nxt);
    } else if m.Sent? {
      OutputLoopShape(m.p, wnd, room - 1);
      LoopExact(m.p, wnd, room - 1, q);
      SegClear(p.snd, wnd);
      SplitOut(m.seg, OutputLoop(m.p, wnd, room - 1).out, q);
    }
  }

  lemma SplitOut(g: Segment, out: seq<Segment>, q: nat)
    ensures InSegment([g] + out, q) <==> g.sq <= q < g.sq + |g.data| || InSegment(out, q)
  {
    assert forall x :: x in [g] + out <==> x == g || x in out;
  }

  lemma SegClear(s: Snd, wnd: nat)
    requires s.una <= s.nxt < s.una + Min(|s.buf|, wnd) && s.mss >= 1 && SackedThrough(s.sacked, s.nxt) == 0
    ensures forall q :: s.nxt <= q < s.nxt + SegLen(s, wnd) ==> !InTable(s.sacked, q)
  {
    var n := Min(Min(|s.buf| - (s.nxt - s.una), s.mss), wnd - (s.nxt - s.una));
    NextSackStartInside(s.sacked, s.nxt, n);
    NextStartLeast(s.sacked, s.nxt, n);
    NotThrough(s.sacked, s.nxt);
  }

  lemma {:induction false} NextStartLeast(t: seq<Range>, q: nat, n: nat)
    ensures forall g :: g in t && q < g.start < q + n ==> 0 < NextSackStart(t, q, n) <= g.start
  {
    if t != [] {
      NextStartLeast(t[..|t| - 1], q, n);
      NextSackStartInside(t[..|t| - 1], q, n);
      assert t == t[..|t| - 1] + [t[|t| - 1]];
    }
  }

  lemma {:induction false} NotThrough(t: seq<Range>, q: nat)
    requires SackedThrough(t, q) == 0
    ensures forall g :: g in t ==> !(g.start <= q < g.end)
  {
    if t != [] {
      NotThrough(t[1..], q);
      assert t == [t[0]] + t[1..];
    }
  }

  // ---- no less than it may -----------------------------------------------------------------------

  /** Output stops only at the end of the data or of the window, at the end of a recovery, or when the
      device refuses: then all `room` segments are out and another try is scheduled. */
  lemma OutputStops(p: Pcb, room: nat)
    requires p.snd.mss >= 1 && p.snd.una <= p.snd.nxt && Sending(p.state)
    ensures var s := Output(p, room);
            || s.p.snd.nxt >= p.snd.una + |p.snd.buf|
            || s.p.snd.nxt >= p.snd.una + Min(p.snd.wnd, 16 * p.snd.mss)
            || (p.snd.recover != 0 && s.p.snd.nxt >= p.snd.recover)
            || (s.p.snd.retryArmed && |s.out| >= room)
  {
    var wnd := SendWindow(p.snd);
    LoopStops(p, wnd, room);
    OutputLoopShape(p, wnd, room);
  }

  lemma {:induction false} LoopStops(p: Pcb, wnd: nat, room: nat)
    requires p.snd.mss >= 1 && p.snd.una <= p.snd.nxt
    ensures var s := OutputLoop(p, wnd, room);
            || s.p.snd.nxt >= p.snd.una + |p.snd.buf|
            || s.p.snd.nxt >= p.snd.una + wnd
            || (p.snd.recover != 0 && s.p.snd.nxt >= p.snd.recover)
            || (s.p.snd.retryArmed && |s.out| == room)
    decreases p.snd.una + |p.snd.buf| - p.snd.nxt
  {
    NextMoveAdvances(p, wnd, room);
    var m := NextMove(p, wnd, room);
    if !m.Stop? { LoopStops(m.p, wnd, if m.Sent? then room - 1 else room); }
  }

  /** In fast recovery nothing from `recover` on is sent, and the recovery is over once `nxt` gets there. */
  lemma RecoveryHolds(p: Pcb, room: nat)
    requires p.snd.mss >= 1 && p.snd.una <= p.snd.nxt && Sending(p.state) && p.snd.recover != 0
    ensures forall g :: g in Output(p, room).out ==> g.sq < p.snd.recover
    ensures var s := Output(p, room).p.snd; s.recover == if s.nxt >= p.snd.recover then 0 else p.snd.recover
  {
    var wnd := SendWindow(p.snd);
    LoopRecovers(p, wnd, room);
    OutputLoopShape(p, wnd, room);
  }

  lemma {:induction false} LoopRecovers(p: Pcb, wnd: nat, room: nat)
    requires p.snd.mss >= 1 && p.snd.una <= p.snd.nxt && p.snd.recover != 0
    ensures forall g :: g in OutputLoop(p, wnd, room).out ==> g.sq < p.snd.recover
    decreases p.snd.una + |p.snd.buf| - p.snd.nxt
  {
    NextMoveAdvances(p, wnd, room);
    var m := NextMove(p, wnd, room);
    if !m.Stop? { LoopRecovers(m.p, wnd, if m.Sent? then room - 1 else room); }
  }

  /** Segments of `mss` bytes one after the other from `from` on, the last cut at `edge`, as many as `room`
      allows; they end at `to`. */
  predicate Fills(out: seq<Segment>, from: nat, edge: nat, mss: nat, room: nat, to: nat)
    decreases room
  {
    if from >= edge || room == 0 then out == [] && to == from
    else
      && out != [] && out[0].sq == from && |out[0].data| == Min(mss, edge - from)
      && Fills(out[1..], from + |out[0].data|, edge, mss, room - 1, to)
  }

  /** So they reach the edge, or `room` times `mss` bytes. */
  lemma {:induction false} FillsFar(out: seq<Segment>, from: nat, edge: nat, mss: nat, room: nat, to: nat)
    requires Fills(out, from, edge, mss, room, to) && from <= edge
    ensures to == Min(edge, from + room * mss)
    decreases room
  {
    if from < edge && room > 0 {
      FillsFar(out[1..], from + |out[0].data|, edge, mss, room - 1, to);
      assert room * mss == mss + (room - 1) * mss;
    }
  }

  /** How far the window lets the data go: with the window open to its edge, with a closed one a single byte,
      and that only if nothing is in flight. */
  function Edge(s: Snd): nat {
    if s.wnd > 0 then s.una + Min(|s.buf|, Min(s.wnd, 16 * s.mss))
    else if s.nxt == s.una && s.buf != [] then s.una + 1
    else s.una
  }

  /** With nothing selectively acknowledged and no recovery, output fills the window, in full segments. A queued
      FIN follows the last byte. */
  lemma FillsWindow(p: Pcb, room: nat) returns (data: seq<Segment>, to: nat)
    requires p.snd.mss >= 1 && p.snd.una <= p.snd.nxt && Sending(p.state)
    requires p.snd.sacked == [] && p.snd.recover == 0
    ensures Fills(data, p.snd.nxt, Edge(p.snd), p.snd.mss, room, to)
    ensures var s, r := p.snd, Output(p, room);
            if s.finQueued && !s.finSent && to == s.una + |s.buf| then
              && |r.out| == |data| + 1 && r.out[..|data|] == data
              && r.out[|data|].fin && r.out[|data|].sq == to && r.out[|data|].data == []
              && r.p.snd.nxt == to + 1 && r.p.snd.finSent
            else r.out == data && r.p.snd.nxt == to && r.p.snd.finSent == s.finSent
  {
    var wnd := SendWindow(p.snd);
    LoopFills(p, wnd, room);
    OutputLoopShape(p, wnd, room);
    assert p.snd.nxt < Edge(p.snd) || p.snd.nxt < p.snd.una + Min(|p.snd.buf|, wnd) ==>
        Edge(p.snd) == p.snd.una + Min(|p.snd.buf|, wnd);
    hide OutputLoop;
    data, to := OutputLoop(p, wnd, room).out, OutputLoop(p, wnd, room).p.snd.nxt;
    var s2 := OutputFin(OutputLoop(p, wnd, room).p);
    assert (data + s2.out)[..|data|] == data;
    assert s2.out == [] ==> data + s2.out == data;
  }

  lemma {:induction false} LoopFills(p: Pcb, wnd: nat, room: nat)
    requires p.snd.mss >= 1 && p.snd.una <= p.snd.nxt && p.snd.sacked == [] && p.snd.recover == 0
    ensures var s, r := p.snd, OutputLoop(p, wnd, room);
            Fills(r.out, s.nxt, s.una + Min(|s.buf|, wnd), s.mss, room, r.p.snd.nxt)
    decreases p.snd.una + |p.snd.buf| - p.snd.nxt
  {
    NextMoveAdvances(p, wnd, room);
    FullSegment(p, wnd, room);
    var m := NextMove(p, wnd, room);
    if m.Sent? {
      LoopFills(m.p, wnd, room - 1);
      var rest := OutputLoop(m.p, wnd, room - 1).out;
      assert OutputLoop(p, wnd, room).out == [m.seg] + rest && ([m.seg] + rest)[1..] == rest;
    }
  }

  lemma FullSegment(p: Pcb, wnd: nat, room: nat)
    requires p.snd.mss >= 1 && p.snd.una <= p.snd.nxt && p.snd.sacked == [] && p.snd.recover == 0
    ensures var s, m := p.snd, NextMove(p, wnd, room);
            var edge := s.una + Min(|s.buf|, wnd);
            && !m.Jump? && (m.Stop? <==> s.nxt >= edge || room == 0)
            && (m.Sent? ==> m.seg.sq == s.nxt && |m.seg.data| == Min(s.mss, edge - s.nxt))
  {
    var s := p.snd;
    if s.nxt < s.una + Min(|s.buf|, wnd) { SegLenBounds(s, wnd); }
  }
}
