/** Every operation of a TCP endpoint keeps its invariant with respect to its peer, never
    gives back what it has received, and only emits truthful segments. */
module TcpEndpoint {
  import opened TcpSpec
  import opened TcpInvariant

  /** An endpoint and its history: everything written to it and everything read from it;
      `base` is the number of the first byte written (one past its SYN). */
  datatype End = End(p: Pcb, base: nat, stream: seq<Byte>, got: seq<Byte>)

  /** What `x` believes about its peer is true of the peer. */
  ghost predicate AckOk(s: Snd, y: Pcb) {
    s.una <= y.rcv.nxt && SackHeld(s.sacked, y)
  }

  ghost predicate Core(x: End, y: End) {
    && SndOk(x.p.snd, x.base, x.stream)
    && RcvOk(x.p.rcv, x.got, y.base, y.stream, y.p.snd.finQueued)
    && AckOk(x.p.snd, y.p)
  }

  /** The connection state says which FINs were queued, received and acknowledged. With
      `settled` false, an acknowledgement of our FIN may not have changed the state yet. */
  predicate StateOk(p: Pcb, settled: bool) {
    var open := settled ==> !FinAcked(p.snd);
    var quiet := FinAcked(p.snd) ==> !p.snd.rtoArmed;
    match p.state
    case Established => !p.snd.finQueued && !p.rcv.finRcvd
    case CloseWait => !p.snd.finQueued && p.rcv.finRcvd
    case FinWait1 => p.snd.finQueued && !p.rcv.finRcvd && open && quiet
    case FinWait2 => p.snd.finQueued && !p.rcv.finRcvd && FinAcked(p.snd) && quiet
    case Closing => p.snd.finQueued && p.rcv.finRcvd && open && quiet
    case LastAck => p.snd.finQueued && p.rcv.finRcvd && open && quiet
    case TimeWait => p.snd.finQueued && p.rcv.finRcvd && FinAcked(p.snd) && quiet
    case Closed => !p.snd.rtoArmed
  }

  ghost predicate EndOk(x: End, y: End) { Core(x, y) && StateOk(x.p, true) }

  /** The ways an endpoint may change: its stream only grows, and not once closed; what it
      has received stays received while it is open. */
  ghost predicate Grows(x: End, x': End) {
    && x'.base == x.base
    && x.stream <= x'.stream && x.got <= x'.got
    && (x.p.snd.finQueued ==> x'.p.snd.finQueued && x'.stream == x.stream)
    && x.p.rcv.nxt <= x'.p.rcv.nxt
    && (x.p.state.Closed? ==> x'.p.state.Closed?)
    && (!x'.p.state.Closed? ==> Kept(x.p.rcv, x'.p.rcv))
  }

  ghost predicate Truthful(out: seq<Segment>, x: End) {
    forall g :: g in out ==> SegOk(g, x.p, x.base, x.stream)
  }

  /** `x'` with output `out` is a legitimate successor of `x` facing `y`. */
  ghost predicate Good(x: End, x': End, out: seq<Segment>, y: End) {
    Core(x', y) && Grows(x, x') && Truthful(out, x')
  }

  // ---- growth preserves what the other side and the wire rely on ----------------------

  lemma SegOkGrows(g: Segment, x: End, x': End)
    requires SegOk(g, x.p, x.base, x.stream) && Grows(x, x')
    ensures SegOk(g, x'.p, x'.base, x'.stream)
  {
    if !g.rst {
      if g.data != [] {
        assert g.data == x.stream[g.sq - x.base..][..|g.data|] == x'.stream[g.sq - x.base..][..|g.data|];
      }
      SackHeldGrows(g.sacks, x, x');
    }
  }

  lemma SackHeldGrows(t: seq<Range>, x: End, x': End)
    requires SackHeld(t, x.p) && Grows(x, x')
    ensures SackHeld(t, x'.p)
  {
    if !x'.p.state.Closed? {
      forall g | g in t ensures RangeHeld(x'.p.rcv, g) { assert RangeHeld(x.p.rcv, g); }
    }
  }

  lemma RcvOkGrows(r: Rcv, got: seq<Byte>, x: End, x': End)
    requires RcvOk(r, got, x.base, x.stream, x.p.snd.finQueued) && Grows(x, x')
    ensures RcvOk(r, got, x'.base, x'.stream, x'.p.snd.finQueued)
  {
    if !r.finRcvd {
      assert x'.stream[..r.nxt - x.base] == x.stream[..r.nxt - x.base];
    }
    forall c | c in r.ooo ensures ChunkOk(c, x'.base, x'.stream) {
      assert ChunkOk(c, x.base, x.stream);
      assert x'.stream[c.at - x.base..][..|c.data|] == x.stream[c.at - x.base..][..|c.data|];
    }
  }

  lemma TruthfulGrows(out: seq<Segment>, x: End, x': End)
    requires Truthful(out, x) && Grows(x, x')
    ensures Truthful(out, x')
  {
    forall g | g in out ensures SegOk(g, x'.p, x'.base, x'.stream) { SegOkGrows(g, x, x'); }
  }

  lemma GoodTrans(x: End, x1: End, x2: End, o1: seq<Segment>, o2: seq<Segment>, y: End)
    requires Good(x, x1, o1, y) && Good(x1, x2, o2, y)
    ensures Good(x, x2, o1 + o2, y)
  {
    TruthfulGrows(o1, x1, x2);
    if !x2.p.state.Closed? { KeptTrans(x.p.rcv, x1.p.rcv, x2.p.rcv); }
    assert forall g :: g in o1 + o2 ==> g in o1 || g in o2;
  }

  // ---- emitting ---------------------------------------------------------------------------

  lemma BlocksHeld(ooo: seq<Chunk>, newest: nat, want: bool, r: Rcv)
    requires forall c :: c in ooo ==> c in r.ooo
    ensures forall g :: g in BlocksOf(ooo, newest, want) ==> RangeHeld(r, g)
  {
    if ooo != [] {
      BlocksHeld(ooo[1..], newest, want, r);
      var c := ooo[0];
      assert c in r.ooo;
      assert RangeHeld(r, Range(c.at, c.End())) by {
        forall q: nat | c.at <= q < c.End() ensures Held(r, q) { assert Holds(c, q); }
      }
    }
  }

  /** Every block the receiver advertises is data it holds. */
  lemma SackBlocksHeld(r: Rcv)
    ensures forall g :: g in SackBlocks(r) ==> RangeHeld(r, g)
    ensures |SackBlocks(r)| <= SACK_BLOCKS
  {
    if r.sackOk && r.ooo != [] {
      var newest := if r.oooNewest != 0 then r.oooNewest else r.ooo[0].at;
      BlocksHeld(r.ooo, newest, true, r);
      BlocksHeld(r.ooo, newest, false, r);
    }
  }

  lemma AckCoveredKeeps(x: End, y: End)
    requires Core(x, y)
    ensures Core(x.(p := x.p.(rcv := AckCovered(x.p.rcv))), y)
    ensures Grows(x, x.(p := x.p.(rcv := AckCovered(x.p.rcv))))
  {
    assert forall q: nat :: Held(x.p.rcv, q) ==> Held(AckCovered(x.p.rcv), q);
  }

  lemma SendAckGood(x: End, y: End)
    requires Core(x, y)
    ensures Good(x, x.(p := SendAck(x.p).p), SendAck(x.p).out, y)
  {
    AckCoveredKeeps(x, y);
    var x' := x.(p := SendAck(x.p).p);
    var g := SendAck(x.p).out[0];
    SackBlocksHeld(x.p.rcv);
    assert SegOk(g, x.p, x.base, x.stream);
    SegOkGrows(g, x, x');
  }

  lemma SetClosedGood(x: End, err: Errno, y: End)
    requires Core(x, y)
    ensures Good(x, x.(p := SetClosed(x.p, err)), [], y)
    ensures StateOk(x.p, false) ==> StateOk(SetClosed(x.p, err), true)
  {
  }

  lemma AbortGood(x: End, err: Errno, y: End)
    requires Core(x, y)
    ensures Good(x, x.(p := Abort(x.p, err).p), Abort(x.p, err).out, y)
    ensures StateOk(x.p, false) ==> StateOk(Abort(x.p, err).p, true)
  {
    AckCoveredKeeps(x, y);
    SetClosedGood(x.(p := x.p.(rcv := AckCovered(x.p.rcv))), err, y);
    SetClosedGood(x, err, y);
  }

  lemma OutputGood(x: End, room: nat, y: End)
    requires Core(x, y)
    ensures var s := Output(x.p, room); Good(x, x.(p := s.p), s.out, y)
    ensures StateOk(x.p, true) ==> StateOk(Output(x.p, room).p, true)
  {
    var s := Output(x.p, room);
    var x' := x.(p := s.p);
    OutputShape(x.p, room);
    OutputOk(x.p, room, x.base, x.stream);
    AckCoveredKeeps(x, y);
    assert Core(x', y);
    assert Grows(x, x');
    assert Truthful(s.out, x);
    TruthfulGrows(s.out, x, x');
  }

  lemma AckLaterGood(x: End, datalen: nat, y: End)
    requires Core(x, y)
    ensures var s := AckLater(x.p, datalen); Good(x, x.(p := s.p), s.out, y)
  {
    var segs := CountSeg(x.p.rcv.ackSegs, datalen >= x.p.snd.mss);
    var x1 := x.(p := x.p.(rcv := x.p.rcv.(ackPending := true, ackSegs := segs)));
    assert Good(x, x1, [], y) by { assert forall q: nat :: Held(x.p.rcv, q) ==> Held(x1.p.rcv, q); }
    if segs >= 2 {
      SendAckGood(x1, y);
      GoodTrans(x, x1, x1.(p := SendAck(x1.p).p), [], SendAck(x1.p).out, y);
    } else {
      var x2 := x1.(p := x1.p.(rcv := x1.p.rcv.(delackArmed := true)));
      assert Good(x1, x2, [], y) by { assert forall q: nat :: Held(x1.p.rcv, q) ==> Held(x2.p.rcv, q); }
      GoodTrans(x, x1, x2, [], [], y);
    }
  }

  // ---- the acknowledgement half of a received segment -----------------------------------

  /** The segment comes from the peer `y` and has passed the checks before ACK processing. */
  ghost predicate Arrived(g: Segment, x: End, y: End) {
    SegOk(g, y.p, y.base, y.stream) && !g.rst && g.isAck && g.ack <= x.p.snd.nxt
  }

  /** A change of the sending half alone. */
  lemma SenderOnly(x: End, s: Snd, y: End)
    requires Core(x, y) && SndOk(s, x.base, x.stream) && AckOk(s, y.p)
    requires s.finQueued == x.p.snd.finQueued
    ensures Good(x, x.(p := x.p.(snd := s)), [], y)
  {
  }

  lemma AckAdvanceOk(s: Snd, g: Segment, base: nat, stream: seq<Byte>, y: Pcb)
    requires SndOk(s, base, stream) && AckOk(s, y)
    requires s.una < g.ack <= s.nxt && g.ack <= y.rcv.nxt && SackHeld(g.sacks, y)
    ensures SndOk(AckAdvance(s, g), base, stream) && AckOk(AckAdvance(s, g), y)
    ensures AckAdvance(s, g).finQueued == s.finQueued
    ensures FinAcked(AckAdvance(s, g)) ==> !AckAdvance(s, g).rtoArmed
    ensures AckAdvance(s, g).finSent == s.finSent
  {
    TrimSackedKeeps(s.sacked, 0, g.ack, y);
    NoteSackedKeeps(TrimSacked(s.sacked, 0, g.ack), g.sacks, g.ack, s.nxt, y);
    var acked := Min(g.ack - s.una, |s.buf|);
    if g.ack <= base + |stream| {
      assert s.buf[acked..] == stream[s.una - base..][acked..] == stream[g.ack - base..];
    }
  }

  lemma DupAckGood(x: End, g: Segment, room: nat, y: End)
    requires Core(x, y) && Arrived(g, x, y) && IsDupAck(x.p.snd, g) && StateOk(x.p, true)
    ensures var s := DupAck(x.p, g, room);
            Good(x, x.(p := s.p), s.out, y) && StateOk(s.p, true)
  {
    hide RcvOk, Kept, Output;
    var p := x.p;
    NoteSackedKeeps(p.snd.sacked, g.sacks, p.snd.una, p.snd.nxt, y.p);
    var s := p.snd.(sacked := NoteSacked(p.snd.sacked, g.sacks, p.snd.una, p.snd.nxt),
                    dupAcks := p.snd.dupAcks + 1);
    var s1 := if s.dupAcks == 3 then s.(recover := s.nxt, nxt := s.una, finSent := false) else s;
    var x1 := x.(p := p.(snd := s1));
    assert SndOk(s1, x.base, x.stream);
    SenderOnly(x, s1, y);
    assert StateOk(x1.p, true);
    OutputGood(x1, room, y);
    GoodTrans(x, x1, x1.(p := Output(x1.p, room).p), [], Output(x1.p, room).out, y);
    assert [] + Output(x1.p, room).out == Output(x1.p, room).out;
  }

  lemma AckStageGood(x: End, g: Segment, room: nat, y: End)
    requires Core(x, y) && Arrived(g, x, y) && StateOk(x.p, true) && !x.p.state.Closed?
    ensures var s := AckStage(x.p, g, room);
            Good(x, x.(p := s.p), s.out, y) && StateOk(s.p, false)
  {
    if g.ack > x.p.snd.una {
      AckAdvanceOk(x.p.snd, g, x.base, x.stream, y.p);
      SenderOnly(x, AckAdvance(x.p.snd, g), y);
    } else if IsDupAck(x.p.snd, g) {
      DupAckGood(x, g, room, y);
    } else {
      SenderOnly(x, x.p.snd, y);
    }
  }

  lemma AckedStateGood(x: End, g: Segment, y: End)
    requires Core(x, y) && StateOk(x.p, false)
    ensures var p' := AckedState(x.p.(snd := WndUpdate(x.p.snd, g)));
            Good(x, x.(p := p'), [], y) && StateOk(p', true)
  {
    SenderOnly(x, WndUpdate(x.p.snd, g), y);
    var x1 := x.(p := x.p.(snd := WndUpdate(x.p.snd, g)));
    if x.p.state.LastAck? && FinAcked(x1.p.snd) {
      SetClosedGood(x1, NoError, y);
      GoodTrans(x, x1, x1.(p := SetClosed(x1.p, NoError)), [], [], y);
    }
  }

  // ---- the data half ---------------------------------------------------------------------

  /** A change of the receiving half alone. */
  lemma ReceiverOnly(x: End, r: Rcv, got: seq<Byte>, y: End)
    requires Core(x, y) && RcvOk(r, got, y.base, y.stream, y.p.snd.finQueued)
    requires Kept(x.p.rcv, r) && x.got <= got
    ensures Good(x, x.(p := x.p.(rcv := r), got := got), [], y)
  {
  }

  /** With everything before the FIN received, nothing can be parked. */
  lemma NothingParked(r: Rcv, got: seq<Byte>, base: nat, stream: seq<Byte>, fin: bool)
    requires RcvOk(r, got, base, stream, fin) && FinReady(r)
    ensures r.ooo == []
  {
    if r.ooo != [] {
      assert ChunkOk(r.ooo[0], base, stream) by { assert r.ooo[0] in r.ooo; }
    }
  }

  lemma CheckFinGood(x: End, y: End)
    requires Core(x, y) && StateOk(x.p, true)
    ensures Good(x, x.(p := CheckFin(x.p)), [], y) && StateOk(CheckFin(x.p), true)
  {
    if FinReady(x.p.rcv) {
      NothingParked(x.p.rcv, x.got, y.base, y.stream, y.p.snd.finQueued);
      var r := x.p.rcv.(finRcvd := true, nxt := x.p.rcv.nxt + 1);
      assert y.stream[..|y.stream|] == y.stream;
      ReceiverOnly(x, r, x.got, y);
    }
  }

  /** The receiving half `r`, in-order but with chunks not yet drained, becomes valid. */
  lemma DrainFinGood(x: End, r: Rcv, got: seq<Byte>, y: End)
    requires Core(x, y) && StateOk(x.p, true)
    requires PrefixOk(r, got, y.base, y.stream) && Sorted(r.ooo, 0)
    requires forall c :: c in r.ooo ==> ChunkOk(c, y.base, y.stream)
    requires !r.finRcvd && !x.p.rcv.finRcvd && r.hasFin == x.p.rcv.hasFin && r.finSeq == x.p.rcv.finSeq
    requires Kept(x.p.rcv, r) && x.got <= got
    ensures var p' := DrainFin(x.p.(rcv := r));
            Good(x, x.(p := p', got := got), [], y) && StateOk(p', true)
  {
    DrainOk(r, got, y.base, y.stream);
    var d := Drain(r);
    KeptTrans(x.p.rcv, r, d);
    ReceiverOnly(x, d, got, y);
    var x1 := x.(p := x.p.(rcv := d), got := got);
    CheckFinGood(x1, y);
    GoodTrans(x, x1, x1.(p := CheckFin(x1.p)), [], [], y);
  }

  lemma InOrderOk(r: Rcv, got: seq<Byte>, data: seq<Byte>, mem: bool, base: nat, stream: seq<Byte>)
    requires PrefixOk(r, got, base, stream) && Sorted(r.ooo, 0)
    requires forall c :: c in r.ooo ==> ChunkOk(c, base, stream)
    requires SliceAt(data, stream, base, r.nxt)
    ensures var r2 := InOrder(r, data, mem);
            && PrefixOk(r2, got, base, stream) && Sorted(r2.ooo, 0)
            && (forall c :: c in r2.ooo ==> ChunkOk(c, base, stream)) && Kept(r, r2)
  {
    hide OooInsert, SliceAt;
    RcvAppendOk(r, data, got, base, stream);
    var r1 := RcvAppend(r, data);
    if r1.nxt - r.nxt < |data| {
      SpillOk(r1, data, r1.nxt - r.nxt, mem, base, stream);
    }
  }

  lemma SpillOk(r1: Rcv, data: seq<Byte>, n: nat, mem: bool, base: nat, stream: seq<Byte>)
    requires n < |data| && n <= r1.nxt && SliceAt(data, stream, base, r1.nxt - n) && Sorted(r1.ooo, 0)
    requires forall c :: c in r1.ooo ==> ChunkOk(c, base, stream)
    ensures var ooo := OooInsert(r1.ooo, r1.nxt, data[n..], OooBytes(r1.ooo), mem);
            && Sorted(ooo, 0) && (forall c :: c in ooo ==> ChunkOk(c, base, stream))
            && Kept(r1, r1.(ooo := ooo))
  {
    SliceSub(data, stream, base, r1.nxt - n, n, |data|);
    assert data[n..] == data[n..|data|];
    OooInsertOk(r1.ooo, r1.nxt, data[n..], OooBytes(r1.ooo), mem, 0, base, stream);
    ParkedKeeps(r1, r1.(ooo := OooInsert(r1.ooo, r1.nxt, data[n..], OooBytes(r1.ooo), mem)));
  }

  lemma ParkedKeeps(r: Rcv, r': Rcv)
    requires r.nxt == r'.nxt && forall c :: c in r.ooo ==> c in r'.ooo
    ensures Kept(r, r')
  {
    forall q: nat | Held(r, q) ensures Held(r', q) {
      if q >= r.nxt { var c :| c in r.ooo && Holds(c, q); assert c in r'.ooo; }
    }
  }

  lemma ParkOk(r: Rcv, got: seq<Byte>, sq: nat, data: seq<Byte>, edge: nat, mem: bool,
               base: nat, stream: seq<Byte>, fin: bool)
    requires RcvOk(r, got, base, stream, fin) && Sorted(r.ooo, 0)
    requires r.nxt < sq && SliceAt(data, stream, base, sq)
    ensures var r' := Park(r, sq, data, edge, mem);
            RcvOk(r', got, base, stream, fin) && Kept(r, r')
  {
    if sq < edge {
      var n := Min(|data|, edge - sq);
      SliceSub(data, stream, base, sq, 0, n);
      assert data[..n] == data[0..n];
      OooInsertOk(r.ooo, sq, data[..n], OooBytes(r.ooo), mem, r.nxt, base, stream);
      ParkedKeeps(r, Park(r, sq, data, edge, mem));
    }
  }

  lemma FreshSlice(r: Rcv, g: Segment, base: nat, stream: seq<Byte>)
    requires SliceAt(g.data, stream, base, g.sq) && r.nxt <= g.sq + |g.data|
    ensures SliceAt(Fresh(r, g), stream, base, FreshAt(r, g))
  {
    var k := FreshAt(r, g) - g.sq;
    SliceSub(g.data, stream, base, g.sq, k, |g.data|);
    assert g.data[k..] == g.data[k..|g.data|];
  }

  lemma InOrderGood(x: End, data: seq<Byte>, mem: bool, y: End)
    requires Core(x, y) && StateOk(x.p, true) && TakesData(x.p.state) && Sorted(x.p.rcv.ooo, 0)
    requires SliceAt(data, y.stream, y.base, x.p.rcv.nxt)
    ensures var p' := DrainFin(x.p.(rcv := InOrder(x.p.rcv, data, mem)));
            Good(x, x.(p := p'), [], y) && StateOk(p', true)
  {
    InOrderOk(x.p.rcv, x.got, data, mem, y.base, y.stream);
    DrainFinGood(x, InOrder(x.p.rcv, data, mem), x.got, y);
  }

  lemma DataStageGood(x: End, g: Segment, wnd: nat, mem: bool, y: End)
    requires Core(x, y) && StateOk(x.p, true) && SegOk(g, y.p, y.base, y.stream) && !g.rst
    requires Sorted(x.p.rcv.ooo, 0)
    requires g.data != [] ==> x.p.rcv.nxt < g.sq + |g.data|
    ensures var d := DataStage(x.p, g, wnd, mem);
            Good(x, x.(p := d.p), [], y) && StateOk(d.p, true)
  {
    hide InOrder, OooInsert, SliceAt, Drain, RcvOk, SndOk;
    var r := x.p.rcv;
    if g.data != [] && TakesData(x.p.state) {
      if FreshAt(r, g) == r.nxt {
        FreshSlice(r, g, y.base, y.stream);
        InOrderGood(x, Fresh(r, g), mem, y);
      } else {
        ParkOk(r, x.got, g.sq, g.data, r.nxt + wnd, mem, y.base, y.stream, y.p.snd.finQueued);
        ReceiverOnly(x, Park(r, g.sq, g.data, r.nxt + wnd, mem), x.got, y);
      }
    } else {
      SenderOnly(x, x.p.snd, y);
    }
  }

  lemma FinNotedGood(x: End, g: Segment, y: End)
    requires Core(x, y) && SegOk(g, y.p, y.base, y.stream) && !g.rst && g.fin
    ensures Good(x, x.(p := x.p.(rcv := x.p.rcv.(hasFin := true, finSeq := g.sq + |g.data|))), [], y)
  {
    var r := x.p.rcv.(hasFin := true, finSeq := g.sq + |g.data|);
    ParkedKeeps(x.p.rcv, r);
    ReceiverOnly(x, r, x.got, y);
  }

  lemma FinStageGood(x: End, g: Segment, y: End)
    requires Core(x, y) && StateOk(x.p, true) && SegOk(g, y.p, y.base, y.stream) && !g.rst
    ensures Good(x, x.(p := FinStage(x.p, g)), [], y) && StateOk(FinStage(x.p, g), true)
  {
    hide SndOk, RcvOk, AckOk, Kept, SegOk, CheckFin;
    if g.fin {
      FinNotedGood(x, g, y);
      var x1 := x.(p := x.p.(rcv := x.p.rcv.(hasFin := true, finSeq := g.sq + |g.data|)));
      CheckFinGood(x1, y);
      GoodTrans(x, x1, x1.(p := CheckFin(x1.p)), [], [], y);
    } else {
      CheckFinGood(x, y);
    }
  }

  lemma ReplyGood(x: End, finNow: bool, when: AckWhen, taken: nat, y: End)
    requires Core(x, y) && StateOk(x.p, true)
    ensures var s := Reply(x.p, finNow, when, taken);
            Good(x, x.(p := s.p), s.out, y) && StateOk(s.p, true)
  {
    SendAckGood(x, y);
    AckLaterGood(x, taken, y);
    SenderOnly(x, x.p.snd, y);
  }

  lemma AfterDataGood(x1: End, d: DataStep, g: Segment, room: nat, y: End)
    requires Core(x1, y) && StateOk(x1.p, true) && SegOk(g, y.p, y.base, y.stream) && !g.rst && d.p == x1.p
    ensures var s := AfterData(d, g, room);
            Good(x1, x1.(p := s.p), s.out, y) && StateOk(s.p, true)
  {
    FinStageGood(x1, g, y);
    var x2 := x1.(p := FinStage(d.p, g));
    var finNow := x2.p.rcv.finRcvd != d.p.rcv.finRcvd;
    ReplyGood(x2, finNow, d.when, d.taken, y);
    var s1 := Reply(x2.p, finNow, d.when, d.taken);
    var x3 := x2.(p := s1.p);
    GoodTrans(x1, x2, x3, [], s1.out, y);
    assert [] + s1.out == s1.out;
    OutputGood(x3, room, y);
    var s2 := Output(s1.p, room);
    GoodTrans(x1, x3, x3.(p := s2.p), s1.out, s2.out, y);
  }

  lemma AbsorbedGood(x: End, g: Segment, wnd: nat, mem: bool, room: nat, y: End)
    requires Core(x, y) && StateOk(x.p, true) && SegOk(g, y.p, y.base, y.stream) && !g.rst
    requires Sorted(x.p.rcv.ooo, 0)
    requires g.data != [] ==> x.p.rcv.nxt < g.sq + |g.data|
    ensures var s := Absorbed(x.p, g, wnd, mem, room);
            Good(x, x.(p := s.p), s.out, y) && StateOk(s.p, true)
  {
    DataStageGood(x, g, wnd, mem, y);
    var d := DataStage(x.p, g, wnd, mem);
    var x1 := x.(p := d.p);
    AfterDataGood(x1, d, g, room, y);
    var s := AfterData(d, g, room);
    GoodTrans(x, x1, x1.(p := s.p), [], s.out, y);
    assert [] + s.out == s.out;
  }

  lemma CoreWellFormed(x: End, y: End)
    requires Core(x, y)
    ensures WellFormed(x.p)
  {
    SortedWeaken(x.p.rcv.ooo, x.p.rcv.nxt, 0);
  }

  /** Any segment of the peer may arrive, late, twice or out of order. */
  lemma RxGood(x: End, g: Segment, env: Env, y: End)
    requires EndOk(x, y) && SegOk(g, y.p, y.base, y.stream) && WellFormed(x.p)
    ensures var s := Rx(x.p, g, env); Good(x, x.(p := s.p), s.out, y) && EndOk(x.(p := s.p), y)
  {
    var p := x.p;
    SenderOnly(x, p.snd, y);
    if p.state.Closed? {
    } else if !SeqAcceptable(p.rcv, g) {
      SendAckGood(x, y);
    } else if g.rst {
      SetClosedGood(x, ECONNRESET, y);
    } else if g.syn {
      AbortGood(x, ECONNRESET, y);
    } else if !g.isAck {
    } else if g.ack > p.snd.nxt {
      SendAckGood(x, y);
    } else {
      RxAckedGood(x, g, env, y);
    }
  }

  lemma RxAckedGood(x: End, g: Segment, env: Env, y: End)
    requires EndOk(x, y) && WellFormed(x.p) && Arrived(g, x, y)
    requires !x.p.state.Closed? && SeqAcceptable(x.p.rcv, g) && !g.syn
    ensures var s := Rx(x.p, g, env); Good(x, x.(p := s.p), s.out, y) && EndOk(x.(p := s.p), y)
  {
    hide SndOk, RcvOk, AckOk, Kept, SegOk, AckStage, Absorbed;
    AckStageGood(x, g, env.room1, y);
    AckStageShape(x.p, g, env.room1);
    var s1 := AckStage(x.p, g, env.room1);
    var x1 := x.(p := s1.p);
    AckedStateGood(x1, g, y);
    var p2 := AckedState(s1.p.(snd := WndUpdate(s1.p.snd, g)));
    var x2 := x1.(p := p2);
    GoodTrans(x, x1, x2, s1.out, [], y);
    assert s1.out + [] == s1.out;
    if x.p.state.LastAck? && p2.state.Closed? {
    } else {
      CoreWellFormed(x2, y);
      AbsorbedGood(x2, g, RcvSpace(x.p.rcv), env.mem, env.room2, y);
      var s3 := Absorbed(p2, g, RcvSpace(x.p.rcv), env.mem, env.room2);
      GoodTrans(x, x2, x2.(p := s3.p), s1.out, s3.out, y);
    }
  }

  // ---- timers and the socket interface -----------------------------------------------

  /** Rolling back to the first unacknowledged byte; our FIN cannot have been acknowledged. */
  lemma RollBackOk(x: End, retries: nat, y: End)
    requires EndOk(x, y) && x.p.snd.rtoArmed
    ensures var s := x.p.snd.(retries := retries, rtoArmed := false, nxt := x.p.snd.una, finSent := false,
                              recover := 0);
            Good(x, x.(p := x.p.(snd := s)), [], y) && StateOk(x.p.(snd := s), true) && !x.p.state.Closed? &&
            !x.p.state.FinWait2? && !x.p.state.TimeWait?
  {
    var s := x.p.snd.(retries := retries, rtoArmed := false, nxt := x.p.snd.una, finSent := false, recover := 0);
    assert !FinAcked(x.p.snd);
    SenderOnly(x, s, y);
  }

  lemma RtoFireGood(x: End, room: nat, y: End)
    requires EndOk(x, y) && x.p.snd.rtoArmed
    ensures var s := RtoFire(x.p, room); Good(x, x.(p := s.p), s.out, y) && StateOk(s.p, true)
  {
    hide RcvOk, Kept, SegOk, Output;
    var retries := x.p.snd.retries + 1;
    if retries > MAX_RETRIES {
      var x1 := x.(p := x.p.(snd := x.p.snd.(retries := retries)));
      SenderOnly(x, x1.p.snd, y);
      AbortGood(x1, ETIMEDOUT, y);
      var s := Abort(x1.p, ETIMEDOUT);
      GoodTrans(x, x1, x1.(p := s.p), [], s.out, y);
      assert [] + s.out == s.out;
    } else {
      RollBackOk(x, retries, y);
      var snd := x.p.snd.(retries := retries, rtoArmed := false, nxt := x.p.snd.una, finSent := false, recover := 0);
      RearmedGood(x, x.(p := x.p.(snd := snd)), room, y);
    }
  }

  lemma RearmedGood(x: End, x2: End, room: nat, y: End)
    requires Good(x, x2, [], y) && StateOk(x2.p, true) && !FinAcked(x2.p.snd) && !x2.p.state.Closed?
    ensures var s := Output(x2.p, room);
            var p' := s.p.(snd := s.p.snd.(rtoArmed := true));
            Good(x, x2.(p := p'), s.out, y) && StateOk(p', true)
  {
    OutputGood(x2, room, y);
    OutputShape(x2.p, room);
    OutputOk(x2.p, room, x2.base, x2.stream);
    var s := Output(x2.p, room);
    var x3 := x2.(p := s.p);
    GoodTrans(x, x2, x3, [], s.out, y);
    assert [] + s.out == s.out;
    SenderOnly(x3, s.p.snd.(rtoArmed := true), y);
    GoodTrans(x, x3, x3.(p := s.p.(snd := s.p.snd.(rtoArmed := true))), s.out, [], y);
    assert s.out + [] == s.out;
  }

  lemma TimerRetryGood(x: End, due: bool, room: nat, y: End)
    requires EndOk(x, y)
    ensures var s := TimerRetry(x.p, due, room);
            Good(x, x.(p := s.p), s.out, y) && StateOk(s.p, true)
  {
    hide RcvOk, Kept, SegOk, Output;
    SenderOnly(x, x.p.snd, y);
    if x.p.snd.retryArmed && due {
      SenderOnly(x, x.p.snd.(retryArmed := false), y);
      var x1 := x.(p := x.p.(snd := x.p.snd.(retryArmed := false)));
      OutputGood(x1, room, y);
      var s := Output(x1.p, room);
      GoodTrans(x, x1, x1.(p := s.p), [], s.out, y);
      assert [] + s.out == s.out;
    }
  }

  lemma TimerDelackGood(x: End, due: bool, y: End)
    requires EndOk(x, y)
    ensures var s := TimerDelack(x.p, due);
            Good(x, x.(p := s.p), s.out, y) && StateOk(s.p, true)
  {
    SenderOnly(x, x.p.snd, y);
    SendAckGood(x, y);
  }

  lemma TimerRtoGood(x: End, due: bool, room: nat, y: End)
    requires EndOk(x, y)
    ensures var s := TimerRto(x.p, due, room);
            Good(x, x.(p := s.p), s.out, y) && StateOk(s.p, true)
  {
    SenderOnly(x, x.p.snd, y);
    if x.p.snd.rtoArmed { RtoFireGood(x, room, y); }
  }

  lemma TimerGood(x: End, due: Due, env: Env, y: End)
    requires EndOk(x, y) && WellFormed(x.p)
    ensures var s := Timer(x.p, due, env); Good(x, x.(p := s.p), s.out, y) && StateOk(s.p, true)
  {
    if x.p.state.TimeWait? && due.timeWait {
      SetClosedGood(x, NoError, y);
    } else {
      TimerDelackGood(x, due.delack, y);
      var s1 := TimerDelack(x.p, due.delack);
      var x1 := x.(p := s1.p);
      TimerRetryGood(x1, due.retry, env.room1, y);
      var s2 := TimerRetry(s1.p, due.retry, env.room1);
      var x2 := x1.(p := s2.p);
      GoodTrans(x, x1, x2, s1.out, s2.out, y);
      TimerRtoGood(x2, due.rto, env.room2, y);
      var s3 := TimerRto(s2.p, due.rto, env.room2);
      GoodTrans(x, x2, x2.(p := s3.p), s1.out + s2.out, s3.out, y);
    }
  }

  /** Appending to the send buffer appends to the stream. */
  lemma WriteOk(x: End, data: seq<Byte>, y: End)
    requires EndOk(x, y) && !x.p.snd.finQueued && |x.p.snd.buf| + |data| <= BUF_SIZE
    ensures var x1 := x.(p := x.p.(snd := x.p.snd.(buf := x.p.snd.buf + data)), stream := x.stream + data);
            Good(x, x1, [], y) && StateOk(x1.p, true)
  {
    var una := x.p.snd.una;
    assert (x.stream + data)[una - x.base..] == x.stream[una - x.base..] + data;
  }

  /** Writing extends the stream by exactly the accepted bytes. */
  lemma SendGood(x: End, data: seq<Byte>, room: nat, y: End)
    requires EndOk(x, y) && WellFormed(x.p)
    ensures var s := Send(x.p, data, room);
            var x' := x.(p := s.p, stream := if s.IoDone? then x.stream + s.data else x.stream);
            Good(x, x', s.out, y) && EndOk(x', y)
  {
    var s := Send(x.p, data, room);
    if s.IoDone? {
      var n := Min(|data|, BUF_SIZE - |x.p.snd.buf|);
      WriteOk(x, data[..n], y);
      var x1 := x.(p := x.p.(snd := x.p.snd.(buf := x.p.snd.buf + data[..n])), stream := x.stream + data[..n]);
      OutputGood(x1, room, y);
      GoodTrans(x, x1, x1.(p := s.p), [], s.out, y);
      assert [] + s.out == s.out;
    } else {
      SenderOnly(x, x.p.snd, y);
    }
  }

  /** Reading off the buffer hands over the next bytes of the peer's stream. */
  lemma ReadOffGood(x: End, n: nat, y: End)
    requires EndOk(x, y) && n <= |x.p.rcv.buf|
    ensures var s := ReadOff(x.p, n);
            var x' := x.(p := s.p, got := x.got + x.p.rcv.buf[..n]);
            Good(x, x', s.out, y) && EndOk(x', y)
  {
    var r := x.p.rcv.(buf := x.p.rcv.buf[n..]);
    var got := x.got + x.p.rcv.buf[..n];
    var x1 := x.(p := DrainFin(x.p.(rcv := r)), got := got);
    SkipGood(x, n, y);
    hide DrainFin, CheckFin, Good, Core, StateOk;
    GoodCore(x, x1, y);
    CheckFinGood(x1, y);
    var x2 := x1.(p := CheckFin(x1.p));
    GoodTrans(x, x1, x2, [], [], y);
    GoodCore(x, x2, y);
    SendAckGood(x2, y);
    var o := SendAck(x2.p).out;
    GoodTrans(x, x2, x2.(p := SendAck(x2.p).p), [], o, y);
    SendAckState(x2.p);
    assert [] + o == o;
  }

  /** Taking `n` bytes off the buffer and draining what then fits. */
  lemma SkipGood(x: End, n: nat, y: End)
    requires EndOk(x, y) && n <= |x.p.rcv.buf|
    ensures var x1 := x.(p := DrainFin(x.p.(rcv := x.p.rcv.(buf := x.p.rcv.buf[n..]))),
                         got := x.got + x.p.rcv.buf[..n]);
            Good(x, x1, [], y) && StateOk(x1.p, true)
  {
    var r := x.p.rcv.(buf := x.p.rcv.buf[n..]);
    var got := x.got + x.p.rcv.buf[..n];
    assert got + r.buf == x.got + x.p.rcv.buf;
    assert Kept(x.p.rcv, r) by { assert forall q: nat :: Held(x.p.rcv, q) ==> Held(r, q); }
    hide SegOk, AckOk, SndOk;
    SortedWeaken(r.ooo, r.nxt, 0);
    if x.p.rcv.finRcvd {
      FinishedQueueEmpty(x.p.rcv, x.got, y.base, y.stream, y.p.snd.finQueued);
      ReceiverOnly(x, r, got, y);
    } else {
      hide DrainFin, CheckFin;
      DrainFinGood(x, r, got, y);
    }
  }

  lemma GoodCore(x: End, x1: End, y: End)
    requires Good(x, x1, [], y)
    ensures Core(x1, y)
  {
  }

  lemma SendAckState(p: Pcb)
    requires StateOk(p, true)
    ensures StateOk(SendAck(p).p, true)
  {
  }

  lemma FinishedQueueEmpty(r: Rcv, got: seq<Byte>, base: nat, stream: seq<Byte>, fin: bool)
    requires RcvOk(r, got, base, stream, fin) && r.finRcvd
    ensures r.ooo == []
  {
    if r.ooo != [] {
      assert ChunkOk(r.ooo[0], base, stream) by { assert r.ooo[0] in r.ooo; }
    }
  }

  lemma RecvGood(x: End, len: nat, peek: bool, y: End)
    requires EndOk(x, y)
    ensures var s := Recv(x.p, len, peek);
            var x' := x.(p := s.p, got := if s.IoDone? && !peek then x.got + s.data else x.got);
            Good(x, x', s.out, y) && EndOk(x', y)
  {
    hide RecvFrom, SndOk, AckOk, SegOk;
    SenderOnly(x, x.p.snd, y);
    var p0 := RecvDrained(x.p);
    var x0 := x.(p := p0);
    if x.p.rcv.buf == [] && DrainReady(x.p.rcv) {
      if x.p.rcv.finRcvd {
        FinishedQueueEmpty(x.p.rcv, x.got, y.base, y.stream, y.p.snd.finQueued);
      }
      SortedWeaken(x.p.rcv.ooo, x.p.rcv.nxt, 0);
      DrainFinGood(x, x.p.rcv, x.got, y);
      var x1 := x.(p := DrainFin(x.p));
      assert x.p.(rcv := x.p.rcv) == x.p;
      CheckFinGood(x1, y);
      GoodTrans(x, x1, x0, [], [], y);
    }
    assert Good(x, x0, [], y) && EndOk(x0, y);
    RecvFromGood(x0, len, peek, y);
    var s := RecvFrom(p0, len, peek);
    GoodTrans(x, x0, x0.(p := s.p, got := if s.IoDone? && !peek then x.got + s.data else x.got), [], s.out, y);
    assert [] + s.out == s.out;
  }

  lemma RecvFromGood(x: End, len: nat, peek: bool, y: End)
    requires EndOk(x, y)
    ensures var s := RecvFrom(x.p, len, peek);
            var x' := x.(p := s.p, got := if s.IoDone? && !peek then x.got + s.data else x.got);
            Good(x, x', s.out, y) && EndOk(x', y)
  {
    hide ReadOff;
    var p := x.p;
    assert x.got + [] == x.got;
    SenderOnly(x, p.snd, y);
    if p.rcv.buf == [] {
      assert Good(x, x.(p := p.(err := NoError)), [], y);
    } else if !peek {
      ReadOffGood(x, Min(len, |p.rcv.buf|), y);
    }
  }

  lemma ShutdownWrGood(x: End, room: nat, y: End)
    requires EndOk(x, y) && WellFormed(x.p)
    ensures var s := ShutdownWr(x.p, room); Good(x, x.(p := s.p), s.out, y) && EndOk(x.(p := s.p), y)
  {
    SenderOnly(x, x.p.snd, y);
    if !x.p.snd.finQueued && (x.p.state.Established? || x.p.state.CloseWait?) {
      var p1 := x.p.(state := if x.p.state.Established? then FinWait1 else LastAck,
                     snd := x.p.snd.(finQueued := true));
      var x1 := x.(p := p1);
      assert Good(x, x1, [], y);
      OutputGood(x1, room, y);
      var s := Output(p1, room);
      GoodTrans(x, x1, x1.(p := s.p), [], s.out, y);
      assert [] + s.out == s.out;
    }
  }

  lemma CloseGood(x: End, room: nat, y: End)
    requires EndOk(x, y) && WellFormed(x.p)
    ensures var s := Close(x.p, room); Good(x, x.(p := s.p), s.out, y) && EndOk(x.(p := s.p), y)
  {
    SenderOnly(x, x.p.snd, y);
    if x.p.state.Established? || x.p.state.CloseWait? {
      if x.p.rcv.buf != [] { AbortGood(x, NoError, y); } else { ShutdownWrGood(x, room, y); }
    }
  }
}
