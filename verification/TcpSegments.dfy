/** What the segments of one endpoint say about what it has received (kernel/net/tcp.c:148-253), and what it
    makes of the other side's selective acknowledgements (kernel/net/tcp.c:355-450). */
module TcpSegments {
  import opened TcpSpec
  import opened TcpInvariant

  // ---- acknowledgements and windows ----------------------------------------------------------------

  /** A segment that acknowledges all that has arrived in order and offers all the room there is. */
  predicate Acknowledges(g: Segment, r: Rcv) {
    && g.isAck && !g.syn && g.ack == r.nxt
    && g.wnd == Min(if |r.buf| <= 131072 then 131072 - |r.buf| else 0, 65535)
  }

  /** Every segment of an output does. */
  lemma OutputAcks(p: Pcb, room: nat)
    requires p.snd.mss >= 1 && p.snd.una <= p.snd.nxt
    ensures forall g :: g in Output(p, room).out ==> Acknowledges(g, p.rcv) && !g.rst && g.sacks == []
  {
    if MaySend(p.state) {
      LoopAcks(p, SendWindow(p.snd), room);
      OutputLoopShape(p, SendWindow(p.snd), room);
    }
  }

  lemma {:induction false} LoopAcks(p: Pcb, wnd: nat, room: nat)
    requires p.snd.mss >= 1 && p.snd.una <= p.snd.nxt
    ensures forall g :: g in OutputLoop(p, wnd, room).out ==>
              Acknowledges(g, p.rcv) && !g.rst && !g.fin && g.sacks == []
    decreases p.snd.una + |p.snd.buf| - p.snd.nxt
  {
    NextMoveAdvances(p, wnd, room);
    var m := NextMove(p, wnd, room);
    if !m.Stop? { LoopAcks(m.p, wnd, if m.Sent? then room - 1 else room); }
  }

  /** So does an acknowledgement of its own; after it none is owed. */
  lemma AckAcks(p: Pcb)
    ensures var s := SendAck(p);
            && |s.out| == 1 && Acknowledges(s.out[0], p.rcv) && !s.out[0].rst && !s.out[0].fin && s.out[0].data == []
            && s.out[0].sq == p.snd.nxt && s.out[0].sacks == SackBlocks(p.rcv)
            && s.p == p.(rcv := s.p.rcv) && !s.p.rcv.ackPending && !s.p.rcv.delackArmed && s.p.rcv.ackSegs == 0
            && s.p.rcv.wndAdv == s.out[0].wnd
            && s.p.rcv.nxt == p.rcv.nxt && s.p.rcv.buf == p.rcv.buf && s.p.rcv.ooo == p.rcv.ooo
  {
    hide SackBlocks;
  }

  // ---- the SACK option -----------------------------------------------------------------------------

  function BlockOf(c: Chunk): Range { Range(c.at, c.at + |c.data|) }

  ghost predicate OfChunk(ooo: seq<Chunk>, b: Range) { exists c :: c in ooo && b == BlockOf(c) }

  /** The blocks reported: as many of the parked chunks as fit into four, and first the one that came last
      (RFC 2018, section 4). */
  lemma SackReports(r: Rcv)
    requires r.sackOk && Sorted(r.ooo, 0)
    ensures var b := SackBlocks(r);
            && |b| == Min(4, |r.ooo|)
            && (forall i :: 0 <= i < |b| ==> OfChunk(r.ooo, b[i]))
            && (|r.ooo| <= 4 ==> forall c :: c in r.ooo ==> BlockOf(c) in b)
            && (forall c :: c in r.ooo && r.oooNewest != 0 && Holds(c, r.oooNewest) ==> b[0] == BlockOf(c))
  {
    if r.ooo != [] {
      var newest := if r.oooNewest != 0 then r.oooNewest else r.ooo[0].at;
      var x, y := BlocksOf(r.ooo, newest, true), BlocksOf(r.ooo, newest, false);
      assert SackBlocks(r) == TakeAtMost(x + y, 4);
      hide BlocksOf, SackBlocks, Sorted, OfChunk, BlockOf;
      BlocksSplit(r.ooo, newest);
      BlocksFrom(r.ooo, newest, true);
      BlocksFrom(r.ooo, newest, false);
      forall i | 0 <= i < |x + y| ensures OfChunk(r.ooo, (x + y)[i]) {
        if i < |x| { assert x[i] in x; } else { assert y[i - |x|] in y; }
      }
      forall c | c in r.ooo && Holds(c, newest) ensures |x| > 0 && x[0] == BlockOf(c) {
        NewestFirst(r.ooo, 0, newest, c);
      }
    }
  }

  lemma {:induction false} BlocksSplit(ooo: seq<Chunk>, newest: nat)
    ensures |BlocksOf(ooo, newest, true)| + |BlocksOf(ooo, newest, false)| == |ooo|
    ensures forall c :: c in ooo ==> BlockOf(c) in BlocksOf(ooo, newest, Holds(c, newest))
  {
    if ooo != [] { BlocksSplit(ooo[1..], newest); }
  }

  lemma {:induction false} BlocksFrom(ooo: seq<Chunk>, newest: nat, want: bool)
    ensures forall b :: b in BlocksOf(ooo, newest, want) ==> OfChunk(ooo, b)
  {
    if ooo != [] {
      BlocksFrom(ooo[1..], newest, want);
      forall b | b in BlocksOf(ooo, newest, want) ensures OfChunk(ooo, b) {
        if b in BlocksOf(ooo[1..], newest, want) {
          var c :| c in ooo[1..] && b == BlockOf(c);
          assert c in ooo;
        } else {
          assert ooo[0] in ooo && b == BlockOf(ooo[0]);
        }
      }
    }
  }

  /** At most one chunk holds a byte. */
  lemma {:induction false} NewestFirst(ooo: seq<Chunk>, lo: nat, newest: nat, c: Chunk)
    requires Sorted(ooo, lo) && c in ooo && Holds(c, newest)
    ensures |BlocksOf(ooo, newest, true)| > 0 && BlocksOf(ooo, newest, true)[0] == BlockOf(c)
  {
    if Holds(ooo[0], newest) {
      SortedHead(ooo[1..], ooo[0].End());
    } else {
      NewestFirst(ooo[1..], ooo[0].End(), newest, c);
    }
  }

  // ---- the other side's blocks ---------------------------------------------------------------------

  /** A block that tells something: not empty, and between what is acknowledged and what was sent. */
  predicate Useful(b: Range, una: nat, nxt: nat) { una <= b.start < b.end <= nxt }

  ghost predicate InUseful(blocks: seq<Range>, una: nat, nxt: nat, q: nat) {
    exists b :: b in blocks && Useful(b, una, nxt) && b.start <= q < b.end
  }

  /** Noting blocks adds their bytes to the table and no others, and forgets none; with room for all of them it
      adds all. */
  lemma {:induction false} NoteCovers(t: seq<Range>, blocks: seq<Range>, una: nat, nxt: nat, q: nat)
    requires |t| <= MAX_SACK
    ensures var u := NoteSacked(t, blocks, una, nxt);
            && (InTable(t, q) ==> InTable(u, q)) && (InTable(u, q) ==> InTable(t, q) || InUseful(blocks, una, nxt, q))
            && (|t| + |blocks| <= 8 ==> (InTable(u, q) <==> InTable(t, q) || InUseful(blocks, una, nxt, q)))
    decreases |blocks|
  {
    if blocks != [] {
      var b := blocks[0];
      UsefulSplit(blocks, una, nxt, q);
      if !Useful(b, una, nxt) {
        NoteCovers(t, blocks[1..], una, nxt, q);
      } else {
        var u := Absorb(t, b.start, b.end);
        AbsorbCovers(t, b.start, b.end, q);
        AbsorbSize(t, b.start, b.end);
        hide Absorb, InTable, InUseful;
        NoteCovers(u, blocks[1..], una, nxt, q);
      }
    }
  }

  lemma UsefulSplit(blocks: seq<Range>, una: nat, nxt: nat, q: nat)
    requires blocks != []
    ensures InUseful(blocks, una, nxt, q) <==>
              (Useful(blocks[0], una, nxt) && blocks[0].start <= q < blocks[0].end)
              || InUseful(blocks[1..], una, nxt, q)
  {
    assert forall b :: b in blocks <==> b == blocks[0] || b in blocks[1..];
  }

  lemma {:induction false} AbsorbSize(t: seq<Range>, a: nat, e: nat)
    requires |t| <= MAX_SACK
    ensures |Absorb(t, a, e)| <= |t| + 1 && |Absorb(t, a, e)| <= MAX_SACK
    decreases |t|
  {
    var k := FirstTouch(t, 0, a, e);
    if k < |t| { AbsorbSize(SwapRemove(t, k), LowStart(t[k], a), HighEnd(t[k], e)); }
  }

  /** Trimming forgets exactly the bytes a cumulative acknowledgement covers. */
  lemma TrimCovers(t: seq<Range>, una: nat, q: nat)
    ensures InTable(TrimSacked(t, 0, una), q) <==> InTable(t, q) && q >= una
  {
    TrimFrom(t, 0, una, q);
  }

  lemma {:induction false} TrimFrom(t: seq<Range>, k: nat, una: nat, q: nat)
    requires k <= |t| && forall i :: 0 <= i < k ==> una <= t[i].start
    ensures InTable(TrimSacked(t, k, una), q) <==> InTable(t, q) && q >= una
    decreases |t| - k
  {
    if k == |t| {
    } else if t[k].end <= una {
      WithoutEntry(t, k, q);
      TrimFrom(SwapRemove(t, k), k, una, q);
    } else if t[k].start < una {
      var u := t[k := Range(una, t[k].end)];
      CutEntry(t, k, una, q);
      TrimFrom(u, k + 1, una, q);
    } else {
      TrimFrom(t, k + 1, una, q);
    }
  }

  lemma CutEntry(t: seq<Range>, k: nat, una: nat, q: nat)
    requires k < |t| && t[k].start < una < t[k].end
    ensures var u := t[k := Range(una, t[k].end)];
            q >= una ==> (InTable(u, q) <==> InTable(t, q))
  {
    var u := t[k := Range(una, t[k].end)];
    if q >= una {
      if InTable(t, q) {
        var i :| 0 <= i < |t| && t[i].start <= q < t[i].end;
        assert u[i] in u && u[i].start <= q < u[i].end;
      }
      if InTable(u, q) {
        var i :| 0 <= i < |u| && u[i].start <= q < u[i].end;
        assert t[i] in t && t[i].start <= q < t[i].end;
      }
    }
  }
}
