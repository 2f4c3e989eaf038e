/** What one TCP endpoint keeps true across every operation, relative to its peer: the send
    buffer is the unacknowledged tail of the written stream, the receive side holds a prefix
    of the peer's stream and correct pieces beyond it, and every range the sender believes
    selectively acknowledged is held by the peer. */
module TcpInvariant {
  import opened TcpSpec

  // ---- the SACK scoreboard -----------------------------------------------------------

  predicate Separate(r: Range, s: Range) { r.end < s.start || s.end < r.start }

  /** Entries are non-empty and pairwise neither overlap nor touch. */
  predicate Disjoint(t: seq<Range>) {
    && (forall i :: 0 <= i < |t| ==> t[i].start < t[i].end)
    && (forall i, j :: 0 <= i < j < |t| ==> Separate(t[i], t[j]))
  }

  /** Sequence number `q` has been received: it is in order, or parked. */
  ghost predicate Held(r: Rcv, q: nat) {
    q < r.nxt || exists c :: c in r.ooo && Holds(c, q)
  }

  ghost predicate RangeHeld(r: Rcv, g: Range) {
    forall q: nat :: g.start <= q < g.end ==> Held(r, q)
  }

  /** As long as the peer `y` is open it holds every range of `t`. */
  ghost predicate SackHeld(t: seq<Range>, y: Pcb) {
    y.state.Closed? || forall g :: g in t ==> RangeHeld(y.rcv, g)
  }

  lemma SwapRemoveContents<T>(s: seq<T>, k: nat)
    requires k < |s|
    ensures |SwapRemove(s, k)| == |s| - 1
    ensures forall x :: x in SwapRemove(s, k) ==> x in s
  {
    var u := SwapRemove(s, k);
    forall x | x in u ensures x in s {
      var i :| 0 <= i < |u| && u[i] == x;
      assert x == s[i] || x == s[|s| - 1];
    }
  }

  lemma SwapRemoveDisjoint(t: seq<Range>, k: nat)
    requires k < |t| && Disjoint(t)
    ensures Disjoint(SwapRemove(t, k))
  {
    var u := SwapRemove(t, k);
    forall i, j | 0 <= i < j < |u| ensures Separate(u[i], u[j]) {
      assert u[i] == t[if i == k then |t| - 1 else i];
      assert u[j] == t[if j == k then |t| - 1 else j];
    }
  }

  lemma FirstTouchMeaning(t: seq<Range>, k: nat, a: nat, e: nat)
    requires k <= |t|
    ensures var m := FirstTouch(t, k, a, e);
            (m < |t| ==> Touches(t[m], a, e)) &&
            forall i :: k <= i < m ==> !Touches(t[i], a, e)
    decreases |t| - k
  {
    if k < |t| && !Touches(t[k], a, e) { FirstTouchMeaning(t, k + 1, a, e); }
  }

  /** Merging keeps the table disjoint, within its size, and within what is held. */
  lemma {:induction false} AbsorbKeeps(t: seq<Range>, a: nat, e: nat, y: Pcb)
    requires Disjoint(t) && a < e && |t| <= MAX_SACK
    requires SackHeld(t, y) && SackHeld([Range(a, e)], y)
    ensures var u := Absorb(t, a, e); Disjoint(u) && |u| <= MAX_SACK && SackHeld(u, y)
    decreases |t|
  {
    var k := FirstTouch(t, 0, a, e);
    FirstTouchMeaning(t, 0, a, e);
    if k < |t| {
      SwapRemoveDisjoint(t, k);
      SwapRemoveContents(t, k);
      var a' := LowStart(t[k], a);
      var e' := HighEnd(t[k], e);
      if !y.state.Closed? {
        assert RangeHeld(y.rcv, t[k]) && Range(a, e) in [Range(a, e)];
        assert RangeHeld(y.rcv, Range(a, e));
        assert RangeHeld(y.rcv, Range(a', e'));
      }
      AbsorbKeeps(SwapRemove(t, k), a', e', y);
    } else if |t| < MAX_SACK {
      assert Range(a, e) in [Range(a, e)];
    }
  }

  /** What is covered after merging: what was, and the new range exactly if the table had room or held a
      range it touches. */
  lemma {:induction false} AbsorbCovers(t: seq<Range>, a: nat, e: nat, q: nat)
    requires a < e && |t| <= MAX_SACK
    ensures InTable(Absorb(t, a, e), q) <==>
              InTable(t, q) || (a <= q < e && (|t| < MAX_SACK || exists g :: g in t && Touches(g, a, e)))
    decreases |t|
  {
    var k := FirstTouch(t, 0, a, e);
    FirstTouchMeaning(t, 0, a, e);
    if k < |t| {
      SwapRemoveContents(t, k);
      WithoutEntry(t, k, q);
      hide InTable, SwapRemove;
      AbsorbCovers(SwapRemove(t, k), LowStart(t[k], a), HighEnd(t[k], e), q);
      assert t[k] in t;
    } else if |t| < MAX_SACK {
      OneMoreEntry(t, Range(a, e), q);
    } else {
      forall g | g in t ensures !Touches(g, a, e) {}
    }
  }

  lemma WithoutEntry(t: seq<Range>, k: nat, q: nat)
    requires k < |t|
    ensures InTable(t, q) <==> InTable(SwapRemove(t, k), q) || t[k].start <= q < t[k].end
  {
    var u := SwapRemove(t, k);
    SwapRemoveContents(t, k);
    forall i | 0 <= i < |t| && i != k ensures t[i] in u {
      assert if i == |t| - 1 then u[k] == t[i] else u[i] == t[i];
    }
    assert t[k] in t;
  }

  lemma OneMoreEntry(t: seq<Range>, g: Range, q: nat)
    ensures InTable(t + [g], q) <==> InTable(t, q) || g.start <= q < g.end
  {
    assert forall x :: x in t + [g] <==> x in t || x == g;
  }

  lemma {:induction false} NoteSackedKeeps(t: seq<Range>, blocks: seq<Range>, una: nat, nxt: nat, y: Pcb)
    requires Disjoint(t) && |t| <= MAX_SACK
    requires SackHeld(t, y) && SackHeld(blocks, y)
    ensures var u := NoteSacked(t, blocks, una, nxt);
            Disjoint(u) && |u| <= MAX_SACK && SackHeld(u, y)
    decreases |blocks|
  {
    if blocks != [] {
      var b := blocks[0];
      assert SackHeld([b], y) by { assert b in blocks; }
      if b.start >= b.end || b.start < una || b.end > nxt {
        NoteSackedKeeps(t, blocks[1..], una, nxt, y);
      } else {
        AbsorbKeeps(t, b.start, b.end, y);
        NoteSackedKeeps(Absorb(t, b.start, b.end), blocks[1..], una, nxt, y);
      }
    }
  }

  lemma TrimEntryKeeps(t: seq<Range>, k: nat, una: nat, y: Pcb)
    requires k < |t| && Disjoint(t) && SackHeld(t, y) && t[k].start < una < t[k].end
    ensures var u := t[k := Range(una, t[k].end)]; Disjoint(u) && SackHeld(u, y)
  {
    var u := t[k := Range(una, t[k].end)];
    if !y.state.Closed? {
      forall g | g in u ensures RangeHeld(y.rcv, g) {
        if g == u[k] { assert RangeHeld(y.rcv, t[k]); } else { assert g in t; }
      }
    }
  }

  lemma {:induction false} TrimSackedKeeps(t: seq<Range>, k: nat, una: nat, y: Pcb)
    requires k <= |t| <= MAX_SACK && Disjoint(t) && SackHeld(t, y)
    requires forall i :: 0 <= i < k ==> una <= t[i].start
    ensures var u := TrimSacked(t, k, una);
            Disjoint(u) && |u| <= MAX_SACK && SackHeld(u, y) &&
            forall i :: 0 <= i < |u| ==> una <= u[i].start
    decreases |t| - k
  {
    if k < |t| {
      if t[k].end <= una {
        SwapRemoveDisjoint(t, k);
        SwapRemoveContents(t, k);
        TrimSackedKeeps(SwapRemove(t, k), k, una, y);
      } else if t[k].start < una {
        TrimEntryKeeps(t, k, una, y);
        TrimSackedKeeps(t[k := Range(una, t[k].end)], k + 1, una, y);
      } else {
        TrimSackedKeeps(t, k + 1, una, y);
      }
    }
  }

  /** Where the sender jumps over sacked data, an entry of the table covers the jump. */
  lemma {:induction false} SackedThroughCovers(t: seq<Range>, q: nat)
    requires SackedThrough(t, q) != 0
    ensures exists g :: g in t && g.start <= q && g.end == SackedThrough(t, q)
  {
    if t[0].start <= q < t[0].end {
      assert t[0] in t;
    } else {
      SackedThroughCovers(t[1..], q);
      var g :| g in t[1..] && g.start <= q && g.end == SackedThrough(t[1..], q);
      assert g in t;
    }
  }

  // ---- the invariant of the sending half ------------------------------------------------

  /** The stream bytes of the sequence numbers [from, from + n) when the first is `base`. */
  function Slice(stream: seq<Byte>, base: nat, from: nat, n: nat): seq<Byte>
    requires base <= from && from + n <= base + |stream|
  {
    stream[from - base..][..n]
  }

  predicate SliceAt(data: seq<Byte>, stream: seq<Byte>, base: nat, from: nat) {
    base <= from && from + |data| <= base + |stream| && data == Slice(stream, base, from, |data|)
  }

  /** `stream` is everything written so far, its first byte numbered `base`. */
  predicate SndOk(s: Snd, base: nat, stream: seq<Byte>) {
    var fin := base + |stream|;
    && 1 <= base <= s.una <= s.nxt
    && s.mss >= 1 && |s.buf| <= BUF_SIZE && |s.sacked| <= MAX_SACK
    && (if s.una <= fin then s.buf == stream[s.una - base..]
        else s.una == fin + 1 && s.buf == [] && s.finSent)
    && (if s.finSent then s.finQueued && s.nxt == fin + 1 else s.nxt <= fin)
    && Disjoint(s.sacked)
  }

  /** What a segment from `p` may say: only stream bytes, the FIN only at the stream's end,
      only what has really been received. */
  ghost predicate SegOk(g: Segment, p: Pcb, base: nat, stream: seq<Byte>) {
    g.rst ||
    (&& (g.data != [] ==> SliceAt(g.data, stream, base, g.sq))
     && (g.fin ==> p.snd.finQueued && g.sq + |g.data| == base + |stream|)
     && (g.isAck ==> g.ack <= p.rcv.nxt)
     && SackHeld(g.sacks, p))
  }

  lemma MoveOk(p: Pcb, wnd: nat, room: nat, base: nat, stream: seq<Byte>)
    requires SndOk(p.snd, base, stream)
    ensures var m := NextMove(p, wnd, room);
            SndOk(m.p.snd, base, stream) &&
            (m.Sent? ==> SegOk(m.seg, p, base, stream) && !m.seg.fin && !m.seg.rst)
  {
    NextMoveAdvances(p, wnd, room);
    var m := NextMove(p, wnd, room);
    var s := p.snd;
    if m.Sent? {
      assert s.buf[s.nxt - s.una..][..|m.seg.data|] == stream[s.nxt - base..][..|m.seg.data|];
    }
  }

  lemma {:induction false} OutputLoopOk(p: Pcb, wnd: nat, room: nat, base: nat, stream: seq<Byte>)
    requires SndOk(p.snd, base, stream)
    ensures var s := OutputLoop(p, wnd, room);
            SndOk(s.p.snd, base, stream) &&
            forall g :: g in s.out ==> SegOk(g, p, base, stream) && !g.fin && !g.rst
    decreases p.snd.una + |p.snd.buf| - p.snd.nxt
  {
    NextMoveAdvances(p, wnd, room);
    MoveOk(p, wnd, room, base, stream);
    var m := NextMove(p, wnd, room);
    if !m.Stop? {
      OutputLoopOk(m.p, wnd, if m.Sent? then room - 1 else room, base, stream);
      forall g | SegOk(g, m.p, base, stream) ensures SegOk(g, p, base, stream) {
        if !g.rst { SameHoldings(g.sacks, m.p, p); }
      }
    }
  }

  lemma SameHoldings(t: seq<Range>, p: Pcb, q: Pcb)
    requires p.state == q.state && p.rcv.nxt == q.rcv.nxt && p.rcv.ooo == q.rcv.ooo
    requires SackHeld(t, p)
    ensures SackHeld(t, q)
  {
    assert forall n: nat :: Held(p.rcv, n) ==> Held(q.rcv, n);
    if !q.state.Closed? {
      forall g | g in t ensures RangeHeld(q.rcv, g) { assert RangeHeld(p.rcv, g); }
    }
  }

  /** Output keeps the sender's invariant and emits only truthful segments. */
  lemma OutputOk(p: Pcb, room: nat, base: nat, stream: seq<Byte>)
    requires SndOk(p.snd, base, stream)
    ensures var s := Output(p, room);
            SndOk(s.p.snd, base, stream) && (FinAcked(s.p.snd) ==> FinAcked(p.snd)) &&
            forall g :: g in s.out ==> SegOk(g, p, base, stream)
  {
    if MaySend(p.state) {
      OutputLoopOk(p, SendWindow(p.snd), room, base, stream);
      OutputLoopShape(p, SendWindow(p.snd), room);
    }
  }

  ghost predicate InSegment(out: seq<Segment>, q: nat) {
    exists g :: g in out && g.sq <= q < g.sq + |g.data|
  }

  ghost predicate InTable(t: seq<Range>, q: nat) {
    exists g :: g in t && g.start <= q < g.end
  }

  /** Output leaves nothing out: every byte `nxt` moves past is in an emitted segment or in
      the scoreboard. */
  lemma {:induction false} OutputLoopCovers(p: Pcb, wnd: nat, room: nat, q: nat)
    requires p.snd.mss >= 1 && p.snd.una <= p.snd.nxt
    requires p.snd.nxt <= q < OutputLoop(p, wnd, room).p.snd.nxt
    ensures InSegment(OutputLoop(p, wnd, room).out, q) || InTable(p.snd.sacked, q)
    decreases p.snd.una + |p.snd.buf| - p.snd.nxt
  {
    NextMoveAdvances(p, wnd, room);
    match NextMove(p, wnd, room)
    case Stop(_) =>
    case Jump(p1) =>
      if q < p1.snd.nxt {
        SackedThroughCovers(p.snd.sacked, p.snd.nxt);
      } else {
        OutputLoopCovers(p1, wnd, room, q);
      }
    case Sent(p1, seg) =>
      var out := OutputLoop(p, wnd, room).out;
      if q < p1.snd.nxt {
        assert out[0] == seg;
      } else {
        OutputLoopCovers(p1, wnd, room - 1, q);
        if !InTable(p.snd.sacked, q) {
          var g :| g in OutputLoop(p1, wnd, room - 1).out && g.sq <= q < g.sq + |g.data|;
          assert g in out;
        }
      }
  }

  lemma OutputCovers(p: Pcb, room: nat, q: nat)
    requires p.snd.mss >= 1 && p.snd.una <= p.snd.nxt
    requires p.snd.nxt <= q < Output(p, room).p.snd.nxt && q < p.snd.una + |p.snd.buf|
    ensures InSegment(Output(p, room).out, q) || InTable(p.snd.sacked, q)
  {
    var wnd := SendWindow(p.snd);
    OutputLoopShape(p, wnd, room);
    OutputLoopCovers(p, wnd, room, q);
    if !InTable(p.snd.sacked, q) {
      var g :| g in OutputLoop(p, wnd, room).out && g.sq <= q < g.sq + |g.data|;
      assert g in Output(p, room).out;
    }
  }

  // ---- the invariant of the receiving half ---------------------------------------------

  predicate ChunkOk(c: Chunk, base: nat, stream: seq<Byte>) { SliceAt(c.data, stream, base, c.at) }

  /** `got` is what the reader was given; `stream` is what the peer wrote, from `base` on, and
      `fin` whether the peer has closed it. */
  predicate RcvOk(r: Rcv, got: seq<Byte>, base: nat, stream: seq<Byte>, fin: bool) {
    && base <= r.nxt && |r.buf| <= BUF_SIZE
    && (if r.finRcvd then fin && r.nxt == base + |stream| + 1 && got + r.buf == stream
        else r.nxt <= base + |stream| && got + r.buf == stream[..r.nxt - base])
    && (r.hasFin ==> fin && r.finSeq == base + |stream|)
    && Sorted(r.ooo, r.nxt)
    && forall c :: c in r.ooo ==> ChunkOk(c, base, stream)
  }

  lemma SliceSub(data: seq<Byte>, stream: seq<Byte>, base: nat, from: nat, i: nat, j: nat)
    requires SliceAt(data, stream, base, from) && i <= j <= |data|
    ensures SliceAt(data[i..j], stream, base, from + i)
  {
    assert data[i..j] == stream[from + i - base..][..j - i];
  }

  /** Cutting a sorted queue at `i`: the rest is sorted from any bound below its first chunk. */
  lemma {:induction false} SortedSplit(ooo: seq<Chunk>, lo: nat, i: nat, lo': nat)
    requires Sorted(ooo, lo) && i <= |ooo|
    requires i == 0 ==> lo' <= lo
    requires i > 0 ==> lo' <= ooo[i - 1].End()
    ensures Sorted(ooo[i..], lo')
  {
    if i == 0 {
      assert ooo[0..] == ooo;
      SortedWeaken(ooo, lo, lo');
    } else if i == 1 {
      SortedWeaken(ooo[1..], ooo[0].End(), lo');
    } else {
      SortedSplit(ooo[1..], ooo[0].End(), i - 1, lo');
      assert ooo[1..][i - 1..] == ooo[i..];
    }
  }

  /** Replacing the part of a sorted queue after index `i`. */
  lemma {:induction false} SortedJoin(ooo: seq<Chunk>, lo: nat, i: nat, rest: seq<Chunk>)
    requires Sorted(ooo, lo) && i <= |ooo|
    requires Sorted(rest, if i == 0 then lo else ooo[i - 1].End())
    ensures Sorted(ooo[..i] + rest, lo)
  {
    if i == 0 {
      assert ooo[..0] + rest == rest;
    } else {
      SortedJoin(ooo[1..], ooo[0].End(), i - 1, rest);
      assert (ooo[..i] + rest)[1..] == ooo[1..][..i - 1] + rest;
    }
  }

  /** Parking keeps the queue sorted and truthful and forgets nothing. */
  lemma OooInsertOk(ooo: seq<Chunk>, at: nat, data: seq<Byte>, held: nat, mem: bool,
                    lo: nat, base: nat, stream: seq<Byte>)
    requires Sorted(ooo, 0) && Sorted(ooo, lo) && lo <= at
    requires SliceAt(data, stream, base, at)
    requires forall c :: c in ooo ==> ChunkOk(c, base, stream)
    ensures var u := OooInsert(ooo, at, data, held, mem);
            Sorted(u, lo) && (forall c :: c in ooo ==> c in u) &&
            (forall c :: c in u ==> ChunkOk(c, base, stream))
  {
    hide SliceAt, PlaceAt, Sorted;
    var i := FirstAfter(ooo, at);
    if i < |ooo| && ooo[i].at <= at {
      var covered := ooo[i].End() - at;
      if covered < |data| {
        SliceSub(data, stream, base, at, covered, |data|);
        assert data[covered..] == data[covered..|data|];
        if i + 1 < |ooo| { SortedPair(ooo, 0, i); }
        SortedSplit(ooo, lo, i + 1, ooo[i].End());
        PlaceAtOk(ooo, i + 1, at + covered, data[covered..], held, mem, lo, base, stream);
      }
    } else {
      var lo' := if i == 0 then lo else ooo[i - 1].End();
      SortedSplit(ooo, lo, i, lo');
      PlaceAtOk(ooo, i, at, data, held, mem, lo, base, stream);
    }
  }

  lemma PlaceAtOk(ooo: seq<Chunk>, i: nat, at: nat, data: seq<Byte>, held: nat, mem: bool,
                  lo: nat, base: nat, stream: seq<Byte>)
    requires i <= |ooo| && (i < |ooo| ==> at <= ooo[i].at)
    requires Sorted(ooo, lo) && SliceAt(data, stream, base, at)
    requires var lo' := if i == 0 then lo else ooo[i - 1].End(); lo' <= at && Sorted(ooo[i..], lo')
    requires forall c :: c in ooo ==> ChunkOk(c, base, stream)
    ensures var u := PlaceAt(ooo, i, at, data, held, mem);
            Sorted(u, lo) && (forall c :: c in ooo ==> c in u) &&
            (forall c :: c in u ==> ChunkOk(c, base, stream))
  {
    var lo' := if i == 0 then lo else ooo[i - 1].End();
    OooPlaceOk(ooo[i..], at, data, held, mem, lo', base, stream);
    SortedJoin(ooo, lo, i, OooPlace(ooo[i..], at, data, held, mem));
    assert ooo == ooo[..i] + ooo[i..];
  }

  lemma OooPlaceOk(rest: seq<Chunk>, at: nat, data: seq<Byte>, held: nat, mem: bool,
                   lo: nat, base: nat, stream: seq<Byte>)
    requires rest != [] ==> at <= rest[0].at
    requires Sorted(rest, lo) && lo <= at && SliceAt(data, stream, base, at)
    requires forall c :: c in rest ==> ChunkOk(c, base, stream)
    ensures var u := OooPlace(rest, at, data, held, mem);
            Sorted(u, lo) && (forall c :: c in rest ==> c in u) &&
            (forall c :: c in u ==> ChunkOk(c, base, stream))
  {
    if rest != [] && rest[0].at < at + |data| {
      SliceSub(data, stream, base, at, 0, rest[0].at - at);
      assert data[0..rest[0].at - at] == data[..rest[0].at - at];
    }
  }

  /** The in-order part of `RcvOk`, without the ordering of the parked chunks. */
  predicate PrefixOk(r: Rcv, got: seq<Byte>, base: nat, stream: seq<Byte>) {
    && base <= r.nxt <= base + |stream| && |r.buf| <= BUF_SIZE
    && got + r.buf == stream[..r.nxt - base]
  }

  lemma RcvAppendOk(r: Rcv, data: seq<Byte>, got: seq<Byte>, base: nat, stream: seq<Byte>)
    requires PrefixOk(r, got, base, stream) && SliceAt(data, stream, base, r.nxt)
    ensures PrefixOk(RcvAppend(r, data), got, base, stream)
  {
    var n := Min(|data|, RcvSpace(r));
    var k := r.nxt - base;
    assert data[..n] == stream[k..][..n];
    assert stream[..k] + stream[k..][..n] == stream[..k + n];
    assert got + (r.buf + data[..n]) == (got + r.buf) + data[..n];
  }

  ghost predicate Kept(r: Rcv, r': Rcv) { r.nxt <= r'.nxt && forall q: nat :: Held(r, q) ==> Held(r', q) }

  lemma SortedHead(ooo: seq<Chunk>, lo: nat)
    requires Sorted(ooo, lo)
    ensures forall c :: c in ooo ==> lo <= c.at && c.data != []
  {
    if ooo != [] { SortedHead(ooo[1..], ooo[0].End()); }
  }

  /** What draining must leave behind. */
  ghost predicate Drained(r: Rcv, d: Rcv, got: seq<Byte>, base: nat, stream: seq<Byte>) {
    && PrefixOk(d, got, base, stream) && Sorted(d.ooo, d.nxt)
    && (forall c :: c in d.ooo ==> ChunkOk(c, base, stream))
    && Kept(r, d) && d.hasFin == r.hasFin && d.finSeq == r.finSeq && d.finRcvd == r.finRcvd
  }

  lemma HeadTakenOk(r: Rcv, got: seq<Byte>, base: nat, stream: seq<Byte>)
    requires DrainReady(r) && PrefixOk(r, got, base, stream) && ChunkOk(r.ooo[0], base, stream)
    ensures var r1 := HeadTaken(r);
            PrefixOk(r1, got, base, stream) && r1 == r.(nxt := r1.nxt, buf := r1.buf) && r.nxt <= r1.nxt
  {
    var o := r.ooo[0];
    if r.nxt < o.End() {
      var k := r.nxt - o.at;
      SliceSub(o.data, stream, base, o.at, k, |o.data|);
      assert o.data[k..] == o.data[k..|o.data|];
      RcvAppendOk(r, o.data[k..], got, base, stream);
    }
  }

  lemma DrainStepOk(r: Rcv, got: seq<Byte>, base: nat, stream: seq<Byte>)
    requires DrainReady(r) && PrefixOk(r, got, base, stream) && Sorted(r.ooo, 0)
    requires forall c :: c in r.ooo ==> ChunkOk(c, base, stream)
    ensures var d := DrainStep(r);
            if |d.ooo| == |r.ooo| then Drained(r, d, got, base, stream)
            else PrefixOk(d, got, base, stream) && Sorted(d.ooo, 0) && Kept(r, d) && d.ooo == r.ooo[1..] &&
                 d.hasFin == r.hasFin && d.finSeq == r.finSeq && d.finRcvd == r.finRcvd
  {
    hide SliceAt, HeadTaken;
    var o := r.ooo[0];
    assert o in r.ooo;
    HeadTakenOk(r, got, base, stream);
    var r1 := HeadTaken(r);
    if r1.nxt < o.End() {
      DrainPartial(r, r1, o, got, base, stream);
    } else {
      SortedWeaken(r.ooo[1..], o.End(), 0);
      DropHead(r, r1.(ooo := r.ooo[1..]), o);
    }
  }

  /** Draining moves parked bytes into the in-order prefix and drops none. */
  lemma {:induction false} DrainOk(r: Rcv, got: seq<Byte>, base: nat, stream: seq<Byte>)
    requires PrefixOk(r, got, base, stream) && Sorted(r.ooo, 0)
    requires forall c :: c in r.ooo ==> ChunkOk(c, base, stream)
    ensures Drained(r, Drain(r), got, base, stream)
    decreases |r.ooo|
  {
    if DrainReady(r) {
      DrainStepOk(r, got, base, stream);
      var d := DrainStep(r);
      if |d.ooo| < |r.ooo| {
        DrainOk(d, got, base, stream);
        KeptTrans(r, d, Drain(d));
      }
    }
  }

  lemma KeptTrans(r: Rcv, s: Rcv, t: Rcv)
    requires Kept(r, s) && Kept(s, t)
    ensures Kept(r, t)
  {
  }

  lemma DrainPartial(r: Rcv, r1: Rcv, o: Chunk, got: seq<Byte>, base: nat, stream: seq<Byte>)
    requires r.ooo != [] && o == r.ooo[0] && Sorted(r.ooo, 0)
    requires forall c :: c in r.ooo ==> ChunkOk(c, base, stream)
    requires o.at <= r.nxt <= r1.nxt < o.End() && PrefixOk(r1, got, base, stream)
    requires r1.hasFin == r.hasFin && r1.finSeq == r.finSeq && r1.finRcvd == r.finRcvd
    ensures Drained(r, r1.(ooo := [Chunk(r1.nxt, o.data[r1.nxt - o.at..])] + r.ooo[1..]), got, base, stream)
  {
    var k := r1.nxt - o.at;
    var d := r1.(ooo := [Chunk(r1.nxt, o.data[k..])] + r.ooo[1..]);
    assert o in r.ooo;
    SliceSub(o.data, stream, base, o.at, k, |o.data|);
    assert o.data[k..] == o.data[k..|o.data|];
    assert d.ooo[1..] == r.ooo[1..];
    forall q: nat | Held(r, q) ensures Held(d, q) {
      if q >= d.nxt {
        var c :| c in r.ooo && Holds(c, q);
        if c == o { assert Holds(d.ooo[0], q) && d.ooo[0] in d.ooo; } else { assert c in d.ooo; }
      }
    }
  }

  lemma DropHead(r: Rcv, r2: Rcv, o: Chunk)
    requires r.ooo == [o] + r2.ooo && r.nxt <= r2.nxt && o.End() <= r2.nxt
    ensures Kept(r, r2)
  {
    forall q: nat | Held(r, q) ensures Held(r2, q) {
      if q >= r2.nxt {
        var c :| c in r.ooo && Holds(c, q);
        assert c in r2.ooo;
      }
    }
  }
}
